/** server/server.go as a specification: what one request leads to, and what follows from it. */
module Requests {
  import opened GoStrings
  import opened Options
  import opened Seals
  import opened Dns
  import opened CacheState
  import opened CacheKey
  import opened Fitting
  import opened Resolution
  import opened ForwardPlan
  import CacheIdentity
  import CacheRuns
  import Hosts

  datatype Edns = Edns(udpSize: uint16, dnssecOk: bool)

  /** The settings of a server and what the model takes as given: the packed length of a message, the
      family of an address, the PTR records of the hosts file, and the EDNS0 option of a request. */
  datatype Site = Site(
    rStaleTtl: int, roundRobin: bool, version: string, len: Length, hosts: seq<Hosts.Hostname>, hostsTtl: uint32,
    isV4: string -> bool, ptrRecords: Question -> seq<RR>, edns0: Msg -> Option<Edns>)

  /** The readings of the clock during one request. */
  datatype ServeClock = ServeClock(first: HitClock, second: HitClock, insert: InsertClock)

  function FitSize(site: Site, req: Msg, tcp: bool): int {
    if tcp then MAX_MSG_SIZE
    else
      var edns := site.edns0(req);
      if edns.Some? && edns.value.udpSize >= 512 then edns.value.udpSize else 512
  }

  function Blank(req: Msg): Msg {
    var m := SetReply(EMPTY_MSG, req);
    m.(hdr := m.hdr.(authoritative := false, recursionAvailable := true), compress := true)
  }

  function Failure(req: Msg): Msg {
    SetRcode(EMPTY_MSG, req, RCODE_SERVER_FAILURE)
  }

  predicate IsReverse(qtype: uint16, name: string) {
    (qtype == TYPE_PTR && HasSuffix(name, ".in-addr.arpa.")) || HasSuffix(name, ".ip6.arpa.")
  }

  predicate IsAddressQuery(qtype: uint16) {
    qtype == TYPE_A || qtype == TYPE_AAAA || qtype == TYPE_ANY
  }

  /** What the cache tells questions apart by. */
  function SubjectOf(site: Site, req: Msg, tcp: bool): Subject
    requires req.question != []
  {
    var edns := site.edns0(req);
    Subject(req.question[0].name, req.question[0].qtype, edns.Some? && edns.value.dnssecOk, tcp)
  }

  /** A request, the server that it meets, and the state it finds there: the stored entries and the
      messages sent upstream so far. */
  datatype Request = Request(
    site: Site, env: Env, cache: CacheState.Config, msg: Msg, tcp: bool, clock: ServeClock, view: View, log: seq<Sent>)
  {
    predicate Ready() {
      msg.question != []
    }

    function ToForward(): (j: Job)
      requires Ready()
      ensures j.Ready()
    {
      Job(env, msg, tcp)
    }

    function About(): Subject
      requires Ready()
    {
      SubjectOf(site, msg, tcp)
    }

    function Key(): string
      requires Ready()
    {
      KeyOf(About())
    }

    /** The look that serves no stale entry. */
    function FirstLook(): (e: Event)
      requires Ready()
      ensures e.Lookup?
    {
      Lookup(Key(), msg.hdr.id, site.rStaleTtl > 0, false, clock.first)
    }

    /** The look for a stale entry. */
    function SecondLook(): (e: Event)
      requires Ready()
      ensures e.Lookup?
    {
      Lookup(Key(), msg.hdr.id, site.rStaleTtl > 0, true, clock.second)
    }

    function Hit(): Option<Msg>
      requires Ready()
    {
      Result(cache, view, FirstLook())
    }

    /** The request, as it goes on after the first look. */
    function Missed(): (q: Request)
      requires Ready()
      ensures q.Ready() && q.site == site && q.msg == msg && q.env == env && q.clock == clock
      ensures q.Key() == Key() && q.SecondLook() == SecondLook()
    {
      this.(view := Next(cache, view, FirstLook()))
    }

    /** What the second look supplies. */
    function Stale(): Option<Msg>
      requires Ready()
    {
      Result(cache, view, SecondLook())
    }
  }

  /** What a request does: the reply, if one is written, the calls on the cache, and the messages sent
      upstream by then; `victim` is the first key an eviction meets. */
  datatype Effect = Effect(reply: Option<Msg>, calls: seq<Event>, log: seq<Sent>, victim: string)

  // ---------- Local answers ----------

  /** The record type under which an address answers a query, if it does. */
  function TypeFor(site: Site, qtype: uint16, ip: string): Option<uint16> {
    if site.isV4(ip) && (qtype == TYPE_A || qtype == TYPE_ANY) then Some(TYPE_A)
    else if !site.isV4(ip) && (qtype == TYPE_AAAA || qtype == TYPE_ANY) then Some(TYPE_AAAA)
    else None
  }

  function RecordsFor(site: Site, q: Question, ips: seq<string>): seq<RR> {
    if ips == [] then []
    else
      var before, ip := RecordsFor(site, q, ips[..|ips| - 1]), ips[|ips| - 1];
      var rrtype := TypeFor(site, q.qtype, ip);
      if rrtype.Some? then before + [RR(q.name, rrtype.value, CLASS_INET, site.hostsTtl, ip)] else before
  }

  /** The records of the hosts file for a query of the name. */
  function HostRecords(site: Site, q: Question, name: string): seq<RR> {
    RecordsFor(site, q, Hosts.Found(site.hosts, Hosts.TrimDot(name)))
  }

  /** Where the answer comes from when the cache has none; a local answer is given before it is cut. */
  datatype Route = Local(m: Msg) | Reverse | Upstream

  function Txt(q: Question, text: string): RR {
    RR(q.name, TYPE_TXT, CLASS_CHAOS, 0, text)
  }

  /** The reply to a query of the CHAOS class. */
  function ChaosReply(site: Site, req: Msg, q: Question, name: string): Msg {
    var m := Blank(req).(hdr := Blank(req).hdr.(authoritative := true));
    if q.qtype == TYPE_TXT && (name == "version.bind." || name == "version.server.") then
      m.(answer := [Txt(q, site.version)])
    else if q.qtype == TYPE_TXT && (name == "hostname.bind." || name == "id.server.") then
      m.(answer := [Txt(q, "localhost")])
    else SetRcode(m, req, RCODE_SERVER_FAILURE)
  }

  function RouteOf(site: Site, req: Msg): Route
    requires req.question != []
  {
    var q := req.question[0];
    var name := ToLower(q.name);
    var records := if IsAddressQuery(q.qtype) then HostRecords(site, q, name) else [];
    if records != [] then Local(Blank(req).(answer := records))
    else if IsReverse(q.qtype, name) then Reverse
    else if q.qclass == CLASS_CHAOS then Local(ChaosReply(site, req, q, name))
    else Upstream
  }

  predicate HasRecord(records: seq<RR>, r: RR) {
    r in records
  }

  /** The record holds an address that answers a query of the type, under the type of its family. */
  predicate RightFamily(site: Site, qtype: uint16, r: RR) {
    || (r.rrtype == 1 && site.isV4(r.data) && (qtype == 1 || qtype == 255))
    || (r.rrtype == 28 && !site.isV4(r.data) && (qtype == 28 || qtype == 255))
  }

  /** The rest of an address record. */
  predicate IsHostRecord(site: Site, q: Question, r: RR) {
    RightFamily(site, q.qtype, r) && r.name == q.name && r.rrclass == 1 && r.ttl == site.hostsTtl
  }

  lemma {:induction false} RecordsMembers(site: Site, q: Question, ips: seq<string>)
    ensures forall r :: HasRecord(RecordsFor(site, q, ips), r) <==> r.data in ips && IsHostRecord(site, q, r)
  {
    if ips != [] {
      var before, ip := ips[..|ips| - 1], ips[|ips| - 1];
      RecordsMembers(site, q, before);
      assert forall x :: x in ips <==> x in before || x == ip;
      assert forall r :: HasRecord(RecordsFor(site, q, before), r) <==> r in RecordsFor(site, q, before);
    }
  }

  /** `trimmed` is the name without its final dot. */
  predicate IsTrimmed(trimmed: string, name: string) {
    if name != [] && name[|name| - 1] == '.' then trimmed + "." == name else trimmed == name
  }

  /** The local answers to an address query are the addresses of the right family that the hosts file
      gives the name. */
  lemma HostRecordsExactly(site: Site, q: Question, name: string, trimmed: string)
    requires IsTrimmed(trimmed, name)
    ensures forall r :: HasRecord(HostRecords(site, q, name), r)
              <==> IsHostRecord(site, q, r) && exists h :: Hosts.AnswersFor(site.hosts, h, trimmed) && h.ip == r.data
  {
    assert Hosts.TrimDot(name) == trimmed;
    RecordsMembers(site, q, Hosts.Found(site.hosts, trimmed));
    Hosts.FoundExactly(site.hosts, trimmed);
  }

  /** A name with exact entries, none of them of the right family, has no local answer, whatever the
      wildcards say. */
  lemma ExactHidesWildcards(site: Site, q: Question, name: string, trimmed: string)
    requires IsTrimmed(trimmed, name)
    requires exists k :: k in site.hosts && !k.wildcard && k.domain == trimmed
    requires forall k | k in site.hosts && !k.wildcard && k.domain == trimmed ::
               if site.isV4(k.ip) then q.qtype == 28 else q.qtype == 1
    ensures HostRecords(site, q, name) == []
  {
    HostRecordsExactly(site, q, name, trimmed);
    var records := HostRecords(site, q, name);
    assert forall r :: !HasRecord(records, r);
    SomeRecord(records);
  }

  lemma SomeRecord(records: seq<RR>)
    ensures records != [] ==> exists r :: HasRecord(records, r)
  {
    if records != [] {
      assert HasRecord(records, records[0]);
    }
  }

  /** The header and question of a reply that the server makes itself. */
  predicate IsOwnReply(m: Msg, req: Msg, authoritative: bool, rcode: int) {
    && m.hdr.id == req.hdr.id && m.hdr.response && m.hdr.recursionAvailable && !m.hdr.truncated && m.compress
    && m.hdr.authoritative == authoritative && m.hdr.rcode == rcode && m.hdr.opcode == req.hdr.opcode
    && (req.hdr.opcode == 0 ==> m.hdr.recursionDesired == req.hdr.recursionDesired)
    && m.question == req.question[..if req.question == [] then 0 else 1] && m.ns == [] && m.extra == []
  }

  /** The text record that answers a CHAOS query, if there is one. */
  predicate ChaosAnswer(site: Site, q: Question, answer: seq<RR>) {
    var name := ToLower(q.name);
    if q.qtype == 16 && name in {"version.bind.", "version.server."} then answer == [RR(q.name, 16, 3, 0, site.version)]
    else if q.qtype == 16 && name in {"hostname.bind.", "id.server."} then answer == [RR(q.name, 16, 3, 0, "localhost")]
    else answer == []
  }

  lemma ChaosExactly(site: Site, req: Msg, q: Question)
    ensures var m := ChaosReply(site, req, q, ToLower(q.name));
            ChaosAnswer(site, q, m.answer) && IsOwnReply(m, req, true, if m.answer == [] then 2 else 0)
  {
  }

  /** Address records of the hosts file come first, then the reverse zones, then the CHAOS class, and
      everything else goes upstream. */
  lemma RouteExactly(site: Site, req: Msg)
    requires req.question != []
    ensures var route, q := RouteOf(site, req), req.question[0];
            var name := ToLower(q.name);
            var records := HostRecords(site, q, name);
            if q.qtype in {1, 28, 255} && records != [] then
              route.Local? && IsOwnReply(route.m, req, false, 0) && route.m.answer == records
            else if (q.qtype == 12 && HasSuffix(name, ".in-addr.arpa.")) || HasSuffix(name, ".ip6.arpa.") then
              route.Reverse?
            else if q.qclass == 3 then
              route.Local? && ChaosAnswer(site, q, route.m.answer)
              && IsOwnReply(route.m, req, true, if route.m.answer == [] then 2 else 0)
            else route.Upstream?
  {
    ChaosExactly(site, req, req.question[0]);
  }

  // ---------- What a request does ----------

  datatype Written = Written(reply: Msg, store: bool)

  function LocalReply(site: Site, req: Msg, m: Msg, tcp: bool): Written {
    if m.hdr.rcode == RCODE_SERVER_FAILURE then Written(m, false)
    else
      var f := FitOf(site.len, m, FitSize(site, req, tcp), tcp);
      if tcp && f.overflow then Written(Failure(req), false) else Written(f.msg, true)
  }

  datatype Replied = Replied(reply: Option<Msg>, log: seq<Sent>)

  function ReverseReply(q: Request): Replied
    requires q.Ready()
  {
    var records := q.site.ptrRecords(q.msg.question[0]);
    if records != [] then Replied(Some(Blank(q.msg).(answer := records)), q.log)
    else
      var f := Forward(q.ToForward(), q.log, None);
      Replied(ReplyOf(f), f.log)
  }

  /** A cached message is cut to size and its answers are possibly shuffled. */
  ghost predicate HitReply(q: Request, cached: Msg, reply: Msg)
    requires q.Ready()
  {
    var f := FitOf(q.site.len, cached, FitSize(q.site, q.msg, q.tcp), q.tcp);
    var qtype := q.msg.question[0].qtype;
    if q.tcp && f.overflow then reply == Failure(q.msg)
    else
      && reply == f.msg.(answer := reply.answer)
      && multiset(reply.answer) == multiset(f.msg.answer)
      && (!q.site.roundRobin || !(qtype == TYPE_A || qtype == TYPE_AAAA) ==> reply == f.msg)
  }

  /** The insertion of a message worth keeping. */
  function Storing(kept: Option<Msg>, key: string, at: InsertClock, victim: string): seq<Event> {
    if kept.Some? then [Insert(key, kept.value, at, victim)] else []
  }

  /** What of the forwarder's reply is kept: no stale entry and, if so configured, nothing but NOERROR. */
  function ToKeep(env: Env, f: Forwarded): Option<Msg> {
    if f.Forwarded? && !f.stale && (env.cfg.rcacheNonNegative ==> f.reply.hdr.rcode == RCODE_SUCCESS) then Some(f.reply)
    else None
  }

  /** What a request does that the first look into the cache did not answer. */
  ghost predicate MissEffects(q: Request, e: Effect)
    requires q.Ready()
  {
    match RouteOf(q.site, q.msg)
    case Local(m) =>
      var l := LocalReply(q.site, q.msg, m, q.tcp);
      && e.reply == Some(l.reply) && e.log == q.log
      && e.calls == Storing(if l.store then e.reply else None, q.Key(), q.clock.insert, e.victim)
    case Reverse =>
      var r := ReverseReply(q);
      && e.reply == r.reply && e.log == r.log
      && e.calls == Storing(e.reply, q.Key(), q.clock.insert, e.victim)
    case Upstream =>
      var f := Forward(q.ToForward(), q.log, q.Stale());
      && e.reply == ReplyOf(f) && e.log == f.log
      && e.calls == [q.SecondLook()] + Storing(ToKeep(q.env, f), q.Key(), q.clock.insert, e.victim)
  }

  /** The same (sealed). */
  ghost predicate ConformsMiss(q: Request, e: Effect)
    requires q.Ready()
  {
    forall b: bool :: Unseal(b) ==> MissEffects(q, e)
  }

  /** What is left of the effects after the first look. */
  function AfterLook(e: Effect): Effect
    requires e.calls != []
  {
    e.(calls := e.calls[1..])
  }

  ghost predicate Effects(q: Request, e: Effect)
    requires q.Ready()
  {
    && e.calls != [] && e.calls[0] == q.FirstLook()
    && if q.Hit().Some? then
         e.calls == [q.FirstLook()] && e.log == q.log && e.reply.Some? && HitReply(q, q.Hit().value, e.reply.value)
       else ConformsMiss(q.Missed(), AfterLook(e))
  }

  /** Everything one request does: the reply, the calls on the cache and the messages sent upstream (sealed). */
  ghost predicate Conforms(q: Request, e: Effect)
    requires q.Ready()
  {
    forall b: bool :: Unseal(b) ==> Effects(q, e)
  }

  /** The first look found `hit`, and `after` is how the request goes on (sealed). */
  ghost predicate Looked(q: Request, after: Request, hit: Option<Msg>)
    requires q.Ready()
  {
    forall b: bool :: Unseal(b) ==> after == q.Missed() && hit == q.Hit()
  }

  lemma HitConforms(q: Request, after: Request, hit: Msg, reply: Msg)
    requires q.Ready() && Looked(q, after, Some(hit)) && HitReply(q, hit, reply)
    ensures Conforms(q, Effect(Some(reply), [q.FirstLook()], q.log, ""))
  {
    assert Unseal(true);
  }

  lemma MissConforms(q: Request, after: Request, e: Effect)
    requires q.Ready() && Looked(q, after, None) && after.Ready() && ConformsMiss(after, e)
    ensures Conforms(q, e.(calls := [q.FirstLook()] + e.calls))
  {
    assert Unseal(true);
    assert ([q.FirstLook()] + e.calls)[1..] == e.calls;
  }

  lemma LocalMiss(q: Request, victim: string)
    requires q.Ready() && RouteOf(q.site, q.msg).Local?
    ensures var l := LocalReply(q.site, q.msg, RouteOf(q.site, q.msg).m, q.tcp);
            var kept := if l.store then Some(l.reply) else None;
            ConformsMiss(q, Effect(Some(l.reply), Storing(kept, q.Key(), q.clock.insert, victim), q.log, victim))
  {
  }

  /** `r` is the reply for the reverse zones (sealed). */
  ghost predicate Reverses(q: Request, r: Replied)
    requires q.Ready()
  {
    forall b: bool :: Unseal(b) ==> r == ReverseReply(q)
  }

  lemma ReverseForwards(q: Request, f: Forwarded)
    requires q.Ready() && q.site.ptrRecords(q.msg.question[0]) == [] && Forwards(q.ToForward(), q.log, None, f)
    ensures Reverses(q, Replied(ReplyOf(f), f.log))
  {
    assert Unseal(true);
  }

  lemma ReverseMiss(q: Request, r: Replied, victim: string)
    requires q.Ready() && RouteOf(q.site, q.msg).Reverse? && Reverses(q, r)
    ensures ConformsMiss(q, Effect(r.reply, Storing(r.reply, q.Key(), q.clock.insert, victim), r.log, victim))
  {
    assert Unseal(true);
  }

  /** `stale` is what the second look supplies (sealed). */
  ghost predicate Offered(q: Request, stale: Option<Msg>)
    requires q.Ready()
  {
    forall b: bool :: Unseal(b) ==> stale == q.Stale()
  }

  lemma UpstreamMiss(q: Request, stale: Option<Msg>, f: Forwarded, victim: string)
    requires q.Ready() && RouteOf(q.site, q.msg).Upstream?
    requires Offered(q, stale) && Forwards(q.ToForward(), q.log, stale, f)
    ensures var stored := Storing(ToKeep(q.env, f), q.Key(), q.clock.insert, victim);
            ConformsMiss(q, Effect(ReplyOf(f), [q.SecondLook()] + stored, f.log, victim))
  {
    assert Unseal(true);
  }

  // ---------- One reply, and what is kept of it ----------

  /** The reply that a message comes to, cut to the size the client takes: in full while it is under that
      size without, if need be, its additional section; else SERVFAIL on TCP, and on UDP its first answers
      with the TC bit set.  The answers of a cached reply to an address query may come in another order. */
  ghost predicate CutFor(q: Request, m: Msg, r: Msg, cached: bool)
    requires q.Ready()
  {
    var edns, len := q.site.edns0(q.msg), q.site.len;
    var size := if q.tcp then 65535
                else if edns.Some? && edns.value.udpSize >= 512 then edns.value.udpSize else 512;
    var whole := if len(m) > size then m.(extra := []) else m;
    var shuffled := cached && q.site.roundRobin && q.msg.question[0].qtype in {1, 28};
    if len(whole) < size then r == whole.(answer := r.answer) && Arranged(r.answer, m.answer, shuffled)
    else if q.tcp then ErrorReply(r, q.msg, 2)
    else
      && r == whole.(answer := r.answer, hdr := m.hdr.(truncated := true))
      && (exists n :: 0 <= n <= |m.answer| && Arranged(r.answer, m.answer[..n], shuffled))
      && (GrowsWithAnswers(len) ==>
            exists p :: LeastOver(len, whole, size, p)
                        && Arranged(r.answer, m.answer[..if p >= 2 then p - 1 else p], shuffled))
  }

  predicate Arranged(a: seq<RR>, b: seq<RR>, shuffled: bool) {
    if shuffled then multiset(a) == multiset(b) else a == b
  }

  lemma FitIsCut(q: Request, m: Msg, r: Msg, cached: bool)
    requires q.Ready()
    requires var f := FitOf(q.site.len, m, FitSize(q.site, q.msg, q.tcp), q.tcp);
             var shuffled := cached && q.site.roundRobin && q.msg.question[0].qtype in {1, 28};
             if q.tcp && f.overflow then r == Failure(q.msg)
             else r == f.msg.(answer := r.answer) && Arranged(r.answer, f.msg.answer, shuffled)
    ensures CutFor(q, m, r, cached)
  {
    var len, size := q.site.len, FitSize(q.site, q.msg, q.tcp);
    var f := FitOf(len, m, size, q.tcp);
    FitKeepsTheRest(len, m, size, q.tcp);
    if f.overflow && !q.tcp {
      assert f.msg.answer == m.answer[..|f.msg.answer|];
      if GrowsWithAnswers(len) {
        var p := FitKeepsLongestPrefix(len, m, size, q.tcp);
      }
    }
  }

  /** A hit is answered with the cached message, cut for the client, and touches nothing else. */
  lemma HitExactly(q: Request, e: Effect)
    requires q.Ready() && Conforms(q, e) && q.Hit().Some?
    ensures e.reply.Some? && CutFor(q, q.Hit().value, e.reply.value, true)
    ensures e.calls == [q.FirstLook()] && e.log == q.log
  {
    assert Unseal(true);
    FitIsCut(q, q.Hit().value, e.reply.value, true);
  }

  /** A local answer is cut for the client and sends nothing upstream; it is stored unless the reply
      is SERVFAIL. */
  lemma LocalExactly(q: Request, e: Effect)
    requires q.Ready() && Conforms(q, e) && q.Hit() == None && RouteOf(q.site, q.msg).Local?
    ensures var m := RouteOf(q.site, q.msg).m;
            && e.reply.Some? && e.log == q.log
            && (if m.hdr.rcode == 2 then e.reply == Some(m) else CutFor(q, m, e.reply.value, false))
            && e.calls == [q.FirstLook()] + if e.reply.value.hdr.rcode == 2 then []
                                            else [Insert(q.Key(), e.reply.value, q.clock.insert, e.victim)]
  {
    FirstLookOf(q, e);
    assert Unseal(true);
    var m := RouteOf(q.site, q.msg).m;
    assert e.calls == [e.calls[0]] + e.calls[1..];
    LocalHeader(q.site, q.msg);
    CutHeader(q.site, q.msg, m, q.tcp);
    if m.hdr.rcode != 2 {
      FitIsCut(q, m, e.reply.value, false);
    }
  }

  /** A query for the reverse zones with PTR records is answered with them, and the reply is stored. */
  lemma ReverseExactly(q: Request, e: Effect)
    requires q.Ready() && Conforms(q, e) && q.Hit() == None && RouteOf(q.site, q.msg).Reverse?
    requires q.site.ptrRecords(q.msg.question[0]) != []
    ensures e.reply.Some? && IsOwnReply(e.reply.value, q.msg, false, 0) && e.log == q.log
    ensures e.reply.value.answer == q.site.ptrRecords(q.msg.question[0])
    ensures e.calls == [q.FirstLook(), Insert(q.Key(), e.reply.value, q.clock.insert, e.victim)]
  {
    FirstLookOf(q, e);
    assert Unseal(true);
    assert e.calls == [e.calls[0]] + e.calls[1..];
  }

  lemma LocalHeader(site: Site, req: Msg)
    requires req.question != [] && RouteOf(site, req).Local?
    ensures var m := RouteOf(site, req).m;
            m.hdr.id == req.hdr.id && m.hdr.rcode in {RCODE_SUCCESS, RCODE_SERVER_FAILURE}
  {
  }

  lemma CutHeader(site: Site, req: Msg, m: Msg, tcp: bool)
    requires m.hdr.id == req.hdr.id
    ensures var l := LocalReply(site, req, m, tcp);
            l.reply.hdr.id == req.hdr.id && (l.store ==> l.reply.hdr.rcode == m.hdr.rcode != RCODE_SERVER_FAILURE)
  {
    FitKeepsTheRest(site.len, m, FitSize(site, req, tcp), tcp);
  }

  /** After a miss the cache is asked again only on the way upstream, and then `kept` is stored: all
      of the reply or nothing, and nothing negative outside the reverse zones if so configured. */
  lemma MissShape(q: Request, e: Effect) returns (kept: Option<Msg>)
    requires q.Ready() && ConformsMiss(q, e)
    ensures var route := RouteOf(q.site, q.msg);
            && e.calls == (if route.Upstream? then [q.SecondLook()] else [])
                        + Storing(kept, q.Key(), q.clock.insert, e.victim)
            && (kept.Some? ==> kept == e.reply)
            && (route.Reverse? ==> kept == e.reply)
            && (q.env.cfg.rcacheNonNegative && !route.Reverse? && kept.Some? ==> kept.value.hdr.rcode == RCODE_SUCCESS)
  {
    assert Unseal(true);
    match RouteOf(q.site, q.msg)
    case Local(m) =>
      LocalHeader(q.site, q.msg);
      CutHeader(q.site, q.msg, m, q.tcp);
      kept := if LocalReply(q.site, q.msg, m, q.tcp).store then e.reply else None;
    case Reverse => kept := e.reply;
    case Upstream => kept := ToKeep(q.env, Forward(q.ToForward(), q.log, q.Stale()));
  }

  /** The first look, and what follows it. */
  lemma FirstLookOf(q: Request, e: Effect)
    requires q.Ready() && Conforms(q, e)
    ensures e.calls != [] && e.calls[0] == q.FirstLook()
    ensures q.Hit().Some? ==> e.calls == [q.FirstLook()] && e.reply.Some? && HitReply(q, q.Hit().value, e.reply.value)
    ensures q.Hit() == None ==> ConformsMiss(q.Missed(), AfterLook(e))
  {
    assert Unseal(true);
  }

  /** The calls of a request are its looks and, if something is kept, one insertion. */
  lemma CallsShape(q: Request, e: Effect) returns (looks: seq<Event>, kept: Option<Msg>)
    requires q.Ready() && Conforms(q, e)
    ensures e.calls == looks + Storing(kept, q.Key(), q.clock.insert, e.victim)
    ensures 1 <= |looks| <= 2 && forall c | c in looks :: c.Lookup?
    ensures kept.Some? ==> kept == e.reply
    ensures var route := RouteOf(q.site, q.msg);
            && (q.Hit().Some? ==> kept == None)
            && (q.Hit() == None && route.Reverse? ==> kept == e.reply)
            && (q.env.cfg.rcacheNonNegative && !route.Reverse? && kept.Some? ==> kept.value.hdr.rcode == RCODE_SUCCESS)
  {
    FirstLookOf(q, e);
    looks, kept := [q.FirstLook()], None;
    if q.Hit() == None {
      kept := MissShape(q.Missed(), AfterLook(e));
      var second := if RouteOf(q.site, q.msg).Upstream? then [q.SecondLook()] else [];
      looks := looks + second;
      LooksJoin(q.FirstLook(), second, Storing(kept, q.Key(), q.clock.insert, e.victim), e.calls);
    }
  }

  lemma LooksJoin(first: Event, second: seq<Event>, more: seq<Event>, calls: seq<Event>)
    requires calls != [] && calls[0] == first && calls[1..] == second + more
    ensures calls == [first] + second + more
  {
    assert calls == [calls[0]] + calls[1..];
  }

  /** Of the calls a request makes on the cache at most one is an insertion; it is the last one, and
      it stores exactly the message that was written to the client under the key of the question. */
  lemma StoredIsWritten(q: Request, e: Effect)
    requires q.Ready() && Conforms(q, e)
    ensures 1 <= |e.calls| <= 3
    ensures forall i | 0 <= i < |e.calls| && e.calls[i].Insert? ::
              && i == |e.calls| - 1
              && e.reply == Some(e.calls[i].msg) && e.calls[i].key == q.Key() && e.calls[i].at == q.clock.insert
  {
    var looks, kept := CallsShape(q, e);
    assert forall i | 0 <= i < |looks| :: e.calls[i] in looks;
  }

  /** Every reply carries the id of the request. */
  lemma ReplyEchoesId(q: Request, e: Effect)
    requires q.Ready() && Conforms(q, e)
    ensures e.reply.Some? ==> e.reply.value.hdr.id == q.msg.hdr.id
  {
    FirstLookOf(q, e);
    if q.Hit().Some? {
      FitKeepsTheRest(q.site.len, q.Hit().value, FitSize(q.site, q.msg, q.tcp), q.tcp);
    } else {
      MissEchoesId(q.Missed(), AfterLook(e));
    }
  }

  lemma MissEchoesId(q: Request, e: Effect)
    requires q.Ready() && ConformsMiss(q, e)
    ensures e.reply.Some? ==> e.reply.value.hdr.id == q.msg.hdr.id
  {
    assert Unseal(true);
    match RouteOf(q.site, q.msg)
    case Local(m) =>
      LocalHeader(q.site, q.msg);
      CutHeader(q.site, q.msg, m, q.tcp);
    case Reverse => ForwardEchoesId(q.ToForward(), q.log, None);
    case Upstream => ForwardEchoesId(q.ToForward(), q.log, q.Stale());
  }

  /** The request is handed to the forwarder. */
  predicate IsForwarded(q: Request)
    requires q.Ready()
  {
    && q.Hit() == None
    && match RouteOf(q.site, q.msg)
       case Local(_) => false
       case Reverse => q.site.ptrRecords(q.msg.question[0]) == []
       case Upstream => true
  }

  /** What the forwarder is given besides the request: the stale entry, except for the reverse zones. */
  function StaleFor(q: Request): Option<Msg>
    requires q.Ready()
  {
    if RouteOf(q.site, q.msg).Upstream? then q.Missed().Stale() else None
  }

  lemma ForwardedIs(q: Request, e: Effect)
    requires q.Ready() && Conforms(q, e) && IsForwarded(q)
    ensures var f := Forward(Job(q.env, q.msg, q.tcp), q.log, StaleFor(q));
            e.reply == ReplyOf(f) && e.log == f.log
  {
    FirstLookOf(q, e);
    assert Unseal(true);
  }

  /** The reply to a request that is forwarded: REFUSED, or the NOERROR message of a lookup, or the stale
      message, or what is made of the negative results; nothing if a lookup fails at run time. */
  lemma ForwardedExactly(q: Request, e: Effect)
    requires q.Ready() && Conforms(q, e) && IsForwarded(q)
    ensures var done := LookUpsOf(Job(q.env, q.msg, q.tcp), q.log).done;
            if MustRefuse(q.env, q.msg.question[0].name) then
              e.reply.Some? && ErrorReply(e.reply.value, q.msg, 5) && e.log == q.log
            else
              && e.log == LookUpsOf(Job(q.env, q.msg, q.tcp), q.log).log
              && (e.reply == None <==> exists d :: d in done && d.outcome == OutOfRange)
              && (forall d | d in done && Positive(d.outcome) ::
                    e.reply.Some? && HandedOn(e.reply.value, d.outcome.msg, q.msg))
              && ((forall d | d in done :: !Positive(d.outcome) && d.outcome != OutOfRange) ==>
                    && e.reply.Some?
                    && if StaleFor(q).Some? then e.reply == StaleFor(q) else FallsBack(e.reply.value, q.msg, done))
  {
    ForwardedIs(q, e);
    ForwardExactly(Job(q.env, q.msg, q.tcp), q.log, StaleFor(q));
  }

  /** A NOERROR reply with answers that was forwarded and is not the stale entry answers with what the last
      server asked replied. */
  lemma RepliesComeFromUpstream(q: Request, e: Effect)
    requires q.Ready() && Conforms(q, e) && IsForwarded(q) && Answerable(Job(q.env, q.msg, q.tcp))
    requires e.reply.Some? && e.reply.value.hdr.rcode == 0 && e.reply.value.answer != []
    requires !ServedStale(Forward(Job(q.env, q.msg, q.tcp), q.log, StaleFor(q)))
    ensures AnswersFrom(q.env, e.log, q.msg, e.reply.value)
  {
    ForwardedIs(q, e);
    AnswersComeFromUpstream(Job(q.env, q.msg, q.tcp), q.log, StaleFor(q));
  }

  /** Something is stored exactly when: the cache had no answer, there is a reply, and that is no SERVFAIL
      where it is the server's own, and not stale and so configured NOERROR where it is the forwarder's. */
  lemma StoredExactly(q: Request, e: Effect)
    requires q.Ready() && Conforms(q, e)
    ensures (exists c :: c in e.calls && c.Insert?) <==>
              && q.Hit() == None && e.reply.Some?
              && match RouteOf(q.site, q.msg)
                 case Local(_) => e.reply.value.hdr.rcode != 2
                 case Reverse => true
                 case Upstream =>
                   && !ServedStale(Forward(Job(q.env, q.msg, q.tcp), q.log, StaleFor(q)))
                   && (q.env.cfg.rcacheNonNegative ==> e.reply.value.hdr.rcode == 0)
  {
    if q.Hit().Some? {
      HitExactly(q, e);
    } else {
      match RouteOf(q.site, q.msg)
      case Local(_) =>
        LocalExactly(q, e);
        assert e.reply.value.hdr.rcode != 2 ==> e.calls[1] in e.calls;
      case Reverse =>
        ReverseCalls(q, e);
        assert e.reply.Some? ==> e.calls[1] in e.calls;
      case Upstream =>
        UpstreamEffects(q, e);
        var kept := ToKeep(q.env, Forward(q.ToForward(), q.log, q.Missed().Stale()));
        assert kept.Some? ==> e.calls[2] in e.calls;
    }
  }

  lemma ReverseCalls(q: Request, e: Effect)
    requires q.Ready() && Conforms(q, e) && q.Hit() == None && RouteOf(q.site, q.msg).Reverse?
    ensures e.calls == [q.FirstLook()] + Storing(e.reply, q.Key(), q.clock.insert, e.victim)
  {
    FirstLookOf(q, e);
    assert Unseal(true);
    assert e.calls == [e.calls[0]] + e.calls[1..];
  }

  /** A request goes without a reply exactly when it is forwarded and the forwarder's search breaks
      on a message without a question section; then nothing is stored either. */
  lemma NoReplyExactly(q: Request, e: Effect)
    requires q.Ready() && ValidEnv(q.env) && Conforms(q, e)
    ensures e.reply == None <==> IsForwarded(q) && SearchBreaks(q.ToForward(), q.log)
    ensures e.reply == None ==> forall c | c in e.calls :: c.Lookup?
  {
    assert Unseal(true);
    ForwardFailsExactly(q.ToForward(), q.log, None);
    ForwardFailsExactly(q.ToForward(), q.log, q.Missed().Stale());
  }

  /** A request reaches the upstream only when it is forwarded and not refused; a request answered from
      the cache stores nothing. */
  lemma UpstreamIsTheLastResort(q: Request, e: Effect)
    requires q.Ready() && Conforms(q, e)
    ensures e.log != q.log ==> IsForwarded(q) && !MustRefuse(q.env, q.msg.question[0].name)
    ensures q.Hit().Some? ==> forall c | c in e.calls :: !c.Insert?
  {
    assert Unseal(true);
  }

  // ---------- Only positive replies are kept ----------

  /** The key belongs to a query for the reverse zones. */
  ghost predicate ReverseKey(key: string) {
    exists s: Subject :: key == KeyOf(s) && IsReverse(s.qtype, ToLower(s.name))
  }

  ghost predicate OnlyPositive(events: seq<Event>) {
    forall e | e in events && e.Insert? :: e.msg.hdr.rcode == RCODE_SUCCESS || ReverseKey(e.key)
  }

  predicate StoresNegative(calls: seq<Event>) {
    exists c :: c in calls && c.Insert? && c.msg.hdr.rcode != RCODE_SUCCESS
  }

  lemma ReverseIsReverse(q: Request)
    requires q.Ready() && RouteOf(q.site, q.msg).Reverse?
    ensures ReverseKey(q.Key())
  {
    assert IsReverse(q.About().qtype, ToLower(q.About().name));
  }

  /** With rcache-non-negative a request stores NOERROR replies only, except for the reverse zones. */
  lemma RequestStoresPositive(q: Request, e: Effect)
    requires q.Ready() && Conforms(q, e) && q.env.cfg.rcacheNonNegative
    ensures OnlyPositive(e.calls)
  {
    var looks, kept := CallsShape(q, e);
    if RouteOf(q.site, q.msg).Reverse? {
      ReverseIsReverse(q);
    }
  }

  lemma ReverseReplyIs(q: Request, e: Effect)
    requires q.Ready() && Conforms(q, e) && q.Hit() == None && RouteOf(q.site, q.msg).Reverse?
    ensures var f := Forward(q.ToForward(), q.log, None);
            if IsForwarded(q) then e.reply == ReplyOf(f)
            else e.reply.Some? && e.reply.value.hdr.rcode == RCODE_SUCCESS
  {
    assert Unseal(true);
  }

  /** There it stores a negative reply exactly when the forwarder is asked and gives one. */
  lemma NegativeStoredExactly(q: Request, e: Effect)
    requires q.Ready() && Conforms(q, e) && q.env.cfg.rcacheNonNegative
    ensures var f := Forward(q.ToForward(), q.log, None);
            StoresNegative(e.calls)
            <==> IsForwarded(q) && RouteOf(q.site, q.msg).Reverse? && f.Forwarded? && f.reply.hdr.rcode != RCODE_SUCCESS
  {
    var looks, kept := CallsShape(q, e);
    NegativeKept(looks, kept, q.Key(), q.clock.insert, e.victim);
    if q.Hit() == None && RouteOf(q.site, q.msg).Reverse? {
      ReverseReplyIs(q, e);
    }
  }

  lemma NegativeKept(looks: seq<Event>, kept: Option<Msg>, key: string, at: InsertClock, victim: string)
    requires forall c | c in looks :: c.Lookup?
    ensures StoresNegative(looks + Storing(kept, key, at, victim))
       <==> kept.Some? && kept.value.hdr.rcode != RCODE_SUCCESS
  {
    var calls := looks + Storing(kept, key, at, victim);
    assert kept.Some? ==> calls[|looks|] in calls;
  }

  /** With recursion off every forwarded query for the reverse zones has its refusal stored. */
  lemma RefusalIsStored(q: Request, e: Effect)
    requires q.Ready() && Conforms(q, e) && q.env.cfg.rcacheNonNegative && q.env.cfg.noRec
    requires IsForwarded(q) && RouteOf(q.site, q.msg).Reverse?
    ensures StoresNegative(e.calls) && e.reply.Some? && e.reply.value.hdr.rcode == RCODE_REFUSED
  {
    NegativeStoredExactly(q, e);
    assert Unseal(true);
  }

  lemma ReverseRoute(site: Site, req: Msg)
    requires req.question != [] && req.question[0].qtype == TYPE_PTR
    requires HasSuffix(req.question[0].name, ".in-addr.arpa.")
    ensures RouteOf(site, req) == Reverse
  {
    var zone := ".in-addr.arpa.";
    assert ToLower(zone) == zone;
    LowerKeeps(req.question[0].name, "", zone);
  }

  /** A PTR query to a new server that keeps recursion off, for a name with no PTR record. */
  lemma NegativeStoredExample(q: Request, e: Effect)
    requires q.msg.question == [Question("1" + ".in-addr.arpa.", TYPE_PTR, CLASS_INET)] && q.view == map[]
    requires q.site.ptrRecords(q.msg.question[0]) == []
    requires q.env.cfg.rcacheNonNegative && q.env.cfg.noRec && Conforms(q, e)
    ensures StoresNegative(e.calls) && e.reply.Some? && e.reply.value.hdr.rcode == RCODE_REFUSED
  {
    ReverseRoute(q.site, q.msg);
    RefusalIsStored(q, e);
  }

  /** Then everything in the cache, in any state it can reach, is NOERROR or from the reverse zones. */
  lemma {:induction false} KeptEntriesPositive(c: CacheState.Config, es: seq<Event>)
    requires OnlyPositive(es)
    ensures var m := Run(c, map[], es);
            forall k | k in m :: m[k].msg.hdr.rcode == RCODE_SUCCESS || ReverseKey(k)
  {
    var m := Run(c, map[], es);
    forall k | k in m ensures m[k].msg.hdr.rcode == RCODE_SUCCESS || ReverseKey(k) {
      CacheRuns.EntryComesFromOrigin(c, es, k);
      assert es[CacheRuns.Origin(c, es, k)] in es;
    }
  }

  // ---------- Stale entries ----------

  /** The request finds an expired entry at its first look and no local answer. */
  predicate FindsExpired(q: Request)
    requires q.Ready()
  {
    && q.cache.capacity > 0 && q.Key() in q.view && q.view[q.Key()].expiration <= q.clock.first.valid
    && RouteOf(q.site, q.msg).Upstream?
  }

  /** A request that goes upstream. */
  lemma UpstreamEffects(q: Request, e: Effect)
    requires q.Ready() && Conforms(q, e) && q.Hit() == None && RouteOf(q.site, q.msg).Upstream?
    ensures var f := Forward(q.ToForward(), q.log, q.Missed().Stale());
            && e.reply == ReplyOf(f)
            && e.calls == [q.FirstLook(), q.SecondLook()] + Storing(ToKeep(q.env, f), q.Key(), q.clock.insert, e.victim)
  {
    FirstLookOf(q, e);
    assert Unseal(true);
    assert e.calls == [e.calls[0]] + e.calls[1..];
  }

  /** The expired entry, however old, is the reply exactly when stale retention is on, the query is not
      refused and no lookup brings NOERROR or fails at run time.  It is not stored again. */
  lemma StaleServedExactly(q: Request, e: Effect)
    requires q.Ready() && Conforms(q, e) && FindsExpired(q)
    ensures var f := Forward(q.ToForward(), q.log, q.Missed().Stale());
            && (ServedStale(f) <==>
                  && q.site.rStaleTtl > 0 && !MustRefuse(q.env, q.msg.question[0].name)
                  && forall d | d in LookUpsOf(Job(q.env, q.msg, q.tcp), q.log).done ::
                       !Positive(d.outcome) && d.outcome != OutOfRange)
            && (ServedStale(f) ==>
                  && e.reply.Some? && IsCopyFor(e.reply.value, q.view[q.Key()].msg, q.msg.hdr.id)
                  && e.calls == [q.FirstLook(), q.SecondLook()])
  {
    UpstreamEffects(q, e);
    CacheRuns.StaleOfferedExactly(q.cache, q.view, q.Key(), q.msg.hdr.id, q.site.rStaleTtl > 0,
                                  q.clock.first, q.clock.second);
    ForwardExactly(q.ToForward(), q.log, q.Missed().Stale());
  }

  lemma TwoCalls(c: CacheState.Config, m: View, first: Event, second: Event)
    ensures Run(c, m, [first, second]) == Next(c, Next(c, m, first), second)
  {
    assert [first, second][..1] == [first] && [first][..0] == [];
    assert Run(c, m, [first]) == Next(c, m, first);
  }

  /** A reply served from a stale entry moves no deadline and adds no entry. */
  lemma StaleReplyKeepsDeadlines(q: Request, e: Effect)
    requires q.Ready() && Conforms(q, e) && RouteOf(q.site, q.msg).Upstream? && q.Hit() == None
    requires ServedStale(Forward(q.ToForward(), q.log, q.Missed().Stale()))
    ensures var after := Run(q.cache, q.view, e.calls);
            forall k | k in after :: k in q.view && CacheRuns.SameEntry(q.view[k], after[k])
  {
    UpstreamEffects(q, e);
    assert e.calls == [q.FirstLook(), q.SecondLook()];
    TwoCalls(q.cache, q.view, q.FirstLook(), q.SecondLook());
    LooksKeepEntries(q.cache, q.view, q.FirstLook(), q.SecondLook());
  }

  lemma LooksKeepEntries(c: CacheState.Config, m: View, first: Event, second: Event)
    requires first.Lookup? && second.Lookup?
    ensures var after := Next(c, Next(c, m, first), second);
            forall k | k in after :: k in m && CacheRuns.SameEntry(m[k], after[k])
  {
  }

  /** A request that finds its entry expired in both looks and stores the upstream's answer renews the
      entry unless stale retention is on and the entry was within its stale deadline at the second look
      but not strictly within it, or not yet strictly expired, at the insertion. */
  lemma RequestRenewsExactly(q: Request, e: Effect)
    requires q.Ready() && Conforms(q, e) && FindsExpired(q)
    requires q.view[q.Key()].expiration <= q.clock.second.valid
    requires |e.calls| == 3
    ensures var entry, at := q.view[q.Key()], q.clock.insert;
            Accepts(q.cache, Run(q.cache, q.view, e.calls[..2]), q.Key(), at) <==>
              || q.site.rStaleTtl <= 0
              || q.clock.second.gone > entry.staleExpiration
              || (at.renewExp > entry.expiration && at.renewStale < entry.staleExpiration)
  {
    UpstreamEffects(q, e);
    CacheRuns.RefreshExactly(q.cache, q.view, q.Key(), q.msg.hdr.id, q.site.rStaleTtl > 0,
                             q.clock.first, q.clock.second, q.clock.insert);
    TwoCalls(q.cache, q.view, q.FirstLook(), q.SecondLook());
    assert e.calls[..2] == [q.FirstLook(), q.SecondLook()];
  }

  // ---------- Cached replies and the requests they were written to ----------

  /** What a call on the cache was made for: the request, its transport, and the reply written to it. */
  datatype Record = Record(msg: Msg, tcp: bool, reply: Option<Msg>)

  /** Every insertion was made for the request recorded beside it and stored the reply written to it. */
  predicate Linked(site: Site, es: seq<Event>, rs: seq<Record>) {
    && |rs| == |es|
    && forall i | 0 <= i < |es| && es[i].Insert? ::
         && rs[i].msg.question != [] && es[i].key == KeyOf(SubjectOf(site, rs[i].msg, rs[i].tcp))
         && rs[i].reply == Some(es[i].msg)
  }

  /** A question whose key no other well-formed question shares. */
  predicate ProperQuestion(m: Msg) {
    m.question != [] && WellFormedName(m.question[0].name) && m.question[0].qtype != 0xFFFE
  }

  predicate AllProper(rs: seq<Record>) {
    forall r | r in rs :: ProperQuestion(r.msg)
  }

  function RecordsOf(q: Request, e: Effect): seq<Record> {
    seq(|e.calls|, i => Record(q.msg, q.tcp, e.reply))
  }

  lemma LinkedOn(q: Request, e: Effect, es: seq<Event>, rs: seq<Record>)
    requires q.Ready() && Conforms(q, e) && Linked(q.site, es, rs)
    ensures Linked(q.site, es + e.calls, rs + RecordsOf(q, e))
  {
    StoredIsWritten(q, e);
  }

  /** The client wants DNSSEC records: the DO bit of section 3 of RFC 3225. */
  predicate WantsDnssec(site: Site, m: Msg) {
    site.edns0(m).Some? && site.edns0(m).value.dnssecOk
  }

  /** The two messages ask for the same name and type, both with or both without DNSSEC records. */
  predicate SameQuestion(site: Site, a: Msg, b: Msg) {
    && a.question != [] && b.question != []
    && a.question[0].name == b.question[0].name && a.question[0].qtype == b.question[0].qtype
    && WantsDnssec(site, a) == WantsDnssec(site, b)
  }

  /** Two requests with proper questions look under one key exactly when they ask the same over the same
      transport. */
  lemma LooksMeetExactly(a: Request, b: Request)
    requires ProperQuestion(a.msg) && ProperQuestion(b.msg) && a.site == b.site
    ensures a.FirstLook().key == b.FirstLook().key <==> SameQuestion(a.site, a.msg, b.msg) && a.tcp == b.tcp
    ensures a.SecondLook().key == a.FirstLook().key
  {
    KeysMeetExactly(a.About(), b.About());
  }

  /** Requests for the same name and type that differ in the DO bit alone never look under one key. */
  lemma DnssecSeparates(a: Request, b: Request)
    requires a.Ready() && b.Ready() && a.site == b.site && a.tcp == b.tcp
    requires a.msg.question == b.msg.question && WantsDnssec(a.site, a.msg) != WantsDnssec(b.site, b.msg)
    ensures a.FirstLook().key != b.FirstLook().key && a.SecondLook().key != b.SecondLook().key
    ensures a.FirstLook().key != b.SecondLook().key
  {
    assert |a.Key()| != |b.Key()|;
  }

  /** The request of the record asked the same over the same transport, and its reply, under the id of
      this request, is the reply: cut for the client or, if served stale, whole. */
  ghost predicate Repeats(q: Request, e: Effect, r: Record)
    requires q.Ready()
  {
    && SameQuestion(q.site, r.msg, q.msg) && r.tcp == q.tcp
    && r.reply.Some? && e.reply.Some?
    && exists m :: IsCopyFor(m, r.reply.value, q.msg.hdr.id)
                   && if q.Hit().Some? then CutFor(q, m, e.reply.value, true) else e.reply.value == m
  }

  /** The reply is taken from the cache. */
  predicate FromCache(q: Request)
    requires q.Ready()
  {
    || q.Hit().Some?
    || (RouteOf(q.site, q.msg).Upstream? && ServedStale(Forward(q.ToForward(), q.log, q.Missed().Stale())))
  }

  /** A look that finds something finds the reply of a record for the same question. */
  lemma {:induction false} Recorded(q: Request, es: seq<Event>, rs: seq<Record>, look: Event) returns (i: nat)
    requires q.Ready() && Linked(q.site, es, rs) && AllProper(rs) && ProperQuestion(q.msg)
    requires look.Lookup? && look.key == q.Key()
    requires Result(q.cache, Run(q.cache, map[], es), look).Some?
    ensures i < |rs| && SameQuestion(q.site, rs[i].msg, q.msg) && rs[i].tcp == q.tcp && rs[i].reply.Some?
    ensures IsCopyFor(Result(q.cache, Run(q.cache, map[], es), look).value, rs[i].reply.value, look.id)
  {
    assert forall n | 0 <= n < |rs| :: rs[n] in rs;
    var subjects := seq(|rs|, n requires 0 <= n < |rs| => SubjectOf(q.site, rs[n].msg, rs[n].tcp));
    forall s | s in subjects ensures CacheIdentity.Proper(s) {
      var n :| 0 <= n < |rs| && subjects[n] == s;
      assert rs[n] in rs;
    }
    CacheIdentity.HitsDoNotCross(q.cache, es, subjects, look, q.About());
    i := CacheRuns.Origin(q.cache, es, q.Key());
    assert SubjectOf(q.site, rs[i].msg, rs[i].tcp) == subjects[i];
  }

  lemma HitIsRepeated(q: Request, e: Effect, es: seq<Event>, rs: seq<Record>) returns (i: nat)
    requires q.Ready() && Conforms(q, e) && Explains(q.cache, es, q.view) && Linked(q.site, es, rs)
    requires AllProper(rs) && ProperQuestion(q.msg) && q.Hit().Some?
    ensures i < |rs| && Repeats(q, e, rs[i])
  {
    HitExactly(q, e);
    ViewOf(q, es);
    i := Recorded(q, es, rs, q.FirstLook());
  }

  lemma ViewOf(q: Request, es: seq<Event>)
    requires Explains(q.cache, es, q.view)
    ensures Run(q.cache, map[], es) == q.view
  {
    assert Unseal(true);
  }

  lemma StaleReply(q: Request, e: Effect)
    requires q.Ready() && Conforms(q, e) && FromCache(q) && q.Hit() == None
    ensures q.Missed().Stale().Some? && e.reply == q.Missed().Stale()
  {
    UpstreamEffects(q, e);
    ForwardExactly(q.ToForward(), q.log, q.Missed().Stale());
  }

  lemma AfterFirstLook(q: Request, es: seq<Event>)
    requires q.Ready() && Explains(q.cache, es, q.view)
    ensures Result(q.cache, Run(q.cache, map[], es + [q.FirstLook()]), q.SecondLook()) == q.Missed().Stale()
  {
    assert Unseal(true);
    RunAppend(q.cache, map[], es, q.FirstLook());
  }

  lemma OneMore(site: Site, es: seq<Event>, rs: seq<Record>, look: Event, r: Record)
    requires Linked(site, es, rs) && AllProper(rs) && look.Lookup? && ProperQuestion(r.msg)
    ensures Linked(site, es + [look], rs + [r]) && AllProper(rs + [r])
  {
  }

  lemma StaleIsRepeated(q: Request, e: Effect, es: seq<Event>, rs: seq<Record>) returns (i: nat)
    requires q.Ready() && Conforms(q, e) && Explains(q.cache, es, q.view) && Linked(q.site, es, rs)
    requires AllProper(rs) && ProperQuestion(q.msg) && FromCache(q) && q.Hit() == None
    ensures i < |rs| && Repeats(q, e, rs[i])
  {
    StaleReply(q, e);
    AfterFirstLook(q, es);
    var r := Record(q.msg, q.tcp, None);
    OneMore(q.site, es, rs, q.FirstLook(), r);
    i := Recorded(q, es + [q.FirstLook()], rs + [r], q.SecondLook());
  }

  /** Over every history whose questions are proper, a reply taken from the cache is the reply that was
      written to an earlier request for the same name, type, DNSSEC flag and transport. */
  lemma CachedReplyIsRepeated(q: Request, e: Effect, es: seq<Event>, rs: seq<Record>) returns (i: nat)
    requires q.Ready() && Conforms(q, e) && Explains(q.cache, es, q.view) && Linked(q.site, es, rs)
    requires AllProper(rs) && ProperQuestion(q.msg) && FromCache(q)
    ensures i < |rs| && Repeats(q, e, rs[i])
  {
    if q.Hit().Some? {
      i := HitIsRepeated(q, e, es, rs);
    } else {
      i := StaleIsRepeated(q, e, es, rs);
    }
  }

  // ---------- What the server keeps from request to request ----------

  /** Every insertion is that of a reply on record and, if so configured, nothing but NOERROR was stored
      outside the reverse zones (sealed). */
  ghost predicate InOrder(site: Site, es: seq<Event>, rs: seq<Record>, nonNegative: bool) {
    forall b: bool :: Unseal(b) ==> Linked(site, es, rs) && (nonNegative ==> OnlyPositive(es))
  }

  /** If all questions are proper and the reply is taken from the cache, it repeats one on record (sealed). */
  ghost predicate Recalls(q: Request, e: Effect, rs: seq<Record>)
    requires q.Ready()
  {
    forall b: bool :: Unseal(b) ==>
      (AllProper(rs) && ProperQuestion(q.msg) && FromCache(q) ==> exists r :: r in rs && Repeats(q, e, r))
  }

  lemma RequestKeepsOrder(q: Request, e: Effect, es: seq<Event>, rs: seq<Record>)
    requires q.Ready() && Conforms(q, e) && InOrder(q.site, es, rs, q.env.cfg.rcacheNonNegative)
    ensures InOrder(q.site, es + e.calls, rs + RecordsOf(q, e), q.env.cfg.rcacheNonNegative)
  {
    assert Unseal(true);
    LinkedOn(q, e, es, rs);
    if q.env.cfg.rcacheNonNegative {
      RequestStoresPositive(q, e);
    }
  }

  lemma RequestRecalls(q: Request, e: Effect, es: seq<Event>, rs: seq<Record>)
    requires q.Ready() && Conforms(q, e) && Explains(q.cache, es, q.view)
    requires InOrder(q.site, es, rs, q.env.cfg.rcacheNonNegative)
    ensures Recalls(q, e, rs)
  {
    assert Unseal(true);
    if AllProper(rs) && ProperQuestion(q.msg) && FromCache(q) {
      var i := CachedReplyIsRepeated(q, e, es, rs);
      assert rs[i] in rs;
    }
  }
}
