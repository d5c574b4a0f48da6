/** server/server.go: answering one request from the cache, the hosts file or the upstream. */
module Serving {
  import opened GoStrings
  import opened Options
  import opened Seals
  import opened Dns
  import opened CacheState
  import opened ResponseCache
  import opened CacheKey
  import opened Fitting
  import opened Resolution
  import opened ForwardPlan
  import opened Forwarding
  import opened Requests
  import Hosts

  // ---------- Round robin ----------

  predicate TwoCnames(rrs: seq<RR>) {
    exists i, k :: 0 <= i < k < |rrs| && rrs[i].rrtype == 5 && rrs[k].rrtype == 5
  }

  function Swapped(rrs: seq<RR>, i: nat, j: nat): seq<RR>
    requires i < |rrs| && j < |rrs|
  {
    rrs[i := rrs[j]][j := rrs[i]]
  }

  method Swap(rrs: array<RR>, i: nat, j: nat)
    requires i < rrs.Length && j < rrs.Length
    modifies rrs
    ensures multiset(rrs[..]) == multiset(old(rrs[..]))
    ensures rrs[..] == Swapped(old(rrs[..]), i, j)
  {
    rrs[i], rrs[j] := rrs[j], rrs[i];
  }

  method ManyCnames(rrs: array<RR>) returns (many: bool)
    ensures many == TwoCnames(rrs[..])
  {
    var cname := 0;
    ghost var first := 0;
    var i := 0;
    while i < rrs.Length
      invariant 0 <= i <= rrs.Length && 0 <= cname <= 1
      invariant cname == 1 ==> 0 <= first < i && rrs[first].rrtype == TYPE_CNAME
      invariant forall k | 0 <= k < i && rrs[k].rrtype == TYPE_CNAME :: cname == 1 && k == first
    {
      if rrs[i].rrtype == TYPE_CNAME {
        cname := cname + 1;
        if cname > 1 {
          assert rrs[..][first].rrtype == rrs[..][i].rrtype == 5;
          return true;
        }
        first := i;
      }
      i := i + 1;
    }
    many := false;
  }

  /** The places that a step of the shuffle swaps, which differ if there are two. */
  function Places(l: nat, rand: nat -> uint16, n: nat): (places: (nat, nat))
    requires l > 0
    ensures places.0 < l && places.1 < l && (l > 1 ==> places.0 != places.1)
  {
    var q, p := rand(n + 1) % l, rand(n + 2) % l;
    if q == p then (q, (p + 1) % l) else (q, p)
  }

  /** The order that the shuffle leaves, from the `n`th value of the stream on and after `swaps` swaps. */
  function Shuffled(rrs: seq<RR>, rand: nat -> uint16, n: nat, swaps: nat): (r: seq<RR>)
    ensures |r| == |rrs|
    decreases 4 * |rrs| - swaps
  {
    SwapBound(|rrs|, rand(n));
    if swaps >= |rrs| * (rand(n) % 4 + 1) then rrs
    else
      var places := Places(|rrs|, rand, n);
      Shuffled(Swapped(rrs, places.0, places.1), rand, n + 3, swaps + 1)
  }

  /** `rand` is the stream of `dns.Id` values.  The bound of the loop is drawn anew before every
      swap, yet at least one and at most four swaps are made per record. */
  method RoundRobin(enabled: bool, rrs: array<RR>, rand: nat -> uint16) returns (swaps: nat)
    modifies rrs
    ensures multiset(rrs[..]) == multiset(old(rrs[..]))
    ensures !enabled || TwoCnames(old(rrs[..])) ==> rrs[..] == old(rrs[..]) && swaps == 0
    ensures enabled && !TwoCnames(old(rrs[..])) ==>
              if rrs.Length == 2
              then rrs[..] == (if rand(0) % 2 == 0 then [old(rrs[1]), old(rrs[0])] else old(rrs[..]))
              else rrs[..] == Shuffled(old(rrs[..]), rand, 0, 0) && rrs.Length <= swaps <= 4 * rrs.Length
  {
    swaps := 0;
    if !enabled {
      return;
    }
    var many := ManyCnames(rrs);
    if many {
      return;
    }
    if rrs.Length == 2 {
      if rand(0) % 2 == 0 {
        Swap(rrs, 0, 1);
        swaps := 1;
      }
      return;
    }
    swaps := Shuffle(rrs, rand);
  }

  lemma ShuffleUnfolds(rrs: seq<RR>, rand: nat -> uint16, n: nat, swaps: nat)
    ensures |rrs| <= |rrs| * (rand(n) % 4 + 1) <= 4 * |rrs|
    ensures Shuffled(rrs, rand, n, swaps) ==
            if swaps >= |rrs| * (rand(n) % 4 + 1) then rrs
            else
              var places := Places(|rrs|, rand, n);
              Shuffled(Swapped(rrs, places.0, places.1), rand, n + 3, swaps + 1)
  {
    SwapBound(|rrs|, rand(n));
  }

  method Draw(l: nat, rand: nat -> uint16, n: nat) returns (q: nat, p: nat)
    requires l > 0
    ensures (q, p) == Places(l, rand, n)
  {
    q := rand(n + 1) % l;
    p := rand(n + 2) % l;
    if q == p {
      p := (p + 1) % l;
    }
  }

  method Shuffle(rrs: array<RR>, rand: nat -> uint16) returns (swaps: nat)
    modifies rrs
    ensures multiset(rrs[..]) == multiset(old(rrs[..]))
    ensures rrs[..] == Shuffled(old(rrs[..]), rand, 0, 0) && rrs.Length <= swaps <= 4 * rrs.Length
  {
    swaps := 0;
    ghost var goal := Shuffled(rrs[..], rand, 0, 0);
    var n := 0;
    while true
      invariant multiset(rrs[..]) == multiset(old(rrs[..]))
      invariant swaps <= 4 * rrs.Length
      invariant goal == Shuffled(rrs[..], rand, n, swaps)
      decreases 4 * rrs.Length - swaps
    {
      ShuffleUnfolds(rrs[..], rand, n, swaps);
      if swaps >= rrs.Length * (rand(n) % 4 + 1) {
        break;
      }
      var q, p := Draw(rrs.Length, rand, n);
      Swap(rrs, q, p);
      n := n + 3;
      swaps := swaps + 1;
    }
  }

  /** A stream that swaps the places `i` and `j` first and then always `a` and `b`. */
  function Stream(i: uint16, j: uint16, a: uint16, b: uint16): nat -> uint16 {
    n => if n % 3 == 0 then 0 else if n == 1 then i else if n == 2 then j else if n % 3 == 1 then a else b
  }

  /** A place that no further step touches keeps its record. */
  lemma {:induction false} PlaceStays(rrs: seq<RR>, rand: nat -> uint16, n: nat, swaps: nat, j: nat)
    requires j < |rrs|
    requires forall k: nat | k >= n && k % 3 == n % 3 ::
               Places(|rrs|, rand, k).0 != j && Places(|rrs|, rand, k).1 != j
    ensures Shuffled(rrs, rand, n, swaps)[j] == rrs[j]
    decreases 4 * |rrs| - swaps
  {
    ShuffleUnfolds(rrs, rand, n, swaps);
    if swaps < |rrs| * (rand(n) % 4 + 1) {
      var places := Places(|rrs|, rand, n);
      PlaceStays(Swapped(rrs, places.0, places.1), rand, n + 3, swaps + 1, j);
    }
  }

  lemma PlacesAre(l: nat, rand: nat -> uint16, n: nat, x: nat, y: nat)
    requires rand(n + 1) == x < l && rand(n + 2) == y < l && x != y
    ensures Places(l, rand, n) == (x, y)
  {
    SmallRemainder(x, l);
    SmallRemainder(y, l);
  }

  lemma SmallRemainder(x: nat, l: nat)
    requires x < l
    ensures x % l == x
  {
  }

  lemma StreamRepeats(i: uint16, j: uint16, a: uint16, b: uint16, k: nat)
    requires k >= 3 && k % 3 == 0
    ensures Stream(i, j, a, b)(k + 1) == a && Stream(i, j, a, b)(k + 2) == b
  {
    assert (k + 1) % 3 == 1 && (k + 2) % 3 == 2;
  }

  lemma StreamStays(l: nat, i: uint16, j: uint16, a: uint16, b: uint16)
    requires a < l && b < l && a != b
    ensures forall k: nat | k >= 3 && k % 3 == 0 :: Places(l, Stream(i, j, a, b), k) == (a, b)
  {
    forall k: nat | k >= 3 && k % 3 == 0 ensures Places(l, Stream(i, j, a, b), k) == (a, b) {
      StreamRepeats(i, j, a, b, k);
      PlacesAre(l, Stream(i, j, a, b), k, a, b);
    }
  }

  lemma StreamStarts(l: nat, i: uint16, j: uint16, a: uint16, b: uint16)
    requires i < l && j < l && i != j
    ensures Places(l, Stream(i, j, a, b), 0) == (i, j)
  {
    PlacesAre(l, Stream(i, j, a, b), 0, i, j);
  }

  /** After one step that no later one undoes. */
  lemma OneStepDecides(rrs: seq<RR>, rand: nat -> uint16, n: nat, swaps: nat, j: nat)
    requires swaps < |rrs| && j < |rrs|
    requires forall k: nat | k >= n + 3 && k % 3 == n % 3 ::
               Places(|rrs|, rand, k).0 != j && Places(|rrs|, rand, k).1 != j
    ensures var places := Places(|rrs|, rand, n);
            Shuffled(rrs, rand, n, swaps)[j] == Swapped(rrs, places.0, places.1)[j]
  {
    ShuffleUnfolds(rrs, rand, n, swaps);
    var places := Places(|rrs|, rand, n);
    PlaceStays(Swapped(rrs, places.0, places.1), rand, n + 3, swaps + 1, j);
  }

  /** The shuffle favours no record: each can come to every place. */
  lemma EveryPlaceCanBeTaken(rrs: seq<RR>, i: nat, j: nat) returns (rand: nat -> uint16)
    requires 3 <= |rrs| <= 0x1_0000 && i < |rrs| && j < |rrs|
    ensures Shuffled(rrs, rand, 0, 0)[j] == rrs[i]
  {
    var a: uint16 := if j == 0 then 1 else 0;
    var b: uint16 := if j <= 1 then 2 else 1;
    var x: uint16, y: uint16 := if i == j then a else i, if i == j then b else j;
    rand := Stream(x, y, a, b);
    StreamStarts(|rrs|, x, y, a, b);
    StreamStays(|rrs|, x, y, a, b);
    OneStepDecides(rrs, rand, 0, 0, j);
  }

  lemma SwapBound(l: nat, r: uint16)
    ensures l <= l * (r % 4 + 1) <= 4 * l
  {
    assert 1 <= r % 4 + 1 <= 4;
  }

  // ---------- The server ----------

  class Server {
    const site: Site
    const rcache: Cache
    const fwd: Forwarder
    ghost var records: seq<Record>  // what each call on the cache was made for

    constructor (site: Site, env: Env, rcache: Cache)
      requires ValidEnv(env) && rcache.Valid() && rcache.events == []
      ensures Valid() && this.site == site && this.rcache == rcache && fresh(fwd) && fwd.env == env && records == []
    {
      this.site, this.rcache, records := site, rcache, [];
      fwd := new Forwarder(env);
    }

    /** The cache and the forwarder are in order, and so are the calls made on the cache. */
    ghost predicate Valid()
      reads this`records, rcache`m, rcache`events, rcache.Messages(), fwd
    {
      rcache.Valid() && fwd.Valid() && InOrder(site, rcache.events, records, fwd.env.cfg.rcacheNonNegative)
    }

    /** A request that comes in now. */
    ghost function Met(req: Msg, tcp: bool, clock: ServeClock): Request
      reads rcache`m, rcache.Messages(), fwd`log
    {
      Request(site, fwd.env, rcache.config, req, tcp, clock, rcache.View(), fwd.log)
    }

    lemma MetNow(req: Msg, tcp: bool, clock: ServeClock)
      requires Valid() && req.question != []
      ensures var q := Met(req, tcp, clock);
              Explains(q.cache, rcache.events, q.view) && Poses(q, req, tcp, clock) && Current(q)
    {
    }

    /** `q` is the request, with the settings of this server. */
    ghost predicate Poses(q: Request, req: Msg, tcp: bool, clock: ServeClock) {
      && q.Ready() && q.site == site && q.env == fwd.env && q.cache == rcache.config
      && q.msg == req && q.tcp == tcp && q.clock == clock
    }

    /** It finds the present state (sealed). */
    ghost predicate Current(q: Request)
      reads rcache`m, rcache.Messages(), fwd`log
    {
      forall b: bool :: Unseal(b) ==> q.view == rcache.View() && q.log == fwd.log
    }

    /** With rcache-non-negative everything in the cache is NOERROR or under a key of the reverse zones. */
    lemma CachePositive()
      requires Valid() && fwd.env.cfg.rcacheNonNegative
      ensures forall k | k in rcache.View() :: rcache.View()[k].msg.hdr.rcode == RCODE_SUCCESS || ReverseKey(k)
    {
      assert Unseal(true);
      KeptEntriesPositive(rcache.config, rcache.events);
    }

    /** Answers from a cached copy, which may be changed freely. */
    method ServeHit(w: ResponseWriter, req: Msg, m1: MsgPtr, rand: nat -> uint16, ghost q: Request)
      returns (ghost reply: Msg)
      requires q.Ready() && q.site == site && q.msg == req && q.tcp == w.tcp
      modifies m1, w
      ensures w.sent == old(w.sent) + [reply]
      ensures HitReply(q, old(m1.msg), reply)
    {
      var tcp := w.tcp;
      var overflow := Fit(site.len, m1, FitSize(site, req, tcp), tcp);
      if tcp && overflow {
        reply := Failure(req);
        w.WriteMsg(Failure(req));
        return;
      }
      var qtype := req.question[0].qtype;
      if qtype == TYPE_A || qtype == TYPE_AAAA {
        var answer := m1.msg.answer;
        var rrs := new RR[|answer|](i requires 0 <= i < |answer| => answer[i]);
        assert rrs[..] == answer;
        var swaps := RoundRobin(site.roundRobin, rrs, rand);
        m1.msg := m1.msg.(answer := rrs[..]);
      }
      reply := m1.msg;
      w.WriteMsg(m1.msg);
    }

    /** The addresses that the hosts file gives a name, as records for the question. */
    method AddressRecords(q: Question, name: string) returns (records: seq<RR>)
      ensures records == HostRecords(site, q, name)
    {
      var results := Hosts.FindQueriedHosts(site.hosts, name);
      records := [];
      var i := 0;
      while i < |results|
        invariant 0 <= i <= |results|
        invariant records == RecordsFor(site, q, results[..i])
      {
        var ip := results[i];
        assert results[..i + 1][..i] == results[..i];
        if site.isV4(ip) && (q.qtype == TYPE_A || q.qtype == TYPE_ANY) {
          records := records + [RR(q.name, TYPE_A, CLASS_INET, site.hostsTtl, ip)];
        } else if !site.isV4(ip) && (q.qtype == TYPE_AAAA || q.qtype == TYPE_ANY) {
          records := records + [RR(q.name, TYPE_AAAA, CLASS_INET, site.hostsTtl, ip)];
        }
        i := i + 1;
      }
      assert results[..i] == results;
    }

    /** Fills in a local answer, if the request has one. */
    method AnswerLocally(req: Msg, m: MsgPtr) returns (local: bool, reverse: bool)
      requires req.question != [] && m.msg == Blank(req)
      modifies m
      ensures local ==> RouteOf(site, req) == Local(m.msg)
      ensures !local ==> RouteOf(site, req) == if reverse then Reverse else Upstream
    {
      var q := req.question[0];
      var name := ToLower(q.name);
      if q.qtype == TYPE_A || q.qtype == TYPE_AAAA || q.qtype == TYPE_ANY {
        var records := AddressRecords(q, name);
        if |records| > 0 {
          m.msg := m.msg.(answer := m.msg.answer + records);
          return true, false;
        }
      }
      if (q.qtype == TYPE_PTR && HasSuffix(name, ".in-addr.arpa.")) || HasSuffix(name, ".ip6.arpa.") {
        return false, true;
      }
      if q.qclass == CLASS_CHAOS {
        AnswerChaos(req, m, q, name);
        return true, false;
      }
      return false, false;
    }

    method AnswerChaos(req: Msg, m: MsgPtr, q: Question, name: string)
      requires m.msg == Blank(req)
      modifies m
      ensures m.msg == ChaosReply(site, req, q, name)
    {
      m.msg := m.msg.(hdr := m.msg.hdr.(authoritative := true));
      if q.qtype == TYPE_TXT {
        if name == "version.bind." || name == "version.server." {
          m.msg := m.msg.(answer := [Txt(q, site.version)]);
          return;
        }
        if name == "hostname.bind." || name == "id.server." {
          m.msg := m.msg.(answer := [Txt(q, "localhost")]);
          return;
        }
      }
      m.msg := SetReply(m.msg, req);
      m.msg := SetRcode(m.msg, req, RCODE_SERVER_FAILURE);
    }

    /** The deferred part for local answers: cut, store, write. */
    method FinishLocal(w: ResponseWriter, req: Msg, m: MsgPtr, key: string, at: InsertClock)
      returns (ghost victim: string)
      requires rcache.Valid() && m !in rcache.Messages()
      modifies rcache, m, w
      ensures rcache.Valid()
      ensures var l := LocalReply(site, req, old(m.msg), w.tcp);
              && w.sent == old(w.sent) + [l.reply]
              && rcache.events == old(rcache.events) + Storing(if l.store then Some(l.reply) else None, key, at, victim)
    {
      victim := "";
      if m.msg.hdr.rcode == RCODE_SERVER_FAILURE {
        w.WriteMsg(m.msg);
        return;
      }
      var overflow := Fit(site.len, m, FitSize(site, req, w.tcp), w.tcp);
      if w.tcp && overflow {
        w.WriteMsg(Failure(req));
        return;
      }
      victim := rcache.InsertMessage(key, m, at);
      w.WriteMsg(m.msg);
    }

    method ServeLocal(w: ResponseWriter, req: MsgPtr, m: MsgPtr, key: string, clock: ServeClock, ghost q: Request)
      returns (ghost e: Effect)
      requires rcache.Valid() && Poses(q, req.msg, w.tcp, clock) && q.log == fwd.log && key == q.Key()
      requires m !in rcache.Messages() && RouteOf(site, req.msg) == Local(m.msg)
      modifies rcache, m, w
      ensures rcache.Valid() && ConformsMiss(q, e) && fwd.log == e.log
      ensures w.sent == old(w.sent) + Sending(e.reply) && rcache.events == old(rcache.events) + e.calls
    {
      ghost var l := LocalReply(site, req.msg, m.msg, w.tcp);
      ghost var victim := FinishLocal(w, req.msg, m, key, clock.insert);
      e := Effect(Some(l.reply), Storing(if l.store then Some(l.reply) else None, key, clock.insert, victim),
                  fwd.log, victim);
      LocalMiss(q, victim);
    }

    /** PTR records of the hosts file, else the forwarder. */
    method ServeDNSReverse(w: ResponseWriter, req: MsgPtr, ghost q: Request)
      returns (resp: Option<Msg>, ghost r: Replied)
      requires fwd.Valid() && Poses(q, req.msg, w.tcp, q.clock) && q.log == fwd.log
      modifies fwd, w
      ensures fwd.Valid() && Reverses(q, r)
      ensures resp == r.reply && w.sent == old(w.sent) + Sending(resp) && fwd.log == r.log
    {
      var records := site.ptrRecords(req.msg.question[0]);
      if |records| > 0 {
        var m := SetReply(EMPTY_MSG, req.msg);
        m := m.(compress := true, hdr := m.hdr.(authoritative := false, recursionAvailable := true));
        m := m.(answer := records);
        w.WriteMsg(m);
        resp := Some(m);
        r := Replied(resp, fwd.log);
      } else {
        var served;
        ghost var f;
        resp, served, f := fwd.ServeDNSForward(w, req, None);
        r := Replied(resp, f.log);
        ReverseForwards(q, f);
      }
    }

    /** The reverse zones: the reply is stored whatever it says. */
    method ServeReverse(w: ResponseWriter, req: MsgPtr, key: string, clock: ServeClock, ghost q: Request)
      returns (ghost e: Effect)
      requires rcache.Valid() && fwd.Valid() && Poses(q, req.msg, w.tcp, clock) && q.log == fwd.log && key == q.Key()
      requires RouteOf(site, req.msg) == Reverse
      modifies rcache, fwd, w
      ensures rcache.Valid() && fwd.Valid() && ConformsMiss(q, e) && fwd.log == e.log
      ensures w.sent == old(w.sent) + Sending(e.reply) && rcache.events == old(rcache.events) + e.calls
    {
      var resp;
      ghost var r;
      resp, r := ServeDNSReverse(w, req, q);
      ghost var victim := StoreReply(resp, key, clock.insert);
      e := Effect(r.reply, Storing(r.reply, key, clock.insert, victim), r.log, victim);
      ReverseMiss(q, r, victim);
    }

    /** Stores the reply, if there is one. */
    method StoreReply(resp: Option<Msg>, key: string, at: InsertClock) returns (ghost victim: string)
      requires rcache.Valid()
      modifies rcache
      ensures rcache.Valid() && rcache.events == old(rcache.events) + Storing(resp, key, at, victim)
    {
      victim := "";
      if resp.Some? {
        var ptr := new MsgPtr(resp.value);
        victim := rcache.InsertMessage(key, ptr, at);
      }
    }

    /** The upstream path: look for a stale entry, forward, store what is worth keeping. */
    method ServeUpstream(w: ResponseWriter, req: MsgPtr, key: string, id: uint16, clock: ServeClock, ghost q: Request)
      returns (ghost e: Effect)
      requires rcache.Valid() && fwd.Valid() && Poses(q, req.msg, w.tcp, clock) && Current(q) && key == q.Key()
      requires id == req.msg.hdr.id && RouteOf(site, req.msg) == Upstream
      modifies rcache, fwd, w
      ensures rcache.Valid() && fwd.Valid() && ConformsMiss(q, e) && fwd.log == e.log
      ensures w.sent == old(w.sent) + Sending(e.reply) && rcache.events == old(rcache.events) + e.calls
    {
      ghost var before := rcache.events;
      var staleRes := LookAgain(key, id, clock, q);
      var resp, served;
      ghost var f;
      resp, served, f := fwd.ServeDNSForward(w, req, staleRes);
      e := Keep(resp, served, key, clock, q, staleRes, f, before);
    }

    /** The second look into the cache. */
    method LookAgain(key: string, id: uint16, clock: ServeClock, ghost q: Request) returns (staleRes: Option<Msg>)
      requires rcache.Valid() && q.Ready() && q.site == site && q.cache == rcache.config && Current(q)
      requires key == q.Key() && id == q.msg.hdr.id && clock == q.clock
      modifies rcache
      ensures rcache.Valid() && Offered(q, staleRes) && rcache.events == old(rcache.events) + [q.SecondLook()]
      ensures q.log == fwd.log
    {
      assert Unseal(true);
      var mStale := rcache.Hit(key, id, site.rStaleTtl > 0, true, clock.second);
      staleRes := if mStale == null then None else Some(mStale.msg);
    }

    /** Stores a reply of the forwarder that is worth keeping. */
    method Keep(resp: Option<Msg>, served: bool, key: string, clock: ServeClock,
                ghost q: Request, ghost stale: Option<Msg>, ghost f: Forwarded, ghost before: seq<Event>)
      returns (ghost e: Effect)
      requires rcache.Valid() && resp == ReplyOf(f) && served == ServedStale(f)
      requires q.Ready() && q.env == fwd.env && key == q.Key() && clock == q.clock
      requires rcache.events == before + [q.SecondLook()] && RouteOf(q.site, q.msg).Upstream?
      requires Offered(q, stale) && Forwards(q.ToForward(), q.log, stale, f)
      modifies rcache
      ensures rcache.Valid() && ConformsMiss(q, e) && e.reply == resp && e.log == f.log
      ensures rcache.events == before + e.calls
    {
      var storeInCache := resp.Some?;  // a failure at run time ends the request
      if storeInCache && fwd.env.cfg.rcacheNonNegative && resp.value.hdr.rcode != RCODE_SUCCESS {
        storeInCache := false;
      }
      var kept := if storeInCache && !served then resp else None;
      ghost var victim := StoreReply(kept, key, clock.insert);
      e := Effect(resp, [q.SecondLook()] + Storing(kept, key, clock.insert, victim), f.log, victim);
      UpstreamMiss(q, stale, f, victim);
      CallsJoin(before, q.SecondLook(), Storing(kept, key, clock.insert, victim));
    }

    /** Answers one request: exactly one reply is written, or none when a search fails at run time.  A
        reply taken from the cache was written before, to a request for the same over the same transport. */
    method ServeDNS(w: ResponseWriter, req: MsgPtr, clock: ServeClock, rand: nat -> uint16) returns (ghost e: Effect)
      requires Valid() && req.msg.question != []
      modifies this`records, rcache, fwd, w
      ensures Valid()
      ensures Conforms(old(Met(req.msg, w.tcp, clock)), e)
      ensures w.sent == old(w.sent) + Sending(e.reply)
      ensures rcache.events == old(rcache.events) + e.calls && fwd.log == e.log
      ensures var q := old(Met(req.msg, w.tcp, clock));
              records == old(records) + RecordsOf(q, e) && Recalls(q, e, old(records))
    {
      ghost var q, before := Met(req.msg, w.tcp, clock), rcache.events;
      MetNow(req.msg, w.tcp, clock);
      e := Respond(w, req, clock, rand, q);
      RequestRecalls(q, e, before, records);
      RequestKeepsOrder(q, e, before, records);
      Remember(RecordsOf(q, e));
    }

    /** Puts the calls of a request on record. */
    ghost method Remember(more: seq<Record>)
      requires rcache.Valid() && fwd.Valid()
      requires InOrder(site, rcache.events, records + more, fwd.env.cfg.rcacheNonNegative)
      modifies this`records
      ensures Valid() && records == old(records) + more
    {
      records := records + more;
    }

    method Respond(w: ResponseWriter, req: MsgPtr, clock: ServeClock, rand: nat -> uint16, ghost q: Request)
      returns (ghost e: Effect)
      requires rcache.Valid() && fwd.Valid() && Poses(q, req.msg, w.tcp, clock) && Current(q)
      modifies rcache, fwd, w
      ensures rcache.Valid() && fwd.Valid() && Conforms(q, e)
      ensures w.sent == old(w.sent) + Sending(e.reply)
      ensures rcache.events == old(rcache.events) + e.calls && fwd.log == e.log
    {
      ghost var after, before := q, rcache.events;
      var m, key := Begin(req.msg, w.tcp, q);
      var m1;
      m1, after := Look(req.msg, w.tcp, key, clock, q);
      if m1 != null {
        e := RespondHit(w, req, m1, rand, q, after, before);
      } else {
        e := RespondMiss(w, req, m, key, clock, q, after, before);
      }
    }

    /** What follows when the first look found something. */
    method RespondHit(w: ResponseWriter, req: MsgPtr, m1: MsgPtr, rand: nat -> uint16,
                      ghost q: Request, ghost after: Request, ghost before: seq<Event>)
      returns (ghost e: Effect)
      requires rcache.Valid() && fwd.Valid() && m1 !in rcache.Messages()
      requires Poses(q, req.msg, w.tcp, q.clock) && Looked(q, after, Some(m1.msg))
      requires rcache.events == before + [q.FirstLook()] && q.log == fwd.log
      modifies m1, w
      ensures rcache.Valid() && fwd.Valid() && Conforms(q, e)
      ensures w.sent == old(w.sent) + Sending(e.reply)
      ensures rcache.events == before + e.calls && fwd.log == e.log
    {
      ghost var hit := m1.msg;
      ghost var reply := ServeHit(w, req.msg, m1, rand, q);
      e := Effect(Some(reply), [q.FirstLook()], q.log, "");
      HitConforms(q, after, hit, reply);
    }

    /** What follows when it found nothing. */
    method RespondMiss(w: ResponseWriter, req: MsgPtr, m: MsgPtr, key: string, clock: ServeClock,
                       ghost q: Request, ghost after: Request, ghost before: seq<Event>)
      returns (ghost e: Effect)
      requires rcache.Valid() && fwd.Valid() && Poses(after, req.msg, w.tcp, clock) && Current(after)
      requires q.Ready() && Looked(q, after, None) && rcache.events == before + [q.FirstLook()]
      requires m != req && m !in rcache.Messages() && m.msg == Blank(req.msg) && key == after.Key()
      modifies rcache, fwd, w, m
      ensures rcache.Valid() && fwd.Valid() && Conforms(q, e)
      ensures w.sent == old(w.sent) + Sending(e.reply)
      ensures rcache.events == before + e.calls && fwd.log == e.log
    {
      ghost var look := q.FirstLook();
      ghost var missed := ServeMiss(w, req, m, key, clock, after);
      e := missed.(calls := [look] + missed.calls);
      MissConforms(q, after, missed);
      CallsJoin(before, look, missed.calls);
    }

    static lemma CallsJoin(before: seq<Event>, look: Event, more: seq<Event>)
      ensures before + ([look] + more) == before + [look] + more
    {
    }

    /** The first look into the cache. */
    method Look(req: Msg, tcp: bool, key: string, clock: ServeClock, ghost q: Request)
      returns (m1: MsgPtr?, ghost after: Request)
      requires rcache.Valid() && Poses(q, req, tcp, clock) && Current(q) && key == q.Key()
      modifies rcache
      ensures rcache.Valid() && rcache.events == old(rcache.events) + [q.FirstLook()]
      ensures Poses(after, req, tcp, clock) && Current(after) && after.Key() == key && q.log == fwd.log
      ensures Looked(q, after, if m1 == null then None else Some(m1.msg))
      ensures m1 != null ==> fresh(m1) && m1 !in rcache.Messages()
      ensures rcache.Messages() <= old(rcache.Messages())
    {
      assert Unseal(true);
      m1 := rcache.Hit(key, req.hdr.id, site.rStaleTtl > 0, false, clock.first);
      after := q.Missed();
    }

    /** The reply to fill in, and the key of the question. */
    method Begin(req: Msg, tcp: bool, ghost q: Request) returns (m: MsgPtr, key: string)
      requires q.Ready() && q.site == site && q.msg == req && q.tcp == tcp
      ensures fresh(m) && m.msg == Blank(req) && key == q.Key()
    {
      m := new MsgPtr(EMPTY_MSG);
      m.msg := SetReply(m.msg, req);
      m.msg := m.msg.(hdr := m.msg.hdr.(authoritative := false, recursionAvailable := true), compress := true);
      var dnssec := false;
      var edns := site.edns0(req);
      if edns.Some? {
        dnssec := edns.value.dnssecOk;
      }
      key := Key(req.question[0], dnssec, tcp);
    }

    /** Answers locally, from the reverse zones or from upstream. */
    method ServeMiss(w: ResponseWriter, req: MsgPtr, m: MsgPtr, key: string, clock: ServeClock, ghost q: Request)
      returns (ghost e: Effect)
      requires rcache.Valid() && fwd.Valid() && Poses(q, req.msg, w.tcp, clock) && Current(q) && key == q.Key()
      requires m != req && m !in rcache.Messages() && m.msg == Blank(req.msg)
      modifies rcache, fwd, w, m
      ensures rcache.Valid() && fwd.Valid() && ConformsMiss(q, e) && fwd.log == e.log
      ensures w.sent == old(w.sent) + Sending(e.reply) && rcache.events == old(rcache.events) + e.calls
    {
      assert q.log == fwd.log by {
        assert Unseal(true);
      }
      var local, reverse := AnswerLocally(req.msg, m);
      if local {
        e := ServeLocal(w, req, m, key, clock, q);
      } else if reverse {
        e := ServeReverse(w, req, key, clock, q);
      } else {
        e := ServeUpstream(w, req, key, req.msg.hdr.id, clock, q);
      }
    }
  }
}
