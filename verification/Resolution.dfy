/** server/forwarding.go as functions: which questions go upstream, in which order, and what
    reply they add up to.  The upstream is an arbitrary function of everything sent so far. */
module Resolution {
  import opened GoStrings
  import opened Dns
  import opened Options

  datatype Sent = Sent(server: string, query: Msg, tcp: bool)
  datatype Exchange = Answered(msg: Msg) | Fault(error: string)

  /** What a lookup ends with: a message, an error, neither (no server was asked), or the run-time
      failure of indexing a question section that the upstream left empty. */
  datatype Outcome = Got(msg: Msg) | Failed(error: string) | Nothing | OutOfRange
  datatype Asked = Asked(outcome: Outcome, log: seq<Sent>)

  datatype Config = Config(
    nameservers: seq<string>, stub: map<string, seq<string>>, searchDomains: seq<string>, enableSearch: bool,
    ndots: int, fwdNdots: int, noRec: bool, rcacheNonNegative: bool)

  /** The surroundings: what the upstream answers to the last message of a log, in which order a
      walk over the stub zones takes them at that point, and how many labels a name has. */
  datatype Env = Env(
    cfg: Config, reply: seq<Sent> -> Exchange, stubOrder: seq<Sent> -> seq<string>, countLabel: string -> nat)

  /** Stub zones have servers, and a walk visits every zone. */
  ghost predicate ValidEnv(env: Env) {
    && (forall z | z in env.cfg.stub :: env.cfg.stub[z] != [])
    && (forall h: seq<Sent> :: (set z | z in env.stubOrder(h)) == env.cfg.stub.Keys)
  }

  /** A request, the transport it came over, and the surroundings it is resolved in. */
  datatype Job = Job(env: Env, req: Msg, tcp: bool) {
    predicate Ready() {
      req.question != []
    }

    function Name(): string
      requires Ready()
    {
      req.question[0].name
    }

    /** The same request under another name. */
    function For(name: string): (j: Job)
      requires Ready()
      ensures j.Ready() && j.env == env && j.tcp == tcp && j.Name() == name
    {
      Job(env, Renamed(req, name), tcp)
    }
  }

  ghost predicate Answerable(j: Job) {
    ValidEnv(j.env) && j.env.cfg.nameservers != [] && j.Ready()
  }

  predicate IsNoError(o: Outcome) {
    o.Got? && o.msg.hdr.rcode == RCODE_SUCCESS
  }

  /** A message or an error. */
  predicate IsReply(o: Outcome) {
    o.Got? || o.Failed?
  }

  /** The request with the name in its question replaced. */
  function Renamed(req: Msg, name: string): Msg
    requires req.question != []
  {
    req.(question := req.question[0 := Question(name, req.question[0].qtype, req.question[0].qclass)])
  }

  // ---------- Words for what is proved, independent of the functions below ----------

  /** The message, or the error, that came back. */
  predicate OutcomeIs(o: Outcome, x: Exchange) {
    (x.Answered? ==> o == Got(x.msg)) && (x.Fault? ==> o == Failed(x.error))
  }

  /** A NOERROR message. */
  predicate Positive(o: Outcome) {
    o.Got? && o.msg.hdr.rcode == 0
  }

  /** A NODATA message (section 2.2 of RFC 2308) that is not cut short. */
  predicate Empty(o: Outcome) {
    o.Got? && o.msg.hdr.rcode == 0 && o.msg.answer == [] && !o.msg.hdr.truncated
  }

  /** A message of another kind. */
  predicate Denied(o: Outcome) {
    o.Got? && o.msg.hdr.rcode != 0
  }

  /** NODATA, NXDOMAIN or SERVFAIL. */
  predicate GoesOn(o: Outcome) {
    Empty(o) || (o.Got? && (o.msg.hdr.rcode == 3 || o.msg.hdr.rcode == 2))
  }

  /** The query is the request but for the name in its first question. */
  predicate AsksFor(query: Msg, req: Msg, name: string) {
    && req.question != [] && |query.question| == |req.question|
    && query.question[0].name == name
    && query.question[0].qtype == req.question[0].qtype && query.question[0].qclass == req.question[0].qclass
    && query.question[1..] == req.question[1..]
    && query.(question := req.question) == req
  }

  // ---------- forwardQuery ----------

  /** The list of the first zone of the walk that is a suffix of the name, else the nameservers. */
  function PickServers(cfg: Config, order: seq<string>, name: string): seq<string> {
    if order == [] then cfg.nameservers
    else if HasSuffix(name, order[0]) && order[0] in cfg.stub then cfg.stub[order[0]]
    else PickServers(cfg, order[1..], name)
  }

  predicate Acceptable(cfg: Config, x: Exchange) {
    x.Answered? && (cfg.rcacheNonNegative ==> x.msg.hdr.rcode == RCODE_SUCCESS)
  }

  function OutcomeOf(x: Exchange): Outcome {
    match x
    case Answered(msg) => Got(msg)
    case Fault(error) => Failed(error)
  }

  function TryServers(j: Job, h: seq<Sent>, servers: seq<string>): Asked
    decreases servers
  {
    if servers == [] then Asked(Nothing, h)
    else
      var log := h + [Sent(servers[0], j.req, j.tcp)];
      var x := j.env.reply(log);
      if Acceptable(j.env.cfg, x) || |servers| == 1 then Asked(OutcomeOf(x), log)
      else TryServers(j, log, servers[1..])
  }

  function Query(j: Job, h: seq<Sent>): Asked
    requires j.Ready()
  {
    TryServers(j, h, PickServers(j.env.cfg, j.env.stubOrder(h), j.Name()))
  }

  /** The servers are asked once each, in order: all but the last one asked failed, or gave a negative
      reply where only positive ones are wanted, and the last one did not, unless it ends the list. */
  lemma {:induction false} ServersAskedInOrder(j: Job, h: seq<Sent>, servers: seq<string>) returns (n: nat)
    requires servers != []
    ensures var a := TryServers(j, h, servers);
            && 1 <= n <= |servers|
            && |a.log| == |h| + n && a.log[..|h|] == h
            && (forall k | |h| <= k < |a.log| :: a.log[k] == Sent(servers[k - |h|], j.req, j.tcp))
            && (forall k | |h| < k < |a.log| ::
                  var x := j.env.reply(a.log[..k]);
                  x.Fault? || (j.env.cfg.rcacheNonNegative && x.msg.hdr.rcode != 0))
            && OutcomeIs(a.outcome, j.env.reply(a.log))
            && (n < |servers| ==> a.outcome.Got? && (j.env.cfg.rcacheNonNegative ==> Positive(a.outcome)))
    decreases servers
  {
    var a := TryServers(j, h, servers);
    var log := h + [Sent(servers[0], j.req, j.tcp)];
    if Acceptable(j.env.cfg, j.env.reply(log)) || |servers| == 1 {
      n := 1;
    } else {
      var m := ServersAskedInOrder(j, log, servers[1..]);
      n := m + 1;
      assert a.log[..|log|] == log && log[..|h|] == h;
      assert a.log[..|h|] == a.log[..|log|][..|h|];
      assert a.log[|h|] == log[|h|];
      assert forall i | 0 <= i < |servers| - 1 :: servers[1..][i] == servers[i + 1];
    }
  }

  /** With rcache-non-negative a negative outcome means that the whole list was asked; without it the
      first server that answers at all ends the walk. */
  lemma {:induction false} NegativeAsksAll(j: Job, h: seq<Sent>, servers: seq<string>)
    requires servers != []
    ensures var a := TryServers(j, h, servers);
            && |h| < |a.log| <= |h| + |servers|
            && (j.env.cfg.rcacheNonNegative && !Positive(a.outcome) ==>
                  && |a.log| == |h| + |servers|
                  && forall k | |h| <= k < |a.log| :: a.log[k].server == servers[k - |h|])
            && (!j.env.cfg.rcacheNonNegative ==>
                  forall k | |h| < k < |a.log| :: j.env.reply(a.log[..k]).Fault?)
  {
    var n := ServersAskedInOrder(j, h, servers);
  }

  /** The chosen list is that of a stub zone the name ends with, or, when there is none, the nameservers. */
  lemma {:induction false} PickedServers(cfg: Config, order: seq<string>, name: string)
    ensures var picked := PickServers(cfg, order, name);
            || (exists z :: z in order && z in cfg.stub && HasSuffix(name, z) && picked == cfg.stub[z])
            || ((forall z | z in order && z in cfg.stub :: !HasSuffix(name, z)) && picked == cfg.nameservers)
  {
    if order != [] && !(HasSuffix(name, order[0]) && order[0] in cfg.stub) {
      PickedServers(cfg, order[1..], name);
    }
  }

  /** Copies of the one request are sent, at least one, and the outcome is the reply to the last. */
  lemma QuerySends(j: Job, h: seq<Sent>)
    requires Answerable(j)
    ensures var a := Query(j, h);
            && |h| < |a.log| && h <= a.log
            && (forall i | |h| <= i < |a.log| :: a.log[i].query == j.req && a.log[i].tcp == j.tcp)
            && OutcomeIs(a.outcome, j.env.reply(a.log))
  {
    var order := j.env.stubOrder(h);
    PickedServers(j.env.cfg, order, j.Name());
    var servers := PickServers(j.env.cfg, order, j.Name());
    var n := ServersAskedInOrder(j, h, servers);
  }

  /** Without an error there is a message, since no list of servers is empty. */
  lemma QueryYieldsMessage(j: Job, h: seq<Sent>)
    requires Answerable(j)
    ensures IsReply(Query(j, h).outcome)
  {
    QuerySends(j, h);
  }

  // ---------- forwardSearch ----------

  function AppendDomain(s1: string, s2: string): string {
    Fqdn(s1) + Fqdn(TrimLeftDots(s2))
  }

  function TrimLeftDots(s: string): string {
    if s != [] && s[0] == '.' then TrimLeftDots(s[1..]) else s
  }

  function SearchName(name: string, domain: string): string {
    ToLower(AppendDomain(name, domain))
  }

  lemma {:induction false} TrimmedDots(s: string)
    ensures var t := TrimLeftDots(s);
            && |t| <= |s| && s[|s| - |t|..] == t && (t == [] || t[0] != '.')
            && forall i | 0 <= i < |s| - |t| :: s[i] == '.'
  {
    if s != [] && s[0] == '.' {
      TrimmedDots(s[1..]);
      assert forall i | 1 <= i < |s| :: s[i] == s[1..][i - 1];
    }
  }

  lemma LowerKeeps(s: string, prefix: string, suffix: string)
    requires HasPrefix(s, prefix) && HasSuffix(s, suffix)
    ensures HasPrefix(ToLower(s), ToLower(prefix)) && HasSuffix(ToLower(s), ToLower(suffix))
    ensures forall i | 0 <= i < |s| :: !('A' <= ToLower(s)[i] <= 'Z')
  {
    var l := ToLower(s);
    assert l[..|prefix|] == ToLower(prefix);
    forall i | 0 <= i < |suffix| ensures l[|l| - |suffix|..][i] == ToLower(suffix)[i] {
      assert s[|s| - |suffix|..][i] == suffix[i];
    }
    assert l[|l| - |suffix|..] == ToLower(suffix);
  }

  /** The dot that a name lacks. */
  function MissingDot(s: string): string {
    if IsFqdn(s) then "" else "."
  }

  /** A search name is the name and the domain without leading dots, in lower case, with the dots between
      them and at the end that they may lack. */
  lemma {:induction false} SearchNameShape(name: string, domain: string) returns (d: string)
    ensures |d| <= |domain| && domain[|domain| - |d|..] == d && (d == [] || d[0] != '.')
    ensures forall i | 0 <= i < |domain| - |d| :: domain[i] == '.'
    ensures SearchName(name, domain) == ToLower(name) + MissingDot(name) + ToLower(d) + MissingDot(d)
  {
    d := TrimLeftDots(domain);
    TrimmedDots(domain);
    LowerFqdn(name);
    LowerFqdn(d);
    LowerJoins(Fqdn(name), Fqdn(d));
  }

  lemma LowerFqdn(s: string)
    ensures ToLower(Fqdn(s)) == ToLower(s) + MissingDot(s)
  {
    assert s + "" == s;
  }

  lemma LowerJoins(a: string, b: string)
    ensures ToLower(a + b) == ToLower(a) + ToLower(b)
  {
  }

  /** A NODATA reply (section 2.2 of RFC 2308) that is not cut short. */
  predicate IsNoData(o: Outcome) {
    IsNoError(o) && o.msg.answer == [] && !o.msg.hdr.truncated
  }

  /** NODATA, NXDOMAIN and SERVFAIL let the search go on; everything else ends it. */
  predicate Decisive(o: Outcome) {
    !(IsNoData(o) || (o.Got? && o.msg.hdr.rcode in {RCODE_NAME_ERROR, RCODE_SERVER_FAILURE}))
  }

  datatype Step = Step(name: string, outcome: Outcome)
  datatype Walked = Walked(steps: seq<Step>, log: seq<Sent>)

  function Walk(j: Job, h: seq<Sent>, domains: seq<string>): Walked
    requires j.Ready()
    decreases domains
  {
    if domains == [] then Walked([], h)
    else if HasSuffix(j.Name(), domains[0]) then Walk(j, h, domains[1..])
    else
      var name := SearchName(j.Name(), domains[0]);
      var a := Query(j.For(name), h);
      if Decisive(a.outcome) then Walked([Step(name, a.outcome)], a.log)
      else
        var w := Walk(j, a.log, domains[1..]);
        Walked([Step(name, a.outcome)] + w.steps, w.log)
  }

  /** The message of the last step with the property. */
  function Latest(steps: seq<Step>, p: Outcome -> bool): Option<Msg> {
    if steps == [] then None
    else
      var last := steps[|steps| - 1].outcome;
      if last.Got? && p(last) then Some(last.msg) else Latest(steps[..|steps| - 1], p)
  }

  function LastNoData(steps: seq<Step>): Option<Msg> {
    Latest(steps, IsNoData)
  }

  function Cname(name: string, target: string): RR {
    RR(name, TYPE_CNAME, CLASS_INET, 360, target)
  }

  function WithCname(m: Msg, name: string, target: string): Msg {
    if m.answer == [] then m else m.(answer := [Cname(name, target)] + m.answer)
  }

  /** The message under the client's question; the code indexes the question section without a test. */
  function Restored(m: Msg, q: Question): Outcome {
    if m.question == [] then OutOfRange else Got(m.(question := m.question[0 := q]))
  }

  /** What the steps of a search add up to. */
  function SearchReply(req: Msg, steps: seq<Step>): Outcome
    requires req.question != []
  {
    var q := req.question[0];
    if steps == [] then Got(SetRcode(EMPTY_MSG, req, RCODE_NAME_ERROR))
    else
      var last := steps[|steps| - 1];
      if IsNoError(last.outcome) then Restored(WithCname(last.outcome.msg, q.name, last.name), q)
      else if LastNoData(steps).Some? then Restored(LastNoData(steps).value, q)
      else if last.outcome.Got? then Restored(last.outcome.msg, q)
      else last.outcome
  }

  function StepsOf(j: Job, h: seq<Sent>): seq<Step>
    requires j.Ready()
  {
    Walk(j, h, j.env.cfg.searchDomains).steps
  }

  function Search(j: Job, h: seq<Sent>): Asked
    requires j.Ready()
  {
    Asked(SearchReply(j.req, StepsOf(j, h)), Walk(j, h, j.env.cfg.searchDomains).log)
  }

  // ---------- Which names are asked for ----------

  /** Every step but the last lets the search go on. */
  predicate OnlyLastDecides(steps: seq<Step>) {
    forall i | 0 <= i < |steps| - 1 :: GoesOn(steps[i].outcome)
  }

  /** `at` rises, and stays in its range. */
  predicate Rising(at: seq<nat>, from: nat, to: nat) {
    && (forall i | 0 <= i < |at| :: from <= at[i] < to)
    && (forall i, k | 0 <= i < k < |at| :: at[i] < at[k])
  }

  /** The search had ended before the domain came up. */
  predicate LeftOver(steps: seq<Step>, at: seq<nat>, d: nat) {
    steps != [] && at != [] && at[|at| - 1] < d && !GoesOn(steps[|steps| - 1].outcome)
  }

  /** `at` tells for each step which domain it is for: the domains are taken in order and those the name
      ends with are left out.  The search ends with the first step that does not let it go on, and only
      then are domains left. */
  predicate AskedInOrder(steps: seq<Step>, at: seq<nat>, name: string, domains: seq<string>) {
    && |at| == |steps| && OnlyLastDecides(steps) && Rising(at, 0, |domains|)
    && (forall i | 0 <= i < |at| ::
          !HasSuffix(name, domains[at[i]]) && steps[i].name == SearchName(name, domains[at[i]]))
    && (forall d | 0 <= d < |domains| && !HasSuffix(name, domains[d]) :: d in at || LeftOver(steps, at, d))
  }

  /** The same from one domain on, with a name for each domain or None where it is left out. */
  predicate TakenInOrder(steps: seq<Step>, at: seq<nat>, names: seq<Option<string>>, from: nat) {
    && |at| == |steps| && OnlyLastDecides(steps) && Rising(at, from, |names|)
    && (forall i | 0 <= i < |at| :: names[at[i]] == Some(steps[i].name))
    && (forall d | from <= d < |names| && names[d] != None :: d in at || LeftOver(steps, at, d))
  }

  lemma RisingFirst(at: seq<nat>, from: nat, to: nat)
    requires from < to && Rising(at, from + 1, to)
    ensures Rising([from] + at, from, to)
  {
  }

  lemma LeftOverFirst(step: Step, steps: seq<Step>, from: nat, at: seq<nat>, d: nat)
    requires |at| == |steps| && (d in at || LeftOver(steps, at, d))
    ensures d in [from] + at || LeftOver([step] + steps, [from] + at, d)
  {
    if d in at {
      var i :| 0 <= i < |at| && at[i] == d;
      assert ([from] + at)[i + 1] == d;
    }
  }

  lemma TakenFirst(step: Step, steps: seq<Step>, at: seq<nat>, names: seq<Option<string>>, from: nat)
    requires from < |names| && names[from] == Some(step.name)
    requires TakenInOrder(steps, at, names, from + 1) && GoesOn(step.outcome)
    ensures TakenInOrder([step] + steps, [from] + at, names, from)
  {
    RisingFirst(at, from, |names|);
    var all := [from] + at;
    forall i | 0 <= i < |all| ensures names[all[i]] == Some(([step] + steps)[i].name) {
      assert i > 0 ==> all[i] == at[i - 1] && ([step] + steps)[i] == steps[i - 1];
    }
    forall i | 0 <= i < |steps| ensures GoesOn(([step] + steps)[i].outcome) {
      assert i > 0 ==> ([step] + steps)[i] == steps[i - 1];
    }
    forall d | from <= d < |names| && names[d] != None ensures d in all || LeftOver([step] + steps, all, d) {
      if d == from {
        assert all[0] == d;
      } else {
        LeftOverFirst(step, steps, from, at, d);
      }
    }
  }

  lemma TakenLast(step: Step, names: seq<Option<string>>, from: nat)
    requires from < |names| && names[from] == Some(step.name) && !GoesOn(step.outcome)
    ensures TakenInOrder([step], [from], names, from)
  {
    assert [from][0] in [from];
  }

  function NameFor(name: string, domain: string): Option<string> {
    if HasSuffix(name, domain) then None else Some(SearchName(name, domain))
  }

  lemma {:induction false} WalkTakes(j: Job, h: seq<Sent>, domains: seq<string>, names: seq<Option<string>>, from: nat)
    returns (at: seq<nat>)
    requires j.Ready() && from <= |domains| == |names|
    requires forall d | 0 <= d < |domains| :: names[d] == NameFor(j.Name(), domains[d])
    ensures TakenInOrder(Walk(j, h, domains[from..]).steps, at, names, from)
    decreases |domains| - from
  {
    at := [];
    if from < |domains| {
      assert domains[from..][1..] == domains[from + 1..] && domains[from..][0] == domains[from];
      if names[from] == None {
        at := WalkTakes(j, h, domains, names, from + 1);
      } else {
        var a := Query(j.For(names[from].value), h);
        var step := Step(names[from].value, a.outcome);
        if Decisive(a.outcome) {
          at := [from];
          TakenLast(step, names, from);
        } else {
          var rest := WalkTakes(j, a.log, domains, names, from + 1);
          TakenFirst(step, Walk(j, a.log, domains[from + 1..]).steps, rest, names, from);
          at := [from] + rest;
        }
      }
    }
  }

  /** The domains are tried in configured order, up to the first outcome that ends the search. */
  lemma SearchOrder(j: Job, h: seq<Sent>, domains: seq<string>) returns (at: seq<nat>)
    requires j.Ready()
    ensures AskedInOrder(Walk(j, h, domains).steps, at, j.Name(), domains)
  {
    var names := seq(|domains|, d requires 0 <= d < |domains| => NameFor(j.Name(), domains[d]));
    assert domains[0..] == domains;
    at := WalkTakes(j, h, domains, names, 0);
    forall i | 0 <= i < |at|
      ensures names[at[i]] == NameFor(j.Name(), domains[at[i]])
    {
    }
  }

  /** What is sent from a point of the log on are copies of the request under some other name. */
  predicate OnlyRenamed(log: seq<Sent>, start: nat, j: Job)
    requires j.Ready()
  {
    forall i | start <= i < |log| ::
      && log[i].tcp == j.tcp && log[i].query.question != []
      && AsksFor(log[i].query, j.req, log[i].query.question[0].name)
  }

  predicate EndsWithStep(j: Job, h: seq<Sent>, w: Walked)
    requires j.Ready()
  {
    if w.steps == [] then w.log == h
    else
      && |w.log| > |h|
      && AsksFor(w.log[|w.log| - 1].query, j.req, w.steps[|w.steps| - 1].name)
      && OutcomeIs(w.steps[|w.steps| - 1].outcome, j.env.reply(w.log))
  }

  /** A search from log `h` on: it sends renamed copies of the request only, and the last one sent
      asks for the name of the last step and gets its outcome. */
  predicate Traced(j: Job, h: seq<Sent>, w: Walked)
    requires j.Ready()
  {
    h <= w.log && OnlyRenamed(w.log, |h|, j) && EndsWithStep(j, h, w)
  }

  lemma TracedFirst(j: Job, h: seq<Sent>, name: string, a: Asked, w: Walked)
    requires j.Ready()
    requires |h| < |a.log| && h <= a.log && OutcomeIs(a.outcome, j.env.reply(a.log))
    requires forall i | |h| <= i < |a.log| :: AsksFor(a.log[i].query, j.req, name) && a.log[i].tcp == j.tcp
    requires Traced(j, a.log, w)
    ensures Traced(j, h, Walked([Step(name, a.outcome)] + w.steps, w.log))
  {
    assert OnlyRenamed(a.log, |h|, j);
    assert forall i | 0 <= i < |a.log| :: a.log[i] == w.log[i];
    var steps := [Step(name, a.outcome)] + w.steps;
    assert w.steps != [] ==> steps[|steps| - 1] == w.steps[|w.steps| - 1];
  }

  lemma {:induction false} SearchQueries(j: Job, h: seq<Sent>, domains: seq<string>)
    requires Answerable(j)
    ensures Traced(j, h, Walk(j, h, domains))
    decreases domains
  {
    if domains == [] {
    } else if HasSuffix(j.Name(), domains[0]) {
      SearchQueries(j, h, domains[1..]);
    } else {
      var name := SearchName(j.Name(), domains[0]);
      QuerySends(j.For(name), h);
      var a := Query(j.For(name), h);
      if Decisive(a.outcome) {
        TracedFirst(j, h, name, a, Walked([], a.log));
        assert [Step(name, a.outcome)] + [] == [Step(name, a.outcome)];
      } else {
        SearchQueries(j, a.log, domains[1..]);
        TracedFirst(j, h, name, a, Walk(j, a.log, domains[1..]));
      }
    }
  }

  /** No step of a search comes back without message and error. */
  lemma {:induction false} SearchYieldsMessage(j: Job, h: seq<Sent>, domains: seq<string>)
    requires Answerable(j)
    ensures forall s | s in Walk(j, h, domains).steps :: IsReply(s.outcome)
    decreases domains
  {
    if domains != [] {
      if HasSuffix(j.Name(), domains[0]) {
        SearchYieldsMessage(j, h, domains[1..]);
      } else {
        var asked := j.For(SearchName(j.Name(), domains[0]));
        QueryYieldsMessage(asked, h);
        SearchYieldsMessage(j, Query(asked, h).log, domains[1..]);
      }
    }
  }

  // ---------- What a search ends with ----------

  /** The step at `i` has the property, and no later one has. */
  predicate LastAt(steps: seq<Step>, p: Outcome -> bool, i: int) {
    && 0 <= i < |steps| && steps[i].outcome.Got? && p(steps[i].outcome)
    && forall k | i < k < |steps| :: !(steps[k].outcome.Got? && p(steps[k].outcome))
  }

  lemma {:induction false} LatestIsLast(steps: seq<Step>, p: Outcome -> bool) returns (i: int)
    ensures Latest(steps, p) == None ==> forall s | s in steps :: !(s.outcome.Got? && p(s.outcome))
    ensures Latest(steps, p).Some? ==> LastAt(steps, p, i) && steps[i].outcome == Got(Latest(steps, p).value)
  {
    i := -1;
    if steps != [] {
      var n := |steps| - 1;
      if steps[n].outcome.Got? && p(steps[n].outcome) {
        i := n;
      } else {
        var before := steps[..n];
        i := LatestIsLast(before, p);
        assert forall s :: s in steps <==> s in before || s == steps[n];
        assert forall k | 0 <= k < n :: before[k] == steps[k];
      }
    }
  }

  /** Where every NOERROR message is NODATA the last of either kind is the same. */
  lemma {:induction false} PositiveIsEmpty(steps: seq<Step>)
    requires forall s | s in steps :: Positive(s.outcome) ==> Empty(s.outcome)
    ensures Latest(steps, Positive) == LastNoData(steps)
  {
    if steps != [] {
      var n := |steps| - 1;
      assert steps[n] in steps && forall s | s in steps[..n] :: s in steps;
      PositiveIsEmpty(steps[..n]);
    }
  }

  /** The message a search ends with: its last NOERROR reply, else the last reply. */
  function Ending(steps: seq<Step>): Option<Msg> {
    if Latest(steps, Positive).Some? then Latest(steps, Positive)
    else if steps != [] && steps[|steps| - 1].outcome.Got? then Some(steps[|steps| - 1].outcome.msg)
    else None
  }

  lemma EndingDecides(req: Msg, steps: seq<Step>)
    requires req.question != [] && OnlyLastDecides(steps)
    requires forall s | s in steps :: IsReply(s.outcome)
    ensures SearchReply(req, steps) == OutOfRange <==> Ending(steps).Some? && Ending(steps).value.question == []
    ensures Positive(SearchReply(req, steps))
       <==> Latest(steps, Positive).Some? && Latest(steps, Positive).value.question != []
  {
    if steps != [] {
      var n := |steps| - 1;
      assert steps[n] in steps;
      if !Positive(steps[n].outcome) {
        forall s | s in steps && Positive(s.outcome) ensures Empty(s.outcome) {
          var i :| 0 <= i < |steps| && steps[i] == s;
          assert GoesOn(steps[i].outcome);
        }
        PositiveIsEmpty(steps);
        NoDataIsNoError(steps);
      }
    }
  }

  lemma NoDataIsNoError(steps: seq<Step>)
    ensures LastNoData(steps).Some? ==> LastNoData(steps).value.hdr.rcode == RCODE_SUCCESS
  {
    var i := LatestIsLast(steps, IsNoData);
  }

  /** A search fails at run time exactly when the message it ends with has no question section. */
  lemma SearchFailsExactly(j: Job, h: seq<Sent>)
    requires Answerable(j)
    ensures var end := Ending(StepsOf(j, h));
            Search(j, h).outcome == OutOfRange <==> end.Some? && end.value.question == []
  {
    var at := SearchOrder(j, h, j.env.cfg.searchDomains);
    SearchYieldsMessage(j, h, j.env.cfg.searchDomains);
    EndingDecides(j.req, StepsOf(j, h));
  }

  /** A search that does not fail so ends in NOERROR exactly when some name it asked for got NOERROR:
      neither a later negative reply nor a later upstream failure hides a NODATA reply. */
  lemma SearchSucceedsExactly(j: Job, h: seq<Sent>)
    requires Answerable(j)
    ensures Positive(Search(j, h).outcome)
       <==> Search(j, h).outcome != OutOfRange && exists s :: s in StepsOf(j, h) && Positive(s.outcome)
  {
    var steps := StepsOf(j, h);
    var at := SearchOrder(j, h, j.env.cfg.searchDomains);
    SearchYieldsMessage(j, h, j.env.cfg.searchDomains);
    EndingDecides(j.req, steps);
    var i := LatestIsLast(steps, Positive);
    assert Latest(steps, Positive).Some? ==> steps[i] in steps;
  }

  /** The message under the client's question and behind the records in front, if it has a question
      section to put that into. */
  predicate Relabels(o: Outcome, m: Msg, q: Question, front: seq<RR>) {
    if m.question == [] then o == OutOfRange
    else
      && o.Got? && o.msg.question == [q] + m.question[1..] && o.msg.answer == front + m.answer
      && o.msg.hdr == m.hdr && o.msg.compress == m.compress && o.msg.ns == m.ns && o.msg.extra == m.extra
  }

  /** A search comes to: a NOERROR reply to the last name, behind a CNAME to that name when it has
      answers; else the last NODATA reply; else the last reply; else the error.  When no name was eligible
      it is an empty NXDOMAIN reply. */
  lemma SearchReplyExactly(req: Msg, steps: seq<Step>) returns (i: int)
    requires req.question != [] && forall s | s in steps :: IsReply(s.outcome)
    ensures var o, q := SearchReply(req, steps), req.question[0];
            if steps == [] then
              && o.Got? && o.msg.hdr.rcode == 3 && o.msg.hdr.id == req.hdr.id && o.msg.hdr.response
              && o.msg.question == [q] && o.msg.answer == [] && o.msg.ns == [] && o.msg.extra == []
            else
              var last := steps[|steps| - 1];
              if Positive(last.outcome) then
                var cname := RR(q.name, 5, 1, 360, last.name);
                Relabels(o, last.outcome.msg, q, if last.outcome.msg.answer == [] then [] else [cname])
              else if exists s :: s in steps && Empty(s.outcome) then
                LastAt(steps, Empty, i) && Relabels(o, steps[i].outcome.msg, q, [])
              else if last.outcome.Got? then Relabels(o, last.outcome.msg, q, [])
              else o == last.outcome
  {
    i := LatestIsLast(steps, IsNoData);
    if steps != [] {
      assert steps[|steps| - 1] in steps;
      assert LastAt(steps, IsNoData, i) ==> steps[i] in steps && LastAt(steps, Empty, i);
    }
  }

  /** A refusal without a question section, the answer to a search for one name, is such a message. */
  lemma SearchFailureExample()
    ensures exists j: Job :: Answerable(j) && j.env.cfg.noRec == false && Search(j, []).outcome == OutOfRange
  {
    var refusal := SetRcode(EMPTY_MSG, EMPTY_MSG, RCODE_REFUSED);
    var env := Env(Config(["ns"], map[], ["b."], true, 1, 0, false, false),
                   (h: seq<Sent>) => Answered(refusal), (h: seq<Sent>) => [], name => 1);
    assert forall h: seq<Sent> :: (set z | z in env.stubOrder(h)) == {};
    var j := Job(env, EMPTY_MSG.(question := [Question("a.", TYPE_A, CLASS_INET)]), false);
    assert Answerable(j);
    var at := SearchOrder(j, [], ["b."]);
    SearchQueries(j, [], ["b."]);
    SearchFailsExactly(j, []);
    var steps := StepsOf(j, []);
    assert 0 in at;
    assert |steps| == 1 && steps[0].outcome == Got(refusal);
    assert Latest(steps[..0], Positive) == None;
  }

  lemma CnameReply(req: Msg, steps: seq<Step>)
    requires req.question != []
    requires var o := SearchReply(req, steps); Positive(o) && o.msg.answer != []
    ensures steps != []
    ensures var o, last := SearchReply(req, steps), steps[|steps| - 1];
            Positive(last.outcome) && Relabels(o, last.outcome.msg, req.question[0],
                                               [RR(req.question[0].name, 5, 1, 360, last.name)])
  {
    var i := LatestIsLast(steps, IsNoData);
  }

  /** `o` holds the answers of the last reply of the log, behind a CNAME record (type 5, class 1, TTL 360)
      that leads from the client's name to the name asked for last, under the client's question. */
  predicate AnsweredBehindCname(env: Env, log: seq<Sent>, q: Question, o: Outcome) {
    && log != [] && env.reply(log).Answered? && o.Got? && o.msg.answer != []
    && var asked, m, first := log[|log| - 1].query.question, env.reply(log).msg, o.msg.answer[0];
    && asked != []
    && first.name == q.name && first.data == asked[0].name
    && first.rrtype == 5 && first.rrclass == 1 && first.ttl == 360
    && o.msg.answer[1..] == m.answer && o.msg.ns == m.ns && o.msg.extra == m.extra && o.msg.hdr == m.hdr
    && o.msg.question != [] && o.msg.question[0] == q
  }

  lemma CnameFromTrace(j: Job, h: seq<Sent>, w: Walked)
    requires j.Ready() && Traced(j, h, w)
    requires var o := SearchReply(j.req, w.steps); Positive(o) && o.msg.answer != []
    ensures |w.log| > |h| && AnsweredBehindCname(j.env, w.log, j.req.question[0], SearchReply(j.req, w.steps))
  {
    CnameReply(j.req, w.steps);
  }

  /** Positive answers come back under the client's question, behind a CNAME (section 3.6.2 of
      RFC 1034) from its name to the name of the last query sent, followed by that query's answers. */
  lemma SearchAnswersBehindCname(j: Job, h: seq<Sent>)
    requires Answerable(j)
    requires var o := Search(j, h).outcome; Positive(o) && o.msg.answer != []
    ensures var a := Search(j, h);
            |a.log| > |h| && AnsweredBehindCname(j.env, a.log, j.req.question[0], a.outcome)
  {
    SearchQueries(j, h, j.env.cfg.searchDomains);
    CnameFromTrace(j, h, Walk(j, h, j.env.cfg.searchDomains));
  }

  // ---------- The state of the search loop ----------

  /** The variables of the loop: flag, last name, last outcome, last NODATA reply. */
  datatype Held = Held(didSearch: bool, searchName: string, r: Outcome, nodata: Option<Msg>)

  predicate Remembers(steps: seq<Step>, v: Held) {
    && v.didSearch == (steps != [])
    && (steps != [] ==> steps[|steps| - 1] == Step(v.searchName, v.r))
    && v.nodata == LastNoData(steps)
  }

  /** The steps made so far followed by those of the remaining domains are the whole search. */
  ghost predicate Searching(j: Job, h: seq<Sent>, domains: seq<string>, i: nat, done: Walked, v: Held)
    requires j.Ready() && i <= |domains|
  {
    var rest := Walk(j, done.log, domains[i..]);
    Walk(j, h, domains) == Walked(done.steps + rest.steps, rest.log) && Remembers(done.steps, v)
  }

  ghost predicate Searched(j: Job, h: seq<Sent>, domains: seq<string>, done: Walked, v: Held)
    requires j.Ready()
  {
    Walk(j, h, domains) == done && Remembers(done.steps, v)
  }

  lemma SearchSkip(j: Job, h: seq<Sent>, domains: seq<string>, i: nat, done: Walked, v: Held)
    requires j.Ready() && i < |domains| && HasSuffix(j.Name(), domains[i])
    requires Searching(j, h, domains, i, done, v)
    ensures Searching(j, h, domains, i + 1, done, v)
  {
    assert domains[i..][1..] == domains[i + 1..] && domains[i..][0] == domains[i];
  }

  lemma SearchEnd(j: Job, h: seq<Sent>, domains: seq<string>, done: Walked, v: Held)
    requires j.Ready() && Searching(j, h, domains, |domains|, done, v)
    ensures Searched(j, h, domains, done, v)
  {
    assert domains[|domains|..] == [] && done.steps + [] == done.steps;
  }

  lemma SearchStep(j: Job, h: seq<Sent>, domains: seq<string>, i: nat, done: Walked, v: Held, a: Asked)
    requires j.Ready() && i < |domains| && !HasSuffix(j.Name(), domains[i])
    requires Searching(j, h, domains, i, done, v)
    requires a == Query(j.For(SearchName(j.Name(), domains[i])), done.log)
    ensures var name := SearchName(j.Name(), domains[i]);
            var now := Walked(done.steps + [Step(name, a.outcome)], a.log);
            var held := Held(true, name, a.outcome, if IsNoData(a.outcome) then Some(a.outcome.msg) else v.nodata);
            if Decisive(a.outcome) then Searched(j, h, domains, now, held)
            else Searching(j, h, domains, i + 1, now, held)
  {
    var step := Step(SearchName(j.Name(), domains[i]), a.outcome);
    var rest := Walk(j, a.log, domains[i + 1..]);
    WalkUnfolds(j, done.log, domains, i, a);
    StepJoins(done.steps, step, rest.steps);
    assert Walk(j, h, domains)
        == if Decisive(a.outcome) then Walked(done.steps + [step], a.log)
           else Walked(done.steps + ([step] + rest.steps), rest.log);
  }

  lemma WalkUnfolds(j: Job, log: seq<Sent>, domains: seq<string>, i: nat, a: Asked)
    requires j.Ready() && i < |domains| && !HasSuffix(j.Name(), domains[i])
    requires a == Query(j.For(SearchName(j.Name(), domains[i])), log)
    ensures var step := Step(SearchName(j.Name(), domains[i]), a.outcome);
            var rest := Walk(j, a.log, domains[i + 1..]);
            Walk(j, log, domains[i..])
            == if Decisive(a.outcome) then Walked([step], a.log) else Walked([step] + rest.steps, rest.log)
  {
    assert domains[i..][1..] == domains[i + 1..] && domains[i..][0] == domains[i];
  }

  lemma StepJoins(steps: seq<Step>, step: Step, rest: seq<Step>)
    ensures steps + ([step] + rest) == steps + [step] + rest
    ensures LastNoData(steps + [step])
         == if IsNoData(step.outcome) then Some(step.outcome.msg) else LastNoData(steps)
  {
    assert (steps + [step])[..|steps|] == steps;
  }

  predicate SameButName(a: Msg, b: Msg) {
    a.question != [] && b.question != [] && Renamed(a, "") == Renamed(b, "")
  }

  lemma SameWhenRenamed(a: Msg, b: Msg, name: string)
    requires SameButName(a, b)
    ensures Renamed(a, name) == Renamed(b, name) && SameButName(Renamed(a, name), b)
  {
    assert Renamed(Renamed(a, name), "").question == Renamed(a, "").question;
    assert Renamed(a, name).question == Renamed(a, "").question[0 := Renamed(a, name).question[0]];
    assert Renamed(b, name).question == Renamed(b, "").question[0 := Renamed(b, name).question[0]];
    assert Renamed(a, "").question[0] == Renamed(b, "").question[0];
  }
}
