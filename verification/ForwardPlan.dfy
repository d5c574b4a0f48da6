/** server/forwarding.go, ServeDNSForward as a function: the lookups made for a query and the
    reply they lead to. */
module ForwardPlan {
  import opened Dns
  import opened Options
  import opened Resolution
  import opened Seals

  datatype Kind = Absolute | Suffixed
  datatype Done = Done(kind: Kind, outcome: Outcome)
  datatype Ran = Ran(done: seq<Done>, log: seq<Sent>)

  /** What a call is charged to. */
  datatype Charge = Refused | Resolved | StaleServed | RequestFailed

  /** What a call comes to: a reply, or the run-time failure of a search, after which nothing is written. */
  datatype Forwarded =
    | Forwarded(reply: Msg, stale: bool, charge: Charge, log: seq<Sent>)
    | Panicked(log: seq<Sent>)

  function ReplyOf(f: Forwarded): Option<Msg> {
    if f.Forwarded? then Some(f.reply) else None
  }

  predicate ServedStale(f: Forwarded) {
    f.Forwarded? && f.stale
  }

  function Dots(env: Env, name: string): int {
    env.countLabel(name) - 1
  }

  predicate Refuses(env: Env, name: string) {
    || env.cfg.noRec
    || env.cfg.nameservers == []
    || (Dots(env, name) < env.cfg.fwdNdots && !env.cfg.enableSearch)
  }

  predicate SearchEnabled(env: Env) {
    env.cfg.enableSearch && env.cfg.searchDomains != []
  }

  predicate AbsoluteFirst(env: Env, name: string) {
    Dots(env, name) >= env.cfg.ndots && Dots(env, name) >= env.cfg.fwdNdots
  }

  /** What is left to do after the first stage. */
  function RestOfPlan(env: Env, name: string, didAbsolute: bool): seq<Kind> {
    (if SearchEnabled(env) then [Suffixed] else [])
    + (if !didAbsolute && Dots(env, name) >= env.cfg.fwdNdots then [Absolute] else [])
  }

  function Plan(env: Env, name: string): seq<Kind> {
    var first := AbsoluteFirst(env, name);
    (if first then [Absolute] else []) + RestOfPlan(env, name, first)
  }

  lemma PlanHead(env: Env, name: string)
    ensures if AbsoluteFirst(env, name)
            then var plan := Plan(env, name);
                 plan != [] && plan[0] == Absolute && plan[1..] == RestOfPlan(env, name, true)
            else Plan(env, name) == RestOfPlan(env, name, false)
  {
  }

  predicate Negative(o: Outcome) {
    o.Got? && !IsNoError(o)
  }

  function LookUp(j: Job, h: seq<Sent>, kind: Kind): Asked
    requires j.Ready()
  {
    if kind.Absolute? then Query(j, h) else Search(j, h)
  }

  /** Lookups are made in the order of the plan while they bring a negative reply. */
  function RunPlan(j: Job, h: seq<Sent>, plan: seq<Kind>): Ran
    requires j.Ready()
    decreases plan
  {
    if plan == [] then Ran([], h)
    else
      var a := LookUp(j, h, plan[0]);
      var d := Done(plan[0], a.outcome);
      if Negative(a.outcome) then
        var rest := RunPlan(j, a.log, plan[1..]);
        Ran([d] + rest.done, rest.log)
      else Ran([d], a.log)
  }

  function MessageOf(done: seq<Done>, kind: Kind): Option<Msg> {
    if done == [] then None
    else if done[0].kind == kind && done[0].outcome.Got? then Some(done[0].outcome.msg)
    else MessageOf(done[1..], kind)
  }

  function ForClient(m: Msg, req: Msg): Msg {
    m.(compress := true, hdr := m.hdr.(id := req.hdr.id))
  }

  /** The reply when nothing got NOERROR and there is no stale entry. */
  function Fallback(req: Msg, done: seq<Done>): Msg {
    var absolute, search := MessageOf(done, Absolute), MessageOf(done, Suffixed);
    if absolute.Some? then ForClient(absolute.value, req)
    else if search.Some? then SetRcode(EMPTY_MSG, req, search.value.hdr.rcode)
    else SetRcode(EMPTY_MSG, req, RCODE_SERVER_FAILURE)
  }

  /** The outcome of the last lookup made. */
  function LastOutcome(ran: Ran): Outcome {
    if ran.done == [] then Nothing else ran.done[|ran.done| - 1].outcome
  }

  function Conclude(req: Msg, ran: Ran, stale: Option<Msg>): Forwarded {
    var last := LastOutcome(ran);
    if IsNoError(last) then Forwarded(ForClient(last.msg, req), false, Resolved, ran.log)
    else if last == OutOfRange then Panicked(ran.log)
    else if stale.Some? then Forwarded(stale.value, true, StaleServed, ran.log)
    else Forwarded(Fallback(req, ran.done), false, RequestFailed, ran.log)
  }

  function LookUpsOf(j: Job, h: seq<Sent>): Ran
    requires j.Ready()
  {
    RunPlan(j, h, Plan(j.env, j.Name()))
  }

  function Forward(j: Job, h: seq<Sent>, stale: Option<Msg>): Forwarded
    requires j.Ready()
  {
    if Refuses(j.env, j.Name()) then Forwarded(SetRcode(EMPTY_MSG, j.req, RCODE_REFUSED), false, Refused, h)
    else Conclude(j.req, LookUpsOf(j, h), stale)
  }

  // ---------- What it comes to, in terms of the configuration and the messages ----------

  predicate MustRefuse(env: Env, name: string) {
    || env.cfg.noRec
    || env.cfg.nameservers == []
    || (env.countLabel(name) - 1 < env.cfg.fwdNdots && !env.cfg.enableSearch)
  }

  /** The message as it is handed to the client: all of it, under the id of the request. */
  predicate HandedOn(r: Msg, m: Msg, req: Msg) {
    && r.question == m.question && r.answer == m.answer && r.ns == m.ns && r.extra == m.extra
    && r.hdr == m.hdr.(id := req.hdr.id) && r.compress
  }

  /** A reply that says no more than the rcode. */
  predicate ErrorReply(r: Msg, req: Msg, rcode: int) {
    && r.hdr.id == req.hdr.id && r.hdr.response && r.hdr.rcode == rcode && !r.hdr.truncated
    && r.hdr.opcode == req.hdr.opcode
    && (req.hdr.opcode == 0 ==> r.hdr.recursionDesired == req.hdr.recursionDesired)
    && r.question == req.question[..if req.question == [] then 0 else 1]
    && r.answer == [] && r.ns == [] && r.extra == []
  }

  /** Without NOERROR the reply is that of the absolute lookup, if it got one; else an empty one with
      the rcode of the search, if that got one; else SERVFAIL. */
  predicate FallsBack(r: Msg, req: Msg, done: seq<Done>) {
    && (forall d | d in done && d.kind.Absolute? && d.outcome.Got? :: HandedOn(r, d.outcome.msg, req))
    && (forall d | d in done && d.kind.Suffixed? && d.outcome.Got? ::
          (forall e | e in done && e.kind.Absolute? :: !e.outcome.Got?) ==>
          ErrorReply(r, req, d.outcome.msg.hdr.rcode))
    && ((forall d | d in done :: !d.outcome.Got?) ==> ErrorReply(r, req, 2))
  }

  /** At most one absolute and one suffixed lookup; the absolute one comes first exactly when the
      name has enough dots for both thresholds. */
  lemma PlanShape(env: Env, name: string)
    ensures var plan := Plan(env, name);
            var dots, search := env.countLabel(name) - 1, env.cfg.enableSearch && env.cfg.searchDomains != [];
            && (forall i, k | 0 <= i < k < |plan| :: plan[i] != plan[k])
            && (Absolute in plan <==> dots >= env.cfg.fwdNdots)
            && (Suffixed in plan <==> search)
            && (|plan| == 2 ==> (plan[0] == Absolute <==> dots >= env.cfg.ndots))
  {
  }

  predicate InPlanOrder(done: seq<Done>, plan: seq<Kind>) {
    && |done| <= |plan|
    && (forall i | 0 <= i < |done| :: done[i].kind == plan[i])
    && (forall i | 0 <= i < |done| - 1 :: Denied(done[i].outcome))
    && (|done| < |plan| ==> done != [] && !Denied(done[|done| - 1].outcome))
  }

  /** Each lookup is a query for the name, or a search, on top of what was sent before; `logs` are the
      logs between them. */
  ghost predicate Chained(j: Job, h: seq<Sent>, ran: Ran, logs: seq<seq<Sent>>)
    requires j.Ready()
  {
    && |logs| == |ran.done| + 1 && logs[0] == h && logs[|ran.done|] == ran.log
    && forall i | 0 <= i < |ran.done| ::
         Asked(ran.done[i].outcome, logs[i + 1])
         == if ran.done[i].kind == Absolute then Query(j, logs[i]) else Search(j, logs[i])
  }

  lemma PlanOrderFirst(d: Done, done: seq<Done>, plan: seq<Kind>)
    requires InPlanOrder(done, plan) && Denied(d.outcome)
    ensures InPlanOrder([d] + done, [d.kind] + plan)
  {
  }

  /** NOERROR, an error or a run-time failure stops all further lookups; nothing else does. */
  lemma {:induction false} PlanIsRunInOrder(j: Job, h: seq<Sent>, plan: seq<Kind>) returns (logs: seq<seq<Sent>>)
    requires j.Ready()
    ensures InPlanOrder(RunPlan(j, h, plan).done, plan) && Chained(j, h, RunPlan(j, h, plan), logs)
    decreases plan
  {
    logs := [h];
    if plan != [] {
      var a := LookUp(j, h, plan[0]);
      logs := [h, a.log];
      PlanUnfolds(j, h, plan, a);
      if Negative(a.outcome) {
        var rest := PlanIsRunInOrder(j, a.log, plan[1..]);
        PlanOrderFirst(Done(plan[0], a.outcome), RunPlan(j, a.log, plan[1..]).done, plan[1..]);
        assert [plan[0]] + plan[1..] == plan;
        logs := [h] + rest;
      }
    }
  }

  lemma OnlyLastStops(done: seq<Done>, plan: seq<Kind>, d: Done)
    requires InPlanOrder(done, plan) && d in done && !Denied(d.outcome)
    ensures d == done[|done| - 1]
  {
    var i :| 0 <= i < |done| && done[i] == d;
  }

  lemma {:induction false} ConcludeExactly(req: Msg, ran: Ran, plan: seq<Kind>, stale: Option<Msg>)
    requires InPlanOrder(ran.done, plan) && forall i, k | 0 <= i < k < |plan| :: plan[i] != plan[k]
    ensures var f, done := Conclude(req, ran, stale), ran.done;
            && f.log == ran.log
            && (f.Panicked? <==> exists d :: d in done && d.outcome == OutOfRange)
            && (forall d | d in done && Positive(d.outcome) ::
                  f.Forwarded? && f.charge == Resolved && !f.stale && HandedOn(f.reply, d.outcome.msg, req))
            && ((forall d | d in done :: !Positive(d.outcome) && d.outcome != OutOfRange) ==>
                  && f.Forwarded?
                  && if stale.Some? then f.stale && f.charge == StaleServed && f.reply == stale.value
                     else !f.stale && f.charge == RequestFailed && FallsBack(f.reply, req, done))
  {
    var done := ran.done;
    forall d | d in done && !Denied(d.outcome) ensures d == done[|done| - 1] {
      OnlyLastStops(done, plan, d);
    }
    FallbackExactly(req, done);
  }

  /** A refused query is answered REFUSED and sends nothing.  Else the one NOERROR result, if there is
      one, is the reply; without one the stale message is, if there is one, unless a lookup failed at run
      time; and else the reply is made of the negative results. */
  lemma ForwardExactly(j: Job, h: seq<Sent>, stale: Option<Msg>)
    requires j.Ready()
    ensures var f, done := Forward(j, h, stale), LookUpsOf(j, h).done;
            if MustRefuse(j.env, j.req.question[0].name) then
              f.Forwarded? && f.charge == Refused && !f.stale && f.log == h && ErrorReply(f.reply, j.req, 5)
            else
              && f.log == LookUpsOf(j, h).log
              && (f.Panicked? <==> exists d :: d in done && d.outcome == OutOfRange)
              && (forall d | d in done && Positive(d.outcome) ::
                    f.Forwarded? && f.charge == Resolved && !f.stale && HandedOn(f.reply, d.outcome.msg, j.req))
              && ((forall d | d in done :: !Positive(d.outcome) && d.outcome != OutOfRange) ==>
                    && f.Forwarded?
                    && if stale.Some? then f.stale && f.charge == StaleServed && f.reply == stale.value
                       else !f.stale && f.charge == RequestFailed && FallsBack(f.reply, j.req, done))
  {
    if !Refuses(j.env, j.Name()) {
      var plan := Plan(j.env, j.Name());
      var logs := PlanIsRunInOrder(j, h, plan);
      PlanShape(j.env, j.Name());
      ConcludeExactly(j.req, LookUpsOf(j, h), plan, stale);
    }
  }

  /** `r` answers with what the last server asked replied: as it is, to the request itself, or behind a
      CNAME, to a search name. */
  predicate AnswersFrom(env: Env, log: seq<Sent>, req: Msg, r: Msg)
    requires req.question != []
  {
    && log != [] && env.reply(log).Answered?
    && (|| (log[|log| - 1].query == req && HandedOn(r, env.reply(log).msg, req))
        || (&& AnsweredBehindCname(env, log, req.question[0], Got(r.(hdr := env.reply(log).msg.hdr)))
            && r.hdr == env.reply(log).msg.hdr.(id := req.hdr.id) && r.compress))
  }

  lemma {:induction false} LookUpAnswers(j: Job, h: seq<Sent>, kind: Kind)
    requires Answerable(j)
    requires var a := LookUp(j, h, kind); Positive(a.outcome) && a.outcome.msg.answer != []
    ensures var a := LookUp(j, h, kind);
            forall r | HandedOn(r, a.outcome.msg, j.req) :: AnswersFrom(j.env, a.log, j.req, r)
  {
    if kind.Absolute? {
      QuerySends(j, h);
    } else {
      SearchAnswersBehindCname(j, h);
    }
  }

  /** The one lookup that got NOERROR is the last, and the reply is its message. */
  lemma NoErrorIsLast(j: Job, h: seq<Sent>, stale: Option<Msg>) returns (d: Done, before: seq<Sent>)
    requires j.Ready()
    requires var f := Forward(j, h, stale); f.Forwarded? && !f.stale && f.reply.hdr.rcode == 0
    ensures Positive(d.outcome) && HandedOn(Forward(j, h, stale).reply, d.outcome.msg, j.req)
    ensures LookUp(j, before, d.kind) == Asked(d.outcome, Forward(j, h, stale).log)
  {
    var f, ran := Forward(j, h, stale), LookUpsOf(j, h);
    ForwardExactly(j, h, stale);
    SomePositive(j.req, ran.done, f.reply);
    d :| d in ran.done && Positive(d.outcome);
    before := LastLookUp(j, h, d);
  }

  lemma LastLookUp(j: Job, h: seq<Sent>, d: Done) returns (before: seq<Sent>)
    requires j.Ready() && d in LookUpsOf(j, h).done && !Denied(d.outcome)
    ensures LookUp(j, before, d.kind) == Asked(d.outcome, LookUpsOf(j, h).log)
  {
    var plan := Plan(j.env, j.Name());
    var logs := PlanIsRunInOrder(j, h, plan);
    OnlyLastStops(LookUpsOf(j, h).done, plan, d);
    before := logs[|LookUpsOf(j, h).done| - 1];
  }

  /** A NOERROR reply with answers that is not stale answers with what the last server asked replied. */
  lemma AnswersComeFromUpstream(j: Job, h: seq<Sent>, stale: Option<Msg>)
    requires Answerable(j)
    requires var f := Forward(j, h, stale); f.Forwarded? && !f.stale && f.reply.hdr.rcode == 0 && f.reply.answer != []
    ensures var f := Forward(j, h, stale); AnswersFrom(j.env, f.log, j.req, f.reply)
  {
    var d, before := NoErrorIsLast(j, h, stale);
    LookUpAnswers(j, before, d.kind);
  }

  lemma SomePositive(req: Msg, done: seq<Done>, r: Msg)
    requires r.hdr.rcode == 0
    requires (forall d | d in done :: !Positive(d.outcome)) ==> FallsBack(r, req, done)
    ensures exists d :: d in done && Positive(d.outcome)
  {
    if forall d | d in done :: !Positive(d.outcome) {
      FallsBackDenied(req, done, r);
    }
  }

  /** No reply made of negative results is NOERROR. */
  lemma FallsBackDenied(req: Msg, done: seq<Done>, r: Msg)
    requires FallsBack(r, req, done) && forall d | d in done :: !Positive(d.outcome)
    ensures r.hdr.rcode != 0
  {
    if d :| d in done && d.kind.Absolute? && d.outcome.Got? {
      assert HandedOn(r, d.outcome.msg, req);
    } else if d :| d in done && d.outcome.Got? {
      assert ErrorReply(r, req, d.outcome.msg.hdr.rcode);
    }
  }

  /** What a search made after the log `h` ends with has no question section. */
  predicate EndsUnasked(j: Job, h: seq<Sent>)
    requires j.Ready()
  {
    var end := Ending(StepsOf(j, h));
    end.Some? && end.value.question == []
  }

  /** A call makes a search, and what that ends with has no question section. */
  predicate SearchBreaks(j: Job, h: seq<Sent>)
    requires j.Ready()
  {
    var env, dots := j.env, j.env.countLabel(j.req.question[0].name) - 1;
    && !MustRefuse(env, j.req.question[0].name) && env.cfg.enableSearch && env.cfg.searchDomains != []
    && if dots >= env.cfg.ndots && dots >= env.cfg.fwdNdots then
         Denied(Query(j, h).outcome) && EndsUnasked(j, Query(j, h).log)
       else EndsUnasked(j, h)
  }

  /** That is exactly when it fails at run time and writes nothing. */
  lemma {:induction false} ForwardFailsExactly(j: Job, h: seq<Sent>, stale: Option<Msg>)
    requires ValidEnv(j.env) && j.Ready()
    ensures Forward(j, h, stale).Panicked? <==> SearchBreaks(j, h)
  {
    if !Refuses(j.env, j.Name()) {
      LookUpsFailExactly(j, h);
      PanicsAtLast(j, h, stale);
    }
  }

  lemma {:induction false} LookUpsFailExactly(j: Job, h: seq<Sent>)
    requires Answerable(j) && !Refuses(j.env, j.Name())
    ensures LastOutcome(LookUpsOf(j, h)) == OutOfRange <==> SearchBreaks(j, h)
  {
    var name := j.Name();
    var first := AbsoluteFirst(j.env, name);
    PlanHead(j.env, name);
    RestFailsExactly(j, if first then Query(j, h).log else h, RestOfPlan(j.env, name, first), first);
    if first {
      QueryYieldsMessage(j, h);
      PlanUnfolds(j, h, Plan(j.env, name), Query(j, h));
    }
  }

  lemma PanicsAtLast(j: Job, h: seq<Sent>, stale: Option<Msg>)
    requires j.Ready()
    ensures Forward(j, h, stale).Panicked? <==> !Refuses(j.env, j.Name()) && LastOutcome(LookUpsOf(j, h)) == OutOfRange
  {
  }

  lemma PlanUnfolds(j: Job, h: seq<Sent>, plan: seq<Kind>, a: Asked)
    requires j.Ready() && plan != [] && a == LookUp(j, h, plan[0])
    ensures var d := Done(plan[0], a.outcome);
            var rest := RunPlan(j, a.log, plan[1..]);
            RunPlan(j, h, plan) == if Negative(a.outcome) then Ran([d] + rest.done, rest.log) else Ran([d], a.log)
    ensures LastOutcome(RunPlan(j, h, plan))
         == if Negative(a.outcome) && plan[1..] != [] then LastOutcome(RunPlan(j, a.log, plan[1..])) else a.outcome
  {
  }

  lemma {:induction false} RestFailsExactly(j: Job, h: seq<Sent>, rest: seq<Kind>, didAbsolute: bool)
    requires Answerable(j) && rest == RestOfPlan(j.env, j.Name(), didAbsolute)
    ensures LastOutcome(RunPlan(j, h, rest)) == OutOfRange <==> SearchEnabled(j.env) && EndsUnasked(j, h)
  {
    SearchFailsExactly(j, h);
    var a := Search(j, h);
    QueryYieldsMessage(j, a.log);
    QueryYieldsMessage(j, h);
    if rest != [] {
      var last := rest[1..];
      assert last == [] || last == [Absolute];
      assert RunPlan(j, a.log, []) == Ran([], a.log);
      AbsoluteOnly(j, a.log);
      AbsoluteOnly(j, h);
    }
  }

  lemma AbsoluteOnly(j: Job, h: seq<Sent>)
    requires Answerable(j)
    ensures RunPlan(j, h, [Absolute]) == Ran([Done(Absolute, Query(j, h).outcome)], Query(j, h).log)
    ensures IsReply(Query(j, h).outcome)
  {
    QueryYieldsMessage(j, h);
    assert [Absolute][1..] == [];
    assert [Done(Absolute, Query(j, h).outcome)] + [] == [Done(Absolute, Query(j, h).outcome)];
  }

  lemma {:induction false} FallbackExactly(req: Msg, done: seq<Done>)
    requires forall i, k | 0 <= i < k < |done| :: done[i].kind != done[k].kind
    ensures FallsBack(Fallback(req, done), req, done)
  {
    MessageOfKind(done, Absolute);
    MessageOfKind(done, Suffixed);
  }

  lemma {:induction false} MessageOfKind(done: seq<Done>, kind: Kind)
    requires forall i, k | 0 <= i < k < |done| :: done[i].kind != done[k].kind
    ensures forall d | d in done && d.kind == kind && d.outcome.Got? :: MessageOf(done, kind) == Some(d.outcome.msg)
    ensures (forall d | d in done && d.kind == kind :: !d.outcome.Got?) ==> MessageOf(done, kind) == None
  {
    if done != [] {
      var rest := done[1..];
      assert forall i, k | 0 <= i < k < |rest| :: rest[i] == done[i + 1] && rest[k] == done[k + 1];
      MessageOfKind(rest, kind);
      assert forall d :: d in done <==> d == done[0] || d in rest;
      assert forall d | d in rest :: d.kind != done[0].kind;
    }
  }

  /** Every reply carries the id of the request, provided the stale message does. */
  lemma ForwardEchoesId(j: Job, h: seq<Sent>, stale: Option<Msg>)
    requires j.Ready()
    requires stale.Some? ==> stale.value.hdr.id == j.req.hdr.id
    ensures var f := Forward(j, h, stale);
            f.Forwarded? ==> f.reply.hdr.id == j.req.hdr.id
  {
  }

  // ---------- The state of the three stages ----------

  /** The lookups in `done` are made, those in `todo` remain. */
  ghost predicate Underway(j: Job, h: seq<Sent>, done: seq<Done>, todo: seq<Kind>, log: seq<Sent>)
    requires j.Ready()
  {
    var rest := RunPlan(j, log, todo);
    LookUpsOf(j, h) == Ran(done + rest.done, rest.log)
  }

  ghost predicate Finished(j: Job, h: seq<Sent>, done: seq<Done>, log: seq<Sent>)
    requires j.Ready()
  {
    LookUpsOf(j, h) == Ran(done, log)
  }

  lemma UnderwayStep(j: Job, h: seq<Sent>, done: seq<Done>, todo: seq<Kind>, log: seq<Sent>, a: Asked)
    requires j.Ready() && todo != []
    requires Underway(j, h, done, todo, log)
    requires a == LookUp(j, log, todo[0])
    ensures var now := done + [Done(todo[0], a.outcome)];
            if Negative(a.outcome) then Underway(j, h, now, todo[1..], a.log) else Finished(j, h, now, a.log)
  {
    PlanUnfolds(j, log, todo, a);
    DoneJoins(done, Done(todo[0], a.outcome), RunPlan(j, a.log, todo[1..]).done);
  }

  lemma DoneJoins(done: seq<Done>, d: Done, rest: seq<Done>)
    ensures done + ([d] + rest) == done + [d] + rest
  {
  }

  lemma NothingDone(j: Job, h: seq<Sent>)
    requires j.Ready()
    ensures Underway(j, h, [], Plan(j.env, j.Name()), h)
  {
    assert [] + LookUpsOf(j, h).done == LookUpsOf(j, h).done;
  }

  lemma NothingLeft(j: Job, h: seq<Sent>, done: seq<Done>, log: seq<Sent>)
    requires j.Ready()
    ensures Underway(j, h, done, [], log) <==> Finished(j, h, done, log)
  {
    assert done + [] == done;
  }

  /** The flags and results that the code holds. */
  datatype Results = Results(didAbsolute: bool, absolute: Outcome, didSearch: bool, search: Outcome)

  /** They tell which lookups were made. */
  predicate Tracks(done: seq<Done>, v: Results) {
    var a, s := Done(Absolute, v.absolute), Done(Suffixed, v.search);
    if v.didAbsolute && v.didSearch then done == [a, s] || done == [s, a]
    else if v.didAbsolute then done == [a]
    else if v.didSearch then done == [s]
    else done == []
  }

  /** Only a search fails at run time, and a lookup that was made has an outcome. */
  predicate Regular(v: Results) {
    && (v.didAbsolute ==> IsReply(v.absolute))
    && (v.didSearch ==> IsReply(v.search) || v.search == OutOfRange)
  }

  predicate Broken(v: Results) {
    v.didSearch && v.search == OutOfRange
  }

  /** What the results lead to. */
  function Concluded(req: Msg, v: Results, done: seq<Done>, stale: Option<Msg>, log: seq<Sent>): Forwarded {
    if Broken(v) then Panicked(log)
    else if v.didAbsolute && IsNoError(v.absolute) then Forwarded(ForClient(v.absolute.msg, req), false, Resolved, log)
    else if v.didSearch && IsNoError(v.search) then Forwarded(ForClient(v.search.msg, req), false, Resolved, log)
    else if stale.Some? then Forwarded(stale.value, true, StaleServed, log)
    else Forwarded(Fallback(req, done), false, RequestFailed, log)
  }

  /** `f` is what a call comes to (sealed). */
  ghost predicate Forwards(j: Job, h: seq<Sent>, stale: Option<Msg>, f: Forwarded)
    requires j.Ready()
  {
    forall b: bool :: Unseal(b) ==> f == Forward(j, h, stale)
  }

  lemma RefusedForward(j: Job, h: seq<Sent>, stale: Option<Msg>)
    requires j.Ready() && Refuses(j.env, j.Name())
    ensures Forwards(j, h, stale, Forwarded(SetRcode(EMPTY_MSG, j.req, RCODE_REFUSED), false, Refused, h))
  {
  }

  /** What a finished plan makes of the results that the code holds. */
  lemma FinishedForward(j: Job, h: seq<Sent>, done: seq<Done>, log: seq<Sent>, stale: Option<Msg>, v: Results)
    requires j.Ready() && !Refuses(j.env, j.Name())
    requires Finished(j, h, done, log) && Tracks(done, v) && Regular(v)
    ensures Forwards(j, h, stale, Concluded(j.req, v, done, stale, log))
  {
    var plan := Plan(j.env, j.Name());
    var logs := PlanIsRunInOrder(j, h, plan);
    ConcludeTracked(j.req, Ran(done, log), plan, stale, v);
  }

  lemma ConcludeTracked(req: Msg, ran: Ran, plan: seq<Kind>, stale: Option<Msg>, v: Results)
    requires InPlanOrder(ran.done, plan) && Tracks(ran.done, v) && Regular(v)
    ensures Conclude(req, ran, stale) == Concluded(req, v, ran.done, stale, ran.log)
  {
    var done := ran.done;
    assert |done| == 2 ==> Negative(done[0].outcome);
  }

  lemma OneMessage(d: Done)
    ensures forall kind ::
              MessageOf([d], kind) == if d.kind == kind && d.outcome.Got? then Some(d.outcome.msg) else None
  {
    assert [d][1..] == [];
  }

  lemma TrackedMessages(done: seq<Done>, v: Results)
    requires Tracks(done, v)
    ensures MessageOf(done, Absolute) == if v.didAbsolute && v.absolute.Got? then Some(v.absolute.msg) else None
    ensures MessageOf(done, Suffixed) == if v.didSearch && v.search.Got? then Some(v.search.msg) else None
  {
    assert |done| == 2 ==> done[1..] == [done[1]];
    assert |done| == 1 ==> done[1..] == [];
    if |done| == 2 {
      OneMessage(done[1]);
    }
  }
}
