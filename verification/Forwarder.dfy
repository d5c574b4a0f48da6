/** server/forwarding.go: the loops that resolve a query through the upstream servers. */
module Forwarding {
  import opened GoStrings
  import opened Dns
  import opened Options
  import opened Resolution
  import opened ForwardPlan

  class ResponseWriter {
    const tcp: bool  // the client is connected over TCP
    var sent: seq<Msg>

    constructor (tcp: bool)
      ensures this.tcp == tcp && sent == []
    {
      this.tcp, sent := tcp, [];
    }

    method WriteMsg(m: Msg)
      modifies this
      ensures sent == old(sent) + [m]
    {
      sent := sent + [m];
    }
  }

  /** What the client is sent: the reply, or nothing. */
  function Sending(reply: Option<Msg>): seq<Msg> {
    if reply.Some? then [reply.value] else []
  }

  class Forwarder {
    const env: Env
    var log: seq<Sent>  // what was sent upstream
    var forwardCount: nat
    var staleCacheHit: nat
    var requestFail: nat
    ghost var resolved: nat  // NOERROR replies from lookups
    ghost var crashed: nat  // searches that failed at run time

    constructor (env: Env)
      requires ValidEnv(env)
      ensures Valid() && this.env == env && log == []
      ensures forwardCount == staleCacheHit == requestFail == resolved == crashed == 0
    {
      this.env := env;
      log, forwardCount, staleCacheHit, requestFail, resolved, crashed := [], 0, 0, 0, 0, 0;
    }

    /** Every query that was not refused ended in a NOERROR reply, a stale entry, a failure that was
        reported, or one at run time. */
    ghost predicate Valid()
      reads this
    {
      ValidEnv(env) && forwardCount == resolved + staleCacheHit + requestFail + crashed
    }

    /** Queries can be sent for the job. */
    ghost predicate Takes(j: Job, req: MsgPtr, tcp: bool)
      reads req
    {
      j == Job(env, req.msg, tcp) && Answerable(j)
    }

    method Exchange(req: MsgPtr, server: string, tcp: bool) returns (x: Exchange)
      modifies this`log
      ensures log == old(log) + [Sent(server, req.msg, tcp)]
      ensures x == env.reply(log)
    {
      log := log + [Sent(server, req.msg, tcp)];
      x := env.reply(log);
    }

    method ForwardQuery(req: MsgPtr, tcp: bool, ghost j: Job) returns (r: Outcome)
      requires Takes(j, req, tcp)
      modifies this`log
      ensures Asked(r, log) == Query(j, old(log)) && IsReply(r)
    {
      ghost var h := log;
      QueryYieldsMessage(j, h);
      var nservers := PickNameservers(req.msg.question[0].name);
      r := Nothing;
      var nsIdx := 0;
      while nsIdx < |nservers|
        invariant 0 <= nsIdx <= |nservers|
        invariant TryServers(j, h, nservers)
               == if nsIdx < |nservers| then TryServers(j, log, nservers[nsIdx..]) else Asked(r, log)
      {
        var x := Exchange(req, nservers[nsIdx], tcp);
        r := OutcomeOf(x);
        assert nservers[nsIdx..][1..] == nservers[nsIdx + 1..];
        if x.Answered? {
          if env.cfg.rcacheNonNegative && x.msg.hdr.rcode != RCODE_SUCCESS {
            nsIdx := nsIdx + 1;
            continue;
          }
          return r;
        }
        nsIdx := nsIdx + 1;
      }
    }

    /** The walk over the stub zones. */
    method PickNameservers(name: string) returns (nservers: seq<string>)
      requires ValidEnv(env)
      ensures nservers == PickServers(env.cfg, env.stubOrder(log), name)
    {
      nservers := env.cfg.nameservers;
      var zones := env.stubOrder(log);
      var i := 0;
      while i < |zones|
        invariant 0 <= i <= |zones|
        invariant nservers == env.cfg.nameservers
        invariant PickServers(env.cfg, zones, name) == PickServers(env.cfg, zones[i..], name)
      {
        assert zones[i] in (set z | z in env.stubOrder(log));
        if HasSuffix(name, zones[i]) {
          nservers := env.cfg.stub[zones[i]];
          break;
        }
        i := i + 1;
      }
    }

    /** The request itself is not touched: only a copy of it is renamed and sent. */
    method ForwardSearch(req: MsgPtr, tcp: bool, ghost j: Job) returns (r: Outcome)
      requires Takes(j, req, tcp)
      modifies this`log
      ensures Asked(r, log) == Search(j, old(log)) && (IsReply(r) || r == OutOfRange)
    {
      ghost var done;
      var v;
      v, done := SearchLoop(req, tcp, j);
      SearchYieldsMessage(j, old(log), env.cfg.searchDomains);
      r := ConcludeSearch(req.msg, v, done.steps);
    }

    /** The loop over the search domains. */
    method SearchLoop(req: MsgPtr, tcp: bool, ghost j: Job) returns (v: Held, ghost done: Walked)
      requires Takes(j, req, tcp)
      modifies this`log
      ensures Searched(j, old(log), env.cfg.searchDomains, done, v) && done.log == log
    {
      ghost var h := log;
      done := Walked([], log);
      var nodata: Option<Msg> := None;
      var searchName := "";
      var didSearch := false;
      var r := Nothing;
      var name := req.msg.question[0].name;
      var reqCopy := req.Copy();
      var domains := env.cfg.searchDomains;
      var i := 0;
      while i < |domains|
        invariant 0 <= i <= |domains|
        invariant SameButName(reqCopy.msg, req.msg) && done.log == log
        invariant Searching(j, h, domains, i, done, Held(didSearch, searchName, r, nodata))
      {
        ghost var held := Held(didSearch, searchName, r, nodata);
        if HasSuffix(name, domains[i]) {
          SearchSkip(j, h, domains, i, done, held);
          i := i + 1;
          continue;
        }
        searchName := ToLower(AppendDomain(name, domains[i]));
        didSearch := true;
        r := AskFor(reqCopy, req, searchName, tcp, j);
        SearchStep(j, h, domains, i, done, held, Asked(r, log));
        done := Walked(done.steps + [Step(searchName, r)], log);
        if r.Failed? {
          return Held(didSearch, searchName, r, nodata), done;
        }
        if r.msg.hdr.rcode == RCODE_SUCCESS {
          if |r.msg.answer| == 0 && !r.msg.hdr.truncated {
            nodata := Some(r.msg);
            i := i + 1;
            continue;
          }
        } else if r.msg.hdr.rcode == RCODE_NAME_ERROR || r.msg.hdr.rcode == RCODE_SERVER_FAILURE {
          i := i + 1;
          continue;
        }
        return Held(didSearch, searchName, r, nodata), done;
      }
      v := Held(didSearch, searchName, r, nodata);
      SearchEnd(j, h, domains, done, v);
    }

    /** Renames the copy of the request and sends it. */
    method AskFor(reqCopy: MsgPtr, req: MsgPtr, name: string, tcp: bool, ghost j: Job) returns (r: Outcome)
      requires Takes(j, req, tcp) && reqCopy != req && SameButName(reqCopy.msg, req.msg)
      modifies this`log, reqCopy
      ensures Asked(r, log) == Query(j.For(name), old(log)) && IsReply(r)
      ensures SameButName(reqCopy.msg, req.msg)
    {
      SameWhenRenamed(reqCopy.msg, req.msg, name);
      reqCopy.msg := Renamed(reqCopy.msg, name);
      r := ForwardQuery(reqCopy, tcp, j.For(name));
    }

    /** What follows the loop: build the CNAME, prefer NODATA, restore the question. */
    method ConcludeSearch(req: Msg, v: Held, ghost steps: seq<Step>) returns (r: Outcome)
      requires req.question != [] && Remembers(steps, v)
      requires forall s | s in steps :: IsReply(s.outcome)
      ensures r == SearchReply(req, steps) && (IsReply(r) || r == OutOfRange)
    {
      var name := req.question[0].name;
      r := v.r;
      if !v.didSearch {
        return Got(SetRcode(EMPTY_MSG, req, RCODE_NAME_ERROR));
      }
      assert steps[|steps| - 1] in steps;
      NoDataIsNoError(steps);
      if r.Got? {
        var m := r.msg;
        if m.hdr.rcode == RCODE_SUCCESS {
          if |m.answer| > 0 {
            var cname := RR(name, TYPE_CNAME, CLASS_INET, 360, v.searchName);
            m := m.(answer := [cname] + m.answer);
          }
        } else if v.nodata.Some? {
          m := v.nodata.value;
        }
        r := PutQuestion(m, req.question[0]);
      } else if v.nodata.Some? {
        r := PutQuestion(v.nodata.value, req.question[0]);
      }
    }

    /** Puts the client's question back, in the first place of the question section. */
    method PutQuestion(m: Msg, q: Question) returns (r: Outcome)
      ensures r == Restored(m, q)
    {
      if |m.question| == 0 {
        return OutOfRange;
      }
      r := Got(m.(question := m.question[0 := q]));
    }

    /** Hands a NOERROR result to the client. */
    method ReplyPositive(w: ResponseWriter, req: MsgPtr, m: Msg) returns (resp: Msg)
      modifies this`resolved, w
      ensures resp == ForClient(m, req.msg) && w.sent == old(w.sent) + [resp] && resolved == old(resolved) + 1
    {
      resp := m.(compress := true);
      resp := resp.(hdr := resp.hdr.(id := req.msg.hdr.id));
      resolved := resolved + 1;
      w.WriteMsg(resp);
    }

    /** Nothing brought a positive result: a stale entry, else the absolute lookup's reply, else the
        search's rcode, else SERVFAIL. */
    method ReplyNegative(w: ResponseWriter, req: MsgPtr, v: Results, staleRes: Option<Msg>, ghost done: seq<Done>)
      returns (resp: Msg, served: bool)
      requires Tracks(done, v) && Regular(v) && !Broken(v)
      modifies this`staleCacheHit, this`requestFail, w
      ensures served == staleRes.Some?
      ensures resp == if staleRes.Some? then staleRes.value else Fallback(req.msg, done)
      ensures w.sent == old(w.sent) + [resp]
      ensures staleCacheHit == old(staleCacheHit) + (if served then 1 else 0)
      ensures requestFail == old(requestFail) + (if served then 0 else 1)
    {
      TrackedMessages(done, v);
      if v.didAbsolute && !v.absolute.Failed? {
        resp := v.absolute.msg.(compress := true);
        resp := resp.(hdr := resp.hdr.(id := req.msg.hdr.id));
      } else if v.didSearch && !v.search.Failed? {
        resp := SetRcode(EMPTY_MSG, req.msg, v.search.msg.hdr.rcode);
      } else {
        resp := SetRcode(EMPTY_MSG, req.msg, RCODE_SERVER_FAILURE);
      }
      served := staleRes.Some?;
      if served {
        resp := staleRes.value;
        staleCacheHit := staleCacheHit + 1;
      } else {
        requestFail := requestFail + 1;
      }
      w.WriteMsg(resp);
    }

    /** The call is charged to exactly one counter, or to none when it is refused. */
    twostate predicate Charged(f: Forwarded)
      reads this
    {
      && resolved == old(resolved) + (if f.Forwarded? && f.charge == Resolved then 1 else 0)
      && staleCacheHit == old(staleCacheHit) + (if f.Forwarded? && f.charge == StaleServed then 1 else 0)
      && requestFail == old(requestFail) + (if f.Forwarded? && f.charge == RequestFailed then 1 else 0)
      && crashed == old(crashed) + (if f.Panicked? then 1 else 0)
    }

    /** Writes exactly one reply, which it also returns, or fails at run time and writes nothing. */
    method ServeDNSForward(w: ResponseWriter, req: MsgPtr, staleRes: Option<Msg>)
      returns (resp: Option<Msg>, served: bool, ghost f: Forwarded)
      requires Valid() && req.msg.question != []
      modifies this, w
      ensures Valid() && Forwards(Job(env, req.msg, w.tcp), old(log), staleRes, f)
      ensures resp == ReplyOf(f) && served == ServedStale(f) && log == f.log
      ensures w.sent == old(w.sent) + Sending(resp) && Charged(f)
      ensures forwardCount == old(forwardCount) + (if f.Forwarded? && f.charge == Refused then 0 else 1)
    {
      ghost var h, j := log, Job(env, req.msg, w.tcp);
      var name := req.msg.question[0].name;
      var nameDots := env.countLabel(name) - 1;
      if env.cfg.noRec || |env.cfg.nameservers| == 0 || (nameDots < env.cfg.fwdNdots && !env.cfg.enableSearch) {
        var m := SetRcode(EMPTY_MSG, req.msg, RCODE_REFUSED);
        w.WriteMsg(m);
        RefusedForward(j, h, staleRes);
        return Some(m), false, Forwarded(m, false, Refused, h);
      }
      forwardCount := forwardCount + 1;
      resp, served, f := Resolve(w, req, staleRes, name, nameDots, j);
    }

    /** What follows when a query is not refused. */
    method Resolve(w: ResponseWriter, req: MsgPtr, staleRes: Option<Msg>, name: string, nameDots: int, ghost j: Job)
      returns (resp: Option<Msg>, served: bool, ghost f: Forwarded)
      requires Takes(j, req, w.tcp) && name == j.Name() && nameDots == Dots(env, name) && !Refuses(env, name)
      modifies this`log, this`resolved, this`staleCacheHit, this`requestFail, this`crashed, w
      ensures Forwards(j, old(log), staleRes, f)
      ensures resp == ReplyOf(f) && served == ServedStale(f) && log == f.log
      ensures w.sent == old(w.sent) + Sending(resp) && Charged(f) && !(f.Forwarded? && f.charge == Refused)
    {
      ghost var h, done := log, [];
      var v;
      v, done := LookUps(req, w.tcp, name, nameDots, j);
      resp, served, f := Reply(w, req, v, staleRes, j, h, done);
    }

    /** What is made of the results. */
    method Reply(w: ResponseWriter, req: MsgPtr, v: Results, staleRes: Option<Msg>,
                 ghost j: Job, ghost h: seq<Sent>, ghost done: seq<Done>)
      returns (resp: Option<Msg>, served: bool, ghost f: Forwarded)
      requires Takes(j, req, w.tcp) && !Refuses(env, j.Name())
      requires Finished(j, h, done, log) && Tracks(done, v) && Regular(v)
      modifies this`resolved, this`staleCacheHit, this`requestFail, this`crashed, w
      ensures Forwards(j, h, staleRes, f)
      ensures resp == ReplyOf(f) && served == ServedStale(f) && log == f.log
      ensures w.sent == old(w.sent) + Sending(resp) && Charged(f) && !(f.Forwarded? && f.charge == Refused)
    {
      FinishedForward(j, h, done, log, staleRes, v);
      f := Concluded(req.msg, v, done, staleRes, log);
      resp, served := ReplyTo(w, req, v, staleRes, done);
    }

    method ReplyTo(w: ResponseWriter, req: MsgPtr, v: Results, staleRes: Option<Msg>, ghost done: seq<Done>)
      returns (resp: Option<Msg>, served: bool)
      requires Tracks(done, v) && Regular(v)
      modifies this`resolved, this`staleCacheHit, this`requestFail, this`crashed, w
      ensures var f := Concluded(req.msg, v, done, staleRes, log);
              resp == ReplyOf(f) && served == ServedStale(f) && Charged(f)
      ensures w.sent == old(w.sent) + Sending(resp)
    {
      if v.didSearch && v.search == OutOfRange {
        crashed := crashed + 1;  // the failure of the search ends the call
        return None, false;
      }
      var m;
      if v.didAbsolute && IsNoError(v.absolute) {
        m := ReplyPositive(w, req, v.absolute.msg);
        return Some(m), false;
      }
      if v.didSearch && IsNoError(v.search) {
        m := ReplyPositive(w, req, v.search.msg);
        return Some(m), false;
      }
      m, served := ReplyNegative(w, req, v, staleRes, done);
      resp := Some(m);
    }

    /** One lookup of the plan. */
    method LookUpNext(kind: Kind, req: MsgPtr, tcp: bool, ghost j: Job, ghost h: seq<Sent>,
                      ghost done: seq<Done>, ghost todo: seq<Kind>)
      returns (o: Outcome)
      requires Takes(j, req, tcp)
      requires todo != [] && todo[0] == kind && Underway(j, h, done, todo, log)
      modifies this`log
      ensures IsReply(o) || (kind == Suffixed && o == OutOfRange)
      ensures if Negative(o) then Underway(j, h, done + [Done(kind, o)], todo[1..], log)
              else Finished(j, h, done + [Done(kind, o)], log)
    {
      ghost var sofar := log;
      if kind.Absolute? {
        o := ForwardQuery(req, tcp, j);
      } else {
        o := ForwardSearch(req, tcp, j);
      }
      UnderwayStep(j, h, done, todo, sofar, Asked(o, log));
    }

    /** The lookups, up to the first that brings NOERROR or an error. */
    method LookUps(req: MsgPtr, tcp: bool, name: string, nameDots: int, ghost j: Job)
      returns (v: Results, ghost done: seq<Done>)
      requires Takes(j, req, tcp) && name == j.Name() && nameDots == Dots(env, name)
      modifies this`log
      ensures Finished(j, old(log), done, log) && Tracks(done, v) && Regular(v)
    {
      ghost var h := log;
      var didAbsolute, absolute := FirstLookUp(req, tcp, name, nameDots, j);
      done := if didAbsolute then [Done(Absolute, absolute)] else [];
      v := Results(didAbsolute, absolute, false, Nothing);
      if didAbsolute && (IsNoError(absolute) || absolute.Failed?) {
        return;
      }
      v, done := SearchLookUps(req, tcp, name, nameDots, v, j, h, done, RestOfPlan(env, name, didAbsolute));
    }

    /** The absolute lookup, if the name has dots enough to begin with it. */
    method FirstLookUp(req: MsgPtr, tcp: bool, name: string, nameDots: int, ghost j: Job)
      returns (didAbsolute: bool, absolute: Outcome)
      requires Takes(j, req, tcp) && name == j.Name() && nameDots == Dots(env, name)
      modifies this`log
      ensures if didAbsolute then IsReply(absolute) else absolute == Nothing
      ensures var done := if didAbsolute then [Done(Absolute, absolute)] else [];
              if didAbsolute && !Negative(absolute) then Finished(j, old(log), done, log)
              else Underway(j, old(log), done, RestOfPlan(env, name, didAbsolute), log)
    {
      ghost var h := log;
      PlanHead(env, name);
      NothingDone(j, h);
      didAbsolute, absolute := false, Nothing;
      if nameDots >= env.cfg.ndots {
        if nameDots >= env.cfg.fwdNdots {
          absolute := LookUpNext(Absolute, req, tcp, j, h, [], Plan(env, name));
          didAbsolute := true;
          assert [] + [Done(Absolute, absolute)] == [Done(Absolute, absolute)];
        }
      }
    }

    /** The suffixed lookup, and the absolute one if it is still to be made. */
    method SearchLookUps(req: MsgPtr, tcp: bool, name: string, nameDots: int, first: Results,
                         ghost j: Job, ghost h: seq<Sent>, ghost before: seq<Done>, ghost remaining: seq<Kind>)
      returns (v: Results, ghost done: seq<Done>)
      requires Takes(j, req, tcp) && name == j.Name() && nameDots == Dots(env, name)
      requires remaining == RestOfPlan(env, name, first.didAbsolute) && Underway(j, h, before, remaining, log)
      requires if first.didAbsolute then Negative(first.absolute) && before == [Done(Absolute, first.absolute)]
               else before == []
      requires first == Results(first.didAbsolute, first.absolute, false, Nothing)
      modifies this`log
      ensures Finished(j, h, done, log) && Tracks(done, v) && Regular(v)
    {
      ghost var todo := remaining;
      done := before;
      v := first;
      if env.cfg.enableSearch && |env.cfg.searchDomains| > 0 {
        var search := LookUpNext(Suffixed, req, tcp, j, h, done, todo);
        todo := if nameDots >= env.cfg.fwdNdots && !v.didAbsolute then [Absolute] else [];
        assert remaining[1..] == todo;
        done := done + [Done(Suffixed, search)];
        v := v.(didSearch := true, search := search);
        if search == OutOfRange || IsNoError(search) {
          return;
        }
      }
      if !v.search.Failed? && !v.didAbsolute {
        if nameDots >= env.cfg.fwdNdots {
          var absolute := LookUpNext(Absolute, req, tcp, j, h, done, todo);
          done, todo := done + [Done(Absolute, absolute)], todo[1..];
          v := v.(didAbsolute := true, absolute := absolute);
          if IsNoError(absolute) {
            return;
          }
        }
      }
      NothingLeft(j, h, done, log);
    }
  }
}
