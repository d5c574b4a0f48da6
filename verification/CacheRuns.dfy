/** What holds of the cache over whole sequences of calls. */
module CacheRuns {
  import opened Dns
  import opened Options
  import opened CacheState

  // ---------- Size ----------

  /** Between calls the cache is under its capacity, so a cache of capacity one is always empty. */
  lemma {:induction false} SizeUnderCapacity(c: Config, es: seq<Event>)
    requires FeasibleRun(c, map[], es)
    ensures var m := Run(c, map[], es);
            if c.capacity <= 0 then m == map[] else |m| < c.capacity
  {
    if es != [] {
      var before, e := es[..|es| - 1], es[|es| - 1];
      SizeUnderCapacity(c, before);
      SizeStep(c, Run(c, map[], before), e);
    }
  }

  lemma SizeStep(c: Config, m: View, e: Event)
    requires if c.capacity <= 0 then m == map[] else |m| < c.capacity
    requires Feasible(c, m, e)
    ensures if c.capacity <= 0 then Next(c, m, e) == map[] else |Next(c, m, e)| < c.capacity
  {
    var next := Next(c, m, e);
    match e
    case Insert(key, msg, at, victim) =>
      if c.capacity > 0 {
        InsertEvictsAtMostOne(c, m, e);
      }
    case Lookup(key, _, _, _, _) => KeysShrink(next, m);
    case Delete(key) => KeysShrink(next, m);
  }

  lemma KeysShrink(small: View, big: View)
    requires small.Keys <= big.Keys
    ensures |small| <= |big|
  {
    SubsetSize(small.Keys, big.Keys);
  }

  lemma {:induction false} SubsetSize<T>(a: set<T>, b: set<T>)
    requires a <= b
    ensures |a| <= |b|
    decreases |b|
  {
    if a != {} {
      var x :| x in a;
      SubsetSize(a - {x}, b - {x});
    }
  }

  /** An insertion into a cache under its capacity overfills it at no time; filling it up
      removes exactly one element, and a key that is already there evicts nothing. */
  lemma {:induction false} InsertEvictsAtMostOne(c: Config, m: View, e: Event)
    requires e.Insert? && 0 < c.capacity && |m| < c.capacity
    requires Feasible(c, m, e)
    ensures var s := Stored(c, m, e.key, e.msg, e.at);
            && |s| <= c.capacity
            && (|s| < c.capacity ==> Next(c, m, e) == s)
            && (|s| == c.capacity ==> e.victim in s && Next(c, m, e) == s - {e.victim} && |Next(c, m, e)| == |s| - 1)
            && (e.key in m ==> Next(c, m, e).Keys == m.Keys)
  {
    var s := Stored(c, m, e.key, e.msg, e.at);
    UpdateSize(m, e.key, NewElem(c, e.msg, e.msg, e.at));
    if |s| == c.capacity {
      RemoveSize(s, e.victim);
    }
  }

  lemma UpdateSize(m: View, key: string, x: Elem<Msg>)
    ensures |m[key := x]| == if key in m then |m| else |m| + 1
    ensures key in m ==> m[key := x].Keys == m.Keys
  {
    var n := m[key := x];
    assert n.Keys == m.Keys + {key};
    assert |n| == |n.Keys| && |m| == |m.Keys|;
    if key in m {
      assert n.Keys == m.Keys;
    }
  }

  lemma RemoveSize(m: View, key: string)
    requires key in m
    ensures |m - {key}| == |m| - 1
  {
    var n := m - {key};
    assert n.Keys == m.Keys - {key};
    assert |n| == |n.Keys| && |m| == |m.Keys|;
  }

  // ---------- Where an entry comes from ----------

  /** The latest accepted insertion under a key, as its position in the run, or -1. */
  function Origin(c: Config, es: seq<Event>, key: string): (i: int)
    ensures -1 <= i < |es|
    ensures i >= 0 ==> es[i].Insert? && es[i].key == key
  {
    if es == [] then -1
    else
      var before, e := es[..|es| - 1], es[|es| - 1];
      if e.Insert? && e.key == key && Accepts(c, Run(c, map[], before), key, e.at) then |es| - 1
      else Origin(c, before, key)
  }

  /** The deadlines and the message that an insertion gives its entry. */
  ghost predicate MadeBy(c: Config, x: Elem<Msg>, e: Event)
    requires e.Insert?
  {
    && x.msg == e.msg
    && Lives(c, e.msg, x.expiration - e.at.expBase)
    && x.staleExpiration == e.at.staleBase + c.staleTtl
    && (if c.ttlFromResp then x.expiration - e.at.expBase == x.ttlSeconds * 1_000_000_000 else x.ttlSeconds == 0)
  }

  lemma {:induction false} EntryComesFromOrigin(c: Config, es: seq<Event>, key: string)
    requires key in Run(c, map[], es)
    ensures Origin(c, es, key) >= 0
    ensures MadeBy(c, Run(c, map[], es)[key], es[Origin(c, es, key)])
  {
    var before, e := es[..|es| - 1], es[|es| - 1];
    var m := Run(c, map[], before);
    if e.Insert? && e.key == key && Accepts(c, m, key, e.at) {
      AcceptedIsMade(c, m, e);
    } else {
      EntryComesFromOrigin(c, before, key);
    }
  }

  lemma AcceptedIsMade(c: Config, m: View, e: Event)
    requires e.Insert? && Accepts(c, m, e.key, e.at) && e.key in Next(c, m, e)
    ensures MadeBy(c, Next(c, m, e)[e.key], e)
  {
    OneLifetime(c, e.msg);
  }

  /** Whatever a lookup returns is the message of the latest accepted insertion under its key,
      with the id, the compression flag and the TC bit set anew; a lookup that does not ask for
      stale entries returns it only before insertion time plus lifetime. */
  lemma {:induction false} LookupReturnsLatestInsertion(c: Config, es: seq<Event>, e: Event)
    requires e.Lookup? && Result(c, Run(c, map[], es), e).Some?
    ensures var o := Origin(c, es, e.key);
            && o >= 0
            && IsCopyFor(Result(c, Run(c, map[], es), e).value, es[o].msg, e.id)
            && (!e.returnStale ==> forall t :: Lives(c, es[o].msg, t) ==> e.seen.valid < es[o].at.expBase + t)
  {
    EntryComesFromOrigin(c, es, e.key);
    OneLifetime(c, es[Origin(c, es, e.key)].msg);
  }

  /** The same for a cache made with the given arguments: without the option it is the configured
      lifetime that counts, and with it the lowest TTL of the answers between its bounds. */
  lemma AnsweredBeforeExpiry(capacity: int, ttl: int, staleTtl: int, ttlFromResp: bool, ttlMax: int,
                             es: seq<Event>, e: Event)
    requires e.Lookup? && !e.returnStale
    requires var c := NewConfig(capacity, ttl, staleTtl, ttlFromResp, ttlMax); Result(c, Run(c, map[], es), e).Some?
    ensures var o := Origin(NewConfig(capacity, ttl, staleTtl, ttlFromResp, ttlMax), es, e.key);
            && o >= 0
            && (!ttlFromResp ==> forall d :: IsDuration(d, ttl) ==> e.seen.valid < es[o].at.expBase + d)
            && (ttlFromResp ==> forall s ::
                  Clamped(s, es[o].msg.answer, ttl % 0x1_0000_0000, ttlMax % 0x1_0000_0000) ==>
                  e.seen.valid < es[o].at.expBase + s * 1_000_000_000)
  {
    var c := NewConfig(capacity, ttl, staleTtl, ttlFromResp, ttlMax);
    LookupReturnsLatestInsertion(c, es, e);
    NewConfigExactly(capacity, ttl, staleTtl, ttlFromResp, ttlMax);
    forall d | IsDuration(d, ttl) ensures d == c.ttl {
      OneDuration(d, c.ttl, ttl);
    }
    var msg := es[Origin(c, es, e.key)].msg;
    assert forall s :: Clamped(s, msg.answer, ttl % 0x1_0000_0000, ttlMax % 0x1_0000_0000) && ttlFromResp ==>
        Lives(c, msg, s * 1_000_000_000);
  }

  /** The answers that lookups got from the entry since the call at `from`: while it was valid, or stale. */
  function Answers(c: Config, es: seq<Event>, key: string, from: int, stale: bool): nat {
    if |es| - 1 <= from || es == [] then 0
    else
      var before, e := es[..|es| - 1], es[|es| - 1];
      var m := Run(c, map[], before);
      Answers(c, before, key, from, stale)
      + if e.Lookup? && e.key == key && key in m && Result(c, m, e).Some?
           && stale == (e.seen.valid >= m[key].expiration) then 1 else 0
  }

  /** The counters of an entry tell how many lookups it answered while valid and how many while stale. */
  lemma {:induction false} HitsAreCounted(c: Config, es: seq<Event>, key: string)
    requires key in Run(c, map[], es)
    ensures Run(c, map[], es)[key].hits == Answers(c, es, key, Origin(c, es, key), false)
    ensures Run(c, map[], es)[key].staleHits == Answers(c, es, key, Origin(c, es, key), true)
  {
    var before, e := es[..|es| - 1], es[|es| - 1];
    var m := Run(c, map[], before);
    if e.Insert? && e.key == key && Accepts(c, m, key, e.at) {
    } else {
      StepStaysGone(c, m, e, key);
      HitsAreCounted(c, before, key);
      StepCounts(c, m, e, key);
    }
  }

  lemma StepCounts(c: Config, m: View, e: Event, key: string)
    requires key in m && key in Next(c, m, e)
    requires !(e.Insert? && e.key == key && Accepts(c, m, key, e.at))
    ensures var answered := e.Lookup? && e.key == key && Result(c, m, e).Some?;
            var stale := answered && e.seen.valid >= m[key].expiration;
            && Next(c, m, e)[key].hits == m[key].hits + (if answered && !stale then 1 else 0)
            && Next(c, m, e)[key].staleHits == m[key].staleHits + (if stale then 1 else 0)
  {
  }

  /** One more call of a run. */
  lemma {:induction false} PrefixStep(c: Config, es: seq<Event>, j: nat, key: string)
    requires j < |es|
    ensures Run(c, map[], es[..j + 1]) == Next(c, Run(c, map[], es[..j]), es[j])
    ensures Origin(c, es[..j + 1], key)
         == if es[j].Insert? && es[j].key == key && Accepts(c, Run(c, map[], es[..j]), key, es[j].at) then j
            else Origin(c, es[..j], key)
  {
    var now := es[..j + 1];
    assert now[..j] == es[..j] && now[j] == es[j];
  }

  /** A key that left the cache after `i` calls comes back only by an insertion accepted later. */
  lemma {:induction false} GoneStaysGone(c: Config, es: seq<Event>, i: nat, key: string)
    requires i <= |es| && key !in Run(c, map[], es[..i])
    requires Origin(c, es[..i], key) == Origin(c, es, key)
    ensures key !in Run(c, map[], es)
    decreases |es|
  {
    if i == |es| {
      assert es[..i] == es;
    } else {
      var before, e := es[..|es| - 1], es[|es| - 1];
      assert before[..i] == es[..i];
      StepStaysGone(c, Run(c, map[], before), e, key);
      GoneStaysGone(c, before, i, key);
    }
  }

  lemma GoneInPrefix(c: Config, es: seq<Event>, i: nat, n: nat, key: string)
    requires i <= n <= |es| && key !in Run(c, map[], es[..i])
    requires Origin(c, es[..i], key) == Origin(c, es[..n], key)
    ensures key !in Run(c, map[], es[..n])
  {
    var prefix := es[..n];
    assert prefix[..i] == es[..i];
    GoneStaysGone(c, prefix, i, key);
  }

  lemma StepStaysGone(c: Config, m: View, e: Event, key: string)
    ensures key !in m && !(e.Insert? && e.key == key && Accepts(c, m, key, e.at)) ==> key !in Next(c, m, e)
  {
  }

  lemma LateLookupRemoves(c: Config, m: View, e: Event)
    requires e.Lookup? && Result(c, m, e).Some? && e.seen.gone > m[e.key].staleExpiration
    ensures e.key !in Next(c, m, e)
  {
  }

  /** Over every run one accepted insertion answers at most one lookup past its stale deadline: a
      lookup that saw the deadline passed is the last one that this insertion answers. */
  lemma {:induction false} AtMostOneAnswerPastStale(c: Config, es: seq<Event>, i: nat, j: nat)
    requires i < j < |es| && es[i].Lookup? && es[j].Lookup? && es[i].key == es[j].key
    requires Result(c, Run(c, map[], es[..i]), es[i]).Some? && Result(c, Run(c, map[], es[..j]), es[j]).Some?
    requires Origin(c, es[..i], es[i].key) == Origin(c, es[..j], es[i].key)
    ensures var o := Origin(c, es[..i], es[i].key);
            o >= 0 && es[i].seen.gone <= es[o].at.staleBase + c.staleTtl
  {
    var key := es[i].key;
    var o := Origin(c, es[..i], key);
    EntryComesFromOrigin(c, es[..i], key);
    if es[i].seen.gone > es[o].at.staleBase + c.staleTtl {
      PrefixStep(c, es, i, key);
      LateLookupRemoves(c, Run(c, map[], es[..i]), es[i]);
      GoneInPrefix(c, es, i + 1, j, key);
    }
  }

  // ---------- Time ----------

  predicate Ordered(e: Event) {
    match e
    case Insert(_, _, at, _) => at.renewExp <= at.renewStale <= at.expBase <= at.staleBase <= at.evict
    case Lookup(_, _, _, _, at) => at.valid <= at.gone
    case Delete(_) => true
  }

  function FirstReading(e: Event, default: Time): Time {
    match e
    case Insert(_, _, at, _) => at.renewExp
    case Lookup(_, _, _, _, at) => at.valid
    case Delete(_) => default
  }

  function LastReading(e: Event, default: Time): Time {
    match e
    case Insert(_, _, at, _) => at.evict
    case Lookup(_, _, _, _, at) => at.gone
    case Delete(_) => default
  }

  /** The clock after a run that began at `t`. */
  function Clock(t: Time, es: seq<Event>): Time {
    if es == [] then t else LastReading(es[|es| - 1], Clock(t, es[..|es| - 1]))
  }

  /** No reading of the clock is earlier than the one before it. */
  predicate Timed(t: Time, es: seq<Event>) {
    es == [] ||
    var before, e := es[..|es| - 1], es[|es| - 1];
    Timed(t, before) && Ordered(e) && Clock(t, before) <= FirstReading(e, Clock(t, before))
  }

  /** The key is neither removed by a caller nor chosen for eviction. */
  predicate Undisturbed(c: Config, m: View, es: seq<Event>, key: string) {
    es == [] ||
    var before, e := es[..|es| - 1], es[|es| - 1];
    && Undisturbed(c, m, before, key)
    && (e.Delete? ==> e.key != key)
    && (e.Insert? && c.capacity > 0 && |Stored(c, Run(c, m, before), e.key, e.msg, e.at)| == c.capacity ==>
          e.victim != key)
  }

  predicate SameEntry(a: Elem<Msg>, b: Elem<Msg>) {
    a.expiration == b.expiration && a.staleExpiration == b.staleExpiration && a.msg == b.msg
  }

  /** Deadlines and message of an entry change only by an accepted insertion under its key. */
  lemma StepKeepsEntry(c: Config, m: View, e: Event, key: string)
    requires key in m && key in Next(c, m, e)
    requires !(e.Insert? && e.key == key && Accepts(c, m, key, e.at))
    ensures SameEntry(m[key], Next(c, m, e)[key])
  {
  }

  /** While the clock is before both deadlines an undisturbed entry stays. */
  lemma {:induction false} FreshEntryStays(c: Config, m: View, es: seq<Event>, key: string, t: Time)
    requires key in m && Timed(t, es) && Undisturbed(c, m, es, key)
    requires Clock(t, es) < m[key].expiration <= m[key].staleExpiration + 1
    ensures t <= Clock(t, es)
    ensures key in Run(c, m, es) && SameEntry(m[key], Run(c, m, es)[key])
  {
    if es != [] {
      var before, e := es[..|es| - 1], es[|es| - 1];
      assert Clock(t, before) <= Clock(t, es);
      FreshEntryStays(c, m, before, key, t);
      StepKeepsFresh(c, Run(c, m, before), e, key, Clock(t, es));
    }
  }

  lemma StepKeepsFresh(c: Config, m: View, e: Event, key: string, now: Time)
    requires key in m && now < m[key].expiration <= m[key].staleExpiration + 1
    requires Ordered(e) && (e.Delete? || LastReading(e, now) <= now)
    requires e.Delete? ==> e.key != key
    requires e.Insert? && c.capacity > 0 && |Stored(c, m, e.key, e.msg, e.at)| == c.capacity ==> e.victim != key
    ensures key in Next(c, m, e) && SameEntry(m[key], Next(c, m, e)[key])
  {
  }

  /** An insertion of `msg`, which lives for `t`, under a key is accepted and kept; afterwards the entry
      is undisturbed and some time before its expiration a lookup asks for it. */
  ghost predicate AskedInTime(c: Config, msg: Msg, t: Time, m: View, e: Event, between: seq<Event>, ask: Event) {
    && e.Insert? && e.msg == msg && Ordered(e)
    && Accepts(c, m, e.key, e.at) && e.key in Next(c, m, e)
    && Timed(e.at.evict, between) && Undisturbed(c, Next(c, m, e), between, e.key)
    && ask.Lookup? && ask.key == e.key && Ordered(ask)
    && Clock(e.at.evict, between) <= ask.seen.valid < e.at.expBase + t
  }

  ghost predicate Answered(c: Config, m: View, e: Event, between: seq<Event>, ask: Event)
    requires e.Insert? && ask.Lookup?
  {
    var r := Result(c, Run(c, Next(c, m, e), between), ask);
    r.Some? && IsCopyFor(r.value, e.msg, ask.id)
  }

  /** Every lookup before expiration is answered. */
  ghost predicate ServesUntilExpiry(c: Config, msg: Msg, t: Time) {
    forall m: View, e: Event, between: seq<Event>, ask: Event ::
      AskedInTime(c, msg, t, m, e, between, ask) ==> Answered(c, m, e, between, ask)
  }

  /** A cached response answers every lookup before its expiration exactly when stale retention
      lasts at least as long as its lifetime (up to the last nanosecond), because a hit removes an
      entry past its stale deadline even while it is valid. */
  lemma ServesUntilExpiryExactly(c: Config, msg: Msg, t: Time)
    requires c.capacity >= 2 && Lives(c, msg, t)
    ensures ServesUntilExpiry(c, msg, t) <==> t <= 0 || t <= c.staleTtl + 1
  {
    OneLifetime(c, msg);
    if t <= 0 || t <= c.staleTtl + 1 {
      forall m: View, e: Event, between: seq<Event>, ask: Event | AskedInTime(c, msg, t, m, e, between, ask)
        ensures Answered(c, m, e, between, ask)
      {
        EntryAnswers(c, msg, t, m, e, between, ask);
      }
    } else {
      EarlyRemoval(c, msg, t);
    }
  }

  lemma EntryAnswers(c: Config, msg: Msg, t: Time, m: View, e: Event, between: seq<Event>, ask: Event)
    requires AskedInTime(c, msg, t, m, e, between, ask) && t == EffectiveTtl(c, msg)
    requires t <= 0 || t <= c.staleTtl + 1
    ensures Answered(c, m, e, between, ask)
  {
    var after := Next(c, m, e);
    assert after[e.key] == NewElem(c, e.msg, e.msg, e.at);
    ClockAdvances(e.at.evict, between);
    FreshEntryStays(c, after, between, e.key, e.at.evict);
  }

  lemma {:induction false} ClockAdvances(t: Time, es: seq<Event>)
    requires Timed(t, es)
    ensures t <= Clock(t, es)
  {
    if es != [] {
      ClockAdvances(t, es[..|es| - 1]);
    }
  }

  /** The first lookup past the stale deadline takes the valid entry away from the second. */
  lemma EarlyRemoval(c: Config, msg: Msg, t: Time)
    requires c.capacity >= 2 && Lives(c, msg, t) && t > 0 && t > c.staleTtl + 1
    ensures !ServesUntilExpiry(c, msg, t)
  {
    OneLifetime(c, msg);
    var late := if c.staleTtl + 1 < 0 then 0 else c.staleTtl + 1;
    var e := Insert("k", msg, InsertClock(0, 0, 0, 0, 0), "k");
    var hit := Lookup("k", 0, false, false, HitClock(late, late));
    var m: View := map[];
    var after := Next(c, m, e);
    FirstInsertion(c, e);
    assert [hit][..0] == [];
    assert Run(c, after, [hit]) == Next(c, after, hit) == map[];
    assert Timed(0, [hit][..0]) && Clock(0, [hit][..0]) == 0;
    assert Timed(0, [hit]) && Clock(0, [hit]) == late;
    assert Undisturbed(c, after, [hit][..0], "k");
    assert AskedInTime(c, msg, t, m, e, [hit], hit);
    assert !Answered(c, m, e, [hit], hit);
  }

  // ---------- Stale answers ----------

  /** After a timed run a lookup hands out an entry that it sees expired. */
  ghost predicate StaleAnswer(c: Config, t: Time, es: seq<Event>, e: Event) {
    && FeasibleRun(c, map[], es) && Timed(t, es) && e.Lookup? && Ordered(e) && Clock(t, es) <= e.seen.valid
    && var m := Run(c, map[], es);
    Result(c, m, e).Some? && m[e.key].expiration <= e.seen.valid
  }

  /** No stale answer is given that saw the stale deadline passed. */
  ghost predicate NeverPastStale(c: Config) {
    forall t: Time, es: seq<Event>, e: Event :: StaleAnswer(c, t, es, e) ==>
      e.seen.gone <= Run(c, map[], es)[e.key].staleExpiration
  }

  /** Stale entries are kept to their deadline only by a cache that keeps nothing at all. */
  lemma NeverPastStaleExactly(c: Config)
    ensures NeverPastStale(c) <==> c.capacity <= 1
  {
    if c.capacity <= 1 {
      forall t: Time, es: seq<Event>, e: Event ensures !StaleAnswer(c, t, es, e) {
        if FeasibleRun(c, map[], es) {
          SizeUnderCapacity(c, es);
          assert |Run(c, map[], es)| <= 0;
        }
      }
    } else {
      AnswerPastStale(c, EMPTY_MSG);
    }
  }

  /** One insertion and, past both deadlines, one lookup that asks for stale entries. */
  lemma AnswerPastStale(c: Config, msg: Msg)
    requires c.capacity >= 2
    ensures !NeverPastStale(c)
  {
    var ttl := EffectiveTtl(c, msg);
    var late := if c.staleTtl + 1 < ttl then ttl else c.staleTtl + 1;
    var now := if late < 0 then 0 else late;
    var e := Insert("k", msg, InsertClock(0, 0, 0, 0, 0), "k");
    var ask := Lookup("k", 0, true, true, HitClock(now, now));
    FirstInsertion(c, e);
    assert Timed(0, [e][..0]) && Clock(0, [e][..0]) == 0;
    assert StaleAnswer(c, 0, [e], ask);
    assert Run(c, map[], [e])[e.key].staleExpiration < ask.seen.gone;
  }

  /** The first insertion into an empty cache that can hold it. */
  lemma FirstInsertion(c: Config, e: Event)
    requires c.capacity >= 2 && e.Insert?
    ensures FeasibleRun(c, map[], [e]) && Run(c, map[], [e]) == Next(c, map[], e)
    ensures Next(c, map[], e) == map[e.key := NewElem(c, e.msg, e.msg, e.at)]
  {
    assert [e][..0] == [];
    assert Stored(c, map[], e.key, e.msg, e.at) == map[e.key := NewElem(c, e.msg, e.msg, e.at)];
  }

  /** Whether a request is offered the entry it found expired depends on stale retention being on and
      on nothing else: the stale deadline plays no part. */
  lemma StaleOfferedExactly(c: Config, m: View, key: string, id: uint16, keepStale: bool, t1: HitClock, t2: HitClock)
    requires c.capacity > 0 && key in m && m[key].expiration <= t1.valid
    ensures var offered := Result(c, Next(c, m, Lookup(key, id, keepStale, false, t1)),
                                  Lookup(key, id, keepStale, true, t2));
            && (offered.Some? <==> keepStale)
            && (keepStale ==> IsCopyFor(offered.value, m[key].msg, id))
  {
  }

  // ---------- Refreshing an expired entry ----------

  /** One request looks an expired entry up without and then with stale entries, and stores the
      new answer.  The answer is stored exactly when retention is off, or the second lookup saw the
      stale deadline passed, or the insertion sees the entry expired but not yet past that deadline. */
  lemma RefreshExactly(c: Config, m: View, key: string, id: uint16, keepStale: bool,
                       t1: HitClock, t2: HitClock, at: InsertClock)
    requires c.capacity > 0 && key in m
    requires m[key].expiration <= t1.valid && m[key].expiration <= t2.valid
    ensures var m1 := Next(c, m, Lookup(key, id, keepStale, false, t1));
            var m2 := Next(c, m1, Lookup(key, id, keepStale, true, t2));
            Accepts(c, m2, key, at) <==>
              || !keepStale
              || t2.gone > m[key].staleExpiration
              || (at.renewExp > m[key].expiration && at.renewStale < m[key].staleExpiration)
  {
  }
}
