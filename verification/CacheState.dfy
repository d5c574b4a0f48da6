/** cache/cache.go and cache/hit.go as a state machine: what each call does to the stored
    entries.  Every reading of the clock is a field of the event that makes it. */
module CacheState {
  import opened Dns
  import opened Seals
  import opened Options

  type Time = int  // nanoseconds
  const SECOND: Time := 1_000_000_000

  function Int64(x: int): int {
    (x + 0x8000_0000_0000_0000) % 0x1_0000_0000_0000_0000 - 0x8000_0000_0000_0000
  }

  function Duration(seconds: int): Time {
    Int64(seconds * SECOND)
  }

  datatype Config = Config(
    capacity: int, ttl: Time, staleTtl: Time, ttlFromResp: bool,
    ttlMinSeconds: uint32, ttlMaxSeconds: uint32)

  function NewConfig(capacity: int, ttl: int, staleTtl: int, ttlFromResp: bool, ttlMax: int): Config {
    Config(capacity, Duration(ttl), Duration(staleTtl), ttlFromResp,
           ttl % 0x1_0000_0000, ttlMax % 0x1_0000_0000)
  }

  /** A stored element; `M` is the message, or a pointer to it. */
  datatype Elem<M> = Elem(
    expiration: Time, msg: M, staleExpiration: Time, hits: nat, staleHits: nat, ttlSeconds: uint32)

  type View = map<string, Elem<Msg>>

  // ---------- Lifetime of a response ----------

  function MinTtl(answers: seq<RR>): (ttl: uint32)
    requires answers != []
    ensures forall a | a in answers :: ttl <= a.ttl
    ensures exists a | a in answers :: ttl == a.ttl
  {
    if |answers| == 1 then assert answers[0] in answers; answers[0].ttl
    else
      var rest := MinTtl(answers[1..]);
      assert forall a | a in answers :: a == answers[0] || a in answers[1..];
      if answers[0].ttl <= rest then answers[0].ttl else rest
  }

  function LowestTtl(msg: Msg, min: uint32, max: uint32): uint32 {
    var value := if msg.answer == [] then 0 else MinTtl(msg.answer);
    if value < min then min else if value > max then max else value
  }

  /** Between its bounds the lifetime is the lowest TTL of the answers; a response without answers
      lives for the lower bound.  Bounds the wrong way round, which the configuration allows, turn
      it over: the upper one for answers that all reach the lower one, and that one for any other. */
  lemma LowestTtlIsClamped(msg: Msg, min: uint32, max: uint32)
    ensures var ttl := LowestTtl(msg, min, max);
            var reach := msg.answer != [] && forall a | a in msg.answer :: a.ttl >= min;
            && (min <= max ==> min <= ttl <= max && (!reach ==> ttl == min))
            && (min <= max && reach && (exists a :: a in msg.answer && a.ttl <= max) ==>
                  && (forall a | a in msg.answer :: ttl <= a.ttl)
                  && (exists a :: a in msg.answer && ttl == a.ttl))
            && (min <= max && reach && (forall a | a in msg.answer :: a.ttl > max) ==> ttl == max)
            && (max < min ==> ttl == if reach then max else min)
  {
  }

  /** With the lower bound 60 and the upper bound 0 a TTL of 10 lives for 60 s and one of 1000 for none. */
  lemma OverturnedBounds()
    ensures forall msg: Msg, a: RR | msg.answer == [a] ::
              && (a.ttl == 10 ==> LowestTtl(msg, 60, 0) == 60)
              && (a.ttl == 1000 ==> LowestTtl(msg, 60, 0) == 0)
  {
    forall msg: Msg, a: RR | msg.answer == [a]
      ensures MinTtl(msg.answer) == a.ttl
    {
    }
  }

  function EffectiveTtl(c: Config, msg: Msg): Time {
    if c.ttlFromResp then LowestTtl(msg, c.ttlMinSeconds, c.ttlMaxSeconds) * SECOND else c.ttl
  }

  // ---------- Lifetimes, without the functions that compute them ----------

  /** `d` is the number of seconds as nanoseconds, wrapped to 64 bits. */
  ghost predicate IsDuration(d: Time, seconds: int) {
    -0x8000_0000_0000_0000 <= d < 0x8000_0000_0000_0000 && (d - seconds * 1_000_000_000) % 0x1_0000_0000_0000_0000 == 0
  }

  /** `s` is the lower bound unless there are answers that all reach it, then the upper bound if they
      all pass that, and else the lowest TTL. */
  ghost predicate Clamped(s: int, answers: seq<RR>, min: int, max: int) {
    if answers == [] || exists a :: a in answers && a.ttl < min then s == min
    else if forall a | a in answers :: a.ttl > max then s == max
    else (forall a | a in answers :: s <= a.ttl) && exists a :: a in answers && s == a.ttl
  }

  /** A message stored under the configuration lives for `t`. */
  ghost predicate Lives(c: Config, msg: Msg, t: Time) {
    if c.ttlFromResp then exists s :: Clamped(s, msg.answer, c.ttlMinSeconds, c.ttlMaxSeconds) && t == s * 1_000_000_000
    else t == c.ttl
  }

  /** Every message has exactly one lifetime. */
  lemma OneLifetime(c: Config, msg: Msg)
    ensures Lives(c, msg, EffectiveTtl(c, msg))
    ensures forall t :: Lives(c, msg, t) ==> t == EffectiveTtl(c, msg)
  {
    LowestTtlIsClamped(msg, c.ttlMinSeconds, c.ttlMaxSeconds);
    var lowest: int := LowestTtl(msg, c.ttlMinSeconds, c.ttlMaxSeconds);
    assert Clamped(lowest, msg.answer, c.ttlMinSeconds, c.ttlMaxSeconds);
  }

  /** What the arguments of a new cache come to. */
  lemma NewConfigExactly(capacity: int, ttl: int, staleTtl: int, ttlFromResp: bool, ttlMax: int)
    ensures var c := NewConfig(capacity, ttl, staleTtl, ttlFromResp, ttlMax);
            && c.capacity == capacity && c.ttlFromResp == ttlFromResp
            && IsDuration(c.ttl, ttl) && IsDuration(c.staleTtl, staleTtl)
            && (c.ttlMinSeconds - ttl) % 0x1_0000_0000 == 0 && (c.ttlMaxSeconds - ttlMax) % 0x1_0000_0000 == 0
  {
    WrapsOnce(ttl * SECOND);
    WrapsOnce(staleTtl * SECOND);
    LowBits(ttl);
    LowBits(ttlMax);
  }

  lemma WrapsOnce(x: int)
    ensures -0x8000_0000_0000_0000 <= Int64(x) < 0x8000_0000_0000_0000
    ensures (Int64(x) - x) % 0x1_0000_0000_0000_0000 == 0
  {
  }

  lemma LowBits(x: int)
    ensures (x % 0x1_0000_0000 - x) % 0x1_0000_0000 == 0
  {
  }

  /** A number of seconds is one duration only. */
  lemma OneDuration(d: Time, e: Time, seconds: int)
    requires IsDuration(d, seconds) && IsDuration(e, seconds)
    ensures d == e
  {
    SameResidue(d, e, seconds * 1_000_000_000);
  }

  lemma SameResidue(d: int, e: int, x: int)
    requires -0x8000_0000_0000_0000 <= d < 0x8000_0000_0000_0000 && (d - x) % 0x1_0000_0000_0000_0000 == 0
    requires -0x8000_0000_0000_0000 <= e < 0x8000_0000_0000_0000 && (e - x) % 0x1_0000_0000_0000_0000 == 0
    ensures d == e
  {
  }

  // ---------- Calls and their effect ----------

  /** The readings of one InsertMessage call, in the order of the code. */
  datatype InsertClock = InsertClock(
    renewExp: Time, renewStale: Time, expBase: Time, staleBase: Time, evict: Time)

  /** The readings of one Hit call: for `valid`, and for the removal test. */
  datatype HitClock = HitClock(valid: Time, gone: Time)

  datatype Event =
    | Insert(key: string, msg: Msg, at: InsertClock, victim: string)  // victim: first key of the map walk
    | Lookup(key: string, id: uint16, keepStale: bool, returnStale: bool, seen: HitClock)
    | Delete(key: string)

  predicate Renews(e: Elem<Msg>, at: InsertClock) {
    at.renewExp > e.expiration && at.renewStale < e.staleExpiration
  }

  predicate Accepts(c: Config, m: View, key: string, at: InsertClock) {
    c.capacity > 0 && (key !in m || Renews(m[key], at))
  }

  function NewElem<M>(c: Config, msg: Msg, stored: M, at: InsertClock): Elem<M> {
    Elem(at.expBase + EffectiveTtl(c, msg), stored, at.staleBase + c.staleTtl, 0, 0,
         if c.ttlFromResp then LowestTtl(msg, c.ttlMinSeconds, c.ttlMaxSeconds) else 0)
  }

  function Stored(c: Config, m: View, key: string, msg: Msg, at: InsertClock): View {
    if Accepts(c, m, key, at) then m[key := NewElem(c, msg, msg, at)] else m
  }

  function Evicted(c: Config, m: View, victim: string): View {
    if |m| == c.capacity then m - {victim} else m
  }

  function Touched<M>(e: Elem<M>, valid: bool): Elem<M> {
    if valid then e.(hits := e.hits + 1) else e.(staleHits := e.staleHits + 1)
  }

  function AfterLookup(c: Config, m: View, key: string, keepStale: bool, returnStale: bool, at: HitClock): View {
    if c.capacity <= 0 || key !in m then m
    else
      var e := m[key];
      var valid := at.valid < e.expiration;
      if valid || returnStale then
        if at.gone > e.staleExpiration then m - {key} else m[key := Touched(e, valid)]
      else if keepStale then m else m - {key}
  }

  function Next(c: Config, m: View, e: Event): View {
    match e
    case Insert(key, msg, at, victim) =>
      if c.capacity <= 0 then m else Evicted(c, Stored(c, m, key, msg, at), victim)
    case Lookup(key, _, keepStale, returnStale, at) => AfterLookup(c, m, key, keepStale, returnStale, at)
    case Delete(key) => m - {key}
  }

  /** The message a lookup hands out. */
  function Result(c: Config, m: View, e: Event): Option<Msg>
    requires e.Lookup?
  {
    if c.capacity <= 0 || e.key !in m then None
    else
      var x := m[e.key];
      if e.seen.valid < x.expiration || e.returnStale then Some(Served(x.msg, e.id)) else None
  }

  function Served(m: Msg, id: uint16): Msg {
    m.(hdr := m.hdr.(id := id, truncated := false), compress := true)
  }

  /** The message with the id, the compression flag and the TC bit set anew, and nothing else changed. */
  predicate IsCopyFor(r: Msg, m: Msg, id: uint16) {
    && r.question == m.question && r.answer == m.answer && r.ns == m.ns && r.extra == m.extra
    && r.compress && r.hdr.id == id && !r.hdr.truncated
    && r.hdr.(id := m.hdr.id, truncated := m.hdr.truncated) == m.hdr
  }

  /** The victim of an eviction is one of the stored keys. */
  predicate Feasible(c: Config, m: View, e: Event) {
    e.Insert? && c.capacity > 0 ==>
      var s := Stored(c, m, e.key, e.msg, e.at);
      |s| == c.capacity ==> e.victim in s
  }

  // ---------- Runs ----------

  function Run(c: Config, m: View, es: seq<Event>): View {
    if es == [] then m else Next(c, Run(c, m, es[..|es| - 1]), es[|es| - 1])
  }

  predicate FeasibleRun(c: Config, m: View, es: seq<Event>) {
    es == [] ||
    (FeasibleRun(c, m, es[..|es| - 1]) && Feasible(c, Run(c, m, es[..|es| - 1]), es[|es| - 1]))
  }

  lemma RunAppend(c: Config, m: View, es: seq<Event>, e: Event)
    requires FeasibleRun(c, m, es) && Feasible(c, Run(c, m, es), e)
    ensures FeasibleRun(c, m, es + [e]) && Run(c, m, es + [e]) == Next(c, Run(c, m, es), e)
  {
    assert (es + [e])[..|es|] == es;
  }

  /** The view is what the run leaves behind (sealed). */
  ghost predicate Explains(c: Config, es: seq<Event>, v: View) {
    forall b: bool :: Unseal(b) ==> FeasibleRun(c, map[], es) && v == Run(c, map[], es)
  }

  lemma ExplainsNext(c: Config, es: seq<Event>, v: View, e: Event)
    requires Explains(c, es, v) && Feasible(c, v, e)
    ensures Explains(c, es + [e], Next(c, v, e))
  {
    assert Unseal(true);
    RunAppend(c, map[], es, e);
  }
}
