/** Keys and runs together: a cached answer never reaches a different question. */
module CacheIdentity {
  import opened Dns
  import opened Options
  import opened CacheState
  import opened CacheRuns
  import opened CacheKey

  /** Every insertion of the run was made for the subject listed beside it. */
  predicate MadeFor(es: seq<Event>, subjects: seq<Subject>) {
    && |subjects| == |es|
    && forall i | 0 <= i < |es| && es[i].Insert? :: es[i].key == KeyOf(subjects[i])
  }

  /** A subject whose key no other well-formed subject shares. */
  predicate Proper(s: Subject) {
    WellFormedName(s.name) && s.qtype != 0xFFFE
  }

  /** A lookup is answered from the latest insertion accepted for the very same name, type, DNSSEC
      flag and transport, whatever else the run inserted. */
  lemma HitsDoNotCross(c: Config, es: seq<Event>, subjects: seq<Subject>, e: Event, asker: Subject)
    requires MadeFor(es, subjects) && (forall s | s in subjects :: Proper(s)) && Proper(asker)
    requires e.Lookup? && e.key == KeyOf(asker)
    requires Result(c, Run(c, map[], es), e).Some?
    ensures var o := Origin(c, es, e.key);
            && o >= 0 && subjects[o] == asker
            && IsCopyFor(Result(c, Run(c, map[], es), e).value, es[o].msg, e.id)
  {
    LookupReturnsLatestInsertion(c, es, e);
    var o := Origin(c, es, e.key);
    assert subjects[o] in subjects;
    KeysMeetExactly(subjects[o], asker);
  }
}
