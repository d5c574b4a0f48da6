/** server/msg.go: cutting a message down to a size. */
module Fitting {
  import opened Dns

  /** The length of a packed message (`Msg.Len`). */
  type Length = Msg -> nat

  // ---------- What the search computes, for any length function ----------

  function DropExtra(len: Length, m: Msg, size: int): Msg {
    if len(m) > size then m.(extra := []) else m
  }

  function Cut(m: Msg, k: nat): Msg
    requires k <= |m.answer|
  {
    m.(answer := m.answer[..k])
  }

  /** The value at which the two bounds of the search meet. */
  function Meet(len: Length, m: Msg, size: int, min: nat, max: nat): (k: nat)
    requires min <= max <= |m.answer|
    ensures min <= k <= max
    decreases max - min
  {
    if min == max then max
    else
      var mid := (min + max) / 2;
      if len(Cut(m, mid)) < size then Meet(len, m, size, min + 1, max) else Meet(len, m, size, min, mid)
  }

  function Kept(len: Length, m: Msg, size: int): (k: nat)
    ensures k <= |m.answer|
  {
    var k := Meet(len, m, size, 0, |m.answer|);
    if k > 1 then k - 1 else k
  }

  datatype Fitted = Fitted(msg: Msg, overflow: bool)

  function FitOf(len: Length, m: Msg, size: int, tcp: bool): Fitted {
    var d := DropExtra(len, m, size);
    if len(d) < size then Fitted(d, false)
    else
      var t := if tcp then d else d.WithTruncated(true);
      Fitted(Cut(t, Kept(len, t, size)), true)
  }

  /** A message that is longer than the size loses its additional section, and no other does.  It
      overflows when it is then not under the size: only then may answers go, from the end, and on UDP
      the TC bit is set.  Nothing else changes. */
  lemma FitKeepsTheRest(len: Length, m: Msg, size: int, tcp: bool)
    ensures var f := FitOf(len, m, size, tcp);
            var whole := if len(m) > size then m.(extra := []) else m;
            && (f.overflow <==> len(whole) >= size)
            && (!f.overflow ==> f.msg == whole)
            && f.msg == whole.(answer := f.msg.answer,
                               hdr := m.hdr.(truncated := m.hdr.truncated || (f.overflow && !tcp)))
            && f.msg.answer <= m.answer
  {
  }

  method Fit(len: Length, m: MsgPtr, size: int, tcp: bool) returns (overflow: bool)
    modifies m
    ensures Fitted(m.msg, overflow) == FitOf(len, old(m.msg), size, tcp)
  {
    if len(m.msg) > size {
      m.msg := m.msg.(extra := []);
    }
    if len(m.msg) < size {
      return false;
    }
    if !tcp {
      m.msg := m.msg.WithTruncated(true);
    }
    Shrink(len, m, size);
    return true;
  }

  /** The search: the lower bound creeps up by one, the upper one jumps to the middle. */
  method Shrink(len: Length, m: MsgPtr, size: int)
    modifies m
    ensures m.msg == Cut(old(m.msg), Kept(len, old(m.msg), size))
  {
    var min, max := 0, |m.msg.answer|;
    ghost var whole := m.msg;
    var original := m.msg.answer;
    while min != max
      invariant 0 <= min <= max <= |original|
      invariant m.msg == whole.(answer := m.msg.answer)
      invariant Meet(len, whole, size, 0, |original|) == Meet(len, whole, size, min, max)
      decreases max - min
    {
      var mid := (min + max) / 2;
      m.msg := m.msg.(answer := original[..mid]);
      assert m.msg == Cut(whole, mid);
      if len(m.msg) < size {
        min := min + 1;
        continue;
      }
      max := mid;
    }
    if max > 1 {
      max := max - 1;
    }
    // A Go slice may be cut beyond its length up to its capacity, which is that of `original`.
    m.msg := m.msg.(answer := original[..max]);
  }

  // ---------- What that means when more answers are never shorter ----------

  ghost predicate GrowsWithAnswers(len: Length) {
    && (forall m: Msg, i: nat, j: nat | i <= j <= |m.answer| ::
          len(m.(answer := m.answer[..i])) <= len(m.(answer := m.answer[..j])))
    && (forall m: Msg, b: bool :: len(m.WithTruncated(b)) == len(m))
  }

  /** `p` is the least number of answers with which the message is not under the size. */
  ghost predicate LeastOver(len: Length, m: Msg, size: int, p: nat) {
    && p <= |m.answer|
    && len(m.(answer := m.answer[..p])) >= size
    && forall i: nat | i < p :: len(m.(answer := m.answer[..i])) < size
  }

  lemma {:induction false} MeetIsLeastOver(len: Length, m: Msg, size: int, min: nat, max: nat)
    requires GrowsWithAnswers(len)
    requires min <= max <= |m.answer|
    requires len(Cut(m, max)) >= size
    requires forall i: nat | i < min :: len(m.(answer := m.answer[..i])) < size
    ensures LeastOver(len, m, size, Meet(len, m, size, min, max))
    decreases max - min
  {
    if min < max {
      var mid := (min + max) / 2;
      if len(Cut(m, mid)) < size {
        assert len(m.(answer := m.answer[..min])) <= len(m.(answer := m.answer[..mid]));
        MeetIsLeastOver(len, m, size, min + 1, max);
      } else {
        MeetIsLeastOver(len, m, size, min, mid);
      }
    }
  }

  lemma LeastOverUnique(len: Length, m: Msg, size: int, p: nat, q: nat)
    requires LeastOver(len, m, size, p) && LeastOver(len, m, size, q)
    ensures p == q
  {
  }

  lemma CutWhole(m: Msg)
    ensures m.(answer := m.answer[..|m.answer|]) == m
  {
    assert m.answer[..|m.answer|] == m.answer;
  }

  /** The TC bit plays no part in the search. */
  lemma SameLeast(len: Length, m: Msg, b: bool, size: int, p: nat)
    requires GrowsWithAnswers(len) && LeastOver(len, m.WithTruncated(b), size, p)
    ensures LeastOver(len, m, size, p)
  {
    forall i: nat | i <= p
      ensures len(m.(answer := m.answer[..i])) == len(m.WithTruncated(b).(answer := m.answer[..i]))
    {
      assert m.WithTruncated(b).(answer := m.answer[..i]) == m.(answer := m.answer[..i]).WithTruncated(b);
    }
  }

  /** On overflow the answers kept are the longest prefix under the size, or, when not even one
      answer fits, the shortest prefix that is over it. */
  lemma FitKeepsLongestPrefix(len: Length, m: Msg, size: int, tcp: bool) returns (p: nat)
    requires GrowsWithAnswers(len)
    requires FitOf(len, m, size, tcp).overflow
    ensures LeastOver(len, if len(m) > size then m.(extra := []) else m, size, p)
    ensures FitOf(len, m, size, tcp).msg.answer == m.answer[..if p >= 2 then p - 1 else p]
  {
    var d := DropExtra(len, m, size);
    var t := if tcp then d else d.WithTruncated(true);
    CutWhole(t);
    assert len(t) == len(d);
    MeetIsLeastOver(len, t, size, 0, |t.answer|);
    p := Meet(len, t, size, 0, |t.answer|);
    if !tcp {
      SameLeast(len, d, true, size, p);
    }
  }

  /** What is sent on overflow has the length of the message with that many answers. */
  lemma OverflowLength(len: Length, m: Msg, size: int, tcp: bool) returns (p: nat)
    requires GrowsWithAnswers(len)
    requires FitOf(len, m, size, tcp).overflow
    ensures var whole := if len(m) > size then m.(extra := []) else m;
            && LeastOver(len, whole, size, p)
            && FitOf(len, m, size, tcp).msg.answer == m.answer[..if p >= 2 then p - 1 else p]
            && len(FitOf(len, m, size, tcp).msg) == len(whole.(answer := m.answer[..if p >= 2 then p - 1 else p]))
  {
    p := FitKeepsLongestPrefix(len, m, size, tcp);
    var f := FitOf(len, m, size, tcp).msg;
    var whole := if len(m) > size then m.(extra := []) else m;
    FitKeepsTheRest(len, m, size, tcp);
    var short := whole.(answer := f.answer);
    assert f == short.WithTruncated(f.hdr.truncated);
  }

  /** An overflowing message comes back no longer than the size exactly when its first answer alone
      is no longer, or without any answer it has just that size. */
  lemma OverflowFitsExactly(len: Length, m: Msg, size: int, tcp: bool)
    requires GrowsWithAnswers(len)
    requires FitOf(len, m, size, tcp).overflow
    ensures var whole := if len(m) > size then m.(extra := []) else m;
            len(FitOf(len, m, size, tcp).msg) <= size <==>
            || (m.answer != [] && len(whole.(answer := m.answer[..1])) <= size)
            || len(whole.(answer := [])) == size
  {
    var whole := if len(m) > size then m.(extra := []) else m;
    var p := OverflowLength(len, m, size, tcp);
    assert m.answer[..0] == [];
    if p >= 2 {
      assert len(whole.(answer := whole.answer[..1])) < size;
    } else if m.answer != [] {
      assert len(whole.(answer := whole.answer[..p])) <= len(whole.(answer := whole.answer[..1]));
    }
  }

  /** A header of 12 and one answer of 10 do not fit 20, and are sent nevertheless. */
  lemma OverflowExample()
    ensures exists len: Length, m: Msg ::
              GrowsWithAnswers(len) && FitOf(len, m, 20, false).overflow && len(FitOf(len, m, 20, false).msg) == 22
  {
    var len: Length := (m: Msg) => 12 + 10 * |m.answer|;
    var m := EMPTY_MSG.(answer := [RR(".", TYPE_A, CLASS_INET, 0, "")]);
    assert GrowsWithAnswers(len);
    var p := OverflowLength(len, m, 20, false);
    assert p == 1;
  }

  /** A message that was cut once is left alone when it is cut again. */
  lemma FitIsIdempotent(len: Length, m: Msg, size: int, tcp: bool)
    requires GrowsWithAnswers(len)
    ensures FitOf(len, FitOf(len, m, size, tcp).msg, size, tcp).msg == FitOf(len, m, size, tcp).msg
  {
    var f := FitOf(len, m, size, tcp);
    FitKeepsTheRest(len, m, size, tcp);
    if f.overflow {
      OverflowIsStable(len, m, size, tcp, f.msg);
    }
  }

  lemma OverflowIsStable(len: Length, m: Msg, size: int, tcp: bool, f: Msg)
    requires GrowsWithAnswers(len)
    requires FitOf(len, m, size, tcp) == Fitted(f, true)
    ensures FitOf(len, f, size, tcp).msg == f
  {
    FitKeepsTheRest(len, m, size, tcp);
    FitKeepsTheRest(len, f, size, tcp);
    var whole := if len(m) > size then m.(extra := []) else m;
    var p := OverflowLength(len, m, size, tcp);
    if p >= 2 {
      assert len(whole.(answer := whole.answer[..p - 1])) < size;
    } else {
      CutWhole(whole);
      assert len(whole.(answer := whole.answer[..p])) <= len(whole.(answer := whole.answer[..|whole.answer|]));
      SecondCut(len, whole, f, size, tcp, p);
    }
  }

  /** A message that is at its least over the size keeps its answers. */
  lemma SecondCut(len: Length, m: Msg, f: Msg, size: int, tcp: bool, p: nat)
    requires GrowsWithAnswers(len) && LeastOver(len, m, size, p) && p <= 1
    requires f == m.(answer := m.answer[..p]).WithTruncated(f.hdr.truncated)
    requires FitOf(len, f, size, tcp).overflow && (len(f) > size ==> f.extra == [])
    ensures FitOf(len, f, size, tcp).msg.answer == f.answer
  {
    CutKeepsLeast(len, m, f, size, p);
    assert (if len(f) > size then f.(extra := []) else f) == f;
    var q := FitKeepsLongestPrefix(len, f, size, tcp);
    LeastOverUnique(len, f, size, p, q);
    CutWhole(f);
  }

  lemma CutKeepsLeast(len: Length, m: Msg, f: Msg, size: int, p: nat)
    requires GrowsWithAnswers(len) && LeastOver(len, m, size, p)
    requires f == m.(answer := m.answer[..p]).WithTruncated(f.hdr.truncated)
    ensures LeastOver(len, f, size, p)
  {
    forall i: nat | i <= p
      ensures len(f.(answer := f.answer[..i])) == len(m.(answer := m.answer[..i]))
    {
      assert f.answer[..i] == m.answer[..i];
      assert f.(answer := f.answer[..i]) == m.(answer := m.answer[..i]).WithTruncated(f.hdr.truncated);
    }
  }
}
