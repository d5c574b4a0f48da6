/** resolvconf/resolvconf.go: registering the server in the host's resolv.conf and undoing it. */
module ResolvConf {
  import opened GoStrings

  const COMMENT_ADD := "# added by go-dnsmasq"
  const COMMENT_OUT := "# disabled by go-dnsmasq #"

  // ---------- One line ----------

  /** A line with its line feed, or the rest of the text after the last one. */
  predicate Terminated(l: string) {
    l != [] && l[|l| - 1] == '\n' && '\n' !in l[..|l| - 1]
  }

  function Body(l: string): string {
    if l != [] && l[|l| - 1] == '\n' then l[..|l| - 1] else l
  }

  /** What the compiled pattern matches: a line whose text ends with the ADD marker. */
  predicate IsAdded(l: string) {
    HasSuffix(Body(l), COMMENT_ADD)
  }

  predicate IsNameserver(l: string) {
    HasPrefix(ToLower(TrimSpace(l)), "nameserver")
  }

  function DropLine(l: string): string {
    if IsAdded(l) then "" else l
  }

  function CommentLine(l: string): string {
    if IsNameserver(l) then COMMENT_OUT + " " + l else l
  }

  function UncommentLine(l: string): string {
    if Contains(l, COMMENT_OUT) then TrimLeftBlanks(ReplaceAll(l, COMMENT_OUT, "")) else l
  }

  function StoreLine(l: string): string { CommentLine(DropLine(l)) }
  function CleanLine(l: string): string { UncommentLine(DropLine(l)) }
  function RoundTripLine(l: string): string { CleanLine(StoreLine(l)) }

  /** The lines that survive a store followed by a clean. */
  predicate PristineLine(l: string) {
    && !IsAdded(l)
    && !Contains(l, COMMENT_OUT)
    && (IsNameserver(l) ==> l[0] != ' ')
  }

  // ---------- The whole text ----------

  /** `f` applied to every line in turn. */
  function EachLine(text: string, f: string -> string): string {
    var i := IndexOf(text, '\n');
    if i == |text| then f(text) else f(text[..i + 1]) + EachLine(text[i + 1..], f)
  }

  predicate AllLines(text: string, p: string -> bool) {
    var i := IndexOf(text, '\n');
    if i == |text| then p(text) else p(text[..i + 1]) && AllLines(text[i + 1..], p)
  }

  function Entry(address: string): string {
    "nameserver " + address + " " + COMMENT_ADD + "\n"
  }

  function Updated(insert: string, text: string): string {
    if insert == "" then EachLine(text, CleanLine) else insert + EachLine(text, StoreLine)
  }

  function Store(address: string, text: string): string {
    Updated(Entry(address), text)
  }

  function Clean(text: string): string {
    Updated("", text)
  }

  predicate Pristine(text: string) {
    AllLines(text, PristineLine)
  }

  // ---------- Rewriting line by line composes ----------

  /** `f` keeps the division into lines: a terminated line stays one line or vanishes. */
  ghost predicate KeepsLines(f: string -> string) {
    && (forall l {:trigger f(l)} :: Terminated(l) ==> f(l) == "" || Terminated(f(l)))
    && (forall l {:trigger f(l)} :: '\n' !in l ==> '\n' !in f(l))
  }

  function Then(f: string -> string, g: string -> string): string -> string {
    l => g(f(l))
  }

  lemma {:induction false} EachLineComposes(text: string, f: string -> string, g: string -> string)
    requires KeepsLines(f) && g("") == ""
    ensures EachLine(EachLine(text, f), g) == EachLine(text, Then(f, g))
  {
    var i := IndexOf(text, '\n');
    if i == |text| {
      FirstLine(f(text), "");
    } else {
      var l, rest := text[..i + 1], text[i + 1..];
      assert Terminated(l);
      EachLineComposes(rest, f, g);
      RewrittenLine(l, EachLine(rest, f), f, g);
    }
  }

  lemma RewrittenLine(l: string, tail: string, f: string -> string, g: string -> string)
    requires KeepsLines(f) && g("") == "" && Terminated(l)
    ensures EachLine(f(l) + tail, g) == g(f(l)) + EachLine(tail, g)
  {
    if f(l) == "" {
      assert f(l) + tail == tail;
    } else {
      PrependLine(f(l), tail, g);
    }
  }

  lemma {:induction false} EachLineSame(text: string, f: string -> string, g: string -> string)
    requires forall l: string :: f(l) == g(l)
    ensures EachLine(text, f) == EachLine(text, g)
  {
    var i := IndexOf(text, '\n');
    if i < |text| {
      EachLineSame(text[i + 1..], f, g);
    }
  }

  lemma FirstLine(l: string, rest: string)
    ensures Terminated(l) ==> IndexOf(l + rest, '\n') == |l| - 1
    ensures '\n' !in l ==> IndexOf(l, '\n') == |l|
  {
    if Terminated(l) {
      assert (l + rest)[|l| - 1] == '\n';
      assert forall j :: 0 <= j < |l| - 1 ==> (l + rest)[j] == l[..|l| - 1][j];
    }
  }

  lemma PrependLine(l: string, rest: string, f: string -> string)
    requires Terminated(l)
    ensures EachLine(l + rest, f) == f(l) + EachLine(rest, f)
  {
    FirstLine(l, rest);
    assert (l + rest)[..|l|] == l && (l + rest)[|l|..] == rest;
  }

  /** A line map that never lengthens a line fixes a text exactly when it fixes every line. */
  lemma {:induction false} ShrinkingFixpoint(text: string, f: string -> string, p: string -> bool)
    requires forall l {:trigger f(l)} :: |f(l)| <= |l|
    requires forall l {:trigger f(l)} :: f(l) == l <==> p(l)
    ensures |EachLine(text, f)| <= |text|
    ensures EachLine(text, f) == text <==> AllLines(text, p)
  {
    var i := IndexOf(text, '\n');
    if i < |text| {
      var l, rest := text[..i + 1], text[i + 1..];
      ShrinkingFixpoint(rest, f, p);
      assert text == l + rest;
      SamePieces(f(l), EachLine(rest, f), l, rest);
    }
  }

  lemma SamePieces(a: string, b: string, c: string, d: string)
    requires |a| <= |c| && |b| <= |d|
    ensures a + b == c + d <==> a == c && b == d
  {
    if a + b == c + d {
      assert a == (a + b)[..|a|] && c == (c + d)[..|c|];
      assert b == (a + b)[|a|..] && d == (c + d)[|c|..];
    }
  }

  lemma {:induction false} EachLineIsConcat(text: string, f: string -> string)
    ensures EachLine(text, f) == Concat(MapLines(SplitAfterNewline(text), f))
  {
    var i := IndexOf(text, '\n');
    if i < |text| {
      EachLineIsConcat(text[i + 1..], f);
      assert SplitAfterNewline(text)[1..] == SplitAfterNewline(text[i + 1..]);
    } else {
      assert Concat([f(text)]) == f(text) + "";
    }
  }

  function MapLines(lines: seq<string>, f: string -> string): seq<string> {
    if lines == [] then [] else [f(lines[0])] + MapLines(lines[1..], f)
  }

  // ---------- What store and clean do to one line ----------

  lemma CutLine(l: string, k: nat)
    requires Terminated(l) && k < |l|
    ensures Terminated(l[k..])
  {
    var n := |l| - 1;
    assert forall i | k <= i < n :: l[i] == l[..n][i];
  }

  lemma LongerLine(c: char, l: string)
    requires Terminated(l) && c != '\n'
    ensures Terminated([c] + l)
  {
    assert ([c] + l)[..|l|] == [c] + l[..|l| - 1];
  }

  lemma {:induction false} RemovalKeepsLine(l: string, sub: string)
    requires sub != [] && '\n' !in sub
    ensures Terminated(l) ==> Terminated(ReplaceAll(l, sub, ""))
    ensures '\n' !in l ==> '\n' !in ReplaceAll(l, sub, "")
  {
    if l == [] {
    } else if sub <= l {
      if Terminated(l) {
        assert l[|sub| - 1] == sub[|sub| - 1];
        CutLine(l, |sub|);
      }
      RemovalKeepsLine(l[|sub|..], sub);
    } else {
      if Terminated(l) && |l| > 1 {
        assert l[0] == l[..|l| - 1][0];
        CutLine(l, 1);
      }
      RemovalKeepsLine(l[1..], sub);
      if Terminated(l) && |l| > 1 {
        LongerLine(l[0], ReplaceAll(l[1..], sub, ""));
      }
    }
  }

  lemma {:induction false} TrimLeftKeepsLine(l: string)
    ensures Terminated(l) ==> Terminated(TrimLeftBlanks(l))
    ensures '\n' !in l ==> '\n' !in TrimLeftBlanks(l)
  {
    if l != [] && l[0] == ' ' {
      if Terminated(l) {
        assert l[1..][..|l| - 2] == l[..|l| - 1][1..];
      }
      TrimLeftKeepsLine(l[1..]);
    }
  }

  lemma PrefixKeepsLine(prefix: string, l: string)
    requires '\n' !in prefix
    ensures Terminated(l) ==> Terminated(prefix + l)
    ensures '\n' !in l ==> '\n' !in prefix + l
  {
    if Terminated(l) {
      var c := prefix + l;
      assert c[..|c| - 1] == prefix + l[..|l| - 1];
    }
  }

  lemma StoreKeepsLines()
    ensures KeepsLines(DropLine) && KeepsLines(StoreLine)
  {
    var prefix := COMMENT_OUT + " ";
    assert '\n' !in prefix;
    forall l: string
      ensures Terminated(l) ==> StoreLine(l) == "" || Terminated(StoreLine(l))
      ensures '\n' !in l ==> '\n' !in StoreLine(l)
    {
      PrefixKeepsLine(prefix, l);
    }
  }

  /** A nameserver line holds a letter that the ADD marker lacks. */
  lemma NameserverLetter(l: string) returns (i: nat)
    requires IsNameserver(l)
    ensures i < |l| && (l[i] == 'v' || l[i] == 'V')
  {
    var t := TrimSpace(l);
    assert ToLower(t)[7] == "nameserver"[7] == 'v';
    TrimSpaceSlice(l);
    assert t[7] in l;
    i :| 0 <= i < |l| && l[i] == t[7];
  }

  /** The tail of a short suffix lies inside the suffix. */
  lemma ShortTail(prefix: string, tail: string, suffix: string)
    requires HasSuffix(prefix + tail, suffix)
    ensures |tail| < |suffix| ==> forall c | c in tail :: c in suffix
    ensures |tail| >= |suffix| ==> HasSuffix(tail, suffix)
  {
    var whole := prefix + tail;
    forall i | 0 <= i < |tail| && |tail| < |suffix|
      ensures tail[i] in suffix
    {
      var k := |suffix| - |tail| + i;
      assert whole[|whole| - |suffix|..][k] == suffix[k];
    }
    if |tail| >= |suffix| {
      assert whole[|whole| - |suffix|..] == tail[|tail| - |suffix|..];
    }
  }

  lemma LongTail(prefix: string, tail: string, suffix: string)
    requires HasSuffix(tail, suffix)
    ensures HasSuffix(prefix + tail, suffix)
  {
    assert (prefix + tail)[|prefix + tail| - |suffix|..] == tail[|tail| - |suffix|..];
  }

  /** A suffix with a letter less than the tail ends the whole exactly when it ends the tail. */
  lemma SuffixOfTail(prefix: string, tail: string, suffix: string, letter: char)
    requires letter in tail && letter !in suffix
    ensures HasSuffix(prefix + tail, suffix) <==> HasSuffix(tail, suffix)
  {
    if HasSuffix(prefix + tail, suffix) {
      ShortTail(prefix, tail, suffix);
    }
    if HasSuffix(tail, suffix) {
      LongTail(prefix, tail, suffix);
    }
  }

  lemma BodyOfPrefixed(prefix: string, l: string)
    requires l != []
    ensures Body(prefix + l) == prefix + Body(l)
  {
    if l[|l| - 1] == '\n' {
      assert (prefix + l)[..|prefix + l| - 1] == prefix + l[..|l| - 1];
    }
  }

  lemma MarkerLetters()
    ensures 'v' !in COMMENT_ADD && 'V' !in COMMENT_ADD && '\n' !in COMMENT_ADD
  {
  }

  /** Commenting a nameserver line out neither adds nor hides the ADD marker. */
  lemma CommentKeepsAdded(l: string)
    requires IsNameserver(l)
    ensures IsAdded(COMMENT_OUT + " " + l) <==> IsAdded(l)
  {
    var i := NameserverLetter(l);
    BodyOfPrefixed(COMMENT_OUT + " ", l);
    assert Body(l)[i] == l[i];
    MarkerLetters();
    SuffixOfTail(COMMENT_OUT + " ", Body(l), COMMENT_ADD, l[i]);
  }

  /** A line that was commented out no longer reads as a nameserver line. */
  lemma CommentHidesNameserver(l: string)
    ensures !IsNameserver(COMMENT_OUT + " " + l)
  {
    var c := COMMENT_OUT + " " + l;
    assert c[0] == '#';
    TrimSpaceSlice(c);
    assert ToLower(TrimSpace(c))[0] == '#';
  }

  lemma RemovePrefix(mark: string, l: string)
    requires mark != [] && mark[0] != ' '
    ensures Contains(mark + " " + l, mark)
    ensures ReplaceAll(mark + " " + l, mark, "") == " " + ReplaceAll(l, mark, "")
  {
    var c, t := mark + " " + l, " " + l;
    assert mark <= c && c[|mark|..] == t;
    assert t[0] != mark[0] && t[1..] == l;
  }

  lemma UncommentUndoesComment(l: string)
    ensures UncommentLine(COMMENT_OUT + " " + l) == TrimLeftBlanks(ReplaceAll(l, COMMENT_OUT, ""))
  {
    RemovePrefix(COMMENT_OUT, l);
    var r := ReplaceAll(l, COMMENT_OUT, "");
    assert (" " + r)[1..] == r;
  }

  lemma {:induction false} RoundTripFixesPristine(l: string)
    ensures |RoundTripLine(l)| <= |l|
    ensures RoundTripLine(l) == l <==> PristineLine(l)
  {
    RemovalLength(l, COMMENT_OUT);
    if !IsAdded(l) && IsNameserver(l) {
      CommentKeepsAdded(l);
      UncommentUndoesComment(l);
    }
  }

  lemma CleanFixes(l: string)
    ensures |CleanLine(l)| <= |l|
    ensures CleanLine(l) == l <==> UnmarkedLine(l)
  {
    RemovalLength(l, COMMENT_OUT);
  }

  lemma StoreLineIdempotent(l: string)
    ensures StoreLine(StoreLine(l)) == StoreLine(l)
  {
    if !IsAdded(l) && IsNameserver(l) {
      CommentKeepsAdded(l);
      CommentHidesNameserver(l);
    }
  }

  // ---------- What store and clean do to a file ----------

  lemma EntryIsAddedLine(address: string)
    requires '\n' !in address
    ensures Terminated(Entry(address)) && IsAdded(Entry(address))
    ensures StoreLine(Entry(address)) == "" && CleanLine(Entry(address)) == ""
  {
    var prefix := "nameserver " + address + " ";
    var e := Entry(address);
    assert '\n' !in COMMENT_ADD && '\n' !in prefix;
    assert e[..|e| - 1] == prefix + COMMENT_ADD;
    LongTail(prefix, COMMENT_ADD, COMMENT_ADD);
  }

  /** An earlier registration vanishes from the text, whether it is cleaned or replaced. */
  lemma {:induction false} EntryVanishes(address: string, rest: string)
    requires '\n' !in address
    ensures EachLine(Entry(address) + rest, StoreLine) == EachLine(rest, StoreLine)
    ensures EachLine(Entry(address) + rest, CleanLine) == EachLine(rest, CleanLine)
  {
    EntryIsAddedLine(address);
    PrependLine(Entry(address), rest, StoreLine);
    PrependLine(Entry(address), rest, CleanLine);
  }

  lemma {:induction false} StoreThenClean(address: string, text: string)
    requires '\n' !in address
    ensures Clean(Store(address, text)) == EachLine(text, RoundTripLine)
  {
    EntryVanishes(address, EachLine(text, StoreLine));
    StoreKeepsLines();
    EachLineComposes(text, StoreLine, CleanLine);
    EachLineSame(text, Then(StoreLine, CleanLine), RoundTripLine);
  }

  /** Cleaning after storing restores a file byte for byte exactly when every line is pristine:
      it does not end with the ADD marker, does not hold the OUT marker, and does not indent a
      nameserver entry with blanks. */
  lemma {:induction false} CleanUndoesStoreExactly(address: string, text: string)
    requires '\n' !in address
    ensures Clean(Store(address, text)) == text <==> Pristine(text)
  {
    StoreThenClean(address, text);
    forall l: string
      ensures |RoundTripLine(l)| <= |l|
      ensures RoundTripLine(l) == l <==> PristineLine(l)
    {
      RoundTripFixesPristine(l);
    }
    ShrinkingFixpoint(text, RoundTripLine, PristineLine);
  }

  lemma {:induction false} StoringTwice(text: string)
    ensures EachLine(EachLine(text, StoreLine), StoreLine) == EachLine(text, StoreLine)
  {
    StoreKeepsLines();
    EachLineComposes(text, StoreLine, StoreLine);
    forall l: string ensures Then(StoreLine, StoreLine)(l) == StoreLine(l) {
      StoreLineIdempotent(l);
    }
    EachLineSame(text, Then(StoreLine, StoreLine), StoreLine);
  }

  /** Registering again replaces the earlier registration, whatever the file holds. */
  lemma {:induction false} StoreReplacesStore(first: string, second: string, text: string)
    requires '\n' !in first
    ensures Store(second, Store(first, text)) == Store(second, text)
  {
    StoringTwice(text);
    EntryVanishes(first, EachLine(text, StoreLine));
  }

  predicate UnmarkedLine(l: string) {
    !IsAdded(l) && !Contains(l, COMMENT_OUT)
  }

  /** Cleaning leaves a file alone exactly when no line carries a marker. */
  lemma CleanFixesUnmarked(text: string)
    ensures Clean(text) == text <==> AllLines(text, UnmarkedLine)
  {
    forall l: string
      ensures |CleanLine(l)| <= |l|
      ensures CleanLine(l) == l <==> UnmarkedLine(l)
    {
      CleanFixes(l);
    }
    ShrinkingFixpoint(text, CleanLine, UnmarkedLine);
  }

  lemma PristineIsUnmarked(text: string)
    requires Pristine(text)
    ensures AllLines(text, UnmarkedLine)
  {
    AllLinesWeaken(text, PristineLine, UnmarkedLine);
  }

  lemma {:induction false} AllLinesWeaken(text: string, p: string -> bool, q: string -> bool)
    requires AllLines(text, p) && forall l {:trigger p(l)} :: p(l) ==> q(l)
    ensures AllLines(text, q)
  {
    var i := IndexOf(text, '\n');
    if i < |text| {
      AllLinesWeaken(text[i + 1..], p, q);
    }
  }

  // ---------- The registered address is the only nameserver ----------

  predicate IsOtherLine(l: string) {
    !HasPrefix(ToLower(TrimSpace(l)), "nameserver")
  }

  lemma {:induction false} EachLineAll(text: string, f: string -> string, p: string -> bool)
    requires KeepsLines(f) && p("")
    requires forall l: string :: p(f(l))
    ensures AllLines(EachLine(text, f), p)
  {
    var i := IndexOf(text, '\n');
    if i == |text| {
      FirstLine(f(text), "");
    } else {
      var l, rest := text[..i + 1], text[i + 1..];
      assert Terminated(l);
      EachLineAll(rest, f, p);
      PrependedLine(f(l), EachLine(rest, f), p);
    }
  }

  lemma PrependedLine(l: string, rest: string, p: string -> bool)
    requires l == "" || Terminated(l)
    requires p(l) && AllLines(rest, p)
    ensures AllLines(l + rest, p)
  {
    if l == "" {
      assert l + rest == rest;
    } else {
      FirstLine(l, rest);
      assert (l + rest)[..|l|] == l && (l + rest)[|l|..] == rest;
    }
  }

  lemma NameserverPrefix(keyword: string, rest: string)
    requires keyword != [] && forall c | c in keyword :: !IsSpace(c)
    ensures HasPrefix(TrimSpace(keyword + rest), keyword)
  {
    var s := keyword + rest;
    assert s[0] in keyword && s[|keyword| - 1] in keyword;
    TrimLeftKeeps(s);
    TrimRightKeeps(s, |keyword| - 1);
  }

  lemma IndentedPrefix(keyword: string, rest: string)
    requires keyword != [] && forall c | c in keyword :: !IsSpace(c) && LowerChar(c) == c
    ensures HasPrefix(ToLower(TrimSpace(" " + keyword + rest)), keyword)
  {
    NameserverPrefix(keyword, rest);
    var line := " " + keyword + rest;
    assert line[1..] == keyword + rest;
    var t := TrimSpace(keyword + rest);
    assert t[..|keyword|] == keyword && forall i | 0 <= i < |keyword| :: t[i] == keyword[i] && keyword[i] in keyword;
    assert ToLower(t)[..|keyword|] == keyword;
  }

  lemma SingleLine(l: string, p: string -> bool)
    requires '\n' !in l
    ensures AllLines(l, p) <==> p(l)
  {
  }

  /** A nameserver line behind a blank is not restored. */
  lemma IndentedExample(address: string, rest: string)
    requires '\n' !in address && '\n' !in rest
    ensures var text := " " + "nameserver" + rest;
            Clean(Store(address, text)) != text
  {
    var text := " " + "nameserver" + rest;
    IndentedPrefix("nameserver", rest);
    SingleLine(text, PristineLine);
    CleanUndoesStoreExactly(address, text);
  }

  /** After storing, the first line names the address and no other line is a nameserver line. */
  lemma OnlyNameserver(address: string, text: string) returns (tail: string, rest: string)
    requires '\n' !in address
    ensures Store(address, text) == "nameserver " + address + " " + tail + "\n" + rest
    ensures '\n' !in tail && AllLines(rest, IsOtherLine)
  {
    StoreKeepsLines();
    forall l: string ensures IsOtherLine(StoreLine(l)) {
      CommentHidesNameserver(l);
    }
    EachLineAll(text, StoreLine, IsOtherLine);
    tail, rest := COMMENT_ADD, EachLine(text, StoreLine);
    MarkerLetters();
    assert Store(address, text) == Entry(address) + rest;
  }

  /** Storing keeps every line but those it added before, and puts only the marker in front of nameserver
      lines. */
  lemma StoreLineExactly(l: string)
    ensures var s := StoreLine(l);
            if HasSuffix(l, COMMENT_ADD) || HasSuffix(l, COMMENT_ADD + "\n") then s == ""
            else if HasPrefix(ToLower(TrimSpace(l)), "nameserver") then s == COMMENT_OUT + " " + l
            else s == l
  {
    MarkerLetters();
    AddedWithFeed(l, COMMENT_ADD);
  }

  lemma AddedWithFeed(l: string, mark: string)
    requires mark != "" && '\n' !in mark
    ensures HasSuffix(Body(l), mark) <==> HasSuffix(l, mark) || HasSuffix(l, mark + "\n")
  {
    var feed := mark + "\n";
    if HasSuffix(l, mark) {
      assert l[|l| - |mark|..][|mark| - 1] == mark[|mark| - 1];
    }
    if HasSuffix(l, feed) {
      assert l[|l| - |feed|..][|mark|] == '\n';
      assert l[..|l| - 1][|l| - 1 - |mark|..] == l[|l| - |feed|..][..|mark|] == mark;
    }
    if HasSuffix(Body(l), mark) && Body(l) != l {
      assert l[|l| - |feed|..] == Body(l)[|Body(l)| - |mark|..] + ['\n'];
    }
  }

  // ---------- Sequences of starts, crashes and stops ----------

  datatype Op = StoreOp(address: string) | CleanOp

  function Apply(ops: seq<Op>, text: string): string {
    if ops == [] then text
    else
      var before := Apply(ops[..|ops| - 1], text);
      match ops[|ops| - 1]
      case StoreOp(address) => Store(address, before)
      case CleanOp => Clean(before)
  }

  predicate ValidOps(ops: seq<Op>) {
    forall op | op in ops :: op.StoreOp? ==> '\n' !in op.address
  }

  /** After any sequence of calls a pristine file is either untouched or registered with
      the address of the last call. */
  lemma {:induction false} OnlyLastCallCounts(ops: seq<Op>, text: string)
    requires ValidOps(ops) && Pristine(text)
    ensures Apply(ops, text) ==
            if ops != [] && ops[|ops| - 1].StoreOp? then Store(ops[|ops| - 1].address, text) else text
  {
    if ops != [] {
      var earlier := ops[..|ops| - 1];
      OnlyLastCallCounts(earlier, text);
      PristineIsUnmarked(text);
      CleanFixesUnmarked(text);
      if earlier != [] && earlier[|earlier| - 1].StoreOp? {
        var a := earlier[|earlier| - 1].address;
        assert earlier[|earlier| - 1] in ops;
        CleanUndoesStoreExactly(a, text);
        if ops[|ops| - 1].StoreOp? {
          StoreReplacesStore(a, ops[|ops| - 1].address, text);
        }
      }
    }
  }

  ghost predicate AlwaysRestored(text: string) {
    forall ops: seq<Op> | ValidOps(ops) :: Apply(ops + [CleanOp], text) == text
  }

  /** A final clean restores a file after every history exactly when the file is pristine. */
  lemma RestoredExactlyWhenPristine(text: string)
    ensures AlwaysRestored(text) <==> Pristine(text)
  {
    if Pristine(text) {
      forall ops: seq<Op> | ValidOps(ops) ensures Apply(ops + [CleanOp], text) == text {
        OnlyLastCallCounts(ops + [CleanOp], text);
      }
    }
    if AlwaysRestored(text) {
      var address := "";
      var ops := [StoreOp(address)];
      assert ValidOps(ops);
      assert Apply(ops + [CleanOp], text) == text;
      assert (ops + [CleanOp])[..1] == ops && ops[..0] == [];
      assert Apply(ops, text) == Store(address, text);
      CleanUndoesStoreExactly(address, text);
    }
  }

  // ---------- The file, rewritten in place ----------

  /** An open file: its bytes and the offset of the next read or write. */
  class File {
    var content: string
    var pos: nat

    constructor (content: string)
      ensures this.content == content && pos == 0
    {
      this.content, pos := content, 0;
    }

    method ReadAll() returns (text: string)
      requires pos <= |content|
      modifies this`pos
      ensures text == content[old(pos)..] && pos == |content|
    {
      text := content[pos..];
      pos := |content|;
    }

    method SeekStart()
      modifies this`pos
      ensures pos == 0
    {
      pos := 0;
    }

    /** Overwrites what was there and grows the file when the text runs past its end. */
    method WriteString(text: string)
      requires pos <= |content|
      modifies this
      ensures pos == old(pos) + |text| <= |content|
      ensures content[..pos] == old(content[..pos]) + text
      ensures content[pos..] == if pos <= |old(content)| then old(content)[pos..] else []
    {
      var end := pos + |text|;
      content := content[..pos] + text + (if end <= |content| then content[end..] else []);
      pos := end;
    }

    method Truncate()
      requires pos <= |content|
      modifies this`content
      ensures content == old(content[..pos])
    {
      content := content[..pos];
    }
  }

  function RewriteWith(insert: string): string -> string {
    if insert == "" then UncommentLine else CommentLine
  }

  lemma UpdatedIsConcat(insert: string, text: string)
    ensures Updated(insert, text)
         == insert + Concat(MapLines(SplitAfterNewline(EachLine(text, DropLine)), RewriteWith(insert)))
  {
    StoreKeepsLines();
    EachLineIsConcat(EachLine(text, DropLine), RewriteWith(insert));
    if insert == "" {
      EachLineComposes(text, DropLine, UncommentLine);
      EachLineSame(text, Then(DropLine, UncommentLine), CleanLine);
    } else {
      EachLineComposes(text, DropLine, CommentLine);
      EachLineSame(text, Then(DropLine, CommentLine), StoreLine);
    }
  }

  method UpdateResolvConf(insert: string, f: File)
    requires f.pos == 0
    modifies f
    ensures f.content == Updated(insert, old(f.content))
  {
    var orig := f.ReadAll();
    ghost var text := orig;
    orig := EachLine(orig, DropLine);
    var lines := SplitAfterNewline(orig);
    f.SeekStart();
    f.WriteString(insert);
    assert f.content[..f.pos] == insert;
    WriteLines(insert, lines, f);
    f.Truncate();
    assert f.content == insert + Concat(MapLines(lines, RewriteWith(insert)));
    UpdatedIsConcat(insert, text);
  }

  method WriteLines(insert: string, lines: seq<string>, f: File)
    requires f.pos <= |f.content|
    modifies f
    ensures f.pos <= |f.content|
    ensures f.content[..f.pos] == old(f.content[..f.pos]) + Concat(MapLines(lines, RewriteWith(insert)))
  {
    ghost var rewrite := RewriteWith(insert);
    ghost var goal := f.content[..f.pos] + Concat(MapLines(lines, rewrite));
    var i := 0;
    while i < |lines|
      invariant 0 <= i <= |lines| && f.pos <= |f.content|
      invariant goal == f.content[..f.pos] + Concat(MapLines(lines[i..], rewrite))
    {
      var line := RewriteLine(insert, lines[i]);
      MapLinesStep(f.content[..f.pos], lines[i..], rewrite);
      assert lines[i..][1..] == lines[i + 1..];
      f.WriteString(line);
      i := i + 1;
    }
  }

  method RewriteLine(insert: string, original: string) returns (line: string)
    ensures line == RewriteWith(insert)(original)
  {
    line := original;
    if insert == "" {
      if Contains(line, COMMENT_OUT) {
        line := ReplaceAll(line, COMMENT_OUT, "");
        line := TrimLeftBlanks(line);
      }
    } else {
      if HasPrefix(ToLower(TrimSpace(line)), "nameserver") {
        line := COMMENT_OUT + " " + line;
      }
    }
  }

  lemma MapLinesStep(written: string, lines: seq<string>, f: string -> string)
    requires lines != []
    ensures written + Concat(MapLines(lines, f)) == written + f(lines[0]) + Concat(MapLines(lines[1..], f))
  {
  }

  method StoreAddress(address: string, f: File)
    requires f.pos == 0
    modifies f
    ensures f.content == Store(address, old(f.content))
  {
    UpdateResolvConf("nameserver " + address + " " + COMMENT_ADD + "\n", f);
  }

  method CleanFile(f: File)
    requires f.pos == 0
    modifies f
    ensures f.content == Clean(old(f.content))
  {
    UpdateResolvConf("", f);
  }
}
