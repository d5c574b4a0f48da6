/** The functions of Go's `strings` and `unicode` packages that the modelled code calls,
    on strings of bytes.  Lower-casing and white space are those of ASCII. */
module GoStrings {

  predicate HasPrefix(s: string, prefix: string) {
    prefix <= s
  }

  predicate HasSuffix(s: string, suffix: string) {
    |suffix| <= |s| && s[|s| - |suffix|..] == suffix
  }

  function LowerChar(c: char): char {
    if 'A' <= c <= 'Z' then c - 'A' + 'a' else c
  }

  function ToLower(s: string): (r: string)
    ensures |r| == |s|
    ensures forall i :: 0 <= i < |s| ==> r[i] == LowerChar(s[i])
  {
    seq(|s|, i requires 0 <= i < |s| => LowerChar(s[i]))
  }

  predicate IsSpace(c: char) {
    c == ' ' || c == '\t' || c == '\n' || c == '\r' || c as int == 11 || c as int == 12
  }

  function TrimLeftSpace(s: string): string {
    if s != [] && IsSpace(s[0]) then TrimLeftSpace(s[1..]) else s
  }

  function TrimRightSpace(s: string): (r: string)
    ensures r <= s
  {
    if s != [] && IsSpace(s[|s| - 1]) then TrimRightSpace(s[..|s| - 1]) else s
  }

  function TrimSpace(s: string): string {
    TrimRightSpace(TrimLeftSpace(s))
  }

  /** `strings.TrimLeft(s, " ")`: only the blank is stripped. */
  function TrimLeftBlanks(s: string): (r: string)
    ensures |r| <= |s|
    ensures r == s <==> s == [] || s[0] != ' '
  {
    if s != [] && s[0] == ' ' then TrimLeftBlanks(s[1..]) else s
  }

  predicate Contains(s: string, sub: string) {
    sub <= s || (s != [] && Contains(s[1..], sub))
  }

  /** `strings.Replace(s, old, new, -1)` for a non-empty pattern: leftmost, not overlapping. */
  function ReplaceAll(s: string, pattern: string, replacement: string): string
    requires pattern != []
  {
    if s == [] then []
    else if pattern <= s then replacement + ReplaceAll(s[|pattern|..], pattern, replacement)
    else [s[0]] + ReplaceAll(s[1..], pattern, replacement)
  }

  /** The position of the first `c`, or the length of `s` when there is none. */
  function IndexOf(s: string, c: char): (i: nat)
    ensures i <= |s|
    ensures i < |s| ==> s[i] == c
    ensures forall j :: 0 <= j < i ==> s[j] != c
  {
    if s == [] || s[0] == c then 0 else 1 + IndexOf(s[1..], c)
  }

  /** `strings.Split(s, sep)` for a separator of one byte. */
  function Split(s: string, sep: char): (words: seq<string>)
    ensures words != []
  {
    var i := IndexOf(s, sep);
    if i == |s| then [s] else [s[..i]] + Split(s[i + 1..], sep)
  }

  /** `strings.SplitAfter(s, "\n")`: every piece keeps its line feed. */
  function SplitAfterNewline(s: string): (lines: seq<string>)
    ensures lines != []
  {
    var i := IndexOf(s, '\n');
    if i == |s| then [s] else [s[..i + 1]] + SplitAfterNewline(s[i + 1..])
  }

  function Concat(pieces: seq<string>): string {
    if pieces == [] then "" else pieces[0] + Concat(pieces[1..])
  }

  /** Trimming keeps a slice of the text, so every byte it keeps was there. */
  lemma {:induction false} TrimSpaceSlice(s: string)
    ensures forall c | c in TrimSpace(s) :: c in s
    ensures s != [] && !IsSpace(s[0]) ==> TrimSpace(s) != [] && TrimSpace(s)[0] == s[0]
  {
    TrimLeftKeeps(s);
    TrimRightKeepsFirst(TrimLeftSpace(s));
  }

  lemma {:induction false} TrimLeftKeeps(s: string)
    ensures forall c | c in TrimLeftSpace(s) :: c in s
    ensures s != [] && !IsSpace(s[0]) ==> TrimLeftSpace(s) == s
  {
    if s != [] && IsSpace(s[0]) {
      TrimLeftKeeps(s[1..]);
    }
  }

  lemma {:induction false} TrimRightKeepsFirst(s: string)
    ensures forall c | c in TrimRightSpace(s) :: c in s
    ensures s != [] && !IsSpace(s[0]) ==> TrimRightSpace(s) != [] && TrimRightSpace(s)[0] == s[0]
  {
    if s != [] && IsSpace(s[|s| - 1]) {
      TrimRightKeepsFirst(s[..|s| - 1]);
    }
  }

  /** Trimming on the right stops at the last character that is not white space. */
  lemma {:induction false} TrimRightKeeps(s: string, i: nat)
    requires i < |s| && !IsSpace(s[i])
    ensures |TrimRightSpace(s)| > i
  {
    if IsSpace(s[|s| - 1]) {
      TrimRightKeeps(s[..|s| - 1], i);
    }
  }

  /** Removing a non-empty pattern shortens exactly the texts that contain it. */
  lemma {:induction false} RemovalLength(s: string, sub: string)
    requires sub != []
    ensures |ReplaceAll(s, sub, "")| <= |s|
    ensures Contains(s, sub) ==> |ReplaceAll(s, sub, "")| < |s|
    ensures !Contains(s, sub) ==> ReplaceAll(s, sub, "") == s
  {
    if s == [] {
    } else if sub <= s {
      RemovalLength(s[|sub|..], sub);
    } else {
      RemovalLength(s[1..], sub);
    }
  }
}
