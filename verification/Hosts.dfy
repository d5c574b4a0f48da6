/** hostsfile/utils.go: reading a hosts file and looking names up in it. */
module Hosts {
  import opened GoStrings
  import opened Options
  import opened Seals

  /** An accepted address: its sixteen bytes, which `IP.Equal` compares, and its family. */
  datatype Address = Address(ip: string, ipv6: bool)
  datatype Hostname = Hostname(domain: string, ip: string, ipv6: bool, wildcard: bool)

  /** `net.ParseIP` followed by the tests for global unicast, loopback and fe00::; None when the
      line is to be skipped. */
  type Classify = string -> Option<Address>

  /** Entries, or the run-time failure of slicing a host name that is too short. */
  datatype Parsed = Entries(hosts: seq<Hostname>) | OutOfRange

  // ---------- Words of a line ----------

  function TabsToBlanks(s: string): string {
    ReplaceAll(s, "\t", " ")
  }

  function Halve(s: string): string {
    ReplaceAll(s, "  ", " ")
  }

  lemma {:induction false} HalveShrinks(s: string)
    ensures |Halve(s)| <= |s|
    ensures Contains(s, "  ") ==> |Halve(s)| < |s|
  {
    if s == [] {
    } else if "  " <= s {
      HalveShrinks(s[2..]);
    } else {
      HalveShrinks(s[1..]);
    }
  }

  /** Runs of blanks are halved until no two blanks are neighbours. */
  function Collapse(s: string): string
    decreases |s|
  {
    if Contains(s, "  ") then HalveShrinks(s); Collapse(Halve(s)) else s
  }

  function TrimAll(words: seq<string>): (trimmed: seq<string>)
    ensures |trimmed| == |words| && forall i | 0 <= i < |words| :: trimmed[i] == TrimSpace(words[i])
  {
    if words == [] then [] else [TrimSpace(words[0])] + TrimAll(words[1..])
  }

  function Words(line: string): seq<string> {
    TrimAll(Split(TrimSpace(Collapse(TabsToBlanks(line))), ' '))
  }

  /** The maximal runs of characters other than blank and tab. */
  function Fields(s: string): (words: seq<string>)
    ensures s != [] && !IsBlank(s[0]) ==> words != []
  {
    if s == [] then []
    else if IsBlank(s[0]) then Fields(s[1..])
    else if |s| == 1 || IsBlank(s[1]) then [[s[0]]] + Fields(s[1..])
    else
      var rest := Fields(s[1..]);
      [[s[0]] + rest[0]] + rest[1..]
  }

  predicate IsBlank(c: char) {
    c == ' ' || c == '\t'
  }

  /** No white space but blanks and tabs. */
  predicate PlainLine(s: string) {
    forall c | c in s :: IsSpace(c) ==> IsBlank(c)
  }

  lemma {:induction false} TabsKeepFields(s: string)
    requires PlainLine(s)
    ensures Fields(TabsToBlanks(s)) == Fields(s)
    ensures |TabsToBlanks(s)| == |s|
    ensures s != [] ==> (IsBlank(TabsToBlanks(s)[0]) <==> IsBlank(s[0]))
    ensures forall c | c in TabsToBlanks(s) :: IsSpace(c) ==> c == ' '
  {
    if s != [] {
      assert s[0] == '\t' <==> "\t" <= s;
      assert s[0] in s;
      TabsKeepFields(s[1..]);
      var t := TabsToBlanks(s[1..]);
      assert TabsToBlanks(s) == (if s[0] == '\t' then " " else [s[0]]) + t;
      assert TabsToBlanks(s)[1..] == t;
    }
  }

  /** Blanks are the only white space. */
  predicate BlanksOnly(s: string) {
    forall c | c in s :: IsSpace(c) ==> c == ' '
  }

  lemma {:induction false} HalveKeepsFields(s: string)
    requires BlanksOnly(s)
    ensures Fields(Halve(s)) == Fields(s)
    ensures BlanksOnly(Halve(s))
    ensures s != [] ==> Halve(s) != [] && Halve(s)[0] == s[0]
  {
    if s == [] {
    } else if "  " <= s {
      HalveKeepsFields(s[2..]);
      assert Halve(s) == " " + Halve(s[2..]);
      assert Halve(s)[1..] == Halve(s[2..]);
      assert s[1..][0] == ' ' && s[1..][1..] == s[2..];
      assert Fields(s) == Fields(s[1..]) == Fields(s[2..]);
    } else {
      HalveKeepsFields(s[1..]);
      assert Halve(s)[1..] == Halve(s[1..]);
      assert s[0] in s;
      if |s| > 1 {
        assert s[1] in s;
      }
    }
  }

  lemma {:induction false} CollapseKeepsFields(s: string)
    requires BlanksOnly(s)
    ensures Fields(Collapse(s)) == Fields(s) && BlanksOnly(Collapse(s)) && !Contains(Collapse(s), "  ")
    decreases |s|
  {
    if Contains(s, "  ") {
      HalveShrinks(s);
      HalveKeepsFields(s);
      CollapseKeepsFields(Halve(s));
    }
  }

  /** Single blanks only, and none at either end (sealed). */
  ghost predicate Tight(s: string) {
    forall b: bool :: Unseal(b) ==>
      && BlanksOnly(s) && !Contains(s, "  ")
      && (s != [] ==> s[0] != ' ' && s[|s| - 1] != ' ')
  }

  lemma {:induction false} TrimKeepsFields(s: string)
    requires BlanksOnly(s) && !Contains(s, "  ")
    ensures Fields(TrimSpace(s)) == Fields(s) && Tight(TrimSpace(s))
  {
    TrimLeftFields(s);
    TrimRightFields(TrimLeftSpace(s));
  }

  lemma {:induction false} TrimLeftFields(s: string)
    requires BlanksOnly(s) && !Contains(s, "  ")
    ensures var t := TrimLeftSpace(s);
            Fields(t) == Fields(s) && BlanksOnly(t) && !Contains(t, "  ") && (t != [] ==> t[0] != ' ')
  {
    if s != [] && IsSpace(s[0]) {
      assert s[0] in s;
      TrimLeftFields(s[1..]);
    }
  }

  lemma {:induction false} TrimRightFields(s: string)
    requires BlanksOnly(s) && !Contains(s, "  ") && (s != [] ==> s[0] != ' ')
    ensures var t := TrimRightSpace(s);
            Fields(t) == Fields(s) && Tight(t)
  {
    if s != [] && IsSpace(s[|s| - 1]) {
      assert s[|s| - 1] in s;
      DropLastBlank(s);
      assert s[..|s| - 1] != [] ==> s[..|s| - 1][0] == s[0];
      TrimRightFields(s[..|s| - 1]);
    } else if s != [] {
      assert s[|s| - 1] != ' ';
    }
  }

  lemma {:induction false} DropLastBlank(s: string)
    requires s != [] && s[|s| - 1] == ' '
    ensures Fields(s[..|s| - 1]) == Fields(s)
    ensures !Contains(s, "  ") ==> !Contains(s[..|s| - 1], "  ")
  {
    var t := s[..|s| - 1];
    if |s| > 1 {
      assert s[1..][..|s| - 2] == t[1..];
      DropLastBlank(s[1..]);
    }
  }

  lemma {:induction false} SplitTight(s: string)
    requires Tight(s)
    ensures Split(s, ' ') == if s == [] then [""] else Fields(s)
    decreases |s|
  {
    var i := IndexOf(s, ' ');
    TightSplit(s, i);
    if i < |s| {
      var rest := s[i + 1..];
      SplitTight(rest);
      assert Split(s, ' ') == [s[..i]] + Split(rest, ' ');
    } else if s != [] {
      assert s[..i] == s && Fields(s) == [s];
    }
  }

  lemma {:induction false} SplitTrimmed(s: string)
    requires BlanksOnly(s)
    ensures forall w | w in Split(s, ' ') :: TrimSpace(w) == w
    decreases |s|
  {
    var i := IndexOf(s, ' ');
    PieceOf(s, 0, i);
    TrimWord(s[..i]);
    if i < |s| {
      PieceOf(s, i + 1, |s|);
      SplitTrimmed(s[i + 1..]);
    } else {
      assert s[..i] == s;
    }
  }

  lemma PieceOf(s: string, lo: nat, hi: nat)
    requires BlanksOnly(s) && lo <= hi <= |s|
    ensures BlanksOnly(s[lo..hi]) && (' ' !in s[lo..hi] ==> forall c | c in s[lo..hi] :: !IsSpace(c))
  {
    assert forall c | c in s[lo..hi] :: c in s;
  }

  lemma TrimAllSame(words: seq<string>)
    requires forall w | w in words :: TrimSpace(w) == w
    ensures TrimAll(words) == words
  {
    assert forall i | 0 <= i < |words| :: words[i] in words;
  }

  lemma TightSplit(s: string, i: nat)
    requires Tight(s) && i == IndexOf(s, ' ')
    ensures s != [] ==> Fields(s) == [s[..i]] + (if i < |s| then Fields(s[i + 1..]) else [])
    ensures i < |s| ==> s[i + 1..] != [] && Tight(s[i + 1..])
  {
    assert Unseal(true);
    FieldsSplitAt(s, i);
    if i < |s| {
      NoBlankPair(s, i);
    }
  }

  /** What follows the first blank of a tight text is tight and not empty. */
  lemma NoBlankPair(s: string, i: nat)
    requires Tight(s) && i < |s| && s[i] == ' '
    ensures s[i + 1..] != [] && Tight(s[i + 1..])
  {
    assert Unseal(true);
    var rest := s[i + 1..];
    if s[i + 1] == ' ' {
      assert s[i..][..2] == "  ";
      ContainsTail(s, i, "  ");
    }
    if Contains(rest, "  ") {
      ContainsTail(s, i + 1, "  ");
    }
    assert forall c | c in rest :: c in s;
    assert rest[|rest| - 1] == s[|s| - 1];
  }

  lemma {:induction false} ContainsTail(s: string, k: nat, sub: string)
    requires k <= |s| && Contains(s[k..], sub)
    ensures Contains(s, sub)
  {
    if k > 0 {
      assert s[1..][k - 1..] == s[k..];
      ContainsTail(s[1..], k - 1, sub);
    }
  }

  lemma TrimWord(w: string)
    requires forall c | c in w :: !IsSpace(c)
    ensures TrimSpace(w) == w
  {
    assert w != [] ==> w[0] in w && w[|w| - 1] in w;
  }

  lemma {:induction false} FieldsSplitAt(s: string, i: nat)
    requires BlanksOnly(s) && i == IndexOf(s, ' ') && (s != [] ==> s[0] != ' ')
    ensures s != [] ==> Fields(s) == [s[..i]] + (if i < |s| then Fields(s[i + 1..]) else [])
  {
    if |s| > 1 && s[1] != ' ' {
      assert IndexOf(s[1..], ' ') == i - 1;
      FieldsSplitAt(s[1..], i - 1);
      assert s[0] in s && s[1] in s;
      assert s[..i] == [s[0]] + s[1..][..i - 1];
      assert i < |s| ==> s[1..][i..] == s[i + 1..];
    } else if s != [] {
      assert s[0] in s;
      assert i == 1 && s[..1] == [s[0]];
      assert |s| > 1 ==> s[1..][1..] == s[2..] && Fields(s[1..]) == Fields(s[2..]);
    }
  }

  /** On a line without other white space the words are the maximal runs between blanks and tabs. */
  lemma WordsAreFields(line: string)
    requires PlainLine(line)
    ensures Words(line) == if Fields(line) == [] then [""] else Fields(line)
  {
    TabsKeepFields(line);
    var t := TabsToBlanks(line);
    CollapseKeepsFields(t);
    TrimKeepsFields(Collapse(t));
    assert Unseal(true);
    SplitTight(TrimSpace(Collapse(t)));
    SplitTrimmed(TrimSpace(Collapse(t)));
    TrimAllSame(Split(TrimSpace(Collapse(t)), ' '));
  }

  /** A run of other characters that a blank or the end of the text ends is one word. */
  lemma {:induction false} RunIsOneWord(run: string, rest: string)
    requires run != [] && (forall c | c in run :: !IsBlank(c))
    requires rest == [] || IsBlank(rest[0])
    ensures Fields(run + rest) == [run] + Fields(rest)
  {
    var s := run + rest;
    assert run[0] in run && s[0] == run[0];
    assert s[1..] == run[1..] + rest;
    if |run| > 1 {
      assert run[1] in run && s[1] == run[1];
      RunIsOneWord(run[1..], rest);
      assert ([run[1..]] + Fields(rest))[1..] == Fields(rest);
      assert [run[0]] + run[1..] == run;
    } else {
      assert run == [run[0]];
    }
  }

  // ---------- Entries ----------

  function BeforeComment(line: string): string {
    line[..IndexOf(line, '#')]
  }

  function NewHostname(domain: string, ip: string, ipv6: bool, wildcard: bool): Hostname {
    Hostname(ToLower(domain), ip, ipv6, wildcard)
  }

  function HostnameOf(a: Address, word: string): Hostname {
    if HasPrefix(word, "*.") then NewHostname(word[2..], a.ip, a.ipv6, true)
    else NewHostname(word, a.ip, a.ipv6, false)
  }

  function HostnamesOf(a: Address, words: seq<string>): seq<Hostname> {
    if words == [] then [] else [HostnameOf(a, words[0])] + HostnamesOf(a, words[1..])
  }

  /** The words after an address are its host names in lower case; `*.` in front makes a wildcard. */
  predicate AreHosts(hosts: seq<Hostname>, a: Address, words: seq<string>) {
    && |hosts| == |words|
    && forall i | 0 <= i < |words| ::
         && hosts[i].ip == a.ip && hosts[i].ipv6 == a.ipv6
         && hosts[i].wildcard == (|words[i]| >= 2 && words[i][0] == '*' && words[i][1] == '.')
         && hosts[i].domain == ToLower(if hosts[i].wildcard then words[i][2..] else words[i])
  }

  lemma {:induction false} HostnamesExactly(a: Address, words: seq<string>)
    ensures AreHosts(HostnamesOf(a, words), a, words)
  {
    if words != [] {
      HostnamesExactly(a, words[1..]);
      HostnameExactly(a, words[0]);
    }
  }

  lemma HostnameExactly(a: Address, word: string)
    ensures AreHosts([HostnameOf(a, word)], a, [word])
  {
    assert HasPrefix(word, "*.") <==> |word| >= 2 && word[0] == '*' && word[1] == '.';
  }

  /** The address of a line and its host names, or None when the line is skipped. */
  function LineAddress(classify: Classify, line: string): Option<Address> {
    if line == "" || line[0] == '#' || Contains(Words(BeforeComment(line))[0], "%") then None
    else classify(Words(BeforeComment(line))[0])
  }

  function ParseWords(a: Address, words: seq<string>): Parsed {
    if exists w | w in words :: |w| < 2 then OutOfRange else Entries(HostnamesOf(a, words))
  }

  function ParsedLine(classify: Classify, line: string): Parsed {
    match LineAddress(classify, line)
    case None => Entries([])
    case Some(a) => ParseWords(a, Words(BeforeComment(line))[1..])
  }

  /** `IP.Equal` compares the sixteen bytes. */
  predicate Equal(h: Hostname, k: Hostname) {
    h.wildcard == k.wildcard && h.ipv6 == k.ipv6 && h.ip == k.ip && h.domain == k.domain
  }

  lemma {:induction false} FieldsHoldNoBlank(s: string)
    ensures forall w | w in Fields(s) :: w != [] && forall c | c in w :: c in s && !IsBlank(c)
  {
    if s != [] {
      FieldsHoldNoBlank(s[1..]);
      assert forall c | c in s[1..] :: c in s;
      if !IsBlank(s[0]) && |s| > 1 && !IsBlank(s[1]) {
        var rest := Fields(s[1..]);
        assert rest[0] in rest;
        assert forall w | w in Fields(s) :: w == [s[0]] + rest[0] || w in rest;
      }
    }
  }

  lemma WordsParsed(classify: Classify, line: string, words: seq<string>)
    requires line != "" && line[0] != '#' && words != [] && Words(BeforeComment(line)) == words
    ensures ParsedLine(classify, line) ==
            if Contains(words[0], "%") || classify(words[0]) == None then Entries([])
            else ParseWords(classify(words[0]).value, words[1..])
  {
  }

  lemma NoShorterWord(s: string, words: seq<string>)
    requires words != [] && words == Fields(s)
    ensures (exists w | w in words[1..] :: |w| < 2) <==> exists w | w in words[1..] :: |w| == 1
  {
    FieldsHoldNoBlank(s);
    assert forall w | w in words[1..] :: w in words && w != [];
  }

  /** A line with no other white space is read by its maximal runs before the comment: the first is
      the address, the others are host names, and reading fails exactly on one of a single character. */
  lemma ParsedFromFields(classify: Classify, line: string, text: string)
    requires text <= line && '#' !in text && (text == line || line[|text|] == '#') && PlainLine(text)
    ensures var fields, p := Fields(text), ParsedLine(classify, line);
            if line == "" || line[0] == '#' || fields == [] || '%' in fields[0] || classify(fields[0]) == None then
              p == Entries([])
            else if exists w | w in fields[1..] :: |w| == 1 then p == OutOfRange
            else p.Entries? && AreHosts(p.hosts, classify(fields[0]).value, fields[1..])
  {
    var fields := Fields(text);
    TextBefore(line, text);
    WordsAreFields(text);
    if line != "" && line[0] != '#' {
      WordsParsed(classify, line, Words(text));
      if fields != [] {
        NoShorterWord(text, fields);
        ContainsChar(fields[0], '%');
        if classify(fields[0]).Some? {
          HostnamesExactly(classify(fields[0]).value, fields[1..]);
        }
      }
    }
  }

  lemma TextBefore(line: string, text: string)
    requires text <= line && '#' !in text && (text == line || line[|text|] == '#')
    ensures BeforeComment(line) == text
  {
    assert forall i | 0 <= i < |text| :: line[i] == text[i] && text[i] in text;
  }

  /** Every line that names an accepted address by one character fails. */
  lemma OneCharacterFails(classify: Classify, address: string, name: char)
    requires address != "" && forall c | c in address :: c != '#' && c != '%' && !IsSpace(c)
    requires name != '#' && !IsSpace(name) && classify(address).Some?
    ensures ParsedLine(classify, address + " " + [name]) == OutOfRange
  {
    var line := address + " " + [name];
    assert line[0] == address[0] && address[0] in address;
    assert forall c | c in line :: c in address || c == ' ' || c == name;
    assert forall i | 0 <= i < |line| :: line[i] in line;
    TwoFields(address, [name]);
    ParsedFromFields(classify, line, line);
    assert [address, [name]][1..] == [[name]] && [name] in [[name]];
  }

  lemma TwoFields(first: string, second: string)
    requires first != "" && second != "" && forall c | c in first || c in second :: !IsBlank(c)
    ensures Fields(first + " " + second) == [first, second]
  {
    assert first + " " + second == first + (" " + second);
    RunIsOneWord(first, " " + second);
    assert (" " + second)[1..] == second == second + [];
    RunIsOneWord(second, []);
  }

  /** The loopback address under the name `a`. */
  lemma ShortNameExample(classify: Classify)
    requires classify("::1").Some?
    ensures ParsedLine(classify, "::1" + " " + ['a']) == OutOfRange
  {
    assert "::1" == [':', ':', '1'];
    OneCharacterFails(classify, "::1", 'a');
  }

  method SplitWords(line: string) returns (words: seq<string>)
    ensures words == Words(BeforeComment(line))
  {
    var rest := Split(line, '#')[0];
    assert rest == BeforeComment(line);
    rest := ReplaceAll(rest, "\t", " ");
    while Contains(rest, "  ")
      invariant Collapse(rest) == Collapse(TabsToBlanks(BeforeComment(line)))
      decreases |rest|
    {
      HalveShrinks(rest);
      rest := ReplaceAll(rest, "  ", " ");
    }
    rest := TrimSpace(rest);
    words := Split(rest, ' ');
    words := TrimWords(words);
  }

  method TrimWords(split: seq<string>) returns (words: seq<string>)
    ensures words == TrimAll(split)
  {
    words := split;
    var idx := 0;
    while idx < |words|
      invariant 0 <= idx <= |words| == |split|
      invariant forall j | 0 <= j < idx :: words[j] == TrimSpace(split[j])
      invariant forall j | idx <= j < |split| :: words[j] == split[j]
    {
      words := words[idx := TrimSpace(words[idx])];
      idx := idx + 1;
    }
  }

  lemma NamesStep(a: Address, words: seq<string>, i: nat, names: seq<Hostname>)
    requires i < |words| && HostnamesOf(a, words) == names + HostnamesOf(a, words[i..])
    ensures HostnamesOf(a, words) == names + [HostnameOf(a, words[i])] + HostnamesOf(a, words[i + 1..])
  {
    assert words[i..][1..] == words[i + 1..] && words[i..][0] == words[i];
  }

  method ReadName(a: Address, word: string) returns (h: Hostname)
    requires |word| >= 2
    ensures h == HostnameOf(a, word)
  {
    var v := word;
    var isWildcard := false;
    if v[0..2] == "*." {
      v := v[2..];
      isWildcard := true;
    }
    h := NewHostname(v, a.ip, a.ipv6, isWildcard);
  }

  method ReadNames(a: Address, domains: seq<string>) returns (r: Parsed)
    ensures r == ParseWords(a, domains)
  {
    var hostnames: seq<Hostname> := [];
    var i := 0;
    while i < |domains|
      invariant 0 <= i <= |domains|
      invariant forall j | 0 <= j < i :: |domains[j]| >= 2
      invariant HostnamesOf(a, domains) == hostnames + HostnamesOf(a, domains[i..])
    {
      var v := domains[i];
      if |v| < 2 {
        return OutOfRange;
      }
      NamesStep(a, domains, i, hostnames);
      var hostname := ReadName(a, v);
      hostnames := hostnames + [hostname];
      i := i + 1;
    }
    r := Entries(hostnames);
  }

  method ParseLine(classify: Classify, line: string) returns (r: Parsed)
    ensures r == ParsedLine(classify, line)
  {
    if |line| == 0 {
      return Entries([]);
    }
    if line[0] == '#' {
      return Entries([]);
    }
    var words := SplitWords(line);
    var address, domains := words[0], words[1..];
    if Contains(address, "%") {
      return Entries([]);
    }
    var ip := classify(address);
    if ip == None {
      return Entries([]);
    }
    r := ReadNames(ip.value, domains);
  }

  // ---------- The list ----------

  function FirstOccurrences<T(==)>(all: seq<T>): seq<T> {
    if all == [] then []
    else
      var before, last := FirstOccurrences(all[..|all| - 1]), all[|all| - 1];
      if last in before then before else before + [last]
  }

  method Add(list: seq<Hostname>, hostnamev: Hostname) returns (r: seq<Hostname>)
    requires hostnamev.domain == ToLower(hostnamev.domain)
    ensures r == if hostnamev in list then list else list + [hostnamev]
  {
    var hostname := NewHostname(hostnamev.domain, hostnamev.ip, hostnamev.ipv6, hostnamev.wildcard);
    var i := 0;
    while i < |list|
      invariant 0 <= i <= |list| && hostname !in list[..i]
    {
      if Equal(list[i], hostname) {
        return list;
      }
      i := i + 1;
    }
    r := list + [hostname];
  }

  /** All entries of a text in order, or the failure of the first line that fails. */
  function AllEntries(classify: Classify, lines: seq<string>): Parsed {
    if lines == [] then Entries([])
    else
      match ParsedLine(classify, lines[0])
      case OutOfRange => OutOfRange
      case Entries(hosts) =>
        match AllEntries(classify, lines[1..])
        case OutOfRange => OutOfRange
        case Entries(more) => Entries(hosts + more)
  }

  function Hostlist(classify: Classify, data: string): Parsed {
    match AllEntries(classify, Split(data, '\n'))
    case OutOfRange => OutOfRange
    case Entries(all) => Entries(FirstOccurrences(all))
  }

  method AddAll(list: seq<Hostname>, hosts: seq<Hostname>, ghost before: seq<Hostname>) returns (r: seq<Hostname>)
    requires list == FirstOccurrences(before)
    requires forall h | h in hosts :: h.domain == ToLower(h.domain)
    ensures r == FirstOccurrences(before + hosts)
  {
    r := list;
    var i := 0;
    assert before + hosts[..0] == before;
    while i < |hosts|
      invariant 0 <= i <= |hosts|
      invariant r == FirstOccurrences(before + hosts[..i])
    {
      r := Add(r, hosts[i]);
      assert (before + hosts[..i + 1])[..|before| + i] == before + hosts[..i];
      i := i + 1;
    }
    assert before + hosts[..i] == before + hosts;
  }

  method NewHostlistString(classify: Classify, data: string) returns (r: Parsed)
    ensures r == Hostlist(classify, data)
  {
    var hostlist: seq<Hostname> := [];
    ghost var all: seq<Hostname> := [];
    var lines := Split(data, '\n');
    var n := 0;
    while n < |lines|
      invariant 0 <= n <= |lines|
      invariant Prepend(all, AllEntries(classify, lines[n..])) == AllEntries(classify, lines)
      invariant hostlist == FirstOccurrences(all)
    {
      assert lines[n..][1..] == lines[n + 1..];
      var parsed := ParseLine(classify, lines[n]);
      if parsed == OutOfRange {
        return OutOfRange;
      }
      LineIsLower(classify, lines[n]);
      hostlist := AddAll(hostlist, parsed.hosts, all);
      PrependTwice(all, parsed.hosts, AllEntries(classify, lines[n + 1..]));
      all := all + parsed.hosts;
      n := n + 1;
    }
    assert all + [] == all;
    r := Entries(hostlist);
  }

  function Prepend(front: seq<Hostname>, p: Parsed): Parsed {
    match p
    case OutOfRange => OutOfRange
    case Entries(hosts) => Entries(front + hosts)
  }

  lemma PrependTwice(front: seq<Hostname>, middle: seq<Hostname>, p: Parsed)
    ensures Prepend(front, Prepend(middle, p)) == Prepend(front + middle, p)
  {
    if p.Entries? {
      assert front + (middle + p.hosts) == front + middle + p.hosts;
    }
  }

  lemma LineIsLower(classify: Classify, line: string)
    ensures var p := ParsedLine(classify, line);
            p.Entries? ==> forall h | h in p.hosts :: h.domain == ToLower(h.domain)
  {
    var a := LineAddress(classify, line);
    if a.Some? {
      NamesAreLower(a.value, Words(BeforeComment(line))[1..]);
    }
  }

  lemma {:induction false} NamesAreLower(a: Address, words: seq<string>)
    ensures forall h | h in HostnamesOf(a, words) :: h.domain == ToLower(h.domain)
  {
    if words != [] {
      NamesAreLower(a, words[1..]);
    }
  }

  /** The element occurs there and not before. */
  predicate FirstAt<T(==)>(all: seq<T>, x: T, i: nat) {
    i < |all| && all[i] == x && x !in all[..i]
  }

  lemma FirstStays<T>(all: seq<T>, n: nat, x: T, i: nat)
    requires n <= |all| && FirstAt(all[..n], x, i)
    ensures FirstAt(all, x, i) && i < n
  {
    assert all[..n][..i] == all[..i];
  }

  /** The list holds the first occurrence of every entry, in order, and nothing else: `at` gives
      the position in the text of each element of the list. */
  lemma {:induction false} ListIsFirstOccurrences<T>(all: seq<T>) returns (at: seq<nat>)
    ensures var d := FirstOccurrences(all);
            && |at| == |d|
            && (forall j | 0 <= j < |at| :: FirstAt(all, d[j], at[j]))
            && (forall j, k | 0 <= j < k < |at| :: at[j] < at[k] && d[j] != d[k])
            && (forall x :: x in all <==> x in d)
  {
    if all == [] {
      at := [];
    } else {
      var n := |all| - 1;
      at := ListIsFirstOccurrences(all[..n]);
      var d := FirstOccurrences(all[..n]);
      assert forall x :: x in all <==> x in all[..n] || x == all[n];
      forall j | 0 <= j < |at| ensures FirstAt(all, d[j], at[j]) && at[j] < n {
        FirstStays(all, n, d[j], at[j]);
      }
      if all[n] !in d {
        assert FirstAt(all, all[n], n);
        assert forall j | 0 <= j < |d| :: d[j] != all[n];
        at := at + [n];
      }
    }
  }

  // ---------- When reading fails ----------

  /** Reading fails exactly on a line that is not skipped and has a host name of fewer than two characters. */
  predicate HasShortName(classify: Classify, line: string) {
    LineAddress(classify, line).Some? && exists w | w in Words(BeforeComment(line))[1..] :: |w| < 2
  }

  lemma {:induction false} ReadingFailsExactly(classify: Classify, lines: seq<string>)
    ensures AllEntries(classify, lines) == OutOfRange <==> exists l | l in lines :: HasShortName(classify, l)
  {
    if lines != [] {
      ReadingFailsExactly(classify, lines[1..]);
      assert ParsedLine(classify, lines[0]) == OutOfRange <==> HasShortName(classify, lines[0]);
      assert forall l :: l in lines <==> l == lines[0] || l in lines[1..];
    }
  }

  // ---------- Lookup ----------

  predicate ExactMatch(h: Hostname, name: string) {
    !h.wildcard && h.domain == name
  }

  /** The domain of the wildcard is the name without its first label. */
  predicate WildcardMatch(h: Hostname, name: string) {
    var dot := IndexOf(name, '.');
    h.wildcard && dot < |name| && name[dot + 1..] == h.domain
  }

  function Ips(list: seq<Hostname>, p: Hostname -> bool): seq<string> {
    if list == [] then []
    else (if p(list[0]) then [list[0].ip] else []) + Ips(list[1..], p)
  }

  function Exactly(name: string): Hostname -> bool {
    h => ExactMatch(h, name)
  }

  function ByWildcard(name: string): Hostname -> bool {
    h => WildcardMatch(h, name)
  }

  /** Exact entries win over wildcard entries. */
  function Found(list: seq<Hostname>, name: string): seq<string> {
    var exact := Ips(list, Exactly(name));
    if exact != [] then exact else Ips(list, ByWildcard(name))
  }

  /** The comparison of the code, whose slices never leave the name. */
  lemma {:induction false} WildcardSlices(name: string, domain: string)
    requires |domain| < |name|
    ensures var suffix := "." + domain;
            name[|name| - |suffix|..] == suffix && !Contains(name[..|name| - |suffix|], ".")
            <==> IndexOf(name, '.') < |name| && name[IndexOf(name, '.') + 1..] == domain
  {
    var k := |name| - |domain| - 1;
    ContainsChar(name[..k], '.');
    FirstDot(name, k);
    assert name[k..] == [name[k]] + name[k + 1..];
    assert ("." + domain)[1..] == domain;
  }

  lemma FirstDot(name: string, k: nat)
    requires k < |name|
    ensures name[k] == '.' && '.' !in name[..k] <==> IndexOf(name, '.') == k
  {
    var dot := IndexOf(name, '.');
    assert forall j | 0 <= j < k :: name[..k][j] == name[j];
    assert dot < k ==> '.' in name[..k];
  }

  lemma {:induction false} ContainsChar(s: string, c: char)
    ensures Contains(s, [c]) <==> c in s
  {
    if s != [] {
      ContainsChar(s[1..], c);
      assert [c] <= s <==> s[0] == c;
      assert c in s <==> s[0] == c || c in s[1..];
    }
  }

  lemma WithoutFirstLabel(first: string, rest: string)
    requires '.' !in first
    ensures var name := first + "." + rest;
            IndexOf(name, '.') < |name| && name[IndexOf(name, '.') + 1..] == rest
  {
    var name := first + "." + rest;
    assert name[|first|] == '.' && forall i | 0 <= i < |first| :: name[i] == first[i];
    assert IndexOf(name, '.') == |first|;
  }

  lemma OneHost(h: Hostname, name: string)
    ensures Found([h], name) == if ExactMatch(h, name) || WildcardMatch(h, name) then [h.ip] else []
  {
    OneIp(h, Exactly(name));
    OneIp(h, ByWildcard(name));
    assert Exactly(name)(h) == ExactMatch(h, name) && ByWildcard(name)(h) == WildcardMatch(h, name);
  }

  lemma OneIp(h: Hostname, p: Hostname -> bool)
    ensures Ips([h], p) == if p(h) then [h.ip] else []
  {
    assert [h][1..] == [] && Ips([h][1..], p) == [];
  }

  /** A wildcard entry answers for a name one label below its domain, and for none two below. */
  lemma WildcardExample(domain: string, ip: string)
    ensures var list := [Hostname(domain, ip, false, true)];
            Found(list, "b" + "." + domain) == [ip] && Found(list, "a" + "." + ("b" + "." + domain)) == []
  {
    var list := [Hostname(domain, ip, false, true)];
    var near := "b" + "." + domain;
    WithoutFirstLabel("b", domain);
    WithoutFirstLabel("a", near);
    assert |near| == |domain| + 2;
    OneHost(list[0], near);
    OneHost(list[0], "a" + "." + near);
  }

  method FindHosts(list: seq<Hostname>, name: string) returns (addrs: seq<string>)
    ensures addrs == Found(list, name)
  {
    addrs := FindExact(list, name);
    if |addrs| == 0 {
      addrs := FindWildcard(list, name);
    }
  }

  lemma IpsStep(list: seq<Hostname>, p: Hostname -> bool, i: nat, addrs: seq<string>)
    requires i < |list| && Ips(list, p) == addrs + Ips(list[i..], p)
    ensures Ips(list, p) == (if p(list[i]) then addrs + [list[i].ip] else addrs) + Ips(list[i + 1..], p)
  {
    assert list[i..][1..] == list[i + 1..] && list[i..][0] == list[i];
  }

  method FindExact(list: seq<Hostname>, name: string) returns (addrs: seq<string>)
    ensures addrs == Ips(list, Exactly(name))
  {
    addrs := [];
    ghost var p := Exactly(name);
    var i := 0;
    while i < |list|
      invariant 0 <= i <= |list|
      invariant Ips(list, p) == addrs + Ips(list[i..], p)
    {
      IpsStep(list, p, i, addrs);
      assert p(list[i]) == ExactMatch(list[i], name);
      if !list[i].wildcard && list[i].domain == name {
        addrs := addrs + [list[i].ip];
      }
      i := i + 1;
    }
  }

  method FindWildcard(list: seq<Hostname>, name: string) returns (addrs: seq<string>)
    ensures addrs == Ips(list, ByWildcard(name))
  {
    addrs := [];
    ghost var p := ByWildcard(name);
    var i := 0;
    while i < |list|
      invariant 0 <= i <= |list|
      invariant Ips(list, p) == addrs + Ips(list[i..], p)
    {
      IpsStep(list, p, i, addrs);
      var matches := MatchesWildcard(list[i], name);
      assert p(list[i]) == matches;
      if matches {
        addrs := addrs + [list[i].ip];
      }
      i := i + 1;
    }
  }

  method MatchesWildcard(h: Hostname, name: string) returns (matches: bool)
    ensures matches == WildcardMatch(h, name)
  {
    matches := false;
    if h.wildcard && |h.domain| < |name| {
      WildcardSlices(name, h.domain);
      var domainMatch := "." + h.domain;
      if name[|name| - |domainMatch|..] == domainMatch {
        var left := name[..|name| - |domainMatch|];
        matches := !Contains(left, ".");
      }
    }
  }

  /** hostsfile.go: the name of a query without its final dot. */
  function TrimDot(name: string): string {
    if HasSuffix(name, ".") then name[..|name| - 1] else name
  }

  method FindQueriedHosts(list: seq<Hostname>, name: string) returns (addrs: seq<string>)
    ensures addrs == Found(list, TrimDot(name))
  {
    addrs := FindHosts(list, TrimDot(name));
  }

  lemma {:induction false} IpsMembers(list: seq<Hostname>, p: Hostname -> bool)
    ensures forall ip :: ip in Ips(list, p) <==> exists h | h in list :: p(h) && h.ip == ip
  {
    if list != [] {
      IpsMembers(list[1..], p);
    }
  }

  /** The name is one label in front of the domain. */
  ghost predicate OneLabelBelow(name: string, domain: string) {
    exists first: string :: '.' !in first && name == first + "." + domain
  }

  /** The entries of the hosts file that answer for a name: the exact ones, else the wildcards. */
  ghost predicate AnswersFor(list: seq<Hostname>, h: Hostname, name: string) {
    && h in list
    && if exists k :: k in list && !k.wildcard && k.domain == name then !h.wildcard && h.domain == name
       else h.wildcard && OneLabelBelow(name, h.domain)
  }

  /** The addresses found for a name are those of the entries that answer for it. */
  lemma FoundExactly(list: seq<Hostname>, name: string)
    ensures forall ip :: ip in Found(list, name) <==> exists h :: AnswersFor(list, h, name) && h.ip == ip
  {
    var exact := Ips(list, Exactly(name));
    IpsMembers(list, Exactly(name));
    IpsMembers(list, ByWildcard(name));
    assert exact == [] || exact[0] in exact;
    forall h | h in list
      ensures Exactly(name)(h) <==> !h.wildcard && h.domain == name
      ensures ByWildcard(name)(h) <==> h.wildcard && OneLabelBelow(name, h.domain)
    {
      WildcardIsOneLabel(h, name);
    }
    if k :| k in list && !k.wildcard && k.domain == name {
      assert Exactly(name)(k);
      assert k.ip in exact;
    }
    forall ip
      ensures ip in Found(list, name) <==> exists h :: AnswersFor(list, h, name) && h.ip == ip
    {
      if ip in Found(list, name) {
        var p := if exact != [] then Exactly(name) else ByWildcard(name);
        var h :| h in list && p(h) && h.ip == ip;
        assert AnswersFor(list, h, name);
      }
    }
  }

  lemma WildcardIsOneLabel(h: Hostname, name: string)
    ensures WildcardMatch(h, name) <==> h.wildcard && OneLabelBelow(name, h.domain)
  {
    var dot := IndexOf(name, '.');
    if WildcardMatch(h, name) {
      assert name == name[..dot] + "." + h.domain;
      assert '.' !in name[..dot];
    }
    if first: string :| '.' !in first && name == first + "." + h.domain {
      WithoutFirstLabel(first, h.domain);
    }
  }

  /** Entries that repeat in the text change no answer: the same addresses are found as in the
      full list of entries, and no address is found twice. */
  lemma DuplicatesDoNotMatter(all: seq<Hostname>, name: string)
    requires forall h, k | h in all && k in all && h.ip == k.ip :: h.ipv6 == k.ipv6
    ensures forall ip :: ip in Found(FirstOccurrences(all), name) <==> ip in Found(all, name)
    ensures Distinct(Found(FirstOccurrences(all), name))
  {
    var d := FirstOccurrences(all);
    var at := ListIsFirstOccurrences(all);
    var exact := Exactly(name);
    var wild := ByWildcard(name);
    IpsMembers(d, exact);
    IpsMembers(all, exact);
    IpsMembers(d, wild);
    IpsMembers(all, wild);
    SameEmptiness(Ips(d, exact), Ips(all, exact));
    assert forall h | h in d :: h in all;
    IpsDistinct(d, exact);
    IpsDistinct(d, wild);
  }

  lemma SameEmptiness(a: seq<string>, b: seq<string>)
    requires forall x :: x in a <==> x in b
    ensures a == [] <==> b == []
  {
    if a != [] {
      assert a[0] in b;
    }
    if b != [] {
      assert b[0] in a;
    }
  }

  predicate Distinct<T(==)>(xs: seq<T>) {
    forall i, j | 0 <= i < j < |xs| :: xs[i] != xs[j]
  }

  /** Different entries that satisfy a test have different addresses. */
  lemma {:induction false} IpsDistinct(list: seq<Hostname>, p: Hostname -> bool)
    requires Distinct(list)
    requires forall h, k | h in list && k in list && p(h) && p(k) && h.ip == k.ip :: h == k
    ensures Distinct(Ips(list, p))
  {
    if list != [] {
      var rest := list[1..];
      assert Distinct(rest) && list[0] !in rest;
      IpsDistinct(rest, p);
      IpsMembers(rest, p);
      var front := if p(list[0]) then [list[0].ip] else [];
      assert p(list[0]) ==> list[0].ip !in Ips(rest, p);
      ConsDistinct(front, Ips(rest, p));
    }
  }

  lemma ConsDistinct(front: seq<string>, xs: seq<string>)
    requires Distinct(xs) && |front| <= 1 && (front != [] ==> front[0] !in xs)
    ensures Distinct(front + xs)
  {
    var f := front + xs;
    assert forall j | |front| <= j < |f| :: f[j] == xs[j - |front|] && f[j] in xs;
  }
}
