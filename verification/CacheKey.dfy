/** cache/cache.go: the key of a question. */
module CacheKey {
  import opened Dns

  /** `h.Sum` on a SHA-1 that was fed nothing: the same twenty bytes for every key. */
  const EMPTY_DIGEST: string := [
    0xDA as char, 0x39 as char, 0xA3 as char, 0xEE as char, 0x5E as char,
    0x6B as char, 0x4B as char, 0x0D as char, 0x32 as char, 0x55 as char,
    0xBF as char, 0xEF as char, 0x95 as char, 0x60 as char, 0x18 as char,
    0x90 as char, 0xAF as char, 0xD8 as char, 0x07 as char, 0x09 as char]

  datatype Subject = Subject(name: string, qtype: uint16, dnssec: bool, tcp: bool)

  function PackUint16(i: uint16): string {
    [(i / 256) as char, (i % 256) as char]
  }

  function Flags(dnssec: bool, tcp: bool): string {
    (if dnssec then [255 as char] else []) + (if tcp then [254 as char] else [])
  }

  function KeyOf(s: Subject): string {
    s.name + PackUint16(s.qtype) + Flags(s.dnssec, s.tcp) + EMPTY_DIGEST
  }

  method Key(q: Question, dnssec: bool, tcp: bool) returns (key: string)
    ensures key == KeyOf(Subject(q.name, q.qtype, dnssec, tcp))
  {
    var i := q.name + PackUint16(q.qtype);
    if dnssec {
      i := i + [255 as char];
    }
    if tcp {
      i := i + [254 as char];
    }
    key := i + EMPTY_DIGEST;
    assert Flags(dnssec, tcp) == (if dnssec then [255 as char] else []) + (if tcp then [254 as char] else []);
    assert key == KeyOf(Subject(q.name, q.qtype, dnssec, tcp));
  }

  /** A fully qualified name whose last label is not empty, or the root. */
  predicate WellFormedName(s: string) {
    IsFqdn(s) && !IsFqdn(s[..|s| - 1])
  }

  /** The one way in which two keys meet: query type 0xFFFE reads as both flags. */
  predicate Collides(a: Subject, b: Subject) {
    && a.qtype == 0xFFFE && !a.dnssec && !a.tcp
    && b.dnssec && b.tcp
    && a.name == b.name + PackUint16(b.qtype)
  }

  lemma EqualKeysEqualParts(a: Subject, b: Subject)
    requires KeyOf(a) == KeyOf(b)
    ensures a.name + PackUint16(a.qtype) + Flags(a.dnssec, a.tcp)
         == b.name + PackUint16(b.qtype) + Flags(b.dnssec, b.tcp)
  {
    var x := a.name + PackUint16(a.qtype) + Flags(a.dnssec, a.tcp);
    var y := b.name + PackUint16(b.qtype) + Flags(b.dnssec, b.tcp);
    assert x + EMPTY_DIGEST == KeyOf(a) && y + EMPTY_DIGEST == KeyOf(b);
    assert (x + EMPTY_DIGEST)[..|x|] == x && (y + EMPTY_DIGEST)[..|y|] == y;
  }

  lemma PackInjective(i: uint16, j: uint16)
    requires PackUint16(i)[0] == PackUint16(j)[0] && PackUint16(i)[1] == PackUint16(j)[1]
    ensures i == j
  {
    assert i / 256 == ((i / 256) as char) as int && j / 256 == ((j / 256) as char) as int;
    assert i % 256 == ((i % 256) as char) as int && j % 256 == ((j % 256) as char) as int;
  }

  lemma FlagsInjective(a: Subject, b: Subject)
    requires Flags(a.dnssec, a.tcp) == Flags(b.dnssec, b.tcp)
    ensures a.dnssec == b.dnssec && a.tcp == b.tcp
  {
    var f, g := Flags(a.dnssec, a.tcp), Flags(b.dnssec, b.tcp);
    assert |f| == |g| && (f != [] ==> f[0] == g[0]);
  }

  lemma SameLengthSameSubject(a: Subject, b: Subject)
    requires KeyOf(a) == KeyOf(b)
    requires |Flags(a.dnssec, a.tcp)| == |Flags(b.dnssec, b.tcp)|
    ensures a == b
  {
    EqualKeysEqualParts(a, b);
    var x := a.name + PackUint16(a.qtype) + Flags(a.dnssec, a.tcp);
    var y := b.name + PackUint16(b.qtype) + Flags(b.dnssec, b.tcp);
    var n := |a.name|;
    assert x[..n] == a.name && y[..n] == b.name;
    assert x[n] == PackUint16(a.qtype)[0] && x[n + 1] == PackUint16(a.qtype)[1];
    assert y[n] == PackUint16(b.qtype)[0] && y[n + 1] == PackUint16(b.qtype)[1];
    assert x[n + 2..] == Flags(a.dnssec, a.tcp) && y[n + 2..] == Flags(b.dnssec, b.tcp);
    PackInjective(a.qtype, b.qtype);
    FlagsInjective(a, b);
  }

  /** With one flag fewer the longer name would end in an empty label; with two fewer the type
      bytes read as the flags. */
  lemma FewerFlagsCollide(a: Subject, b: Subject)
    requires WellFormedName(a.name) && WellFormedName(b.name)
    requires KeyOf(a) == KeyOf(b)
    requires |Flags(a.dnssec, a.tcp)| < |Flags(b.dnssec, b.tcp)|
    ensures Collides(a, b)
  {
    EqualKeysEqualParts(a, b);
    var x := a.name + PackUint16(a.qtype) + Flags(a.dnssec, a.tcp);
    var y := b.name + PackUint16(b.qtype) + Flags(b.dnssec, b.tcp);
    var n := |b.name|;
    assert y[n] == PackUint16(b.qtype)[0] && y[n + 1] == PackUint16(b.qtype)[1];
    assert n < |a.name| <= n + 2;
    assert a.name[..n] == x[..n] == b.name;
    assert |a.name| == n + 2;
    assert a.name == x[..n + 2] == b.name + PackUint16(b.qtype);
    assert x[n + 2] == PackUint16(a.qtype)[0] && x[n + 3] == PackUint16(a.qtype)[1];
    assert y[n + 2] == 255 as char && y[n + 3] == 254 as char;
  }

  /** Two questions share a key exactly when they agree on name, type, DNSSEC flag and transport,
      or collide through query type 0xFFFE. */
  lemma KeysMeetExactly(a: Subject, b: Subject)
    requires WellFormedName(a.name) && WellFormedName(b.name)
    ensures KeyOf(a) == KeyOf(b) <==> a == b || Collides(a, b) || Collides(b, a)
  {
    if KeyOf(a) == KeyOf(b) {
      if |Flags(a.dnssec, a.tcp)| == |Flags(b.dnssec, b.tcp)| {
        SameLengthSameSubject(a, b);
      } else if |Flags(a.dnssec, a.tcp)| < |Flags(b.dnssec, b.tcp)| {
        FewerFlagsCollide(a, b);
      } else {
        FewerFlagsCollide(b, a);
      }
    }
    if Collides(a, b) {
      CollidingKeys(a, b);
    }
    if Collides(b, a) {
      CollidingKeys(b, a);
    }
  }

  lemma CollidingKeys(a: Subject, b: Subject)
    requires Collides(a, b)
    ensures KeyOf(a) == KeyOf(b)
  {
    assert PackUint16(a.qtype) == Flags(true, true);
    assert KeyOf(a) == b.name + PackUint16(b.qtype) + Flags(true, true) + Flags(false, false) + EMPTY_DIGEST;
    assert Flags(true, true) + Flags(false, false) == Flags(true, true);
  }

  /** Two well-formed questions that do meet. */
  lemma CollisionExample()
    ensures var a := Subject("a.", 0x622E, true, true);
            var b := Subject("a.b.", 0xFFFE, false, false);
            a != b && WellFormedName(a.name) && WellFormedName(b.name) && KeyOf(a) == KeyOf(b)
  {
    assert PackUint16(0x622E) == ['b', '.'];
    CollidingKeys(Subject("a.b.", 0xFFFE, false, false), Subject("a.", 0x622E, true, true));
  }
}
