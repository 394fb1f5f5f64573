/** Splitting, joining and trimming texts, stated once for every encoder and scanner. */
module Texts {
  lemma Assoc(a: string, b: string, c: string)
    ensures (a + b) + c == a + (b + c)
  {
  }

  lemma SplitAlike(a: string, x: string, b: string, y: string)
    requires a + x == b + y && |a| == |b|
    ensures a == b && x == y
  {
    assert a == (a + x)[..|a|] && b == (b + y)[..|a|];
    assert x == (a + x)[|a|..] && y == (b + y)[|a|..];
  }

  /** Of two splits of one text, the one cut earlier continues inside the other's first part. */
  lemma Overlap(a: string, x: string, b: string, y: string)
    requires a + x == b + y
    ensures |a| < |b| ==> |x| > 0 && b[|a|] == x[0]
  {
    assert |a| < |b| ==> (a + x)[|a|] == (b + y)[|a|];
  }

  lemma FirstOf(a: string, x: string)
    requires a != ""
    ensures (a + x)[0] == a[0]
  {
  }

  /** The Unicode White_Space characters. */
  predicate IsWhite(c: char) {
    || '\t' <= c <= '\r' || c == ' ' || c == '\U{85}' || c == '\U{A0}' || c == '\U{1680}'
    || '\U{2000}' <= c <= '\U{200A}' || c == '\U{2028}' || c == '\U{2029}'
    || c == '\U{202F}' || c == '\U{205F}' || c == '\U{3000}'
  }

  const WHITE_SPACE: seq<int> :=
    [0x09, 0x0A, 0x0B, 0x0C, 0x0D, 0x20, 0x85, 0xA0, 0x1680, 0x2000, 0x2001, 0x2002, 0x2003, 0x2004, 0x2005, 0x2006,
     0x2007, 0x2008, 0x2009, 0x200A, 0x2028, 0x2029, 0x202F, 0x205F, 0x3000]

  /** One by one: the 25 code points with that property. */
  lemma WhiteSpaceHas25Characters(c: char)
    ensures |WHITE_SPACE| == 25 && (IsWhite(c) <==> c as int in WHITE_SPACE)
  {
  }

  function TrimStart(s: string): (r: string)
    ensures r != "" ==> !IsWhite(r[0])
    ensures r != "" ==> s != "" && r[|r| - 1] == s[|s| - 1]
  {
    if s != "" && IsWhite(s[0]) then TrimStart(s[1..]) else s
  }

  function TrimEnd(s: string): (r: string)
    ensures r <= s
    ensures r != "" ==> !IsWhite(r[|r| - 1])
  {
    if s != "" && IsWhite(s[|s| - 1]) then TrimEnd(s[..|s| - 1]) else s
  }

  function Trim(s: string): string {
    TrimEnd(TrimStart(s))
  }

  predicate Blank(s: string) {
    Trim(s) == ""
  }

  /** Text the parser leaves alone: not empty, no white space at either end. */
  ghost predicate Trimmed(s: string) {
    s != "" && !IsWhite(s[0]) && !IsWhite(s[|s| - 1])
  }

  lemma TrimTrims(s: string)
    ensures Trim(s) != "" ==> Trimmed(Trim(s))
    ensures Trimmed(s) ==> Trim(s) == s
  {
  }

  ghost predicate AllWhite(s: string) {
    forall i | 0 <= i < |s| :: IsWhite(s[i])
  }

  /** A text is blank when it holds nothing but white space. */
  lemma BlankIsAllWhite(s: string)
    ensures Blank(s) <==> AllWhite(s)
  {
    var a := TrimStartDrops(s);
    var b := TrimEndDrops(TrimStart(s));
    if Blank(s) {
      assert s == a + b;
    } else {
      assert Trim(s)[0] == TrimStart(s)[0] == s[|a|];
    }
  }

  lemma {:induction false} TrimStartDrops(s: string) returns (a: string)
    ensures s == a + TrimStart(s) && AllWhite(a)
  {
    a := "";
    if s != "" && IsWhite(s[0]) {
      var rest := TrimStartDrops(s[1..]);
      a := [s[0]] + rest;
      assert s == [s[0]] + s[1..];
    }
  }

  lemma {:induction false} TrimEndDrops(s: string) returns (b: string)
    ensures s == TrimEnd(s) + b && AllWhite(b)
  {
    b := "";
    if s != "" && IsWhite(s[|s| - 1]) {
      var rest := TrimEndDrops(s[..|s| - 1]);
      b := rest + [s[|s| - 1]];
      assert s == s[..|s| - 1] + [s[|s| - 1]];
    }
  }

  // ---------------------------------------------------------------------
  // UTF-8
  // ---------------------------------------------------------------------

  type Byte = b: int | 0 <= b < 0x100

  /** A character in UTF-8 (section 3 of RFC 3629). */
  function Utf8(c: char): seq<Byte> {
    var n := c as int;
    if n < 0x80 then [n]
    else if n < 0x800 then [0xC0 + n / 0x40, Continuation(n)]
    else if n < 0x1_0000 then [0xE0 + n / 0x1000, Continuation(n / 0x40), Continuation(n)]
    else [0xF0 + n / 0x4_0000, Continuation(n / 0x1000), Continuation(n / 0x40), Continuation(n)]
  }

  function Continuation(n: nat): Byte {
    0x80 + n % 0x40
  }

  /** The code point that one to four bytes encode (section 3 of RFC 3629). */
  function CodePoint(bytes: seq<int>): int
    requires 1 <= |bytes| <= 4
  {
    if |bytes| == 1 then bytes[0]
    else if |bytes| == 2 then 0x40 * (bytes[0] - 0xC0) + (bytes[1] - 0x80)
    else if |bytes| == 3 then 0x1000 * (bytes[0] - 0xE0) + 0x40 * (bytes[1] - 0x80) + (bytes[2] - 0x80)
    else 0x4_0000 * (bytes[0] - 0xF0) + 0x1000 * (bytes[1] - 0x80) + 0x40 * (bytes[2] - 0x80) + (bytes[3] - 0x80)
  }

  /** A character's bytes encode it, and are as few as can be. */
  lemma Utf8HoldsTheCodePoint(c: char)
    ensures var n := c as int;
            |Utf8(c)| == if n < 0x80 then 1 else if n < 0x800 then 2 else if n < 0x1_0000 then 3 else 4
    ensures forall i | 0 < i < |Utf8(c)| :: 0x80 <= Utf8(c)[i] < 0xC0
    ensures CodePoint(Utf8(c)) == c as int
  {
    var n := c as int;
    var m := n / 0x40;
    var k := m / 0x40;
    assert k == n / 0x1000 && k / 0x40 == n / 0x4_0000;
    assert n == 0x40 * m + n % 0x40 && m == 0x40 * k + m % 0x40 && k == 0x40 * (k / 0x40) + k % 0x40;
  }
}
