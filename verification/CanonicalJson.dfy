/**
  The canonical JSON of a ledger event: the exact text that is hashed after the
  predecessor's hash. The main result is `PreimageDeterminesEvent`: that text
  determines the predecessor hash and all ten fields, for predecessors of any length.
 */
module CanonicalJson {
  import opened Texts
  import opened Wrappers

  datatype CanonicalEvent = CanonicalEvent(
    seqNo: int,
    ts: int,
    kind: string,
    author: string,
    promptId: Option<int>,
    sessionId: Option<string>,
    versionNumber: Option<int>,
    refKind: Option<string>,
    refId: Option<string>,
    payloadHash: string)

  /** What one member of the object may hold: an integer, a string, or null. */
  datatype Scalar = Number(n: int) | Text(s: string) | Null

  // ---------------------------------------------------------------------
  // Decimal integers
  // ---------------------------------------------------------------------

  const DIGITS := "0123456789"
  const HEX_DIGITS := "0123456789abcdef"

  /** The characters an integer is written with. */
  predicate IsNumeric(c: char) {
    c == '-' || '0' <= c <= '9'
  }

  function Decimal(n: nat): (s: string)
    ensures s != "" && '0' <= s[0] <= '9'
    ensures forall i | 0 <= i < |s| :: IsNumeric(s[i])
  {
    if n < 10 then [DIGITS[n]] else Decimal(n / 10) + [DIGITS[n % 10]]
  }

  function Integer(n: int): (s: string)
    ensures s != "" && (s[0] == '-' <==> n < 0)
    ensures forall i | 0 <= i < |s| :: IsNumeric(s[i])
  {
    if n < 0 then ['-'] + Decimal(-n) else Decimal(n)
  }

  /** The number a run of digits denotes. */
  ghost function DecimalValue(s: string): int {
    if s == "" then 0 else 10 * DecimalValue(s[..|s| - 1]) + (s[|s| - 1] as int - '0' as int)
  }

  ghost function IntegerValue(s: string): int {
    if s != "" && s[0] == '-' then -DecimalValue(s[1..]) else DecimalValue(s)
  }

  lemma {:induction false} DecimalDenotes(n: nat)
    ensures DecimalValue(Decimal(n)) == n
  {
    if n < 10 {
      assert Decimal(n)[..0] == "";
    } else {
      DecimalDenotes(n / 10);
      assert Decimal(n)[..|Decimal(n)| - 1] == Decimal(n / 10);
    }
  }

  lemma IntegerDenotes(n: int)
    ensures IntegerValue(Integer(n)) == n
  {
    DecimalDenotes(if n < 0 then -n else n);
    if n < 0 {
      assert Integer(n)[1..] == Decimal(-n);
    }
  }

  /** A text that cannot extend the scalar before it: in an object it starts with a comma or a brace. */
  ghost predicate Stops(x: string) {
    x != "" && (x[0] == ',' || x[0] == '}')
  }

  lemma IntegerPrefix(m: int, n: int, x: string, y: string)
    requires Integer(m) + x == Integer(n) + y && Stops(x) && Stops(y)
    ensures m == n && x == y
  {
    Overlap(Integer(m), x, Integer(n), y);
    Overlap(Integer(n), y, Integer(m), x);
    SplitAlike(Integer(m), x, Integer(n), y);
    IntegerDenotes(m);
    IntegerDenotes(n);
  }

  // ---------------------------------------------------------------------
  // Escaped strings (section 7 of RFC 8259)
  // ---------------------------------------------------------------------

  function EscapeChar(c: char): (e: string)
    ensures e != ""
  {
    if c == '\"' then ['\\', '\"']
    else if c == '\\' then ['\\', '\\']
    else if c == '\U{8}' then ['\\', 'b']
    else if c == '\U{C}' then ['\\', 'f']
    else if c == '\n' then ['\\', 'n']
    else if c == '\r' then ['\\', 'r']
    else if c == '\t' then ['\\', 't']
    else if c < ' ' then ['\\', 'u', '0', '0', HEX_DIGITS[c as int / 16], HEX_DIGITS[c as int % 16]]
    else [c]
  }

  /** The escaped characters of a string, then its closing quote. */
  function Closed(s: string): (e: string)
    ensures e != ""
  {
    if s == "" then ['\"'] else EscapeChar(s[0]) + Closed(s[1..])
  }

  /** How long an escape is, read off its first two characters. */
  lemma EscapeLength(c: char)
    ensures EscapeChar(c)[0] != '\"'
    ensures EscapeChar(c)[0] != '\\' ==> |EscapeChar(c)| == 1
    ensures EscapeChar(c)[0] == '\\' ==> |EscapeChar(c)| == (if EscapeChar(c)[1] == 'u' then 6 else 2)
  {
  }

  lemma EscapeCharInjective(c: char, d: char)
    requires EscapeChar(c) == EscapeChar(d)
    ensures c == d
  {
    var e, f := EscapeChar(c), EscapeChar(d);
    assert e[0] == f[0] && |e| == |f|;
    if |e| == 6 {
      assert e[4] == f[4] && e[5] == f[5];
      assert c as int / 16 == d as int / 16;
    }
  }

  lemma EscapeCharPrefix(c: char, d: char, x: string, y: string)
    requires EscapeChar(c) + x == EscapeChar(d) + y
    ensures c == d && x == y
  {
    var a, b := EscapeChar(c), EscapeChar(d);
    EscapeLength(c);
    EscapeLength(d);
    FirstOf(a, x);
    FirstOf(b, y);
    if a[0] == '\\' {
      assert (a + x)[1] == a[1] && (b + y)[1] == b[1];
    }
    SplitAlike(a, x, b, y);
    EscapeCharInjective(c, d);
  }

  lemma {:induction false} ClosedPrefix(s: string, t: string, x: string, y: string)
    requires Closed(s) + x == Closed(t) + y
    ensures s == t && x == y
  {
    FirstOf(Closed(s), x);
    FirstOf(Closed(t), y);
    if s == "" {
      SplitAlike(Closed(s), x, Closed(t), y);
    } else {
      Assoc(EscapeChar(s[0]), Closed(s[1..]), x);
      Assoc(EscapeChar(t[0]), Closed(t[1..]), y);
      EscapeCharPrefix(s[0], t[0], Closed(s[1..]) + x, Closed(t[1..]) + y);
      ClosedPrefix(s[1..], t[1..], x, y);
      assert s == [s[0]] + s[1..] && t == [t[0]] + t[1..];
    }
  }

  // ---------------------------------------------------------------------
  // Objects
  // ---------------------------------------------------------------------

  const NULL: string := ['n', 'u', 'l', 'l']

  function Encode(v: Scalar): (e: string)
    ensures e != ""
  {
    match v
    case Number(n) => Integer(n)
    case Text(s) => ['\"'] + Closed(s)
    case Null => NULL
  }

  lemma EncodePrefix(v: Scalar, w: Scalar, x: string, y: string)
    requires Encode(v) + x == Encode(w) + y && Stops(x) && Stops(y)
    ensures v == w && x == y
  {
    FirstOf(Encode(v), x);
    FirstOf(Encode(w), y);
    match v
    case Number(m) =>
      IntegerPrefix(m, w.n, x, y);
    case Text(s) =>
      Assoc(['\"'], Closed(s), x);
      Assoc(['\"'], Closed(w.s), y);
      SplitAlike(['\"'], Closed(s) + x, ['\"'], Closed(w.s) + y);
      ClosedPrefix(s, w.s, x, y);
    case Null =>
      SplitAlike(NULL, x, NULL, y);
  }

  type Fields = seq<(string, Scalar)>

  /** Every member preceded by a comma, then the closing brace. */
  function Members(fs: Fields): (s: string)
    ensures Stops(s)
  {
    if fs == [] then ['}'] else Label(fs[0].0) + (Encode(fs[0].1) + Members(fs[1..]))
  }

  /** The comma and the quoted name before a member's value. */
  function Label(name: string): (s: string)
    ensures s != "" && s[0] == ','
  {
    ",\"" + name + "\":"
  }

  /** The compact object text: the first comma gives way to the opening brace. */
  function Object(fs: Fields): string {
    ['{'] + Members(fs)[1..]
  }

  ghost predicate SameNames(fs: Fields, gs: Fields) {
    |fs| == |gs| && forall i | 0 <= i < |fs| :: fs[i].0 == gs[i].0
  }

  lemma {:induction false} MembersDetermineFields(fs: Fields, gs: Fields)
    requires SameNames(fs, gs) && Members(fs) == Members(gs)
    ensures fs == gs
  {
    if fs != [] {
      var v, w := Encode(fs[0].1), Encode(gs[0].1);
      SplitAlike(Label(fs[0].0), v + Members(fs[1..]), Label(gs[0].0), w + Members(gs[1..]));
      EncodePrefix(fs[0].1, gs[0].1, Members(fs[1..]), Members(gs[1..]));
      MembersDetermineFields(fs[1..], gs[1..]);
      assert fs == [fs[0]] + fs[1..] && gs == [gs[0]] + gs[1..];
    }
  }

  // ---------------------------------------------------------------------
  // No object text hides inside another one's tail
  // ---------------------------------------------------------------------

  /** `{"s` occurs at position k. */
  ghost predicate OpensAt(t: string, k: int) {
    0 <= k && k + 2 < |t| && t[k] == '{' && t[k + 1] == '\"' && t[k + 2] == 's'
  }

  ghost predicate NeverOpens(t: string) {
    forall k :: !OpensAt(t, k)
  }

  /** An opening inside a joined text lies in one of its parts, unless the second part completes it. */
  lemma OpeningLiesInAPart(a: string, b: string, k: int)
    requires b != "" && b[0] != '\"' && b[0] != 's'
    ensures OpensAt(a + b, k) ==> OpensAt(a, k) || OpensAt(b, k - |a|)
  {
    assert (a + b)[|a|] == b[0];
  }

  lemma NeverOpensConcat(a: string, b: string)
    requires NeverOpens(a) && NeverOpens(b) && b != "" && b[0] != '\"' && b[0] != 's'
    ensures NeverOpens(a + b)
  {
    forall k
      ensures !OpensAt(a + b, k)
    {
      OpeningLiesInAPart(a, b, k);
    }
  }

  /** Inside an escaped string a quote follows a backslash, except the one that closes it. */
  ghost predicate QuotesEscaped(t: string) {
    forall k | 0 <= k < |t| - 1 && t[k] == '\"' :: k > 0 && t[k - 1] == '\\'
  }

  lemma {:induction false} ClosedEscapesQuotes(s: string)
    ensures QuotesEscaped(Closed(s))
  {
    if s != "" {
      ClosedEscapesQuotes(s[1..]);
      var a, b := EscapeChar(s[0]), Closed(s[1..]);
      forall k | 0 <= k < |a + b| - 1 && (a + b)[k] == '\"'
        ensures k > 0 && (a + b)[k - 1] == '\\'
      {
        if k >= |a| {
          assert b[k - |a|] == '\"';
        }
      }
    }
  }

  lemma EncodeNeverOpens(v: Scalar)
    ensures NeverOpens(Encode(v))
  {
    match v
    case Number(n) =>
    case Text(s) =>
      ClosedEscapesQuotes(s);
      var e := Encode(v);
      forall k
        ensures !OpensAt(e, k)
      {
        assert forall i | 0 < i < |e| :: e[i] == Closed(s)[i - 1];
      }
    case Null =>
  }

  lemma {:induction false} MembersNeverOpen(fs: Fields)
    requires forall f | f in fs :: '{' !in f.0
    ensures NeverOpens(Members(fs))
  {
    if fs != [] {
      assert fs[0] in fs;
      MembersNeverOpen(fs[1..]);
      EncodeNeverOpens(fs[0].1);
      NeverOpensConcat(Encode(fs[0].1), Members(fs[1..]));
      LabelNeverOpens(fs[0].0, Encode(fs[0].1) + Members(fs[1..]));
    }
  }

  lemma LabelNeverOpens(name: string, rest: string)
    requires '{' !in name && NeverOpens(rest)
    ensures NeverOpens(Label(name) + rest)
  {
    var l := Label(name);
    assert forall i | 0 <= i < |l| :: l[i] != '{';
    forall k
      ensures !OpensAt(l + rest, k)
    {
      assert OpensAt(l + rest, k) ==> OpensAt(rest, k - |l|);
    }
  }

  // ---------------------------------------------------------------------
  // The event
  // ---------------------------------------------------------------------

  function OfInt(o: Option<int>): Scalar {
    match o
    case Some(n) => Number(n)
    case None => Null
  }

  function OfText(o: Option<string>): Scalar {
    match o
    case Some(s) => Text(s)
    case None => Null
  }

  const FIELD_COUNT := 10

  /** Member i, in declaration order. */
  function Field(e: CanonicalEvent, i: nat): (string, Scalar)
    requires i < FIELD_COUNT
  {
    match i
    case 0 => ("seq", Number(e.seqNo))
    case 1 => ("ts", Number(e.ts))
    case 2 => ("kind", Text(e.kind))
    case 3 => ("author", Text(e.author))
    case 4 => ("prompt_id", OfInt(e.promptId))
    case 5 => ("session_id", OfText(e.sessionId))
    case 6 => ("version_number", OfInt(e.versionNumber))
    case 7 => ("ref_kind", OfText(e.refKind))
    case 8 => ("ref_id", OfText(e.refId))
    case 9 => ("payload_hash", Text(e.payloadHash))
  }

  function FieldsOf(e: CanonicalEvent): Fields {
    seq(FIELD_COUNT, i requires 0 <= i < FIELD_COUNT => Field(e, i))
  }

  function Canonical(e: CanonicalEvent): string {
    Object(FieldsOf(e))
  }

  lemma CanonicalDeterminesEvent(e: CanonicalEvent, f: CanonicalEvent)
    requires Canonical(e) == Canonical(f)
    ensures e == f
  {
    hide Object;
    ObjectDeterminesFields(FieldsOf(e), FieldsOf(f));
    SameFieldsSameEvent(e, f);
  }

  lemma ObjectDeterminesFields(fs: Fields, gs: Fields)
    requires fs != [] && SameNames(fs, gs) && Object(fs) == Object(gs)
    ensures fs == gs
  {
    hide Members;
    var a, b := Members(fs), Members(gs);
    SplitAlike(['{'], a[1..], ['{'], b[1..]);
    FirstIsComma(fs);
    FirstIsComma(gs);
    assert a == [a[0]] + a[1..] && b == [b[0]] + b[1..];
    MembersDetermineFields(fs, gs);
  }

  lemma FirstIsComma(fs: Fields)
    requires fs != []
    ensures Members(fs)[0] == ','
  {
    FirstOf(Label(fs[0].0), Encode(fs[0].1) + Members(fs[1..]));
  }

  lemma SameFieldsSameEvent(e: CanonicalEvent, f: CanonicalEvent)
    requires FieldsOf(e) == FieldsOf(f)
    ensures e == f
  {
    forall i: nat | i < FIELD_COUNT
      ensures Field(e, i) == Field(f, i)
    {
      assert FieldsOf(e)[i] == FieldsOf(f)[i];
    }
    SameMembersSameEvent(e, f);
  }

  lemma SameMembersSameEvent(e: CanonicalEvent, f: CanonicalEvent)
    requires forall i: nat | i < FIELD_COUNT :: Field(e, i) == Field(f, i)
    ensures e == f
  {
    assert Field(e, 0) == Field(f, 0) && Field(e, 1) == Field(f, 1) && Field(e, 2) == Field(f, 2);
    assert Field(e, 3) == Field(f, 3) && Field(e, 4) == Field(f, 4) && Field(e, 5) == Field(f, 5);
    assert Field(e, 6) == Field(f, 6) && Field(e, 7) == Field(f, 7) && Field(e, 8) == Field(f, 8);
    assert Field(e, 9) == Field(f, 9);
  }

  lemma NoBraceInNames(e: CanonicalEvent)
    ensures forall f | f in FieldsOf(e) :: '{' !in f.0
  {
    forall i: nat | i < FIELD_COUNT
      ensures '{' !in Field(e, i).0
    {
    }
  }

  lemma CanonicalOpens(e: CanonicalEvent)
    ensures OpensAt(Canonical(e), 0)
    ensures forall k :: k > 0 ==> !OpensAt(Canonical(e), k)
  {
    var fs := FieldsOf(e);
    NoBraceInNames(e);
    MembersNeverOpen(fs);
    ObjectOpens(fs);
  }

  lemma MembersStart(fs: Fields)
    requires fs != [] && |fs[0].0| > 0
    ensures |Members(fs)| > 3 && Members(fs)[1] == '\"' && Members(fs)[2] == fs[0].0[0]
  {
    hide Encode;
    var l := Label(fs[0].0);
    assert l[1] == '\"' && l[2] == fs[0].0[0];
    assert Members(fs)[1] == l[1] && Members(fs)[2] == l[2];
  }

  lemma ObjectOpens(fs: Fields)
    requires fs != [] && fs[0].0 == "seq" && NeverOpens(Members(fs))
    ensures OpensAt(Object(fs), 0)
    ensures forall k :: k > 0 ==> !OpensAt(Object(fs), k)
  {
    hide Members;
    MembersStart(fs);
    var m, o := Members(fs), Object(fs);
    forall k | k > 0
      ensures !OpensAt(o, k)
    {
      assert OpensAt(o, k) ==> OpensAt(m, k);
    }
  }

  /** The text the digest is taken over: the predecessor's hash, then the canonical JSON. */
  function Preimage(prevHash: string, e: CanonicalEvent): string {
    prevHash + Canonical(e)
  }

  lemma PreimageDeterminesEvent(p: string, e: CanonicalEvent, q: string, f: CanonicalEvent)
    requires Preimage(p, e) == Preimage(q, f)
    ensures p == q && e == f
  {
    CanonicalOpens(e);
    CanonicalOpens(f);
    EarlierCutOpensInside(p, Canonical(e), q, Canonical(f));
    EarlierCutOpensInside(q, Canonical(f), p, Canonical(e));
    SplitAlike(p, Canonical(e), q, Canonical(f));
    CanonicalDeterminesEvent(e, f);
  }

  lemma EarlierCutOpensInside(p: string, a: string, q: string, b: string)
    requires p + a == q + b && OpensAt(b, 0)
    ensures |p| < |q| ==> OpensAt(a, |q| - |p|)
  {
    assert forall i | 0 <= i < |b| :: (q + b)[|q| + i] == b[i];
    assert forall i | |p| <= i < |p + a| :: (p + a)[i] == a[i - |p|];
    assert (q + b)[|q|] == '{' && (q + b)[|q| + 1] == '\"' && (q + b)[|q| + 2] == 's';
  }
}
