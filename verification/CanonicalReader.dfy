/**
  A reader of flat JSON objects that knows nothing of how events are written: strings by section 7 of RFC 8259,
  integers by section 6, null, and no white space. What it reads in a canonical event are the event's fields.
 */
module CanonicalReader {
  import opened CanonicalJson
  import opened Texts
  import opened Wrappers

  // ---------------------------------------------------------------------
  // Strings
  // ---------------------------------------------------------------------

  function HexValue(c: char): (v: Option<nat>)
    ensures v.Some? ==> v.value < 16
  {
    if '0' <= c <= '9' then Some(c as int - '0' as int)
    else if 'a' <= c <= 'f' then Some(c as int - 'a' as int + 10)
    else if 'A' <= c <= 'F' then Some(c as int - 'A' as int + 10)
    else None
  }

  /** The character that four hexadecimal digits name; halves of a surrogate pair name none. */
  function ReadHex(t: string): Option<char>
    requires |t| == 4
  {
    var a, b, c, d := HexValue(t[0]), HexValue(t[1]), HexValue(t[2]), HexValue(t[3]);
    if a.None? || b.None? || c.None? || d.None? then None
    else
      var n := 0x1000 * a.value + 0x100 * b.value + 0x10 * c.value + d.value;
      if 0xD800 <= n < 0xE000 then None else Some(n as char)
  }

  /** The first character of the inside of a string, and how long its notation is. */
  function ReadChar(t: string): (r: Option<(char, nat)>)
    ensures r.Some? ==> 0 < r.value.1 <= |t|
  {
    if t == "" || t[0] < ' ' || t[0] == '\"' then None
    else if t[0] != '\\' then Some((t[0], 1))
    else if |t| < 2 then None
    else
      match t[1]
      case '\"' => Some(('\"', 2))
      case '\\' => Some(('\\', 2))
      case '/' => Some(('/', 2))
      case 'b' => Some(('\U{8}', 2))
      case 'f' => Some(('\U{C}', 2))
      case 'n' => Some(('\n', 2))
      case 'r' => Some(('\r', 2))
      case 't' => Some(('\t', 2))
      case 'u' =>
        if |t| < 6 then None
        else (match ReadHex(t[2..6]) case Some(c) => Some((c, 6)) case None => None)
      case _ => None
  }

  /** A string up to its closing quote, and what follows that. */
  function ReadText(t: string): (r: Option<(string, string)>)
    ensures r.Some? ==> |r.value.1| < |t|
    decreases |t|
  {
    if t == "" then None
    else if t[0] == '\"' then Some(("", t[1..]))
    else
      match ReadChar(t)
      case None => None
      case Some((c, n)) =>
        match ReadText(t[n..])
        case None => None
        case Some((s, rest)) => Some(([c] + s, rest))
  }

  // ---------------------------------------------------------------------
  // Integers and scalars
  // ---------------------------------------------------------------------

  predicate IsDigit(c: char) {
    '0' <= c <= '9'
  }

  /** The digits a text starts with, and the rest. */
  function SplitDigits(t: string): (r: (string, string))
    ensures t == r.0 + r.1
  {
    if t == "" || !IsDigit(t[0]) then ("", t)
    else
      var (ds, rest) := SplitDigits(t[1..]);
      ([t[0]] + ds, rest)
  }

  /** What the digits add up to, the last one worth one. */
  function Worth(ds: string): int {
    if ds == "" then 0 else Worth(ds[..|ds| - 1]) * 10 + (ds[|ds| - 1] as int - '0' as int)
  }

  /** An integer without a leading zero, and without a sign when it is zero. */
  function ReadInteger(t: string): (r: Option<(int, string)>)
    ensures r.Some? ==> |r.value.1| < |t|
  {
    var negative := t != "" && t[0] == '-';
    var (ds, rest) := SplitDigits(if negative then t[1..] else t);
    if ds == "" || (ds[0] == '0' && (negative || |ds| > 1)) then None
    else Some((if negative then -Worth(ds) else Worth(ds), rest))
  }

  function ReadScalar(t: string): (r: Option<(Scalar, string)>)
    ensures r.Some? ==> |r.value.1| < |t|
  {
    if t == "" then None
    else if t[0] == '\"' then
      match ReadText(t[1..])
      case Some((s, rest)) => Some((Text(s), rest))
      case None => None
    else if t[0] == 'n' then
      if |t| >= 4 && t[..4] == "null" then Some((Null, t[4..])) else None
    else
      match ReadInteger(t)
      case Some((n, rest)) => Some((Number(n), rest))
      case None => None
  }

  // ---------------------------------------------------------------------
  // Objects
  // ---------------------------------------------------------------------

  /** A quoted name, a colon and a value. */
  function ReadMember(t: string): (r: Option<((string, Scalar), string)>)
    ensures r.Some? ==> |r.value.1| < |t|
  {
    if t == "" || t[0] != '\"' then None
    else
      match ReadText(t[1..])
      case None => None
      case Some((name, rest)) =>
        if rest == "" || rest[0] != ':' then None
        else
          match ReadScalar(rest[1..])
          case None => None
          case Some((v, after)) => Some(((name, v), after))
  }

  /** Members between commas, up to a closing brace that ends the text. */
  function ReadMembers(t: string): Option<Fields>
    decreases |t|
  {
    match ReadMember(t)
    case None => None
    case Some((m, rest)) =>
      if rest == "}" then Some([m])
      else if rest == "" || rest[0] != ',' then None
      else
        match ReadMembers(rest[1..])
        case None => None
        case Some(ms) => Some([m] + ms)
  }

  function ReadObject(t: string): Option<Fields> {
    if t == "{}" then Some([])
    else if t == "" || t[0] != '{' then None
    else ReadMembers(t[1..])
  }

  // ---------------------------------------------------------------------
  // Escapes are the shortest there are
  // ---------------------------------------------------------------------

  lemma HexDigitReads(v: nat)
    requires v < 16
    ensures HexValue(HEX_DIGITS[v]) == Some(v)
    ensures !('A' <= HEX_DIGITS[v] <= 'F')
  {
  }

  lemma ControlReads(c: char)
    requires c < ' '
    ensures ReadHex(['0', '0', HEX_DIGITS[c as int / 16], HEX_DIGITS[c as int % 16]]) == Some(c)
  {
    HexDigitReads(0);
    HexDigitReads(c as int / 16);
    HexDigitReads(c as int % 16);
    hide HexValue;
  }

  lemma EscapeReads(c: char, x: string)
    ensures ReadChar(EscapeChar(c) + x) == Some((c, |EscapeChar(c)|))
  {
    hide ReadHex;
    var e := EscapeChar(c);
    if |e| == 6 {
      ControlReads(c);
      assert (e + x)[2..6] == ['0', '0', HEX_DIGITS[c as int / 16], HEX_DIGITS[c as int % 16]];
    }
  }

  /** Each character is written in the shortest of its notations, in lower case where there is a choice. */
  lemma EscapeIsShortest(c: char, t: string)
    requires ReadChar(t) == Some((c, |t|))
    ensures |EscapeChar(c)| <= |t|
    ensures |EscapeChar(c)| == |t| ==> t == EscapeChar(c) || exists i :: 0 <= i < |t| && 'A' <= t[i] <= 'F'
    ensures |EscapeChar(c)| == 6 ==> forall i | 0 <= i < 6 :: !('A' <= EscapeChar(c)[i] <= 'F')
  {
    hide ReadHex, HexValue;
    var e := EscapeChar(c);
    if |e| == 6 {
      HexDigitReads(0);
      HexDigitReads(c as int / 16);
      HexDigitReads(c as int % 16);
      if |t| == 6 {
        HexOfControl(c, t);
      }
    } else if |e| == |t| {
      assert t[0] == e[0] && (|t| == 2 ==> t[1] == e[1]);
    }
  }

  lemma HexDigit(x: char, v: nat)
    requires HexValue(x) == Some(v) && !('A' <= x <= 'F')
    ensures x == HEX_DIGITS[v]
  {
  }

  lemma LowHex(t: string, c: char)
    requires |t| == 4 && ReadHex(t) == Some(c) && c < ' '
    ensures HexValue(t[0]) == Some(0) && HexValue(t[1]) == Some(0)
    ensures HexValue(t[2]) == Some(c as int / 16) && HexValue(t[3]) == Some(c as int % 16)
  {
    hide HexValue;
  }

  lemma HexOfControl(c: char, t: string)
    requires |t| == 6 && ReadChar(t) == Some((c, 6)) && |EscapeChar(c)| == 6
    ensures t == EscapeChar(c) || exists i :: 0 <= i < |t| && 'A' <= t[i] <= 'F'
  {
    hide ReadHex, HexValue;
    if forall i | 0 <= i < |t| :: !('A' <= t[i] <= 'F') {
      var h, n := t[2..6], c as int;
      assert h[0] == t[2] && h[1] == t[3] && h[2] == t[4] && h[3] == t[5];
      LowHex(h, c);
      HexDigit(t[2], 0);
      HexDigit(t[3], 0);
      HexDigit(t[4], n / 16);
      HexDigit(t[5], n % 16);
      assert t[0] == '\\' && t[1] == 'u';
    }
  }

  // ---------------------------------------------------------------------
  // The reader reads what is written
  // ---------------------------------------------------------------------

  lemma {:induction false} ClosedReads(s: string, x: string)
    ensures ReadText(Closed(s) + x) == Some((s, x))
  {
    if s == "" {
      assert (Closed(s) + x)[1..] == x;
    } else {
      var e, rest := EscapeChar(s[0]), Closed(s[1..]) + x;
      Assoc(e, Closed(s[1..]), x);
      EscapeReads(s[0], rest);
      EscapeLength(s[0]);
      FirstOf(e, rest);
      assert (e + rest)[|e|..] == rest;
      ClosedReads(s[1..], x);
      assert s == [s[0]] + s[1..];
    }
  }
  lemma {:induction false} DigitsSplit(ds: string, x: string)
    requires (forall i | 0 <= i < |ds| :: IsDigit(ds[i])) && Stops(x)
    ensures SplitDigits(ds + x) == (ds, x)
  {
    if ds == "" {
      assert ds + x == x;
    } else {
      assert (ds + x)[1..] == ds[1..] + x;
      DigitsSplit(ds[1..], x);
      assert ds == [ds[0]] + ds[1..];
    }
  }

  lemma {:induction false} DecimalReads(n: nat)
    ensures Worth(Decimal(n)) == n
    ensures Decimal(n)[0] == '0' ==> n == 0 && |Decimal(n)| == 1
    ensures forall i | 0 <= i < |Decimal(n)| :: IsDigit(Decimal(n)[i])
  {
    if n < 10 {
      assert Decimal(n)[..0] == "";
    } else {
      DecimalReads(n / 10);
      assert Decimal(n)[..|Decimal(n)| - 1] == Decimal(n / 10);
    }
  }

  lemma DecimalSplits(n: nat, x: string)
    requires Stops(x)
    ensures SplitDigits(Decimal(n) + x) == (Decimal(n), x)
  {
    DecimalReads(n);
    DigitsSplit(Decimal(n), x);
  }

  ghost predicate NoLeadingZero(ds: string) {
    ds != "" && IsDigit(ds[0]) && (ds[0] == '0' ==> |ds| == 1)
  }

  lemma UnsignedReads(t: string, ds: string, x: string)
    requires t == ds + x && NoLeadingZero(ds) && SplitDigits(t) == (ds, x)
    ensures ReadInteger(t) == Some((Worth(ds), x))
  {
    hide SplitDigits, Worth;
    FirstOf(ds, x);
  }

  lemma SignedReads(t: string, ds: string, x: string)
    requires t == ['-'] + (ds + x) && NoLeadingZero(ds) && ds[0] != '0' && SplitDigits(ds + x) == (ds, x)
    ensures ReadInteger(t) == Some((-Worth(ds), x))
  {
    hide SplitDigits, Worth;
    assert t[1..] == ds + x;
  }

  lemma IntegerReads(n: int, x: string)
    requires Stops(x)
    ensures ReadInteger(Integer(n) + x) == Some((n, x))
  {
    hide Decimal, SplitDigits, Worth, ReadInteger, Stops;
    if n < 0 {
      NegativeReads(n, x);
    } else {
      PlainDigits(n);
      DecimalSplits(n, x);
      UnsignedReads(Decimal(n) + x, Decimal(n), x);
    }
  }

  lemma PlainDigits(n: nat)
    ensures NoLeadingZero(Decimal(n)) && (Decimal(n)[0] == '0' ==> n == 0) && Worth(Decimal(n)) == n
  {
    hide Worth, Decimal;
    DecimalReads(n);
  }

  lemma NegativeReads(n: int, x: string)
    requires Stops(x) && n < 0
    ensures ReadInteger((['-'] + Decimal(-n)) + x) == Some((n, x))
  {
    hide Decimal, SplitDigits, Worth, ReadInteger, Stops;
    PlainDigits(-n);
    DecimalSplits(-n, x);
    Assoc(['-'], Decimal(-n), x);
    SignedReads((['-'] + Decimal(-n)) + x, Decimal(-n), x);
  }

  lemma NullReads(x: string)
    ensures ReadScalar(NULL + x) == Some((Null, x))
  {
    var t := NULL + x;
    assert t[..4] == "null" && t[4..] == x;
  }

  lemma QuotedReads(s: string, x: string)
    ensures ReadScalar((['\"'] + Closed(s)) + x) == Some((Text(s), x))
  {
    hide Closed, ReadText;
    Assoc(['\"'], Closed(s), x);
    var t := ['\"'] + (Closed(s) + x);
    assert t[1..] == Closed(s) + x;
    ClosedReads(s, x);
  }

  lemma ScalarReads(v: Scalar, x: string)
    requires Stops(x)
    ensures ReadScalar(Encode(v) + x) == Some((v, x))
  {
    match v
    case Number(n) =>
      IntegerReads(n, x);
      FirstOf(Integer(n), x);
      hide Integer, ReadInteger, Stops;
    case Text(s) => QuotedReads(s, x);
    case Null => NullReads(x);
  }

  /** A name that is written as it is. */
  ghost predicate IsPlain(name: string) {
    forall i | 0 <= i < |name| :: ' ' <= name[i] != '\"' && name[i] != '\\'
  }

  lemma {:induction false} PlainCloses(name: string)
    requires IsPlain(name)
    ensures Closed(name) == name + "\""
  {
    if name != "" {
      PlainCloses(name[1..]);
      assert name == [name[0]] + name[1..];
    }
  }

  lemma MemberReads(name: string, v: Scalar, x: string)
    requires IsPlain(name) && Stops(x)
    ensures ReadMember(Label(name)[1..] + (Encode(v) + x)) == Some(((name, v), x))
  {
    var value := Encode(v) + x;
    var rest := [':'] + value;
    LabelCloses(name, value);
    hide Label, Stops, Encode, IsPlain;
    var t := ['\"'] + (Closed(name) + rest);
    assert t[1..] == Closed(name) + rest;
    ClosedReads(name, rest);
    assert rest[1..] == value;
    ScalarReads(v, x);
    hide Closed, ReadText, ReadScalar;
    assert rest[0] == ':' && t[0] == '\"';
  }

  lemma LabelCloses(name: string, x: string)
    requires IsPlain(name)
    ensures Label(name)[1..] + x == ['\"'] + (Closed(name) + ([':'] + x))
  {
    PlainCloses(name);
    assert Label(name)[1..] == ['\"'] + Closed(name) + [':'];
  }

  lemma LastMemberReads(t: string, m: (string, Scalar))
    requires ReadMember(t) == Some((m, "}"))
    ensures ReadMembers(t) == Some([m])
  {
  }

  lemma NextMemberReads(t: string, m: (string, Scalar), rest: string, ms: Fields)
    requires ReadMember(t) == Some((m, rest)) && rest != "" && rest[0] == ',' && ReadMembers(rest[1..]) == Some(ms)
    ensures ReadMembers(t) == Some([m] + ms)
  {
    hide ReadMember;
  }

  lemma WithoutFirst(a: string, x: string)
    requires a != ""
    ensures (a + x)[1..] == a[1..] + x
  {
  }

  lemma MembersUnfold(fs: Fields)
    requires fs != []
    ensures Members(fs)[1..] == Label(fs[0].0)[1..] + (Encode(fs[0].1) + Members(fs[1..]))
  {
    var l, rest := Label(fs[0].0), Encode(fs[0].1) + Members(fs[1..]);
    assert Members(fs) == l + rest;
    hide Members, Encode, Label;
    WithoutFirst(l, rest);
  }

  lemma LastBrace(fs: Fields)
    requires |fs| == 1
    ensures Members(fs[1..]) == "}" && fs == [fs[0]]
  {
    assert fs[1..] == [];
  }

  lemma {:induction false} MembersRead(fs: Fields)
    requires fs != [] && forall f | f in fs :: IsPlain(f.0)
    ensures ReadMembers(Members(fs)[1..]) == Some(fs)
  {
    hide ReadMembers, ReadMember, IsPlain, Members, Label, Encode;
    assert fs[0] in fs;
    MemberReads(fs[0].0, fs[0].1, Members(fs[1..]));
    MembersUnfold(fs);
    if |fs| == 1 {
      LastBrace(fs);
      LastMemberReads(Members(fs)[1..], fs[0]);
    } else {
      forall f | f in fs[1..]
        ensures IsPlain(f.0)
      {
        assert f in fs;
      }
      MembersRead(fs[1..]);
      FirstIsComma(fs[1..]);
      NextMemberReads(Members(fs)[1..], fs[0], Members(fs[1..]), fs[1..]);
      assert fs == [fs[0]] + fs[1..];
    }
  }

  /** What an object holds under a name whose field may be absent. */
  function IntOrNull(o: Option<int>): Scalar {
    if o == None then Null else Number(o.value)
  }

  function TextOrNull(o: Option<string>): Scalar {
    if o == None then Null else Text(o.value)
  }

  /** The declared names in declaration order, and what stands under each. */
  function Declared(seqNo: int, ts: int, kind: string, author: string, promptId: Option<int>, sessionId: Option<string>,
                    versionNumber: Option<int>, refKind: Option<string>, refId: Option<string>, payloadHash: string): Fields
  {
    [("seq", Number(seqNo)), ("ts", Number(ts)), ("kind", Text(kind)), ("author", Text(author)),
     ("prompt_id", IntOrNull(promptId)), ("session_id", TextOrNull(sessionId)),
     ("version_number", IntOrNull(versionNumber)), ("ref_kind", TextOrNull(refKind)),
     ("ref_id", TextOrNull(refId)), ("payload_hash", Text(payloadHash))]
  }

  /** The canonical text of an event is an object text: read back, it holds the event's fields under their names. */
  lemma CanonicalReads(e: CanonicalEvent)
    ensures ReadObject(Canonical(e)) ==
            Some(Declared(e.seqNo, e.ts, e.kind, e.author, e.promptId, e.sessionId, e.versionNumber, e.refKind,
                          e.refId, e.payloadHash))
  {
    hide Field, Declared;
    NamesArePlain(e);
    ObjectReads(FieldsOf(e));
    FieldsAreDeclared(e);
  }

  lemma ObjectReads(fs: Fields)
    requires fs != [] && forall f | f in fs :: IsPlain(f.0)
    ensures ReadObject(Object(fs)) == Some(fs)
  {
    hide IsPlain, ReadMembers;
    FirstIsComma(fs);
    MembersRead(fs);
    hide Members;
    assert Object(fs)[1..] == Members(fs)[1..];
    BraceReadsNothing();
  }

  lemma BraceReadsNothing()
    ensures ReadMembers("}") == None
  {
  }

  lemma FieldsAreDeclared(e: CanonicalEvent)
    ensures FieldsOf(e) == Declared(e.seqNo, e.ts, e.kind, e.author, e.promptId, e.sessionId, e.versionNumber,
                                    e.refKind, e.refId, e.payloadHash)
  {
  }

  lemma NamesArePlain(e: CanonicalEvent)
    ensures forall f | f in FieldsOf(e) :: IsPlain(f.0)
  {
    forall i: nat | i < FIELD_COUNT
      ensures IsPlain(Field(e, i).0)
    {
      forall c | c in Field(e, i).0
        ensures c == '_' || 'a' <= c <= 'z'
      {
      }
    }
  }
}
