/**
  The tolerant extractor: find the first balanced object in a reply that parses and
  carries a key. The parser is a parameter; the scanner is the program's own.

  Texts are sequences of characters. The program scans UTF-8 bytes, in which the five
  characters that steer the scan are single bytes that occur in no other character.
 */
module JsonText {
  import opened Texts
  import opened Wrappers

  /** A parsed JSON value. */
  datatype Value =
    | Null
    | Bool(b: bool)
    | Num(n: Number)
    | Str(s: string)
    | Arr(items: seq<Value>)
    | Obj(members: map<string, Value>)

  /** Integers by value; other numbers by the text they print as. */
  datatype Number = Integer(i: int) | Float(text: NumberText)

  type NumberText = s: string | s != "" && forall c | c in s :: c > ' ' && c < '\U{7F}' witness "0.5"

  function Get(v: Value, key: string): Option<Value> {
    if v.Obj? && key in v.members then Some(v.members[key]) else None
  }

  type Parser = string -> Option<Value>

  // ---------------------------------------------------------------------
  // The scanner
  // ---------------------------------------------------------------------

  /**
    The position, counted from `at`, of the brace that brings the depth to zero when `rest` is read
    in the given state.
   */
  function Scan(rest: string, at: nat, depth: int, inStr: bool, escaped: bool): Option<nat> {
    if rest == "" then None
    else if inStr then
      var b := rest[0];
      if escaped then Scan(rest[1..], at + 1, depth, true, false)
      else if b == '\\' then Scan(rest[1..], at + 1, depth, true, true)
      else if b == '\"' then Scan(rest[1..], at + 1, depth, false, false)
      else Scan(rest[1..], at + 1, depth, true, false)
    else
      match rest[0]
      case '\"' => Scan(rest[1..], at + 1, depth, true, escaped)
      case '{' => Scan(rest[1..], at + 1, depth + 1, false, escaped)
      case '}' =>
        if depth - 1 == 0 then Some(at) else Scan(rest[1..], at + 1, depth - 1, false, escaped)
      case _ => Scan(rest[1..], at + 1, depth, false, escaped)
  }

  function MatchingBraceAt(bytes: string, start: nat): Option<nat> {
    if start <= |bytes| then Scan(bytes[start..], start, 0, false, false) else None
  }

  method MatchingBrace(bytes: string, start: nat) returns (r: Option<nat>)
    ensures r == MatchingBraceAt(bytes, start)
    ensures r.Some? ==> start <= r.value < |bytes| && bytes[r.value] == '}'
  {
    var depth := 0;
    var inStr := false;
    var escaped := false;
    if start > |bytes| {
      return None;
    }
    for offset := start to |bytes|
      invariant MatchingBraceAt(bytes, start) == Scan(bytes[offset..], offset, depth, inStr, escaped)
    {
      var b := bytes[offset];
      assert bytes[offset..][1..] == bytes[offset + 1..];
      if inStr {
        if escaped {
          escaped := false;
        } else if b == '\\' {
          escaped := true;
        } else if b == '\"' {
          inStr := false;
        }
        continue;
      }
      match b {
        case '\"' => inStr := true;
        case '{' => depth := depth + 1;
        case '}' =>
          depth := depth - 1;
          if depth == 0 {
            return Some(offset);
          }
        case _ =>
      }
    }
    return None;
  }

  lemma {:induction false} ScanFindsABrace(rest: string, at: nat, depth: int, inStr: bool, escaped: bool)
    ensures var r := Scan(rest, at, depth, inStr, escaped);
            r.Some? ==> at <= r.value < at + |rest| && rest[r.value - at] == '}'
  {
    if rest != "" {
      var tail := rest[1..];
      ScanFindsABrace(tail, at + 1, depth, true, false);
      ScanFindsABrace(tail, at + 1, depth, true, true);
      ScanFindsABrace(tail, at + 1, depth, false, false);
      ScanFindsABrace(tail, at + 1, depth, true, escaped);
      ScanFindsABrace(tail, at + 1, depth + 1, false, escaped);
      ScanFindsABrace(tail, at + 1, depth - 1, false, escaped);
      ScanFindsABrace(tail, at + 1, depth, false, escaped);
    }
  }

  // ---------------------------------------------------------------------
  // JSON texts (sections 2 to 7 of RFC 8259)
  // ---------------------------------------------------------------------

  predicate IsSpace(c: char) {
    c == ' ' || c == '\t' || c == '\n' || c == '\r'
  }

  type Space = s: string | forall c | c in s :: IsSpace(c)

  /** The characters that steer the scan outside a string. */
  predicate Steers(c: char) {
    c == '\"' || c == '{' || c == '}'
  }

  /** The spelling of a number, true, false or null: no quote and no brace. */
  type Word = s: string | forall c | c in s :: !Steers(c)

  type PlainChar = c: char | c != '\"' && c != '\\' witness 'a'

  /** One character of a string, bare or behind a backslash; the digits of \u are bare characters after it. */
  datatype Unit = Plain(c: PlainChar) | Escaped(e: char)

  datatype Text =
    | Atom(word: Word)
    | Quoted(units: seq<Unit>)
    | Array(lead: Space, elements: seq<Element>)
    | Object(lead: Space, entries: seq<Entry>)

  datatype Element = Element(before: Space, value: Text, after: Space)

  datatype Entry = Entry(before: Space, key: seq<Unit>, colonBefore: Space, colonAfter: Space, value: Text, after: Space)

  function Units(us: seq<Unit>): string {
    if us == [] then ""
    else (match us[0] case Plain(c) => [c] case Escaped(e) => ['\\', e]) + Units(us[1..])
  }

  function QuotedText(us: seq<Unit>): string {
    ['\"'] + (Units(us) + ['\"'])
  }

  function Render(t: Text): string
    decreases t
  {
    match t
    case Atom(word) => word
    case Quoted(units) => QuotedText(units)
    case Array(lead, elements) => ['['] + (lead + (RenderElements(elements) + [']']))
    case Object(lead, entries) => ['{'] + (lead + (RenderEntries(entries) + ['}']))
  }

  function RenderElements(es: seq<Element>): string
    decreases es
  {
    if es == [] then ""
    else
      var e := es[0];
      e.before + (Render(e.value) + (e.after + (Comma(|es| > 1) + RenderElements(es[1..]))))
  }

  function RenderEntries(es: seq<Entry>): string
    decreases es
  {
    if es == [] then ""
    else
      var e := es[0];
      e.before + (QuotedText(e.key) + (e.colonBefore + ([':'] + (e.colonAfter + (Render(e.value) +
        (e.after + (Comma(|es| > 1) + RenderEntries(es[1..]))))))))
  }

  function Comma(more: bool): string {
    if more then [','] else ""
  }

  function ElementText(e: Element): string {
    e.before + Render(e.value) + e.after
  }

  lemma FirstElement(es: seq<Element>)
    requires es != []
    ensures RenderElements(es) == ElementText(es[0]) + if |es| == 1 then "" else [','] + RenderElements(es[1..])
  {
    hide Render, QuotedText;
    var e, rest := es[0], Comma(|es| > 1) + RenderElements(es[1..]);
    Assoc(e.before + Render(e.value), e.after, rest);
    Assoc(e.before, Render(e.value), e.after + rest);
    if |es| == 1 {
      assert es[1..] == [] && rest == "";
    }
  }

  /** Elements are joined by commas, each with its white space around it. */
  lemma {:induction false} ElementsAreJoinedByCommas(a: seq<Element>, b: seq<Element>)
    requires a != [] && b != []
    ensures RenderElements(a + b) == RenderElements(a) + ([','] + RenderElements(b))
  {
    hide RenderElements, ElementText;
    var tail, t := a[1..], ElementText(a[0]);
    FirstElement(a);
    FirstElement(a + b);
    assert (a + b)[0] == a[0] && (a + b)[1..] == tail + b;
    if tail == [] {
      assert tail + b == b;
    } else {
      ElementsAreJoinedByCommas(tail, b);
      Assoc(t, [','] + RenderElements(tail), [','] + RenderElements(b));
      Assoc([','], RenderElements(tail), [','] + RenderElements(b));
    }
  }

  function EntryText(e: Entry): string {
    e.before + ("\"" + Units(e.key) + "\"") + e.colonBefore + ":" + e.colonAfter + Render(e.value) + e.after
  }

  lemma EntryEndsIn(e: Entry, rest: string)
    ensures EntryText(e) + rest ==
            e.before + (QuotedText(e.key) + (e.colonBefore + ([':'] + (e.colonAfter + (Render(e.value) + (e.after + rest))))))
  {
    hide Render, Units;
    var a, q, c, d, v := e.before, QuotedText(e.key), e.colonBefore, e.colonAfter, Render(e.value);
    assert q == "\"" + Units(e.key) + "\"";
    hide QuotedText;
    Assoc(a + q + c + ":" + d + v, e.after, rest);
    Assoc(a + q + c + ":" + d, v, e.after + rest);
    Assoc(a + q + c + ":", d, v + (e.after + rest));
    Assoc(a + q + c, ":", d + (v + (e.after + rest)));
    Assoc(a + q, c, ":" + (d + (v + (e.after + rest))));
    Assoc(a, q, c + (":" + (d + (v + (e.after + rest)))));
  }

  lemma FirstEntry(es: seq<Entry>)
    requires es != []
    ensures RenderEntries(es) == EntryText(es[0]) + if |es| == 1 then "" else [','] + RenderEntries(es[1..])
  {
    hide Render, QuotedText;
    var e, rest := es[0], Comma(|es| > 1) + RenderEntries(es[1..]);
    EntryEndsIn(e, rest);
    if |es| == 1 {
      assert es[1..] == [] && rest == "";
    }
  }

  /** Members are joined by commas: name, colon and value, with white space between. */
  lemma {:induction false} EntriesAreJoinedByCommas(a: seq<Entry>, b: seq<Entry>)
    requires a != [] && b != []
    ensures RenderEntries(a + b) == RenderEntries(a) + ([','] + RenderEntries(b))
  {
    hide RenderEntries, EntryText;
    var tail, t := a[1..], EntryText(a[0]);
    FirstEntry(a);
    FirstEntry(a + b);
    assert (a + b)[0] == a[0] && (a + b)[1..] == tail + b;
    if tail == [] {
      assert tail + b == b;
    } else {
      EntriesAreJoinedByCommas(tail, b);
      Assoc(t, [','] + RenderEntries(tail), [','] + RenderEntries(b));
      Assoc([','], RenderEntries(tail), [','] + RenderEntries(b));
    }
  }

  /** The four white space characters of section 2 of RFC 8259. */
  lemma FourSpaces(c: char)
    ensures IsSpace(c) <==> c as int == 0x20 || c as int == 0x09 || c as int == 0x0A || c as int == 0x0D
  {
  }

  // ---------------------------------------------------------------------
  // Scanning a JSON text changes nothing
  // ---------------------------------------------------------------------

  /** Reading t outside a string, at a positive depth, neither stops the scan nor changes its state. */
  ghost predicate Skipped(t: string) {
    forall rest, at: nat, depth: int | depth > 0 ::
      Scan(t + rest, at, depth, false, false) == Scan(rest, at + |t|, depth, false, false)
  }

  lemma SkippedConcat(a: string, b: string)
    requires Skipped(a) && Skipped(b)
    ensures Skipped(a + b)
  {
    hide Scan;
    forall rest, at: nat, depth: int | depth > 0
      ensures Scan((a + b) + rest, at, depth, false, false) == Scan(rest, at + |a + b|, depth, false, false)
    {
      Assoc(a, b, rest);
      assert Scan(a + (b + rest), at, depth, false, false) == Scan(b + rest, at + |a|, depth, false, false);
    }
  }

  lemma {:induction false} ScanWord(t: string, rest: string, at: nat, depth: int)
    requires depth > 0 && forall c | c in t :: !Steers(c)
    ensures Scan(t + rest, at, depth, false, false) == Scan(rest, at + |t|, depth, false, false)
  {
    if t == "" {
      assert t + rest == rest;
    } else {
      assert t[0] in t && (t + rest)[0] == t[0] && (t + rest)[1..] == t[1..] + rest;
      ScanWord(t[1..], rest, at + 1, depth);
    }
  }

  lemma WordSkipped(t: string)
    requires forall c | c in t :: !Steers(c)
    ensures Skipped(t)
  {
    forall rest, at: nat, depth: int | depth > 0
      ensures Scan(t + rest, at, depth, false, false) == Scan(rest, at + |t|, depth, false, false)
    {
      ScanWord(t, rest, at, depth);
    }
  }

  lemma SpaceSkipped(t: Space)
    ensures Skipped(t)
  {
    forall c | c in t
      ensures !Steers(c)
    {
      assert IsSpace(c);
    }
    WordSkipped(t);
  }

  /** Inside a string, the escaped characters are read without leaving it. */
  lemma {:induction false} ScanUnits(us: seq<Unit>, rest: string, at: nat, depth: int)
    ensures Scan(Units(us) + rest, at, depth, true, false) == Scan(rest, at + |Units(us)|, depth, true, false)
  {
    if us == [] {
      assert Units(us) + rest == rest;
    } else {
      var t, more := Units(us) + rest, Units(us[1..]) + rest;
      match us[0]
      case Plain(c) =>
        assert t[0] == c && t[1..] == more;
        ScanUnits(us[1..], rest, at + 1, depth);
      case Escaped(e) =>
        assert t[0] == '\\' && t[1..][1..] == more;
        ScanUnits(us[1..], rest, at + 2, depth);
    }
  }

  lemma QuotedSkipped(us: seq<Unit>)
    ensures Skipped(QuotedText(us))
  {
    var t := QuotedText(us);
    forall rest, at: nat, depth: int | depth > 0
      ensures Scan(t + rest, at, depth, false, false) == Scan(rest, at + |t|, depth, false, false)
    {
      var body := Units(us) + (['\"'] + rest);
      assert (t + rest)[0] == '\"' && (t + rest)[1..] == body;
      ScanUnits(us, ['\"'] + rest, at + 1, depth);
      assert (['\"'] + rest)[1..] == rest;
    }
  }

  /** An object's braces cancel: what is inside is read one level deeper. */
  lemma BracesSkipped(inner: string)
    requires Skipped(inner)
    ensures Skipped(['{'] + (inner + ['}']))
  {
    var t := ['{'] + (inner + ['}']);
    forall rest, at: nat, depth: int | depth > 0
      ensures Scan(t + rest, at, depth, false, false) == Scan(rest, at + |t|, depth, false, false)
    {
      var tail := ['}'] + rest;
      assert (t + rest)[0] == '{' && (t + rest)[1..] == inner + tail;
      assert Scan(inner + tail, at + 1, depth + 1, false, false) == Scan(tail, at + 1 + |inner|, depth + 1, false, false);
      assert tail[1..] == rest;
    }
  }

  lemma {:induction false} RenderSkipped(t: Text)
    ensures Skipped(Render(t))
    decreases t
  {
    hide Scan, Skipped;
    match t
    case Atom(word) => WordSkipped(word);
    case Quoted(units) => QuotedSkipped(units);
    case Array(lead, elements) =>
      SpaceSkipped(lead);
      ElementsSkipped(elements);
      WordSkipped(['[']);
      WordSkipped([']']);
      SkippedConcat(RenderElements(elements), [']']);
      SkippedConcat(lead, RenderElements(elements) + [']']);
      SkippedConcat(['['], lead + (RenderElements(elements) + [']']));
    case Object(lead, entries) =>
      SpaceSkipped(lead);
      EntriesSkipped(entries);
      SkippedConcat(lead, RenderEntries(entries));
      BracesSkipped(lead + RenderEntries(entries));
      Assoc(lead, RenderEntries(entries), ['}']);
  }

  lemma {:induction false} ElementsSkipped(es: seq<Element>)
    ensures Skipped(RenderElements(es))
    decreases es
  {
    hide Scan, Skipped;
    if es == [] {
      WordSkipped("");
    } else {
      var e := es[0];
      var more := Comma(|es| > 1);
      SpaceSkipped(e.before);
      RenderSkipped(e.value);
      SpaceSkipped(e.after);
      WordSkipped(more);
      ElementsSkipped(es[1..]);
      SkippedConcat(more, RenderElements(es[1..]));
      SkippedConcat(e.after, more + RenderElements(es[1..]));
      SkippedConcat(Render(e.value), e.after + (more + RenderElements(es[1..])));
      SkippedConcat(e.before, Render(e.value) + (e.after + (more + RenderElements(es[1..]))));
    }
  }

  lemma {:induction false} EntriesSkipped(es: seq<Entry>)
    ensures Skipped(RenderEntries(es))
    decreases es
  {
    hide Scan, Skipped;
    if es == [] {
      WordSkipped("");
    } else {
      var e := es[0];
      var more := Comma(|es| > 1);
      SpaceSkipped(e.before);
      QuotedSkipped(e.key);
      SpaceSkipped(e.colonBefore);
      WordSkipped([':']);
      SpaceSkipped(e.colonAfter);
      RenderSkipped(e.value);
      SpaceSkipped(e.after);
      WordSkipped(more);
      EntriesSkipped(es[1..]);
      var t := more + RenderEntries(es[1..]);
      SkippedConcat(more, RenderEntries(es[1..]));
      SkippedConcat(e.after, t);
      t := e.after + t;
      SkippedConcat(Render(e.value), t);
      t := Render(e.value) + t;
      SkippedConcat(e.colonAfter, t);
      t := e.colonAfter + t;
      SkippedConcat([':'], t);
      t := [':'] + t;
      SkippedConcat(e.colonBefore, t);
      t := e.colonBefore + t;
      SkippedConcat(QuotedText(e.key), t);
      t := QuotedText(e.key) + t;
      SkippedConcat(e.before, t);
    }
  }

  /** At the first byte of an object text the matching brace is its last byte, whatever surrounds it. */
  lemma MatchingBraceOfAnObject(o: Text, before: string, after: string)
    requires o.Object?
    ensures MatchingBraceAt(before + (Render(o) + after), |before|) == Some(|before| + |Render(o)| - 1)
  {
    var inner := o.lead + RenderEntries(o.entries);
    var rest := Render(o) + after;
    var tail := ['}'] + after;
    assert (before + rest)[|before|..] == rest;
    assert rest[0] == '{' && rest[1..] == inner + tail;
    SpaceSkipped(o.lead);
    EntriesSkipped(o.entries);
    SkippedConcat(o.lead, RenderEntries(o.entries));
    assert Scan(inner + tail, |before| + 1, 1, false, false) == Scan(tail, |before| + 1 + |inner|, 1, false, false);
  }

  // ---------------------------------------------------------------------
  // The extractor
  // ---------------------------------------------------------------------

  /** What the extractor would return if it accepted the object starting at i. */
  function Candidate(parse: Parser, text: string, key: string, i: nat): Option<Value>
    requires i < |text|
  {
    if text[i] != '{' then None
    else
      var end := MatchingBraceAt(text, i);
      ScanFindsABrace(text[i..], i, 0, false, false);
      if end.None? then None
      else
        var v := parse(text[i..end.value + 1]);
        if v.Some? && Get(v.value, key).Some? then v else None
  }

  /** The first candidate of the text from i on. */
  function FirstCandidate(parse: Parser, text: string, key: string, i: nat): Option<Value>
    requires i <= |text|
    decreases |text| - i
  {
    if i == |text| then None
    else if Candidate(parse, text, key, i).Some? then Candidate(parse, text, key, i)
    else FirstCandidate(parse, text, key, i + 1)
  }

  function Extracted(parse: Parser, text: string, key: string): Option<Value> {
    FirstCandidate(parse, text, key, 0)
  }

  method ExtractObjectWithKey(parse: Parser, text: string, key: string) returns (r: Option<Value>)
    ensures r == Extracted(parse, text, key)
  {
    hide MatchingBraceAt;
    var i := 0;
    while i < |text|
      invariant i <= |text|
      invariant FirstCandidate(parse, text, key, i) == Extracted(parse, text, key)
    {
      if text[i] == '{' {
        var end := MatchingBrace(text, i);
        if end.Some? {
          var v := parse(text[i..end.value + 1]);
          if v.Some? && Get(v.value, key).Some? {
            return v;
          }
        }
      }
      i := i + 1;
    }
    return None;
  }

  /** The extractor returns the candidate that starts first, and nothing only when there is none. */
  lemma {:induction false} FirstCandidateIsLeast(parse: Parser, text: string, key: string, i: nat)
    requires i <= |text|
    ensures var r := FirstCandidate(parse, text, key, i);
            match r
            case None => forall k | i <= k < |text| :: Candidate(parse, text, key, k) == None
            case Some(_) =>
              exists j :: i <= j < |text| && Candidate(parse, text, key, j) == r
                          && forall k | i <= k < j :: Candidate(parse, text, key, k) == None
    decreases |text| - i
  {
    hide Candidate;
    if i < |text| && Candidate(parse, text, key, i).None? {
      FirstCandidateIsLeast(parse, text, key, i + 1);
      var r := FirstCandidate(parse, text, key, i + 1);
      if r.Some? {
        var j :| i + 1 <= j < |text| && Candidate(parse, text, key, j) == r
                 && forall k | i + 1 <= k < j :: Candidate(parse, text, key, k) == None;
        assert forall k | i <= k < j :: Candidate(parse, text, key, k) == None;
      }
    }
  }

  /** A keyed object embedded in a reply is a candidate at its first byte. */
  lemma EmbeddedObjectIsACandidate(parse: Parser, o: Text, before: string, after: string, key: string)
    requires o.Object? && parse(Render(o)).Some? && Get(parse(Render(o)).value, key).Some?
    ensures Candidate(parse, before + (Render(o) + after), key, |before|) == parse(Render(o))
  {
    hide MatchingBraceAt, Scan;
    var text := before + (Render(o) + after);
    MatchingBraceOfAnObject(o, before, after);
    assert text[|before|] == Render(o)[0];
    assert text[|before|..|before| + |Render(o)|] == Render(o);
  }

  /** A parser that accepts nothing but object texts, white space after them aside, where the text opens with a brace. */
  ghost predicate AcceptsOnlyObjects(parse: Parser) {
    forall t | t != "" && t[0] == '{' && parse(t).Some? :: IsObjectText(parse, t)
  }

  ghost predicate IsObjectText(parse: Parser, t: string) {
    exists o: Text, space: Space :: o.Object? && t == Render(o) + space && parse(Render(o)) == parse(t)
  }

  /**
    Of all the slices of a reply that open with a brace, parse and carry the key, the extractor
    returns one that starts first, and it returns nothing only when there is no such slice.
   */
  lemma ExtractsTheEarliestKeyedObject(parse: Parser, text: string, key: string, i: nat, end: nat)
    requires AcceptsOnlyObjects(parse)
    requires i < end <= |text| && text[i] == '{'
    requires parse(text[i..end]).Some? && Get(parse(text[i..end]).value, key).Some?
    ensures Candidate(parse, text, key, i) == parse(text[i..end])
    ensures exists j :: 0 <= j <= i && Candidate(parse, text, key, j) == Extracted(parse, text, key)
                        && Extracted(parse, text, key).Some?
                        && forall k | 0 <= k < j :: Candidate(parse, text, key, k) == None
  {
    hide Candidate, MatchingBraceAt, Render, FirstCandidate;
    var t := text[i..end];
    assert t[0] == '{' && IsObjectText(parse, t);
    var o: Text, space: Space :| o.Object? && t == Render(o) + space && parse(Render(o)) == parse(t);
    SliceIsEmbedded(text, i, end, Render(o), space);
    EmbeddedObjectIsACandidate(parse, o, text[..i], space + text[end..], key);
    FirstCandidateIsLeast(parse, text, key, 0);
  }

  lemma SliceIsEmbedded(text: string, i: nat, end: nat, body: string, space: string)
    requires i <= end <= |text| && text[i..end] == body + space
    ensures text == text[..i] + (body + (space + text[end..]))
  {
    Assoc(body, space, text[end..]);
    assert text == text[..i] + (text[i..end] + text[end..]);
  }
}
