/**
  What a reply's proposals are, said of the JSON values alone: which value denotes which proposal, and which items of a
  list are kept. The parser is proved to read exactly that.
 */
module ProposalGrammar {
  import CanonicalJson
  import opened CanonicalReader
  import opened JsonText
  import opened Proposals
  import opened Texts
  import opened Wrappers

  // ---------------------------------------------------------------------
  // Texts without the white space around them
  // ---------------------------------------------------------------------

  ghost predicate SurroundedBy(raw: string, a: string, inner: string, b: string) {
    raw == a + (inner + b) && AllWhite(a) && AllWhite(b)
  }

  /** The inner text begins and ends with something else than white space, and nothing else surrounds it. */
  ghost predicate Strips(raw: string, inner: string) {
    Trimmed(inner) && exists a, b :: SurroundedBy(raw, a, inner, b)
  }

  lemma {:induction false} TrimStartOf(a: string, x: string)
    requires AllWhite(a) && x != "" && !IsWhite(x[0])
    ensures TrimStart(a + x) == x
  {
    if a == "" {
      assert a + x == x;
    } else {
      assert (a + x)[1..] == a[1..] + x;
      TrimStartOf(a[1..], x);
    }
  }

  lemma {:induction false} TrimEndOf(x: string, b: string)
    requires AllWhite(b) && x != "" && !IsWhite(x[|x| - 1])
    ensures TrimEnd(x + b) == x
  {
    if b == "" {
      assert x + b == x;
    } else {
      var front := b[..|b| - 1];
      assert (x + b)[..|x + b| - 1] == x + front;
      assert (x + b)[|x + b| - 1] == b[|b| - 1];
      TrimEndOf(x, front);
    }
  }

  /** Trimming is stripping: it finds the one inner text there is, and nothing exactly when there is none. */
  lemma TrimStrips(raw: string)
    ensures Trim(raw) != "" ==> Strips(raw, Trim(raw))
    ensures forall inner | Strips(raw, inner) :: inner == Trim(raw)
  {
    var a := TrimStartDrops(raw);
    var b := TrimEndDrops(TrimStart(raw));
    TrimTrims(raw);
    assert SurroundedBy(raw, a, Trim(raw), b);
    forall inner | Strips(raw, inner)
      ensures inner == Trim(raw)
    {
      var a', b' :| SurroundedBy(raw, a', inner, b');
      assert (inner + b')[0] == inner[0];
      TrimStartOf(a', inner + b');
      TrimEndOf(inner, b');
    }
  }

  // ---------------------------------------------------------------------
  // Fields
  // ---------------------------------------------------------------------

  ghost predicate HasText(v: Value, k: string, s: string) {
    exists raw :: Get(v, k) == Some(Str(raw)) && Strips(raw, s)
  }

  /** The member's text, or that it has none: it is missing, blank, or no string. */
  ghost predicate HasOption(v: Value, k: string, o: Option<string>) {
    match o
    case Some(s) => HasText(v, k, s)
    case None => forall s :: !HasText(v, k, s)
  }

  /** A text, or a number by what it prints as. */
  ghost predicate HasId(v: Value, k: string, s: string) {
    || HasText(v, k, s)
    || (exists i :: Get(v, k) == Some(Num(Integer(i))) && s == CanonicalJson.Integer(i))
    || (exists t :: Get(v, k) == Some(Num(Float(t))) && s == t)
  }

  ghost predicate AllDigits(ds: string) {
    ds != "" && forall i | 0 <= i < |ds| :: IsDigit(ds[i])
  }

  /** Decimal digits, perhaps behind a sign, that denote the number. */
  ghost predicate Spells(t: string, n: int) {
    || (AllDigits(t) && n == Worth(t))
    || (t != "" && t[0] == '+' && AllDigits(t[1..]) && n == Worth(t[1..]))
    || (t != "" && t[0] == '-' && AllDigits(t[1..]) && n == -Worth(t[1..]))
  }

  ghost predicate HasNumber(v: Value, k: string, n: I64) {
    || Get(v, k) == Some(Num(Integer(n)))
    || exists t :: HasText(v, k, t) && Spells(t, n)
  }

  lemma StrFieldIff(v: Value, k: string)
    ensures HasOption(v, k, StrField(v, k))
    ensures forall s :: HasText(v, k, s) <==> StrField(v, k) == Some(s)
  {
    hide Strips;
    if Get(v, k).Some? && Get(v, k).value.Str? {
      TrimStrips(Get(v, k).value.s);
      forall s | HasText(v, k, s)
        ensures s == Trim(Get(v, k).value.s) && s != ""
      {
        NothingIsStripped(Get(v, k).value.s, s);
      }
    }
  }

  lemma NothingIsStripped(raw: string, s: string)
    requires Strips(raw, s)
    ensures s != ""
  {
  }

  lemma IdIff(v: Value, k: string, s: string)
    ensures ValueAsId(Get(v, k)) == Some(s) <==> HasId(v, k, s)
  {
    hide HasText;
    StrFieldIff(v, k);
    hide HasOption;
  }

  lemma {:induction false} DigitsSnoc(s: string, c: char, sofar: nat)
    ensures Digits(s + [c], sofar) ==
            match Digits(s, sofar)
            case Some(m) => if IsDigit(c) then Some(10 * m + (c as int - '0' as int)) else None
            case None => None
  {
    if s == "" {
      assert s + [c] == [c] && [c][1..] == "";
    } else {
      assert (s + [c])[1..] == s[1..] + [c];
      if IsDigit(s[0]) {
        DigitsSnoc(s[1..], c, 10 * sofar + (s[0] as int - '0' as int));
      }
    }
  }

  lemma {:induction false} DigitsAreWorth(s: string)
    ensures (forall i | 0 <= i < |s| :: IsDigit(s[i])) ==> Worth(s) >= 0
    ensures Digits(s, 0) == if forall i | 0 <= i < |s| :: IsDigit(s[i]) then Some(Worth(s)) else None
  {
    if s != "" {
      var front, last := s[..|s| - 1], s[|s| - 1];
      assert s == front + [last];
      DigitsAreWorth(front);
      DigitsSnoc(front, last, 0);
      hide Digits;
      assert (forall i | 0 <= i < |s| :: IsDigit(s[i])) <==> IsDigit(last) && forall i | 0 <= i < |front| :: IsDigit(front[i]);
    }
  }

  lemma NumberIff(v: Value, k: string, n: I64)
    ensures ValueAsI64(Get(v, k)) == Some(n) <==> HasNumber(v, k, n)
  {
    hide HasText, ParseI64, Spells, Trim;
    StrFieldIff(v, k);
    hide HasOption;
    if Get(v, k).Some? && Get(v, k).value.Str? {
      ParseI64Iff(Trim(Get(v, k).value.s), n);
      EmptySpellsNothing(n);
    }
  }

  lemma EmptySpellsNothing(n: int)
    ensures !Spells("", n)
  {
  }

  lemma ParseI64Iff(t: string, n: I64)
    ensures ParseI64(t) == Some(n) <==> Spells(t, n)
  {
    hide Digits, Worth;
    if t != "" {
      DigitsAreWorth(t);
      DigitsAreWorth(t[1..]);
      if IsDigit(t[0]) {
        assert t[0] != '-' && t[0] != '+';
      }
    }
  }

  // ---------------------------------------------------------------------
  // Lists
  // ---------------------------------------------------------------------

  /** What can be kept of the items, in order; the others are skipped. */
  function Kept<T, U>(items: seq<T>, pick: T -> Option<U>): seq<U> {
    if items == [] then []
    else
      var n := |items| - 1;
      Kept(items[..n], pick) + match pick(items[n]) case Some(u) => [u] case None => []
  }

  /** Each item counts for itself, whatever stands around it. */
  lemma {:induction false} KeptOfConcat<T, U>(a: seq<T>, b: seq<T>, pick: T -> Option<U>)
    ensures Kept(a + b, pick) == Kept(a, pick) + Kept(b, pick)
  {
    if b == [] {
      assert a + b == a;
    } else {
      var n := |b| - 1;
      assert (a + b)[..|a + b| - 1] == a + b[..n];
      KeptOfConcat(a, b[..n], pick);
    }
  }

  lemma KeptOfFirst<T, U>(items: seq<T>, pick: T -> Option<U>)
    requires items != []
    ensures Kept(items, pick) == (match pick(items[0]) case Some(u) => [u] case None => []) + Kept(items[1..], pick)
  {
    assert items == [items[0]] + items[1..] && [items[0]][..0] == [];
    KeptOfConcat([items[0]], items[1..], pick);
    assert Kept([items[0]][..0], pick) == [];
  }

  function AsText(v: Value): Option<string> {
    match v case Str(s) => Some(s) case _ => None
  }

  /** An integer of 64 bits, written as a number. */
  function AsInteger(v: Value): Option<I64> {
    match v
    case Num(Integer(i)) => if -0x8000_0000_0000_0000 <= i < 0x8000_0000_0000_0000 then Some(i) else None
    case _ => None
  }

  lemma {:induction false} StringsAreKept(items: seq<Value>)
    ensures Strings(items) == Kept(items, AsText)
  {
    if items != [] {
      StringsAreKept(items[1..]);
      KeptOfFirst(items, AsText);
    }
  }

  lemma {:induction false} IntegersAreKept(items: seq<Value>)
    ensures Integers(items) == Kept(items, AsInteger)
  {
    if items != [] {
      IntegersAreKept(items[1..]);
      KeptOfFirst(items, AsInteger);
    }
  }

  lemma {:induction false} ProposalsAreKept(items: seq<Value>)
    ensures ParseAll(items) == Kept(items, ParseOne)
  {
    hide ParseOne;
    if items != [] {
      ProposalsAreKept(items[1..]);
      KeptOfFirst(items, ParseOne);
    }
  }

  /** A member's list, or none when it is missing or no list. */
  ghost predicate HasList(v: Value, k: string, items: seq<Value>) {
    Get(v, k) == Some(Arr(items)) || (items == [] && forall list :: Get(v, k) != Some(Arr(list)))
  }

  ghost predicate AllIntegers(items: seq<Value>, ids: seq<I64>) {
    |items| == |ids| && forall i | 0 <= i < |items| :: items[i] == Num(Integer(ids[i]))
  }

  ghost predicate HasLinks(o: Option<Value>, ids: seq<I64>) {
    (o == None && ids == []) || exists items :: o == Some(Arr(items)) && AllIntegers(items, ids)
  }

  /** A part is an object with a title and perhaps links, or the list of those. */
  ghost predicate IsPart(v: Value, part: SplitPart) {
    || (v.Obj? && Get(v, "title") == Some(Str(part.title)) && HasLinks(Get(v, "link_ids"), part.linkIds))
    || (v == Arr([Str(part.title)]) && part.linkIds == [])
    || exists links :: v == Arr([Str(part.title), links]) && HasLinks(Some(links), part.linkIds)
  }

  ghost predicate AreParts(items: seq<Value>, parts: seq<SplitPart>) {
    |items| == |parts| && forall i | 0 <= i < |items| :: IsPart(items[i], parts[i])
  }

  lemma {:induction false} StrictIntegersIff(items: seq<Value>, ids: seq<I64>)
    ensures StrictIntegers(items) == Some(ids) <==> AllIntegers(items, ids)
  {
    if items != [] && ids != [] {
      StrictIntegersIff(items[1..], ids[1..]);
      assert ids == [ids[0]] + ids[1..];
      assert AllIntegers(items, ids) <==> items[0] == Num(Integer(ids[0])) && AllIntegers(items[1..], ids[1..]) by {
        FirstInteger(items, ids);
      }
      if StrictIntegers(items) == Some(ids) {
        assert StrictIntegers(items[1..]).value == ids[1..];
      }
    }
  }

  lemma FirstInteger(items: seq<Value>, ids: seq<I64>)
    requires items != [] && ids != []
    ensures AllIntegers(items, ids) <==> items[0] == Num(Integer(ids[0])) && AllIntegers(items[1..], ids[1..])
  {
    if items[0] == Num(Integer(ids[0])) && AllIntegers(items[1..], ids[1..]) {
      forall i | 0 <= i < |items|
        ensures items[i] == Num(Integer(ids[i]))
      {
        if i > 0 {
          assert items[i] == items[1..][i - 1] && ids[i] == ids[1..][i - 1];
        }
      }
    }
  }

  lemma LinksIff(o: Option<Value>, ids: seq<I64>)
    ensures LinkIds(o) == Some(ids) <==> HasLinks(o, ids)
  {
    if o.Some? && o.value.Arr? {
      StrictIntegersIff(o.value.items, ids);
    }
    hide AllIntegers, StrictIntegers;
  }

  lemma PartIff(v: Value, part: SplitPart)
    ensures PartOf(v) == Some(part) <==> IsPart(v, part)
  {
    hide LinkIds, HasLinks;
    assert LinkIds(None) == Some(part.linkIds) <==> part.linkIds == [] by {
      LinksIff(None, part.linkIds);
      LinksOfNone(part.linkIds);
    }
    match v
    case Obj(members) => LinksIff(Get(v, "link_ids"), part.linkIds);
    case Arr(items) =>
      if |items| == 2 {
        LinksIff(Some(items[1]), part.linkIds);
        assert items == [items[0], items[1]];
      } else if |items| == 1 {
        assert items == [items[0]];
      }
    case _ =>
  }

  lemma LinksOfNone(ids: seq<I64>)
    ensures HasLinks(None, ids) <==> ids == []
  {
  }

  lemma {:induction false} PartsIff(items: seq<Value>, parts: seq<SplitPart>)
    ensures Parts(items) == Some(parts) <==> AreParts(items, parts)
  {
    hide PartOf, IsPart;
    if items != [] && parts != [] {
      PartIff(items[0], parts[0]);
      PartsIff(items[1..], parts[1..]);
      FirstPart(items, parts);
      assert parts == [parts[0]] + parts[1..];
      if Parts(items) == Some(parts) {
        assert Parts(items[1..]).value == parts[1..];
      }
    }
  }

  lemma FirstPart(items: seq<Value>, parts: seq<SplitPart>)
    requires items != [] && parts != []
    ensures AreParts(items, parts) <==> IsPart(items[0], parts[0]) && AreParts(items[1..], parts[1..])
  {
    hide IsPart;
    if IsPart(items[0], parts[0]) && AreParts(items[1..], parts[1..]) {
      forall i | 0 <= i < |items|
        ensures IsPart(items[i], parts[i])
      {
        if i > 0 {
          assert items[i] == items[1..][i - 1] && parts[i] == parts[1..][i - 1];
        }
      }
    }
  }

  // ---------------------------------------------------------------------
  // Proposals
  // ---------------------------------------------------------------------

  /** The value asks for this operation with these fields. */
  ghost predicate Denotes(v: Value, p: Proposal) {
    && HasOption(v, "rationale", p.rationale)
    && match p
       case File(parentId, subClass, targetKind, targetId, note, _) =>
         && HasText(v, "op", "file") && HasText(v, "parent_id", parentId) && HasOption(v, "sub_class", subClass)
         && HasText(v, "target_kind", targetKind) && HasId(v, "target_id", targetId) && HasOption(v, "note", note)
       case Create(parentId, title, _) =>
         HasText(v, "op", "create") && HasText(v, "parent_id", parentId) && HasText(v, "title", title)
       case Promote(nodeId, newParentId, _) =>
         HasText(v, "op", "promote") && HasText(v, "node_id", nodeId) && HasOption(v, "new_parent_id", newParentId)
       case Split(nodeId, into, _) =>
         && HasText(v, "op", "split") && HasText(v, "node_id", nodeId) && into != []
         && exists items :: HasList(v, "into", items) && AreParts(items, into)
       case Merge(nodeIds, title, parentId, _) =>
         && HasText(v, "op", "merge") && |nodeIds| >= 2 && HasOption(v, "title", title)
         && HasOption(v, "parent_id", parentId)
         && exists items :: HasList(v, "node_ids", items) && nodeIds == Kept(items, AsText)
       case Collapse(nodeId, summary, citeSeqs, _) =>
         && HasText(v, "op", "collapse") && HasText(v, "node_id", nodeId) && HasText(v, "summary", summary)
         && exists items :: HasList(v, "cite_seqs", items) && citeSeqs == Kept(items, AsInteger)
       case Supersede(oldSeq, newSeq, _) =>
         && HasText(v, "op", "supersede") && HasNumber(v, "old_seq", oldSeq) && HasNumber(v, "new_seq", newSeq)
         && 0 < oldSeq < newSeq
  }

  lemma ListIff(v: Value, k: string, items: seq<Value>)
    ensures HasList(v, k, items) <==> items == ItemsOf(Get(v, k))
  {
  }

  lemma IntoIff(v: Value, into: seq<SplitPart>)
    requires into != []
    ensures IntoField(v) == into <==> exists items :: HasList(v, "into", items) && AreParts(items, into)
  {
    var items := ItemsOf(Get(v, "into"));
    ListIff(v, "into", items);
    PartsIff(items, into);
    hide Parts, AreParts, IsPart;
    forall list | HasList(v, "into", list)
      ensures list == items
    {
      ListIff(v, "into", list);
    }
    if items == [] {
      PartsOfNothing(into);
    }
  }

  lemma PartsOfNothing(into: seq<SplitPart>)
    ensures AreParts([], into) ==> into == []
  {
  }

  lemma TextIff(v: Value, k: string, s: string)
    ensures HasText(v, k, s) <==> StrField(v, k) == Some(s)
  {
    StrFieldIff(v, k);
  }

  lemma OptionIff(v: Value, k: string, o: Option<string>)
    ensures HasOption(v, k, o) <==> StrField(v, k) == o
  {
    hide HasText;
    StrFieldIff(v, k);
  }

  lemma TextsIff(v: Value, k: string, ids: seq<string>)
    ensures Strings(ItemsOf(Get(v, k))) == ids <==> exists items :: HasList(v, k, items) && ids == Kept(items, AsText)
  {
    hide Kept, Strings;
    var items := ItemsOf(Get(v, k));
    StringsAreKept(items);
    forall list
      ensures HasList(v, k, list) <==> list == items
    {
      ListIff(v, k, list);
    }
  }

  lemma IntegersIff(v: Value, k: string, ids: seq<I64>)
    ensures Integers(ItemsOf(Get(v, k))) == ids <==> exists items :: HasList(v, k, items) && ids == Kept(items, AsInteger)
  {
    hide Kept, Integers;
    var items := ItemsOf(Get(v, k));
    IntegersAreKept(items);
    forall list
      ensures HasList(v, k, list) <==> list == items
    {
      ListIff(v, k, list);
    }
  }

  function OpOf(p: Proposal): string {
    match p
    case File(_, _, _, _, _, _) => "file"
    case Create(_, _, _) => "create"
    case Promote(_, _, _) => "promote"
    case Split(_, _, _) => "split"
    case Merge(_, _, _, _) => "merge"
    case Collapse(_, _, _, _) => "collapse"
    case Supersede(_, _, _) => "supersede"
  }

  lemma OpIsRead(v: Value, p: Proposal)
    ensures ParseOne(v) == Some(p) ==> StrField(v, "op") == Some(OpOf(p)) && StrField(v, "rationale") == p.rationale
    ensures Denotes(v, p) ==> StrField(v, "op") == Some(OpOf(p)) && StrField(v, "rationale") == p.rationale
  {
    hide StrField, ValueAsId, ValueAsI64, IntoField, Strings, Integers, Kept, HasText, HasOption, HasId, HasNumber, HasList,
      AreParts, ItemsOf, Get;
    TextIff(v, "op", OpOf(p));
    OptionIff(v, "rationale", p.rationale);
  }

  /** The parser reads a value as the proposal it denotes, and as none exactly when it denotes none. */
  lemma ParsesIffDenoted(v: Value, p: Proposal)
    ensures ParseOne(v) == Some(p) <==> Denotes(v, p)
  {
    OpIsRead(v, p);
    TextIff(v, "op", OpOf(p));
    OptionIff(v, "rationale", p.rationale);
    hide StrField, ValueAsId, ValueAsI64, IntoField, Strings, Integers, Kept, HasText, HasOption, HasId, HasNumber, HasList,
      AreParts, ItemsOf, Get;
    if StrField(v, "op") == Some(OpOf(p)) && StrField(v, "rationale") == p.rationale {
      match p
      case File(parentId, subClass, targetKind, targetId, note, _) =>
        TextIff(v, "parent_id", parentId);
        OptionIff(v, "sub_class", subClass);
        TextIff(v, "target_kind", targetKind);
        IdIff(v, "target_id", targetId);
        OptionIff(v, "note", note);
      case Create(parentId, title, _) =>
        TextIff(v, "parent_id", parentId);
        TextIff(v, "title", title);
      case Promote(nodeId, newParentId, _) =>
        TextIff(v, "node_id", nodeId);
        OptionIff(v, "new_parent_id", newParentId);
      case Split(nodeId, into, _) =>
        TextIff(v, "node_id", nodeId);
        if into != [] {
          IntoIff(v, into);
        }
      case Merge(nodeIds, title, parentId, _) =>
        OptionIff(v, "title", title);
        OptionIff(v, "parent_id", parentId);
        TextsIff(v, "node_ids", nodeIds);
      case Collapse(nodeId, summary, citeSeqs, _) =>
        TextIff(v, "node_id", nodeId);
        TextIff(v, "summary", summary);
        IntegersIff(v, "cite_seqs", citeSeqs);
      case Supersede(oldSeq, newSeq, _) =>
        NumberIff(v, "old_seq", oldSeq);
        NumberIff(v, "new_seq", newSeq);
    }
  }

  // ---------------------------------------------------------------------
  // Replies
  // ---------------------------------------------------------------------

  /** The reply's list of proposals. */
  ghost predicate Replies(parse: Parser, text: string, items: seq<Value>) {
    exists obj :: Extracted(parse, text, "proposals") == Some(obj) && HasList(obj, "proposals", items)
  }

  /** A reply's proposals are those its items denote, in order: what is not understood is skipped, alone. */
  lemma RepliesAreReadItemByItem(parse: Parser, text: string)
    ensures forall items | Replies(parse, text, items) :: ParseProposals(parse, text) == Kept(items, ParseOne)
    ensures (forall items :: !Replies(parse, text, items)) ==> ParseProposals(parse, text) == []
  {
    hide Extracted, ParseOne, Kept, HasList, ItemsOf, Get;
    if Extracted(parse, text, "proposals").Some? {
      var obj := Extracted(parse, text, "proposals").value;
      forall list
        ensures HasList(obj, "proposals", list) <==> list == ItemsOf(Get(obj, "proposals"))
      {
        ListIff(obj, "proposals", list);
      }
      ProposalsAreKept(ItemsOf(Get(obj, "proposals")));
      assert Replies(parse, text, ItemsOf(Get(obj, "proposals")));
    }
  }

  /** One item among others adds the proposal it denotes, or nothing, and changes nothing about the others. */
  lemma ItemsStandAlone(parse: Parser, text: string, before: string, after: string, a: seq<Value>, v: Value, b: seq<Value>)
    requires Replies(parse, text, a + [v] + b) && Replies(parse, before, a) && Replies(parse, after, b)
    ensures ParseProposals(parse, text) ==
            ParseProposals(parse, before) + (match ParseOne(v) case Some(p) => [p] case None => [])
            + ParseProposals(parse, after)
  {
    hide Replies, ParseProposals, ParseOne;
    RepliesAreReadItemByItem(parse, text);
    RepliesAreReadItemByItem(parse, before);
    RepliesAreReadItemByItem(parse, after);
    KeptOfConcat(a + [v], b, ParseOne);
    assert (a + [v])[..|a|] == a;
  }
}
