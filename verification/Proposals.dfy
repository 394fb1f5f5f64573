/**
  The proposal grammar: a parser that normalises a model's reply, and the printer that
  sends the parsed proposals over the wire, where the same parser reads them again.
 */
module Proposals {
  import CanonicalJson
  import opened JsonText
  import opened Texts
  import opened Wrappers

  type I64 = i: int | -0x8000_0000_0000_0000 <= i < 0x8000_0000_0000_0000

  datatype SplitPart = SplitPart(title: string, linkIds: seq<I64>)

  datatype Proposal =
    | File(parentId: string, subClass: Option<string>, targetKind: string, targetId: string,
           note: Option<string>, rationale: Option<string>)
    | Create(parentId: string, title: string, rationale: Option<string>)
    | Promote(nodeId: string, newParentId: Option<string>, rationale: Option<string>)
    | Split(nodeId: string, into: seq<SplitPart>, rationale: Option<string>)
    | Merge(nodeIds: seq<string>, mergedTitle: Option<string>, mergedParentId: Option<string>, rationale: Option<string>)
    | Collapse(nodeId: string, summary: string, citeSeqs: seq<I64>, rationale: Option<string>)
    | Supersede(oldSeq: I64, newSeq: I64, rationale: Option<string>)

  // ---------------------------------------------------------------------
  // Number texts
  // ---------------------------------------------------------------------

  function NumberAsText(n: Number): string {
    match n
    case Integer(i) => CanonicalJson.Integer(i)
    case Float(text) => text
  }

  lemma NumberTextIsTrimmed(n: Number)
    ensures Trimmed(NumberAsText(n))
  {
    var t := NumberAsText(n);
    assert t[0] in t && t[|t| - 1] in t;
    if n.Integer? {
      assert CanonicalJson.IsNumeric(t[0]) && CanonicalJson.IsNumeric(t[|t| - 1]);
    }
  }

  function AsI64(n: Number): Option<I64> {
    if n.Integer? && -0x8000_0000_0000_0000 <= n.i < 0x8000_0000_0000_0000 then Some(n.i) else None
  }

  function Digits(s: string, sofar: nat): Option<nat> {
    if s == "" then Some(sofar)
    else if '0' <= s[0] <= '9' then Digits(s[1..], 10 * sofar + (s[0] as int - '0' as int))
    else None
  }

  /** Decimal digits behind an optional sign, in range. */
  function ParseI64(s: string): Option<I64> {
    if s == "" then None
    else
      var signed := s[0] == '-' || s[0] == '+';
      var body := if signed then s[1..] else s;
      if body == "" then None
      else
        match Digits(body, 0)
        case None => None
        case Some(n) => AsI64(Integer(if s[0] == '-' then 0 - n else n as int))
  }

  // ---------------------------------------------------------------------
  // The parser
  // ---------------------------------------------------------------------

  function StrField(v: Value, k: string): Option<string> {
    match Get(v, k)
    case Some(Str(s)) => if Trim(s) != "" then Some(Trim(s)) else None
    case _ => None
  }

  function ValueAsId(v: Option<Value>): Option<string> {
    match v
    case Some(Str(s)) => if Trim(s) != "" then Some(Trim(s)) else None
    case Some(Num(n)) => Some(NumberAsText(n))
    case _ => None
  }

  function ValueAsI64(v: Option<Value>): Option<I64> {
    match v
    case Some(Num(n)) => AsI64(n)
    case Some(Str(s)) => ParseI64(Trim(s))
    case _ => None
  }

  function ItemsOf(v: Option<Value>): seq<Value> {
    match v
    case Some(Arr(items)) => items
    case _ => []
  }

  /** The string items of a list; the others are dropped. */
  function Strings(items: seq<Value>): seq<string> {
    if items == [] then []
    else (if items[0].Str? then [items[0].s] else []) + Strings(items[1..])
  }

  /** The items that are integers in range; the others are dropped. */
  function Integers(items: seq<Value>): seq<I64> {
    if items == [] then []
    else (if items[0].Num? && AsI64(items[0].n).Some? then [AsI64(items[0].n).value] else []) + Integers(items[1..])
  }

  /** A list of integers, all of which must be in range. */
  function StrictIntegers(items: seq<Value>): Option<seq<I64>> {
    if items == [] then Some([])
    else if items[0].Num? && AsI64(items[0].n).Some? && StrictIntegers(items[1..]).Some?
    then Some([AsI64(items[0].n).value] + StrictIntegers(items[1..]).value)
    else None
  }

  function LinkIds(v: Option<Value>): Option<seq<I64>> {
    match v
    case None => Some([])
    case Some(Arr(items)) => StrictIntegers(items)
    case Some(_) => None
  }

  /** A part is an object, or the list of its fields in order; a missing `link_ids` is empty. */
  function PartOf(v: Value): Option<SplitPart> {
    match v
    case Obj(members) =>
      (match (Get(v, "title"), LinkIds(Get(v, "link_ids")))
       case (Some(Str(title)), Some(ids)) => Some(SplitPart(title, ids))
       case _ => None)
    case Arr(items) =>
      if |items| == 0 || |items| > 2 || !items[0].Str? then None
      else
        (match LinkIds(if |items| == 2 then Some(items[1]) else None)
         case Some(ids) => Some(SplitPart(items[0].s, ids))
         case None => None)
    case _ => None
  }

  function Parts(items: seq<Value>): Option<seq<SplitPart>> {
    if items == [] then Some([])
    else if PartOf(items[0]).Some? && Parts(items[1..]).Some?
    then Some([PartOf(items[0]).value] + Parts(items[1..]).value)
    else None
  }

  function IntoField(v: Value): seq<SplitPart> {
    match Get(v, "into")
    case Some(Arr(items)) => if Parts(items).Some? then Parts(items).value else []
    case _ => []
  }

  function ParseOne(v: Value): Option<Proposal> {
    var op := StrField(v, "op");
    var rationale := StrField(v, "rationale");
    if op.None? then None
    else if op.value == "file" then
      var targetId := ValueAsId(Get(v, "target_id"));
      var parentId, targetKind := StrField(v, "parent_id"), StrField(v, "target_kind");
      if targetId.None? || parentId.None? || targetKind.None? then None
      else Some(File(parentId.value, StrField(v, "sub_class"), targetKind.value, targetId.value,
                     StrField(v, "note"), rationale))
    else if op.value == "create" then
      var parentId, title := StrField(v, "parent_id"), StrField(v, "title");
      if parentId.None? || title.None? then None else Some(Create(parentId.value, title.value, rationale))
    else if op.value == "promote" then
      var nodeId := StrField(v, "node_id");
      if nodeId.None? then None else Some(Promote(nodeId.value, StrField(v, "new_parent_id"), rationale))
    else if op.value == "split" then
      var into := IntoField(v);
      var nodeId := StrField(v, "node_id");
      if into == [] || nodeId.None? then None else Some(Split(nodeId.value, into, rationale))
    else if op.value == "merge" then
      var nodeIds := Strings(ItemsOf(Get(v, "node_ids")));
      if |nodeIds| < 2 then None
      else Some(Merge(nodeIds, StrField(v, "title"), StrField(v, "parent_id"), rationale))
    else if op.value == "collapse" then
      var citeSeqs := Integers(ItemsOf(Get(v, "cite_seqs")));
      var nodeId, summary := StrField(v, "node_id"), StrField(v, "summary");
      if nodeId.None? || summary.None? then None
      else Some(Collapse(nodeId.value, summary.value, citeSeqs, rationale))
    else if op.value == "supersede" then
      var oldSeq, newSeq := ValueAsI64(Get(v, "old_seq")), ValueAsI64(Get(v, "new_seq"));
      if oldSeq.None? || newSeq.None? then None
      else if oldSeq.value <= 0 || newSeq.value <= 0 || oldSeq.value >= newSeq.value then None
      else Some(Supersede(oldSeq.value, newSeq.value, rationale))
    else None
  }

  function ParseAll(items: seq<Value>): seq<Proposal> {
    if items == [] then []
    else (match ParseOne(items[0]) case Some(p) => [p] case None => []) + ParseAll(items[1..])
  }

  function ParseProposals(parse: Parser, text: string): seq<Proposal> {
    match Extracted(parse, text, "proposals")
    case None => []
    case Some(obj) => ParseAll(ItemsOf(Get(obj, "proposals")))
  }

  // ---------------------------------------------------------------------
  // The printer
  // ---------------------------------------------------------------------

  function OptionValue(o: Option<string>): Value {
    match o
    case Some(s) => Str(s)
    case None => Null
  }

  function StringValues(ss: seq<string>): seq<Value> {
    if ss == [] then [] else [Str(ss[0])] + StringValues(ss[1..])
  }

  function IntegerValues(ints: seq<I64>): seq<Value> {
    if ints == [] then [] else [Num(Integer(ints[0]))] + IntegerValues(ints[1..])
  }

  function PartValue(p: SplitPart): Value {
    Obj(map["title" := Str(p.title), "link_ids" := Arr(IntegerValues(p.linkIds))])
  }

  function PartValues(ps: seq<SplitPart>): seq<Value> {
    if ps == [] then [] else [PartValue(ps[0])] + PartValues(ps[1..])
  }

  function ProposalValue(p: Proposal): Value {
    match p
    case File(parentId, subClass, targetKind, targetId, note, rationale) =>
      Obj(map["op" := Str("file"), "parent_id" := Str(parentId), "sub_class" := OptionValue(subClass),
              "target_kind" := Str(targetKind), "target_id" := Str(targetId), "note" := OptionValue(note),
              "rationale" := OptionValue(rationale)])
    case Create(parentId, title, rationale) =>
      Obj(map["op" := Str("create"), "parent_id" := Str(parentId), "title" := Str(title),
              "rationale" := OptionValue(rationale)])
    case Promote(nodeId, newParentId, rationale) =>
      Obj(map["op" := Str("promote"), "node_id" := Str(nodeId), "new_parent_id" := OptionValue(newParentId),
              "rationale" := OptionValue(rationale)])
    case Split(nodeId, into, rationale) =>
      Obj(map["op" := Str("split"), "node_id" := Str(nodeId), "into" := Arr(PartValues(into)),
              "rationale" := OptionValue(rationale)])
    case Merge(nodeIds, title, parentId, rationale) =>
      Obj(map["op" := Str("merge"), "node_ids" := Arr(StringValues(nodeIds)), "title" := OptionValue(title),
              "parent_id" := OptionValue(parentId), "rationale" := OptionValue(rationale)])
    case Collapse(nodeId, summary, citeSeqs, rationale) =>
      Obj(map["op" := Str("collapse"), "node_id" := Str(nodeId), "summary" := Str(summary),
              "cite_seqs" := Arr(IntegerValues(citeSeqs)), "rationale" := OptionValue(rationale)])
    case Supersede(oldSeq, newSeq, rationale) =>
      Obj(map["op" := Str("supersede"), "old_seq" := Num(Integer(oldSeq)), "new_seq" := Num(Integer(newSeq)),
              "rationale" := OptionValue(rationale)])
  }

  function ProposalValues(ps: seq<Proposal>): seq<Value> {
    if ps == [] then [] else [ProposalValue(ps[0])] + ProposalValues(ps[1..])
  }

  /** The request body that stages proposals. */
  function Payload(ps: seq<Proposal>, actor: string): Value {
    Obj(map["proposals" := Arr(ProposalValues(ps)), "actor" := Str(actor)])
  }

  // ---------------------------------------------------------------------
  // Normal form
  // ---------------------------------------------------------------------

  ghost predicate TrimmedOption(o: Option<string>) {
    o.Some? ==> Trimmed(o.value)
  }

  /** What the parser's output always satisfies, and all that printing and re-parsing needs. */
  ghost predicate Normal(p: Proposal) {
    && TrimmedOption(p.rationale)
    && match p
       case File(parentId, subClass, targetKind, targetId, note, _) =>
         Trimmed(parentId) && TrimmedOption(subClass) && Trimmed(targetKind) && Trimmed(targetId) && TrimmedOption(note)
       case Create(parentId, title, _) => Trimmed(parentId) && Trimmed(title)
       case Promote(nodeId, newParentId, _) => Trimmed(nodeId) && TrimmedOption(newParentId)
       case Split(nodeId, into, _) => Trimmed(nodeId) && into != []
       case Merge(nodeIds, title, parentId, _) => |nodeIds| >= 2 && TrimmedOption(title) && TrimmedOption(parentId)
       case Collapse(nodeId, summary, _, _) => Trimmed(nodeId) && Trimmed(summary)
       case Supersede(oldSeq, newSeq, _) => 0 < oldSeq < newSeq
  }

  lemma StrFieldIsTrimmed(v: Value, k: string)
    ensures TrimmedOption(StrField(v, k))
  {
    if Get(v, k).Some? && Get(v, k).value.Str? {
      TrimTrims(Get(v, k).value.s);
    }
  }

  lemma IdIsTrimmed(v: Option<Value>)
    ensures TrimmedOption(ValueAsId(v))
  {
    match v
    case Some(Str(s)) => TrimTrims(s);
    case Some(Num(n)) => NumberTextIsTrimmed(n);
    case _ =>
  }

  lemma ParserOutputIsNormal(v: Value)
    ensures ParseOne(v).Some? ==> Normal(ParseOne(v).value)
  {
    hide StrField, ValueAsId, ValueAsI64, Trimmed, IntoField, Strings, Integers, Get;
    forall k
      ensures TrimmedOption(StrField(v, k))
    {
      StrFieldIsTrimmed(v, k);
    }
    IdIsTrimmed(Get(v, "target_id"));
  }

  lemma OptionReadsBack(v: Value, k: string, o: Option<string>)
    requires Get(v, k) == Some(OptionValue(o))
    ensures StrField(v, k) == o <==> TrimmedOption(o)
  {
    if o.Some? {
      TrimTrims(o.value);
    }
  }

  lemma TextReadsBack(v: Value, k: string, s: string)
    requires Get(v, k) == Some(Str(s))
    ensures StrField(v, k) == Some(s) <==> Trimmed(s)
  {
    TrimTrims(s);
  }

  lemma {:induction false} StringsReadBack(ss: seq<string>)
    ensures Strings(StringValues(ss)) == ss
  {
    if ss != [] {
      StringsReadBack(ss[1..]);
      assert StringValues(ss)[1..] == StringValues(ss[1..]);
    }
  }

  lemma {:induction false} IntegersReadBack(ints: seq<I64>)
    ensures Integers(IntegerValues(ints)) == ints && StrictIntegers(IntegerValues(ints)) == Some(ints)
  {
    if ints != [] {
      IntegersReadBack(ints[1..]);
      assert IntegerValues(ints)[1..] == IntegerValues(ints[1..]);
    }
  }

  lemma {:induction false} PartsReadBack(ps: seq<SplitPart>)
    ensures Parts(PartValues(ps)) == Some(ps)
  {
    if ps != [] {
      IntegersReadBack(ps[0].linkIds);
      assert Get(PartValue(ps[0]), "title") == Some(Str(ps[0].title));
      assert Get(PartValue(ps[0]), "link_ids") == Some(Arr(IntegerValues(ps[0].linkIds)));
      assert PartOf(PartValue(ps[0])) == Some(ps[0]);
      PartsReadBack(ps[1..]);
      assert PartValues(ps)[1..] == PartValues(ps[1..]);
      assert ps == [ps[0]] + ps[1..];
    }
  }

  lemma OpReadsBack(v: Value, op: string)
    requires Get(v, "op") == Some(Str(op))
    requires op != "" && 'a' <= op[0] <= 'z' && 'a' <= op[|op| - 1] <= 'z'
    ensures StrField(v, "op") == Some(op)
  {
    TrimTrims(op);
  }

  lemma FileReadsBack(p: Proposal)
    requires p.File? && Normal(p)
    ensures ParseOne(ProposalValue(p)) == Some(p)
  {
    hide StrField, Trimmed, TrimmedOption;
    var v := ProposalValue(p);
    OpReadsBack(v, "file");
    TextReadsBack(v, "parent_id", p.parentId);
    OptionReadsBack(v, "sub_class", p.subClass);
    TextReadsBack(v, "target_kind", p.targetKind);
    OptionReadsBack(v, "note", p.note);
    OptionReadsBack(v, "rationale", p.rationale);
    IdReadsBack(p.targetId);
  }

  lemma MergeReadsBack(p: Proposal)
    requires p.Merge? && Normal(p)
    ensures ParseOne(ProposalValue(p)) == Some(p)
  {
    hide StrField, Trimmed, TrimmedOption;
    var v := ProposalValue(p);
    OpReadsBack(v, "merge");
    StringsReadBack(p.nodeIds);
    OptionReadsBack(v, "title", p.mergedTitle);
    OptionReadsBack(v, "parent_id", p.mergedParentId);
    OptionReadsBack(v, "rationale", p.rationale);
  }

  lemma SplitReadsBack(p: Proposal)
    requires p.Split? && Normal(p)
    ensures ParseOne(ProposalValue(p)) == Some(p)
  {
    hide StrField, Trimmed, TrimmedOption;
    var v := ProposalValue(p);
    OpReadsBack(v, "split");
    TextReadsBack(v, "node_id", p.nodeId);
    PartsReadBack(p.into);
    OptionReadsBack(v, "rationale", p.rationale);
  }

  lemma CollapseReadsBack(p: Proposal)
    requires p.Collapse? && Normal(p)
    ensures ParseOne(ProposalValue(p)) == Some(p)
  {
    hide StrField, Trimmed, TrimmedOption;
    var v := ProposalValue(p);
    OpReadsBack(v, "collapse");
    TextReadsBack(v, "node_id", p.nodeId);
    TextReadsBack(v, "summary", p.summary);
    IntegersReadBack(p.citeSeqs);
    OptionReadsBack(v, "rationale", p.rationale);
  }

  /** A proposal in normal form is read back as it was printed. */
  lemma NormalReadsBack(p: Proposal)
    requires Normal(p)
    ensures ParseOne(ProposalValue(p)) == Some(p)
  {
    hide StrField, Trimmed, TrimmedOption;
    var v := ProposalValue(p);
    OptionReadsBack(v, "rationale", p.rationale);
    match p
    case File(_, _, _, _, _, _) => FileReadsBack(p);
    case Create(parentId, title, _) =>
      OpReadsBack(v, "create");
      TextReadsBack(v, "parent_id", parentId);
      TextReadsBack(v, "title", title);
    case Promote(nodeId, newParentId, _) =>
      OpReadsBack(v, "promote");
      TextReadsBack(v, "node_id", nodeId);
      OptionReadsBack(v, "new_parent_id", newParentId);
    case Split(_, _, _) => SplitReadsBack(p);
    case Merge(_, _, _, _) => MergeReadsBack(p);
    case Collapse(_, _, _, _) => CollapseReadsBack(p);
    case Supersede(oldSeq, newSeq, _) =>
      OpReadsBack(v, "supersede");
  }

  lemma IdReadsBack(id: string)
    requires Trimmed(id)
    ensures ValueAsId(Some(Str(id))) == Some(id)
  {
    TrimTrims(id);
  }

  /** The printed proposal parses back to itself exactly when it is in normal form. */
  lemma ReadsBackIffNormal(p: Proposal)
    ensures ParseOne(ProposalValue(p)) == Some(p) <==> Normal(p)
  {
    hide ParseOne, ProposalValue, Normal;
    if Normal(p) {
      NormalReadsBack(p);
    }
    ParserOutputIsNormal(ProposalValue(p));
  }

  lemma {:induction false} ParseAllIsNormal(items: seq<Value>)
    ensures forall p | p in ParseAll(items) :: Normal(p)
  {
    hide ParseOne, Normal;
    if items != [] {
      ParserOutputIsNormal(items[0]);
      ParseAllIsNormal(items[1..]);
    }
  }

  lemma {:induction false} NormalListsReadBack(ps: seq<Proposal>)
    requires forall p | p in ps :: Normal(p)
    ensures ParseAll(ProposalValues(ps)) == ps
  {
    hide ParseOne, ProposalValue, Normal;
    if ps != [] {
      NormalReadsBack(ps[0]);
      NormalListsReadBack(ps[1..]);
      assert ProposalValues(ps)[1..] == ProposalValues(ps[1..]);
    }
  }

  // ---------------------------------------------------------------------
  // The wire
  // ---------------------------------------------------------------------

  type Printer = Value -> string

  /** The JSON library prints every payload as an object text and reads it back. */
  ghost predicate WireIsFaithful(parse: Parser, render: Printer) {
    forall ps, actor :: CarriesPayload(parse, render, ps, actor)
  }

  ghost predicate CarriesPayload(parse: Parser, render: Printer, ps: seq<Proposal>, actor: string) {
    var v := Payload(ps, actor);
    parse(render(v)) == Some(v) && exists o: Text :: o.Object? && render(v) == Render(o)
  }

  lemma PayloadIsExtracted(parse: Parser, render: Printer, ps: seq<Proposal>, actor: string)
    requires CarriesPayload(parse, render, ps, actor)
    ensures Extracted(parse, render(Payload(ps, actor)), "proposals") == Some(Payload(ps, actor))
    ensures Get(Payload(ps, actor), "actor") == Some(Str(actor))
  {
    hide Candidate, MatchingBraceAt;
    var v := Payload(ps, actor);
    var o: Text :| o.Object? && render(v) == Render(o);
    EmbeddedObjectIsACandidate(parse, o, "", "", "proposals");
    assert "" + (Render(o) + "") == render(v);
  }

  /**
    Staging over the wire is lossless on anything the parser produced: the payload printed from
    the proposals of any reply parses back to the same list.
   */
  lemma PrintedProposalsParseBack(parse: Parser, render: Printer, text: string, actor: string)
    requires WireIsFaithful(parse, render)
    ensures var ps := ParseProposals(parse, text);
            ParseProposals(parse, render(Payload(ps, actor))) == ps
  {
    hide Extracted, ParseAll, ProposalValues;
    var ps := ParseProposals(parse, text);
    if Extracted(parse, text, "proposals").Some? {
      ParseAllIsNormal(ItemsOf(Get(Extracted(parse, text, "proposals").value, "proposals")));
    }
    assert CarriesPayload(parse, render, ps, actor);
    PayloadIsExtracted(parse, render, ps, actor);
    NormalListsReadBack(ps);
  }
}
