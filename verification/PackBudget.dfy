/**
  The two-pass trimmer that fits an answer pack into a byte budget. The serialised size is a
  parameter: nothing is assumed of it, not even that a shorter pack is smaller.
 */
module PackBudget {
  import opened Wrappers

  /** A hit, a link, a note: the trimmer only counts and cuts them. */
  type Item = string

  datatype PackNode = PackNode(
    title: string,
    children: seq<Item>,
    grandchildren: seq<Item>,
    links: seq<Item>,
    observations: seq<Item>)

  datatype ArmCoverage = ArmCoverage(arm: string, absentBecause: Option<string>)

  datatype AnswerPack = AnswerPack(
    query: Option<string>,
    node: Option<PackNode>,
    matchedNodes: seq<Item>,
    notes: seq<Item>,
    promptHits: seq<Item>,
    browseHits: seq<Item>,
    grepHits: seq<Item>,
    sharedHits: seq<Item>,
    claims: seq<Item>,
    truncated: seq<string>,
    armCoverage: seq<ArmCoverage>,
    errors: seq<string>)

  type Sizer = AnswerPack -> nat

  // ---------------------------------------------------------------------
  // The eleven arms
  // ---------------------------------------------------------------------

  datatype Arm =
    | BrowseHits | PromptHits | Links | GrepHits | Claims | SharedHits
    | MatchedNodes | Observations | Grandchildren | Children | Notes

  /** Trimming order: the user's own notes last. */
  const STEPS: seq<Arm> :=
    [BrowseHits, PromptHits, Links, GrepHits, Claims, SharedHits,
     MatchedNodes, Observations, Grandchildren, Children, Notes]

  const ARM_FLOOR := 1

  function Rank(a: Arm): (i: nat)
    ensures i < |STEPS| && STEPS[i] == a
  {
    match a
    case BrowseHits => 0
    case PromptHits => 1
    case Links => 2
    case GrepHits => 3
    case Claims => 4
    case SharedHits => 5
    case MatchedNodes => 6
    case Observations => 7
    case Grandchildren => 8
    case Children => 9
    case Notes => 10
  }

  function Name(a: Arm): string {
    match a
    case BrowseHits => "browseHits"
    case PromptHits => "promptHits"
    case Links => "links"
    case GrepHits => "grepHits"
    case Claims => "claims"
    case SharedHits => "sharedHits"
    case MatchedNodes => "matchedNodes"
    case Observations => "observations"
    case Grandchildren => "grandchildren"
    case Children => "children"
    case Notes => "notes"
  }

  function ListOf(p: AnswerPack, a: Arm): seq<Item> {
    match a
    case BrowseHits => p.browseHits
    case PromptHits => p.promptHits
    case Links => if p.node.Some? then p.node.value.links else []
    case GrepHits => p.grepHits
    case Claims => p.claims
    case SharedHits => p.sharedHits
    case MatchedNodes => p.matchedNodes
    case Observations => if p.node.Some? then p.node.value.observations else []
    case Grandchildren => if p.node.Some? then p.node.value.grandchildren else []
    case Children => if p.node.Some? then p.node.value.children else []
    case Notes => p.notes
  }

  /** Truncate one arm to `keep` items. */
  function Keep(p: AnswerPack, a: Arm, keep: nat): AnswerPack
    requires keep <= |ListOf(p, a)|
  {
    var l := ListOf(p, a)[..keep];
    match a
    case BrowseHits => p.(browseHits := l)
    case PromptHits => p.(promptHits := l)
    case Links => if p.node.Some? then p.(node := Some(p.node.value.(links := l))) else p
    case GrepHits => p.(grepHits := l)
    case Claims => p.(claims := l)
    case SharedHits => p.(sharedHits := l)
    case MatchedNodes => p.(matchedNodes := l)
    case Observations => if p.node.Some? then p.(node := Some(p.node.value.(observations := l))) else p
    case Grandchildren => if p.node.Some? then p.(node := Some(p.node.value.(grandchildren := l))) else p
    case Children => if p.node.Some? then p.(node := Some(p.node.value.(children := l))) else p
    case Notes => p.(notes := l)
  }

  function Len(p: AnswerPack, a: Arm): nat {
    |ListOf(p, a)|
  }

  function Drop(p: AnswerPack, a: Arm, n: nat): AnswerPack
    requires n <= Len(p, a)
  {
    Keep(p, a, Len(p, a) - n)
  }

  /** Record an arm as cut, once. */
  function Label(p: AnswerPack, name: string): AnswerPack {
    if name in p.truncated then p else p.(truncated := p.truncated + [name])
  }

  /** Everything but the eleven lists and the labels. */
  ghost predicate SameFrame(p: AnswerPack, q: AnswerPack) {
    && p.query == q.query && p.armCoverage == q.armCoverage && p.errors == q.errors
    && (p.node.Some? <==> q.node.Some?)
    && (p.node.Some? ==> p.node.value.title == q.node.value.title)
  }

  lemma KeepCutsOneArm(p: AnswerPack, a: Arm, keep: nat, b: Arm)
    requires keep <= Len(p, a)
    ensures ListOf(Keep(p, a, keep), b) == if a == b then ListOf(p, a)[..keep] else ListOf(p, b)
    ensures SameFrame(p, Keep(p, a, keep)) && Keep(p, a, keep).truncated == p.truncated
  {
  }

  lemma LabelKeepsLists(p: AnswerPack, name: string, b: Arm)
    ensures ListOf(Label(p, name), b) == ListOf(p, b)
    ensures SameFrame(p, Label(p, name))
  {
  }

  // ---------------------------------------------------------------------
  // Pass one: down towards the floor, a quarter of the excess at a time
  // ---------------------------------------------------------------------

  /** max(1, excess / 4), never more than the excess. */
  function Chunk(over: nat): (n: nat)
    requires over > 0
  {
    if over / 4 > 1 then over / 4 else 1
  }

  function FloorTrim(size: Sizer, maxBytes: nat, p: AnswerPack, a: Arm): AnswerPack
    decreases Len(p, a)
  {
    if size(p) > maxBytes && Len(p, a) > ARM_FLOOR then
      var n := Chunk(Len(p, a) - ARM_FLOOR);
      KeepCutsOneArm(p, a, Len(p, a) - n, a);
      FloorTrim(size, maxBytes, Drop(p, a, n), a)
    else p
  }

  /** How many chunks pass one drops from one arm. */
  ghost function FloorDrops(size: Sizer, maxBytes: nat, p: AnswerPack, a: Arm): nat
    decreases Len(p, a)
  {
    if size(p) > maxBytes && Len(p, a) > ARM_FLOOR then
      var n := Chunk(Len(p, a) - ARM_FLOOR);
      KeepCutsOneArm(p, a, Len(p, a) - n, a);
      1 + FloorDrops(size, maxBytes, Drop(p, a, n), a)
    else 0
  }

  function FloorArm(size: Sizer, maxBytes: nat, p: AnswerPack, a: Arm): AnswerPack {
    var q := FloorTrim(size, maxBytes, p, a);
    if size(p) > maxBytes && Len(p, a) > ARM_FLOOR then Label(q, Name(a)) else q
  }

  /** One arm of pass one; `checks` counts the times the answer pack is serialised to be measured. */
  method TrimToFloor(size: Sizer, maxBytes: nat, pack: AnswerPack, a: Arm)
    returns (out: AnswerPack, fits: bool, ghost checks: nat)
    ensures out == FloorArm(size, maxBytes, pack, a)
    ensures fits <==> size(out) <= maxBytes
    ensures checks == FloorDrops(size, maxBytes, pack, a) + 2
  {
    hide ListOf, Keep, Label, Name;
    out := pack;
    var cut := false;
    ghost var drops := 0;
    while size(out) > maxBytes && Len(out, a) > ARM_FLOOR
      invariant FloorTrim(size, maxBytes, out, a) == FloorTrim(size, maxBytes, pack, a)
      invariant drops + FloorDrops(size, maxBytes, out, a) == FloorDrops(size, maxBytes, pack, a)
      invariant cut <==> drops > 0
      invariant drops == 0 ==> out == pack
      invariant drops > 0 ==> size(pack) > maxBytes && Len(pack, a) > ARM_FLOOR
      decreases Len(out, a)
    {
      var over := Len(out, a) - ARM_FLOOR;
      KeepCutsOneArm(out, a, Len(out, a) - Chunk(over), a);
      out := Drop(out, a, Chunk(over));
      cut := true;
      drops := drops + 1;
    }
    if cut {
      out := Label(out, Name(a));
    }
    fits := size(out) <= maxBytes;
    checks := drops + 2;
  }

  // ---------------------------------------------------------------------
  // Pass two: the floor gives, one item at a time
  // ---------------------------------------------------------------------

  function DropAndLabel(p: AnswerPack, a: Arm): (q: AnswerPack)
    requires Len(p, a) > 0
  {
    KeepCutsOneArm(p, a, Len(p, a) - 1, a);
    LabelKeepsLists(Drop(p, a, 1), Name(a), a);
    Label(Drop(p, a, 1), Name(a))
  }

  function EmptyArm(size: Sizer, maxBytes: nat, p: AnswerPack, a: Arm): AnswerPack
    decreases Len(p, a)
  {
    if size(p) > maxBytes && Len(p, a) > 0 then EmptyArm(size, maxBytes, DropAndLabel(p, a), a) else p
  }

  method TrimToNothing(size: Sizer, maxBytes: nat, pack: AnswerPack, a: Arm) returns (out: AnswerPack, fits: bool)
    ensures out == EmptyArm(size, maxBytes, pack, a)
    ensures fits <==> size(out) <= maxBytes
  {
    out := pack;
    while size(out) > maxBytes && Len(out, a) > 0
      invariant EmptyArm(size, maxBytes, out, a) == EmptyArm(size, maxBytes, pack, a)
      decreases Len(out, a)
    {
      out := DropAndLabel(out, a);
    }
    fits := size(out) <= maxBytes;
  }

  // ---------------------------------------------------------------------
  // The whole trimmer
  // ---------------------------------------------------------------------

  /** Where the trimmer stopped. */
  datatype Stage = Untouched | PassOne | PassTwo | Metadata

  function ClipLine(s: string, max: nat): string {
    var one := seq(|s|, i requires 0 <= i < |s| => if s[i] == '\n' then ' ' else s[i]);
    if |one| <= max then one else one[..max] + "\U{2026}"
  }

  function ClipCoverage(c: ArmCoverage): ArmCoverage {
    match c.absentBecause
    case Some(s) => c.(absentBecause := Some(ClipLine(s, 120)))
    case None => c
  }

  function ClipMetadata(p: AnswerPack): AnswerPack {
    var kept := if |p.errors| <= 8 then p.errors else p.errors[..8];
    p.(armCoverage := seq(|p.armCoverage|, i requires 0 <= i < |p.armCoverage| => ClipCoverage(p.armCoverage[i])),
       errors := seq(|kept|, i requires 0 <= i < |kept| => ClipLine(kept[i], 120)))
  }

  function TakeNode(size: Sizer, maxBytes: nat, p: AnswerPack): AnswerPack {
    if size(p) > maxBytes && p.node.Some? then p.(node := None, truncated := p.truncated + ["node"]) else p
  }

  function TakeQuery(size: Sizer, maxBytes: nat, p: AnswerPack): AnswerPack {
    if size(p) > maxBytes && p.query.Some? then p.(query := None, truncated := p.truncated + ["query"]) else p
  }

  function Clip(size: Sizer, maxBytes: nat, p: AnswerPack): AnswerPack {
    if size(p) > maxBytes then ClipMetadata(p) else p
  }

  /** The answer pack after the first i arms of pass one, as long as none of them made it fit. */
  function AfterFloors(size: Sizer, maxBytes: nat, p: AnswerPack, i: nat): AnswerPack
    requires i <= |STEPS|
  {
    if i == 0 then p else FloorArm(size, maxBytes, AfterFloors(size, maxBytes, p, i - 1), STEPS[i - 1])
  }

  function AfterEmptying(size: Sizer, maxBytes: nat, p: AnswerPack, i: nat): AnswerPack
    requires i <= |STEPS|
  {
    if i == 0 then p else EmptyArm(size, maxBytes, AfterEmptying(size, maxBytes, p, i - 1), STEPS[i - 1])
  }

  /** The stage the trimmer stopped at and the arm, if any, that made the answer pack fit. */
  ghost predicate StoppedAt(size: Sizer, maxBytes: nat, p: AnswerPack, out: AnswerPack, stage: Stage, i: nat) {
    match stage
    case Untouched => size(p) <= maxBytes && out == p
    case PassOne =>
      && size(p) > maxBytes && 0 < i <= |STEPS|
      && (forall k | 0 < k < i :: size(AfterFloors(size, maxBytes, p, k)) > maxBytes)
      && out == AfterFloors(size, maxBytes, p, i) && size(out) <= maxBytes
    case PassTwo =>
      && size(p) > maxBytes && 0 < i <= |STEPS|
      && (forall k | 0 < k <= |STEPS| :: size(AfterFloors(size, maxBytes, p, k)) > maxBytes)
      && var floored := AfterFloors(size, maxBytes, p, |STEPS|);
         && (forall k | 0 < k < i :: size(AfterEmptying(size, maxBytes, floored, k)) > maxBytes)
         && out == AfterEmptying(size, maxBytes, floored, i) && size(out) <= maxBytes
    case Metadata =>
      && size(p) > maxBytes
      && (forall k | 0 < k <= |STEPS| :: size(AfterFloors(size, maxBytes, p, k)) > maxBytes)
      && var floored := AfterFloors(size, maxBytes, p, |STEPS|);
         && (forall k | 0 < k <= |STEPS| :: size(AfterEmptying(size, maxBytes, floored, k)) > maxBytes)
         && var emptied := AfterEmptying(size, maxBytes, floored, |STEPS|);
            out == Clip(size, maxBytes, TakeQuery(size, maxBytes, TakeNode(size, maxBytes, emptied)))
  }

  method EnforcePackBudgetBytes(size: Sizer, maxBytes: nat, pack: AnswerPack)
    returns (out: AnswerPack, stage: Stage, ghost stop: nat)
    ensures StoppedAt(size, maxBytes, pack, out, stage, stop)
    ensures size(out) <= maxBytes || Bare(out)
    ensures TrimmedFrom(pack, out)
    ensures stage == PassOne ==> forall a :: Len(pack, a) > 0 ==> Len(out, a) > 0
  {
    hide FloorArm, EmptyArm, Rank, ListOf;
    out := pack;
    stop := 0;
    if size(out) <= maxBytes {
      stage := Untouched;
      StoppedPackIsTrimmed(size, maxBytes, pack, out, stage, stop);
      return;
    }
    for i := 0 to |STEPS|
      invariant out == AfterFloors(size, maxBytes, pack, i)
      invariant forall k | 0 < k <= i :: size(AfterFloors(size, maxBytes, pack, k)) > maxBytes
    {
      var fits;
      ghost var checks;
      out, fits, checks := TrimToFloor(size, maxBytes, out, STEPS[i]);
      if fits {
        stage, stop := PassOne, i + 1;
        StoppedPackIsTrimmed(size, maxBytes, pack, out, stage, stop);
        return;
      }
    }
    ghost var floored := out;
    for i := 0 to |STEPS|
      invariant out == AfterEmptying(size, maxBytes, floored, i)
      invariant forall k | 0 < k <= i :: size(AfterEmptying(size, maxBytes, floored, k)) > maxBytes
    {
      var fits;
      out, fits := TrimToNothing(size, maxBytes, out, STEPS[i]);
      if fits {
        stage, stop := PassTwo, i + 1;
        StoppedPackIsTrimmed(size, maxBytes, pack, out, stage, stop);
        return;
      }
    }
    out := Clip(size, maxBytes, TakeQuery(size, maxBytes, TakeNode(size, maxBytes, out)));
    stage := Metadata;
    StoppedPackIsTrimmed(size, maxBytes, pack, out, stage, stop);
  }

  // ---------------------------------------------------------------------
  // What a trimmed pack is
  // ---------------------------------------------------------------------

  /** Nothing left to cut: every list empty, node and query gone. */
  ghost predicate Bare(p: AnswerPack) {
    (forall a :: Len(p, a) == 0) && p.node.None? && p.query.None?
  }

  ghost predicate ListsArePrefixes(p: AnswerPack, q: AnswerPack) {
    forall a :: ListOf(q, a) <= ListOf(p, a)
  }

  /** An arm's label is present exactly when it was, or when its list was shortened. */
  ghost predicate LabelsMatchCuts(p: AnswerPack, q: AnswerPack) {
    forall a :: Name(a) in q.truncated <==> Name(a) in p.truncated || Len(q, a) < Len(p, a)
  }

  /** Labels are only added, and each added one names a shortened list and repeats none before it. */
  ghost predicate LabelsAreCuts(p: AnswerPack, q: AnswerPack) {
    && p.truncated <= q.truncated
    && (forall k | |p.truncated| <= k < |q.truncated| :: NamesACut(p, q, q.truncated[k]))
    && (forall j, k | 0 <= j < k < |q.truncated| && |p.truncated| <= k :: q.truncated[j] != q.truncated[k])
  }

  ghost predicate NamesACut(p: AnswerPack, q: AnswerPack, name: string) {
    exists a :: name == Name(a) && Len(q, a) < Len(p, a)
  }

  ghost predicate CutFrom(p: AnswerPack, q: AnswerPack) {
    ListsArePrefixes(p, q) && LabelsMatchCuts(p, q) && LabelsAreCuts(p, q)
  }

  /** A cut of the lists, then possibly the loss of node and query, in that order and each under its own label. */
  ghost predicate TrimmedFrom(p: AnswerPack, q: AnswerPack) {
    exists cut: AnswerPack :: CutFrom(p, cut) && MetadataCutFrom(p, cut, q)
  }

  ghost predicate MetadataCutFrom(p: AnswerPack, cut: AnswerPack, q: AnswerPack) {
    && SameFrame(p, cut) && (forall a :: ListOf(q, a) == ListOf(cut, a))
    && q.truncated == cut.truncated + (if p.node.Some? && q.node.None? then ["node"] else [])
                                    + (if p.query.Some? && q.query.None? then ["query"] else [])
    && (q.node.Some? ==> q.node == cut.node) && (q.query.Some? ==> q.query == cut.query)
    && (q.node.None? && p.node.Some? ==> forall a :: Len(q, a) == 0)
    && (q.query.None? && p.query.Some? ==> q.node.None? && forall a :: Len(q, a) == 0)
    && ((q.armCoverage == p.armCoverage && q.errors == p.errors) || Bare(q))
  }

  lemma NamesDiffer(a: Arm, b: Arm)
    ensures Name(a) == Name(b) ==> a == b
  {
  }

  lemma CutFromItself(p: AnswerPack)
    ensures CutFrom(p, p) && SameFrame(p, p)
  {
    hide ListOf, Name;
  }

  lemma CutsCompose(p: AnswerPack, q: AnswerPack, r: AnswerPack)
    requires CutFrom(p, q) && CutFrom(q, r) && SameFrame(p, q) && SameFrame(q, r)
    ensures CutFrom(p, r) && SameFrame(p, r)
  {
    hide ListOf, Name;
    forall a
      ensures ListOf(r, a) <= ListOf(p, a) && Len(r, a) <= Len(q, a) <= Len(p, a)
    {
      assert ListOf(r, a) <= ListOf(q, a) && ListOf(q, a) <= ListOf(p, a);
    }
    assert LabelsMatchCuts(p, r);
  }

  /** Shortening one arm and labelling it is a cut. */
  lemma LabelledCut(p: AnswerPack, a: Arm, keep: nat)
    requires keep < Len(p, a)
    ensures var q := Label(Keep(p, a, keep), Name(a));
            CutFrom(p, q) && SameFrame(p, q) && forall b :: ListOf(q, b) == if b == a then ListOf(p, a)[..keep] else ListOf(p, b)
  {
    hide ListOf, Name, Keep;
    var cut := Keep(p, a, keep);
    var q := Label(cut, Name(a));
    KeepCutsOneArm(p, a, keep, a);
    LabelKeepsLists(cut, Name(a), a);
    forall b
      ensures ListOf(q, b) == if b == a then ListOf(p, a)[..keep] else ListOf(p, b)
      ensures b != a ==> Name(b) != Name(a)
    {
      KeepCutsOneArm(p, a, keep, b);
      LabelKeepsLists(cut, Name(a), b);
      NamesDiffer(a, b);
    }
    assert Len(q, a) < Len(p, a);
    assert ListsArePrefixes(p, q);
    assert NamesACut(p, q, Name(a));
  }

  lemma KeepTwice(p: AnswerPack, a: Arm, k: nat, j: nat)
    requires j <= k <= Len(p, a)
    ensures Len(Keep(p, a, k), a) == k && Keep(Keep(p, a, k), a, j) == Keep(p, a, j)
  {
    assert ListOf(p, a)[..k][..j] == ListOf(p, a)[..j];
  }

  lemma KeepAll(p: AnswerPack, a: Arm)
    ensures Keep(p, a, Len(p, a)) == p
  {
    assert ListOf(p, a)[..Len(p, a)] == ListOf(p, a);
  }

  /** Pass one keeps a prefix of the arm, at least one item of a non-empty one. */
  lemma {:induction false} FloorTrimKeeps(size: Sizer, maxBytes: nat, p: AnswerPack, a: Arm) returns (keep: nat)
    ensures keep <= Len(p, a) && FloorTrim(size, maxBytes, p, a) == Keep(p, a, keep)
    ensures Len(p, a) > 0 ==> keep > 0
    ensures keep < Len(p, a) <==> size(p) > maxBytes && Len(p, a) > ARM_FLOOR
    ensures size(Keep(p, a, keep)) <= maxBytes || keep <= ARM_FLOOR
    decreases Len(p, a)
  {
    hide ListOf, Keep;
    KeepAll(p, a);
    keep := Len(p, a);
    if size(p) > maxBytes && Len(p, a) > ARM_FLOOR {
      var n := Chunk(Len(p, a) - ARM_FLOOR);
      KeepTwice(p, a, Len(p, a) - n, Len(p, a) - n);
      keep := FloorTrimKeeps(size, maxBytes, Drop(p, a, n), a);
      KeepTwice(p, a, Len(p, a) - n, keep);
    }
  }

  lemma FloorArmCuts(size: Sizer, maxBytes: nat, p: AnswerPack, a: Arm)
    ensures var q := FloorArm(size, maxBytes, p, a);
            && CutFrom(p, q) && SameFrame(p, q)
            && (forall b :: b != a ==> ListOf(q, b) == ListOf(p, b))
            && (Len(p, a) > 0 ==> Len(q, a) > 0)
  {
    hide ListOf, Name, Keep, CutFrom, SameFrame;
    var keep := FloorTrimKeeps(size, maxBytes, p, a);
    if keep < Len(p, a) {
      LabelledCut(p, a, keep);
    } else {
      KeepAll(p, a);
      CutFromItself(p);
    }
  }

  lemma {:induction false} EmptyArmCuts(size: Sizer, maxBytes: nat, p: AnswerPack, a: Arm)
    ensures var q := EmptyArm(size, maxBytes, p, a);
            && CutFrom(p, q) && SameFrame(p, q)
            && (forall b :: b != a ==> ListOf(q, b) == ListOf(p, b))
            && (size(q) > maxBytes ==> Len(q, a) == 0)
    decreases Len(p, a)
  {
    hide ListOf, Name, Keep, CutFrom, SameFrame, Label;
    if size(p) > maxBytes && Len(p, a) > 0 {
      var next := DropAndLabel(p, a);
      LabelledCut(p, a, Len(p, a) - 1);
      EmptyArmCuts(size, maxBytes, next, a);
      CutsCompose(p, next, EmptyArm(size, maxBytes, p, a));
    } else {
      CutFromItself(p);
    }
  }

  lemma {:induction false} FloorsCut(size: Sizer, maxBytes: nat, p: AnswerPack, i: nat)
    requires i <= |STEPS|
    ensures var q := AfterFloors(size, maxBytes, p, i);
            && CutFrom(p, q) && SameFrame(p, q)
            && (forall a :: Len(p, a) > 0 ==> Len(q, a) > 0)
            && (forall a :: Rank(a) >= i ==> ListOf(q, a) == ListOf(p, a))
  {
    hide ListOf, Name, CutFrom, SameFrame, FloorArm;
    if i == 0 {
      CutFromItself(p);
    } else {
      var before := AfterFloors(size, maxBytes, p, i - 1);
      FloorsCut(size, maxBytes, p, i - 1);
      FloorArmCuts(size, maxBytes, before, STEPS[i - 1]);
      CutsCompose(p, before, AfterFloors(size, maxBytes, p, i));
    }
  }

  /** Once an arm of pass two has failed to make the answer pack fit, it is empty and stays so. */
  lemma {:induction false} EmptyingCuts(size: Sizer, maxBytes: nat, p: AnswerPack, i: nat)
    requires i <= |STEPS|
    ensures var q := AfterEmptying(size, maxBytes, p, i);
            && CutFrom(p, q) && SameFrame(p, q)
            && (forall a :: Rank(a) >= i ==> ListOf(q, a) == ListOf(p, a))
            && ((forall k | 0 < k <= i :: size(AfterEmptying(size, maxBytes, p, k)) > maxBytes) ==>
                  forall a :: Rank(a) < i ==> Len(q, a) == 0)
  {
    hide ListOf, Name, CutFrom, SameFrame, EmptyArm;
    if i == 0 {
      CutFromItself(p);
    } else {
      var before := AfterEmptying(size, maxBytes, p, i - 1);
      EmptyingCuts(size, maxBytes, p, i - 1);
      EmptyArmCuts(size, maxBytes, before, STEPS[i - 1]);
      CutsCompose(p, before, AfterEmptying(size, maxBytes, p, i));
    }
  }

  /** Every stop leaves a pack trimmed from the input, within budget or bare. */
  lemma StoppedPackIsTrimmed(size: Sizer, maxBytes: nat, p: AnswerPack, out: AnswerPack, stage: Stage, i: nat)
    requires StoppedAt(size, maxBytes, p, out, stage, i)
    ensures size(out) <= maxBytes || Bare(out)
    ensures TrimmedFrom(p, out)
    ensures stage == PassOne ==> forall a :: Len(p, a) > 0 ==> Len(out, a) > 0
  {
    hide Name, CutFrom, FloorArm, EmptyArm, Rank, ClipMetadata;
    match stage
    case Untouched => CutFromItself(p);
    case PassOne => FloorsCut(size, maxBytes, p, i);
    case PassTwo => EmptiedPackIsCut(size, maxBytes, p, i);
    case Metadata =>
      EmptiedPackIsCut(size, maxBytes, p, |STEPS|);
      var emptied := AfterEmptying(size, maxBytes, AfterFloors(size, maxBytes, p, |STEPS|), |STEPS|);
      EmptyingCuts(size, maxBytes, AfterFloors(size, maxBytes, p, |STEPS|), |STEPS|);
      forall a
        ensures Len(emptied, a) == 0
      {
        assert Rank(a) < |STEPS|;
      }
      MetadataIsLast(size, maxBytes, p, emptied);
  }

  lemma EmptiedPackIsCut(size: Sizer, maxBytes: nat, p: AnswerPack, i: nat)
    requires i <= |STEPS|
    ensures var q := AfterEmptying(size, maxBytes, AfterFloors(size, maxBytes, p, |STEPS|), i);
            CutFrom(p, q) && SameFrame(p, q)
  {
    hide ListOf, Name, CutFrom, SameFrame, FloorArm, EmptyArm;
    var floored := AfterFloors(size, maxBytes, p, |STEPS|);
    FloorsCut(size, maxBytes, p, |STEPS|);
    EmptyingCuts(size, maxBytes, floored, i);
    CutsCompose(p, floored, AfterEmptying(size, maxBytes, floored, i));
  }

  lemma MetadataIsLast(size: Sizer, maxBytes: nat, p: AnswerPack, cut: AnswerPack)
    requires CutFrom(p, cut) && SameFrame(p, cut) && forall a :: Len(cut, a) == 0
    ensures var out := Clip(size, maxBytes, TakeQuery(size, maxBytes, TakeNode(size, maxBytes, cut)));
            TrimmedFrom(p, out) && (size(out) <= maxBytes || Bare(out))
  {
    hide Name, CutFrom, ClipMetadata;
    var node := TakeNode(size, maxBytes, cut);
    var query := TakeQuery(size, maxBytes, node);
    var out := Clip(size, maxBytes, query);
    ClipLeavesLists(query);
    forall a
      ensures ListOf(out, a) == ListOf(cut, a) && Len(out, a) == 0
    {
      assert Len(cut, a) == 0 && Len(node, a) == 0 && Len(out, a) == 0;
    }
    assert size(query) > maxBytes ==> query.node.None? && query.query.None?;
    assert MetadataCutFrom(p, cut, out);
  }

  lemma ClipLeavesLists(p: AnswerPack)
    ensures forall a :: ListOf(ClipMetadata(p), a) == ListOf(p, a)
    ensures ClipMetadata(p).truncated == p.truncated
    ensures ClipMetadata(p).node == p.node && ClipMetadata(p).query == p.query
  {
  }

  /**
    Pass one leaves an arm above its floor in a pack still over budget only when the answer pack fitted
    before the arm's own label was recorded.
   */
  lemma AboveTheFloorOnlyByItsLabel(size: Sizer, maxBytes: nat, p: AnswerPack, a: Arm)
    requires size(FloorArm(size, maxBytes, p, a)) > maxBytes && Len(FloorArm(size, maxBytes, p, a), a) > ARM_FLOOR
    ensures exists keep: nat :: ARM_FLOOR < keep < Len(p, a) && size(Keep(p, a, keep)) <= maxBytes
                                && FloorArm(size, maxBytes, p, a) == Label(Keep(p, a, keep), Name(a))
  {
    hide ListOf, Name, Keep;
    var keep := FloorTrimKeeps(size, maxBytes, p, a);
    KeepAll(p, a);
    KeepTwice(p, a, keep, keep);
    LabelKeepsLists(Keep(p, a, keep), Name(a), a);
  }

  /** Arms give in their order: later ones are untouched, in pass two earlier ones are empty, and past it all are. */
  lemma ArmsGiveInOrder(size: Sizer, maxBytes: nat, p: AnswerPack, out: AnswerPack, stage: Stage, i: nat, a: Arm)
    requires StoppedAt(size, maxBytes, p, out, stage, i)
    ensures stage == PassOne && i <= Rank(a) ==> ListOf(out, a) == ListOf(p, a)
    ensures stage == PassTwo && Rank(a) + 1 < i ==> Len(out, a) == 0
    ensures stage == PassTwo && i <= Rank(a) ==> ListOf(out, a) == ListOf(AfterFloors(size, maxBytes, p, |STEPS|), a)
    ensures stage == PassTwo && i <= Rank(a) && Len(p, a) > 0 ==> Len(out, a) > 0
    ensures stage == Metadata ==> Len(out, a) == 0
  {
    hide ListOf, CutFrom, SameFrame, FloorArm, EmptyArm, AfterEmptying, AfterFloors, Rank;
    if stage == Metadata {
      MetadataIsEmpty(size, maxBytes, p, out, i, a);
    } else if stage == PassOne {
      FloorsCut(size, maxBytes, p, i);
    } else if stage == PassTwo {
      var floored := AfterFloors(size, maxBytes, p, |STEPS|);
      FloorsCut(size, maxBytes, p, |STEPS|);
      EmptyingCuts(size, maxBytes, floored, i);
      EmptyingCuts(size, maxBytes, floored, i - 1);
      NextArm(size, maxBytes, floored, i, a);
    }
  }

  lemma NextArm(size: Sizer, maxBytes: nat, p: AnswerPack, i: nat, a: Arm)
    requires 0 < i <= |STEPS|
    ensures Len(AfterEmptying(size, maxBytes, p, i), a) <= Len(AfterEmptying(size, maxBytes, p, i - 1), a)
  {
    hide ListOf, SameFrame, EmptyArm;
    EmptyArmCuts(size, maxBytes, AfterEmptying(size, maxBytes, p, i - 1), STEPS[i - 1]);
  }

  lemma MetadataIsEmpty(size: Sizer, maxBytes: nat, p: AnswerPack, out: AnswerPack, i: nat, a: Arm)
    requires StoppedAt(size, maxBytes, p, out, Metadata, i)
    ensures Len(out, a) == 0
  {
    hide Name, CutFrom, FloorArm, EmptyArm, ClipMetadata, AfterFloors, AfterEmptying;
    var floored := AfterFloors(size, maxBytes, p, |STEPS|);
    var emptied := AfterEmptying(size, maxBytes, floored, |STEPS|);
    EmptyingCuts(size, maxBytes, floored, |STEPS|);
    assert Rank(a) < |STEPS| && Len(emptied, a) == 0;
    ClipLeavesLists(TakeQuery(size, maxBytes, TakeNode(size, maxBytes, emptied)));
  }

  // ---------------------------------------------------------------------
  // When every arm keeps one hit
  // ---------------------------------------------------------------------

  /** One arm cut to its first k items and labelled. */
  function CutTo(p: AnswerPack, a: Arm, k: nat): AnswerPack
    requires k <= Len(p, a)
  {
    Label(Keep(p, a, k), Name(a))
  }

  lemma CutTwice(p: AnswerPack, a: Arm, k: nat, j: nat)
    requires j <= k <= Len(p, a)
    ensures Len(CutTo(p, a, k), a) == k && CutTo(CutTo(p, a, k), a, j) == CutTo(p, a, j)
  {
    hide Name;
    KeepTwice(p, a, k, j);
    KeepCutsOneArm(p, a, k, a);
    KeepCutsOneArm(p, a, j, a);
    LabelKeepsLists(Keep(p, a, k), Name(a), a);
    LabelCommutes(Keep(p, a, k), a, j, Name(a));
  }

  lemma LabelCommutes(p: AnswerPack, a: Arm, j: nat, name: string)
    requires j <= Len(p, a)
    ensures Len(Label(p, name), a) == Len(p, a)
    ensures Label(Keep(Label(p, name), a, j), name) == Label(Keep(p, a, j), name)
  {
  }

  /** Pass two empties an arm of an answer pack over budget exactly when no shorter, labelled arm makes it fit. */
  lemma {:induction false} ArmIsEmptiedIff(size: Sizer, maxBytes: nat, p: AnswerPack, a: Arm)
    requires size(p) > maxBytes && Len(p, a) > 0
    ensures Len(EmptyArm(size, maxBytes, p, a), a) == 0 <==>
              forall k: nat | 0 < k < Len(p, a) :: size(CutTo(p, a, k)) > maxBytes
    ensures Len(EmptyArm(size, maxBytes, p, a), a) > 0 ==> size(EmptyArm(size, maxBytes, p, a)) <= maxBytes
    decreases Len(p, a)
  {
    hide ListOf, Keep, Name, Label, CutTo, Len;
    var n := Len(p, a);
    var next := DropAndLabel(p, a);
    assert next == CutTo(p, a, n - 1) by {
      DropIsACut(p, a);
    }
    CutTwice(p, a, n - 1, n - 1);
    if size(next) > maxBytes && n - 1 > 0 {
      ArmIsEmptiedIff(size, maxBytes, next, a);
      forall k: nat | 0 < k < n - 1
        ensures CutTo(next, a, k) == CutTo(p, a, k)
      {
        CutTwice(p, a, n - 1, k);
      }
    }
  }

  lemma DropIsACut(p: AnswerPack, a: Arm)
    requires Len(p, a) > 0
    ensures DropAndLabel(p, a) == CutTo(p, a, Len(p, a) - 1)
  {
  }

  ghost predicate EveryArmKeepsOne(p: AnswerPack, out: AnswerPack) {
    forall a :: Len(p, a) > 0 ==> Len(out, a) > 0
  }

  /** The first arm, in trimming order, that has hits. */
  ghost predicate GivesFirst(p: AnswerPack, a: Arm) {
    Len(p, a) > 0 && forall b :: Rank(b) < Rank(a) ==> Len(p, b) == 0
  }

  ghost predicate FitsInPassOne(size: Sizer, maxBytes: nat, p: AnswerPack) {
    size(p) <= maxBytes || exists k :: 0 < k <= |STEPS| && size(AfterFloors(size, maxBytes, p, k)) <= maxBytes
  }

  /** Cut further, but not to nothing, what pass one left of the arm makes the answer pack fit. */
  ghost predicate FitsOnSomeOf(size: Sizer, maxBytes: nat, p: AnswerPack, a: Arm) {
    var floored := AfterFloors(size, maxBytes, p, |STEPS|);
    exists k: nat :: 0 < k < Len(floored, a) && size(CutTo(floored, a, k)) <= maxBytes
  }

  lemma {:induction false} SomeArmGivesFirst(p: AnswerPack, i: nat) returns (a: Arm)
    requires i < |STEPS| && Len(p, STEPS[i]) > 0
    ensures GivesFirst(p, a)
    decreases i
  {
    if j: nat :| j < i && Len(p, STEPS[j]) > 0 {
      a := SomeArmGivesFirst(p, j);
    } else {
      a := STEPS[i];
      forall b | Rank(b) < Rank(a)
        ensures Len(p, b) == 0
      {
        assert STEPS[Rank(b)] == b;
      }
    }
  }

  lemma {:induction false} ArmsWithoutHitsGiveNothing(size: Sizer, maxBytes: nat, p: AnswerPack, i: nat)
    requires i <= |STEPS| && forall b :: Rank(b) < i ==> Len(p, b) == 0
    ensures AfterEmptying(size, maxBytes, p, i) == p
  {
    hide Len;
    if i > 0 {
      ArmsWithoutHitsGiveNothing(size, maxBytes, p, i - 1);
      assert Rank(STEPS[i - 1]) == i - 1;
    }
  }

  /** A step of pass two on the first arm with hits: it keeps some exactly when that is enough. */
  lemma FirstArmStep(size: Sizer, maxBytes: nat, p: AnswerPack, a: Arm)
    requires GivesFirst(p, a) && size(AfterFloors(size, maxBytes, p, |STEPS|)) > maxBytes
    ensures var floored := AfterFloors(size, maxBytes, p, |STEPS|);
            && (forall k | 0 <= k <= Rank(a) :: AfterEmptying(size, maxBytes, floored, k) == floored)
            && AfterEmptying(size, maxBytes, floored, Rank(a) + 1) == EmptyArm(size, maxBytes, floored, a)
            && Len(floored, a) > 0
            && (Len(EmptyArm(size, maxBytes, floored, a), a) > 0 <==> FitsOnSomeOf(size, maxBytes, p, a))
            && (FitsOnSomeOf(size, maxBytes, p, a) ==> size(EmptyArm(size, maxBytes, floored, a)) <= maxBytes)
  {
    hide Len, FloorArm, EmptyArm, AfterFloors, CutFrom, SameFrame, CutTo, ListOf;
    var floored := AfterFloors(size, maxBytes, p, |STEPS|);
    FloorsCut(size, maxBytes, p, |STEPS|);
    forall b | Rank(b) < Rank(a)
      ensures Len(floored, b) == 0
    {
      NoHitsStayNone(p, floored, b);
    }
    forall k | 0 <= k <= Rank(a)
      ensures AfterEmptying(size, maxBytes, floored, k) == floored
    {
      ArmsWithoutHitsGiveNothing(size, maxBytes, floored, k);
    }
    ArmIsEmptiedIff(size, maxBytes, floored, a);
  }

  lemma NoHitsStayNone(p: AnswerPack, q: AnswerPack, b: Arm)
    requires CutFrom(p, q) && Len(p, b) == 0
    ensures Len(q, b) == 0
  {
    assert ListOf(q, b) <= ListOf(p, b);
  }

  /**
    Every arm that has hits keeps one exactly when the answer pack fits in pass one, or no arm has hits, or the first
    arm to give makes it fit with some of its hits left.
   */
  lemma EveryArmKeepsOneIff(size: Sizer, maxBytes: nat, p: AnswerPack, out: AnswerPack, stage: Stage, i: nat)
    requires StoppedAt(size, maxBytes, p, out, stage, i)
    ensures EveryArmKeepsOne(p, out) <==>
              || FitsInPassOne(size, maxBytes, p)
              || (forall a :: Len(p, a) == 0)
              || (exists a :: GivesFirst(p, a) && FitsOnSomeOf(size, maxBytes, p, a))
  {
    hide FloorArm, EmptyArm, AfterFloors, AfterEmptying, CutTo, ListOf, FitsOnSomeOf, Rank;
    if stage == Untouched || stage == PassOne {
      StoppedPackIsTrimmed(size, maxBytes, p, out, stage, i);
    } else if b :| Len(p, b) > 0 {
      StepOf(b);
      var a := SomeArmGivesFirst(p, Rank(b));
      FirstArmStep(size, maxBytes, p, a);
      forall c | GivesFirst(p, c)
        ensures c == a
      {
        OneArmGivesFirst(p, a, c);
      }
      FirstArmDecides(size, maxBytes, p, out, stage, i, a);
    }
  }

  lemma StepOf(a: Arm)
    ensures Rank(a) < |STEPS| && STEPS[Rank(a)] == a
  {
  }

  lemma OneArmGivesFirst(p: AnswerPack, a: Arm, c: Arm)
    requires GivesFirst(p, a) && GivesFirst(p, c)
    ensures a == c
  {
    assert STEPS[Rank(a)] == a && STEPS[Rank(c)] == c;
  }

  lemma FirstArmDecides(size: Sizer, maxBytes: nat, p: AnswerPack, out: AnswerPack, stage: Stage, i: nat, a: Arm)
    requires StoppedAt(size, maxBytes, p, out, stage, i) && (stage == PassTwo || stage == Metadata) && GivesFirst(p, a)
    ensures EveryArmKeepsOne(p, out) <==> FitsOnSomeOf(size, maxBytes, p, a)
  {
    hide FloorArm, EmptyArm, AfterFloors, AfterEmptying, CutTo, ListOf, FitsOnSomeOf, Rank;
    FirstArmStep(size, maxBytes, p, a);
    StepOf(a);
    if stage == PassTwo && i == Rank(a) + 1 {
      forall b | Len(p, b) > 0 && b != a
        ensures Len(out, b) > 0
      {
        LaterRank(p, a, b);
        ArmsGiveInOrder(size, maxBytes, p, out, stage, i, b);
      }
    } else {
      ArmsGiveInOrder(size, maxBytes, p, out, stage, i, a);
    }
  }

  lemma LaterRank(p: AnswerPack, a: Arm, b: Arm)
    requires GivesFirst(p, a) && Len(p, b) > 0 && b != a
    ensures Rank(b) > Rank(a)
  {
    assert STEPS[Rank(a)] == a && STEPS[Rank(b)] == b;
  }

  /**
    In pass two, of the arms with hits, those before the one that made the answer pack fit are empty and those after
    it are not; past pass two all are empty. The arm that made it fit is empty exactly when nothing less would do.
   */
  lemma ArmEndsEmptyIff(size: Sizer, maxBytes: nat, p: AnswerPack, out: AnswerPack, stage: Stage, i: nat, a: Arm)
    requires StoppedAt(size, maxBytes, p, out, stage, i) && Len(p, a) > 0
    ensures !(stage == PassTwo && Rank(a) + 1 == i) ==>
              (Len(out, a) == 0 <==> stage == Metadata || (stage == PassTwo && Rank(a) + 1 < i))
    ensures stage == PassTwo && Rank(a) + 1 == i ==>
              var entry := AfterEmptying(size, maxBytes, AfterFloors(size, maxBytes, p, |STEPS|), i - 1);
              Len(out, a) == 0 <==> forall k: nat | 0 < k < Len(entry, a) :: size(CutTo(entry, a, k)) > maxBytes
  {
    hide FloorArm, EmptyArm, AfterFloors, AfterEmptying, CutTo, ListOf, Rank;
    ArmsGiveInOrder(size, maxBytes, p, out, stage, i, a);
    StoppedPackIsTrimmed(size, maxBytes, p, out, stage, i);
    if stage == PassTwo && Rank(a) + 1 == i {
      StoppingArm(size, maxBytes, p, out, i, a);
    }
  }

  lemma StoppingArm(size: Sizer, maxBytes: nat, p: AnswerPack, out: AnswerPack, i: nat, a: Arm)
    requires StoppedAt(size, maxBytes, p, out, PassTwo, i) && Len(p, a) > 0 && Rank(a) + 1 == i
    ensures var entry := AfterEmptying(size, maxBytes, AfterFloors(size, maxBytes, p, |STEPS|), i - 1);
            Len(out, a) == 0 <==> forall k: nat | 0 < k < Len(entry, a) :: size(CutTo(entry, a, k)) > maxBytes
  {
    hide FloorArm, EmptyArm, AfterFloors, CutTo, ListOf, CutFrom, SameFrame, Len;
    var floored := AfterFloors(size, maxBytes, p, |STEPS|);
    var entry := AfterEmptying(size, maxBytes, floored, i - 1);
    FloorsCut(size, maxBytes, p, |STEPS|);
    EmptyingCuts(size, maxBytes, floored, i - 1);
    SameListSameLen(entry, floored, a);
    StepOf(a);
    ArmIsEmptiedIff(size, maxBytes, entry, a);
  }

  lemma SameListSameLen(p: AnswerPack, q: AnswerPack, a: Arm)
    requires ListOf(p, a) == ListOf(q, a)
    ensures Len(p, a) == Len(q, a)
  {
  }

  const ONE_HIT := AnswerPack(None, None, [], [], [], ["hit"], [], [], [], [], [], [])

  /** An answer pack with one hit that no cut makes small enough ends without it. */
  lemma OneHitIsLost(size: Sizer, maxBytes: nat, out: AnswerPack, stage: Stage, i: nat)
    requires (forall p :: size(p) > maxBytes) && StoppedAt(size, maxBytes, ONE_HIT, out, stage, i)
    ensures Len(ONE_HIT, BrowseHits) == 1 && Len(out, BrowseHits) == 0 && !EveryArmKeepsOne(ONE_HIT, out)
  {
    hide AfterFloors, AfterEmptying, ClipMetadata;
    ArmsGiveInOrder(size, maxBytes, ONE_HIT, out, stage, i, BrowseHits);
  }

  // ---------------------------------------------------------------------
  // How often pass one measures the answer pack
  // ---------------------------------------------------------------------

  function Log2(n: nat): nat
    requires n > 0
  {
    if n == 1 then 0 else 1 + Log2(n / 2)
  }

  function Shrink(over: nat): (less: nat) {
    if over == 0 then 0 else over - Chunk(over)
  }

  /** Chunks it takes to remove a whole excess. */
  ghost function ChunksFor(over: nat): nat {
    if over == 0 then 0 else 1 + ChunksFor(Shrink(over))
  }

  lemma {:induction false} Log2IsMonotone(m: nat, n: nat)
    requires 0 < m <= n
    ensures Log2(m) <= Log2(n)
  {
    if m > 1 {
      Log2IsMonotone(m / 2, n / 2);
    }
  }

  lemma {:induction false} ChunksAreLogarithmic(over: nat)
    requires over > 0
    ensures ChunksFor(over) <= 4 * (Log2(over) + 1)
  {
    var a := Shrink(over);
    var b := Shrink(a);
    var c := Shrink(b);
    var d := Shrink(c);
    assert ChunksFor(over) <= 4 + ChunksFor(d) by {
      hide Shrink;
      assert ChunksFor(c) <= 1 + ChunksFor(d);
      assert ChunksFor(b) <= 1 + ChunksFor(c);
      assert ChunksFor(a) <= 1 + ChunksFor(b);
    }
    if d > 0 {
      ChunksAreLogarithmic(d);
      Log2IsMonotone(d, over / 2);
    }
  }

  lemma {:induction false} DropsAreChunks(size: Sizer, maxBytes: nat, p: AnswerPack, a: Arm)
    ensures FloorDrops(size, maxBytes, p, a) <= if Len(p, a) > ARM_FLOOR then ChunksFor(Len(p, a) - ARM_FLOOR) else 0
    decreases Len(p, a)
  {
    hide ListOf, Keep;
    if size(p) > maxBytes && Len(p, a) > ARM_FLOOR {
      var n := Chunk(Len(p, a) - ARM_FLOOR);
      KeepTwice(p, a, Len(p, a) - n, Len(p, a) - n);
      DropsAreChunks(size, maxBytes, Drop(p, a, n), a);
    }
  }

  /** With `TrimToFloor`'s count: a pass-one arm of n + 1 items is measured at most 4 log2(n) + 6 times. */
  lemma MeasurementsAreLogarithmic(size: Sizer, maxBytes: nat, p: AnswerPack, a: Arm)
    requires Len(p, a) > ARM_FLOOR
    ensures FloorDrops(size, maxBytes, p, a) + 2 <= 4 * Log2(Len(p, a) - ARM_FLOOR) + 6
  {
    hide ListOf;
    DropsAreChunks(size, maxBytes, p, a);
    ChunksAreLogarithmic(Len(p, a) - ARM_FLOOR);
  }

  lemma {:induction false} Log2IsTheLogarithm(n: nat)
    requires n > 0
    ensures PowerOfTwo(Log2(n)) <= n < 2 * PowerOfTwo(Log2(n))
  {
    if n > 1 {
      Log2IsTheLogarithm(n / 2);
    }
  }

  function PowerOfTwo(k: nat): nat {
    if k == 0 then 1 else 2 * PowerOfTwo(k - 1)
  }

  // ---------------------------------------------------------------------
  // How much each pass throws away
  // ---------------------------------------------------------------------

  /** One step down: a quarter of the excess over one, but at least one item. */
  ghost predicate QuarterStep(from: nat, to: nat) {
    from > 1 && to == from - if (from - 1) / 4 > 1 then (from - 1) / 4 else 1
  }

  /** Lengths an arm goes through, step by step. */
  ghost predicate QuarterSteps(lengths: seq<nat>) {
    forall i, j | 0 <= i && j == i + 1 && j < |lengths| :: QuarterStep(lengths[i], lengths[j])
  }

  /** Pass one took the arm through these lengths, and only the last of them fits, or is the floor. */
  ghost predicate PassOneRun(size: Sizer, maxBytes: nat, p: AnswerPack, a: Arm, lengths: seq<nat>) {
    && lengths != [] && lengths[0] == Len(p, a) && QuarterSteps(lengths)
    && (forall i | 0 <= i < |lengths| :: lengths[i] <= Len(p, a))
    && (forall i | 0 <= i < |lengths| - 1 :: size(Keep(p, a, lengths[i])) > maxBytes)
    && (size(Keep(p, a, lengths[|lengths| - 1])) <= maxBytes || lengths[|lengths| - 1] <= 1)
  }

  lemma {:induction false} FloorTrimRuns(size: Sizer, maxBytes: nat, p: AnswerPack, a: Arm) returns (lengths: seq<nat>)
    ensures PassOneRun(size, maxBytes, p, a, lengths)
    ensures FloorTrim(size, maxBytes, p, a) == Keep(p, a, lengths[|lengths| - 1])
    ensures |lengths| == 1 <==> size(p) <= maxBytes || Len(p, a) <= 1
    decreases Len(p, a)
  {
    hide ListOf, Keep, PassOneRun;
    KeepAll(p, a);
    lengths := [Len(p, a)];
    if size(p) > maxBytes && Len(p, a) > 1 {
      var n := Chunk(Len(p, a) - 1);
      KeepTwice(p, a, Len(p, a) - n, Len(p, a) - n);
      var rest := FloorTrimRuns(size, maxBytes, Drop(p, a, n), a);
      RunPrepend(size, maxBytes, p, a, Len(p, a) - n, rest);
      lengths := [Len(p, a)] + rest;
      assert lengths[|lengths| - 1] == rest[|rest| - 1];
    } else {
      RunOfOne(size, maxBytes, p, a);
    }
  }

  lemma RunOfOne(size: Sizer, maxBytes: nat, p: AnswerPack, a: Arm)
    requires size(p) <= maxBytes || Len(p, a) <= 1
    ensures PassOneRun(size, maxBytes, p, a, [Len(p, a)])
  {
    KeepAll(p, a);
  }

  lemma RunPrepend(size: Sizer, maxBytes: nat, p: AnswerPack, a: Arm, keep: nat, rest: seq<nat>)
    requires size(p) > maxBytes && QuarterStep(Len(p, a), keep) && keep <= Len(p, a)
    requires PassOneRun(size, maxBytes, Keep(p, a, keep), a, rest) && Len(Keep(p, a, keep), a) == keep
    ensures PassOneRun(size, maxBytes, p, a, [Len(p, a)] + rest)
    ensures rest != [] && rest[|rest| - 1] <= keep
    ensures Keep(Keep(p, a, keep), a, rest[|rest| - 1]) == Keep(p, a, rest[|rest| - 1])
  {
    hide ListOf, Keep, QuarterStep;
    var all := [Len(p, a)] + rest;
    KeepAll(p, a);
    StepsPrepend(Len(p, a), rest);
    forall i | 0 <= i < |rest|
      ensures rest[i] <= keep && all[i + 1] == rest[i]
      ensures Keep(Keep(p, a, keep), a, rest[i]) == Keep(p, a, rest[i])
    {
      KeepTwice(p, a, keep, rest[i]);
    }
    hide QuarterSteps;
    forall i | 0 <= i < |all| - 1
      ensures size(Keep(p, a, all[i])) > maxBytes
    {
      if i > 0 {
        assert all[i] == rest[i - 1];
      }
    }
  }

  lemma StepsPrepend(first: nat, rest: seq<nat>)
    requires rest != [] && QuarterStep(first, rest[0]) && QuarterSteps(rest)
    ensures QuarterSteps([first] + rest)
  {
    hide QuarterStep;
    var all := [first] + rest;
    forall i, j | 0 <= i && j == i + 1 && j < |all|
      ensures QuarterStep(all[i], all[j])
    {
      if i > 0 {
        assert all[i] == rest[i - 1] && all[j] == rest[j - 1];
      }
    }
  }

  /**
    Pass one takes an arm down quarter by quarter of its excess, stops at the first length at which the answer pack
    fits, and labels the arm when it gave anything.
   */
  lemma PassOneStopsAtTheFirstFit(size: Sizer, maxBytes: nat, p: AnswerPack, a: Arm) returns (lengths: seq<nat>)
    ensures PassOneRun(size, maxBytes, p, a, lengths)
    ensures FloorArm(size, maxBytes, p, a) == if |lengths| == 1 then p else CutTo(p, a, lengths[|lengths| - 1])
  {
    hide ListOf, Keep, Len, Label;
    lengths := FloorTrimRuns(size, maxBytes, p, a);
    KeepAll(p, a);
  }

  /** What pass one took last from an arm it cut was at most a quarter of the excess, and had to go. */
  lemma PassOneTakesNoMoreThanAQuarter(size: Sizer, maxBytes: nat, p: AnswerPack, a: Arm) returns (prev: nat)
    requires Len(FloorArm(size, maxBytes, p, a), a) < Len(p, a)
    ensures Len(FloorArm(size, maxBytes, p, a), a) < prev <= Len(p, a) && size(Keep(p, a, prev)) > maxBytes
    ensures var lost := prev - Len(FloorArm(size, maxBytes, p, a), a);
            lost == 1 || 4 * lost <= prev - 1
  {
    hide ListOf, Keep, Label;
    var lengths := PassOneStopsAtTheFirstFit(size, maxBytes, p, a);
    var last := |lengths| - 1;
    KeepTwice(p, a, lengths[last], lengths[last]);
    LabelKeepsLists(Keep(p, a, lengths[last]), Name(a), a);
    prev := lengths[last - 1];
    assert QuarterStep(prev, lengths[last]);
  }

  /** Pass two takes single items, labelling the arm, until the answer pack fits: it keeps the most that fits, or nothing. */
  lemma {:induction false} PassTwoKeepsTheMostThatFits(size: Sizer, maxBytes: nat, p: AnswerPack, a: Arm) returns (keep: nat)
    requires size(p) > maxBytes && Len(p, a) > 0
    ensures keep < Len(p, a) && EmptyArm(size, maxBytes, p, a) == CutTo(p, a, keep)
    ensures keep > 0 ==> size(CutTo(p, a, keep)) <= maxBytes
    ensures forall k: nat | keep < k < Len(p, a) :: size(CutTo(p, a, k)) > maxBytes
    decreases Len(p, a)
  {
    hide ListOf, Keep, Name, Label, CutTo, Len;
    var n := Len(p, a);
    var next := DropAndLabel(p, a);
    DropIsACut(p, a);
    CutTwice(p, a, n - 1, n - 1);
    keep := n - 1;
    if size(next) > maxBytes && n - 1 > 0 {
      keep := PassTwoKeepsTheMostThatFits(size, maxBytes, next, a);
      forall k: nat | k < n - 1
        ensures CutTo(next, a, k) == CutTo(p, a, k)
      {
        CutTwice(p, a, n - 1, k);
      }
    }
  }

  // ---------------------------------------------------------------------
  // Which lists the arms are, and what goes after them
  // ---------------------------------------------------------------------

  function NodeList(p: AnswerPack, list: PackNode -> seq<Item>): seq<Item> {
    if p.node == None then [] else list(p.node.value)
  }

  /** The arms, in the order they give, with the labels and the lists they stand for. */
  lemma TheElevenArms(p: AnswerPack, i: nat)
    requires i < 11
    ensures |STEPS| == 11
    ensures (Name(STEPS[i]), ListOf(p, STEPS[i])) ==
            [("browseHits", p.browseHits), ("promptHits", p.promptHits),
             ("links", NodeList(p, (n: PackNode) => n.links)), ("grepHits", p.grepHits), ("claims", p.claims),
             ("sharedHits", p.sharedHits), ("matchedNodes", p.matchedNodes),
             ("observations", NodeList(p, (n: PackNode) => n.observations)),
             ("grandchildren", NodeList(p, (n: PackNode) => n.grandchildren)),
             ("children", NodeList(p, (n: PackNode) => n.children)), ("notes", p.notes)][i]
  {
  }

  /** A line cut to `max` characters: line feeds become spaces, and an ellipsis shows that something was cut. */
  lemma LinesAreClipped(s: string, max: nat)
    ensures var r := ClipLine(s, max);
            && |r| == (if |s| <= max then |s| else max + 1)
            && (|s| > max ==> r[max] == '\U{2026}')
            && forall i | 0 <= i < |s| && i < max :: r[i] == if s[i] == '\n' then ' ' else s[i]
  {
  }

  /** The answer pack without its node, then without its query, each recorded in `truncated`. */
  function WithoutNode(p: AnswerPack): AnswerPack {
    if p.node == None then p else p.(node := None, truncated := p.truncated + ["node"])
  }

  function WithoutQuery(p: AnswerPack): AnswerPack {
    if p.query == None then p else p.(query := None, truncated := p.truncated + ["query"])
  }

  ghost predicate ErrorsClipped(before: seq<string>, after: seq<string>) {
    && |after| == (if |before| <= 8 then |before| else 8)
    && forall i | 0 <= i < |after| :: after[i] == ClipLine(before[i], 120)
  }

  ghost predicate CoverageClipped(before: seq<ArmCoverage>, after: seq<ArmCoverage>) {
    && |after| == |before|
    && forall i | 0 <= i < |after| ::
         && after[i].arm == before[i].arm && (after[i].absentBecause == None <==> before[i].absentBecause == None)
         && (before[i].absentBecause != None ==>
               after[i].absentBecause == Some(ClipLine(before[i].absentBecause.value, 120)))
  }

  /** With the lists empty, the node goes; then the query, if that is not enough; then the metadata is clipped. */
  lemma NodeThenQueryThenMetadata(size: Sizer, maxBytes: nat, p: AnswerPack)
    requires size(p) > maxBytes
    ensures var out := Clip(size, maxBytes, TakeQuery(size, maxBytes, TakeNode(size, maxBytes, p)));
            var bare := WithoutQuery(WithoutNode(p));
            && (size(WithoutNode(p)) <= maxBytes ==> out == WithoutNode(p))
            && (size(WithoutNode(p)) > maxBytes && size(bare) <= maxBytes ==> out == bare)
            && (size(WithoutNode(p)) > maxBytes && size(bare) > maxBytes ==>
                  && out == bare.(errors := out.errors, armCoverage := out.armCoverage)
                  && ErrorsClipped(p.errors, out.errors) && CoverageClipped(p.armCoverage, out.armCoverage))
  {
    hide ClipLine;
  }
}
