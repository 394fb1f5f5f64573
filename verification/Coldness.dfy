/**
  Subtree activity, rolled up by a depth-limited recursion, checked against the closure that the
  class-scoped export computes by repeated passes over the parent links.
 */
module Coldness {
  import opened Catalog
  import opened Wrappers
  import Sorting

  datatype BranchStat = BranchStat(lastTs: Option<int>, itemCount: int, pinned: bool)

  /** Direct activity of a node: how many links it holds and the newest dated one. */
  type Direct = map<string, (int, Option<int>)>

  const EMPTY := BranchStat(None, 0, false)

  function Newest(a: Option<int>, b: Option<int>): Option<int> {
    match (a, b)
    case (Some(x), Some(y)) => Some(if x > y then x else y)
    case (Some(x), None) => a
    case (None, _) => b
  }

  function Merge(a: BranchStat, b: BranchStat): BranchStat {
    BranchStat(Newest(a.lastTs, b.lastTs), a.itemCount + b.itemCount, a.pinned || b.pinned)
  }

  function DirectStat(direct: Direct, n: ClassNode): BranchStat {
    var (count, last) := if n.id in direct then direct[n.id] else (0, None);
    BranchStat(last, count, n.pinned)
  }

  /** The independent definition: sum, newest and or over the rows whose id is in a set. */
  ghost function StatOver(nodes: Nodes, direct: Direct, keep: iset<string>): BranchStat {
    if nodes == [] then EMPTY
    else
      var n := nodes[|nodes| - 1];
      Merge(StatOver(nodes[..|nodes| - 1], direct, keep), if n.id in keep then DirectStat(direct, n) else EMPTY)
  }

  ghost predicate LiesWithin(nodes: Nodes, x: string, id: string, h: int) {
    exists k: nat :: k <= h && Ancestor(nodes, x, k) == Some(id)
  }

  ghost predicate LiesBelow(nodes: Nodes, x: string, id: string) {
    exists k: nat :: Ancestor(nodes, x, k) == Some(id)
  }

  /** The ids at most h links below `id`, itself included. */
  ghost function BranchWithin(nodes: Nodes, id: string, h: int): iset<string> {
    iset x | LiesWithin(nodes, x, id, h)
  }

  /** The ids below `id` at any distance, itself included. */
  ghost function Branch(nodes: Nodes, id: string): iset<string> {
    iset x | LiesBelow(nodes, x, id)
  }

  lemma {:induction false} StatOverDisjointUnion(nodes: Nodes, direct: Direct, a: iset<string>, b: iset<string>)
    requires a !! b
    ensures StatOver(nodes, direct, a + b) == Merge(StatOver(nodes, direct, a), StatOver(nodes, direct, b))
  {
    if nodes != [] {
      StatOverDisjointUnion(nodes[..|nodes| - 1], direct, a, b);
    }
  }

  lemma {:induction false} StatOverNothing(nodes: Nodes, direct: Direct, a: iset<string>)
    requires forall n | n in nodes :: n.id !in a
    ensures StatOver(nodes, direct, a) == EMPTY
  {
    if nodes != [] {
      StatOverNothing(nodes[..|nodes| - 1], direct, a);
    }
  }

  lemma {:induction false} StatOverOne(nodes: Nodes, direct: Direct, idx: nat)
    requires DistinctIds(nodes) && idx < |nodes|
    ensures StatOver(nodes, direct, iset{nodes[idx].id}) == DirectStat(direct, nodes[idx])
  {
    var front := nodes[..|nodes| - 1];
    if idx == |nodes| - 1 {
      StatOverNothing(front, direct, iset{nodes[idx].id});
    } else {
      StatOverOne(front, direct, idx);
    }
  }

  // ---------------------------------------------------------------------
  // Acyclicity of what hangs below a root
  // ---------------------------------------------------------------------

  /** A node a number of links below a root. */
  ghost predicate RootedAt(nodes: Nodes, id: string, depth: nat) {
    Ancestor(nodes, id, depth).Some? && IsRoot(nodes, Ancestor(nodes, id, depth).value)
  }

  lemma RootedHasDepth(nodes: Nodes, id: string, depth: nat)
    requires RootedAt(nodes, id, depth)
    ensures HasDepth(nodes, id, depth)
  {
    AncestorStep(nodes, id, depth);
  }

  lemma RootedDepthIsUnique(nodes: Nodes, id: string, d: nat, e: nat)
    requires RootedAt(nodes, id, d) && RootedAt(nodes, id, e)
    ensures d == e
  {
    RootedHasDepth(nodes, id, d);
    RootedHasDepth(nodes, id, e);
    DepthIsUnique(nodes, id, d, e);
    DepthIsUnique(nodes, id, e, d);
  }

  lemma DescendantIsRooted(nodes: Nodes, id: string, depth: nat, x: string, k: nat)
    requires RootedAt(nodes, id, depth) && Ancestor(nodes, x, k) == Some(id)
    ensures RootedAt(nodes, x, depth + k)
  {
    AncestorsCompose(nodes, x, k, depth);
  }

  /** Below a root, a node lies at one distance below each of its ancestors. */
  lemma OneDistance(nodes: Nodes, id: string, depth: nat, x: string, j: nat, k: nat)
    requires RootedAt(nodes, id, depth) && Ancestor(nodes, x, j) == Some(id) && Ancestor(nodes, x, k) == Some(id)
    ensures j == k
  {
    DescendantIsRooted(nodes, id, depth, x, j);
    DescendantIsRooted(nodes, id, depth, x, k);
    RootedDepthIsUnique(nodes, x, depth + j, depth + k);
  }

  lemma ChildIsRooted(nodes: Nodes, id: string, depth: nat, c: string)
    requires RootedAt(nodes, id, depth) && ParentOf(nodes, c) == Some(id)
    ensures RootedAt(nodes, c, depth + 1)
  {
  }

  /** Two nodes with one parent under a root share no descendant. */
  lemma SiblingsAreDisjoint(nodes: Nodes, id: string, depth: nat, c: string, e: string, h: int)
    requires RootedAt(nodes, id, depth)
    requires ParentOf(nodes, c) == Some(id) && ParentOf(nodes, e) == Some(id) && c != e
    ensures BranchWithin(nodes, c, h) !! BranchWithin(nodes, e, h)
  {
    ChildIsRooted(nodes, id, depth, c);
    ChildIsRooted(nodes, id, depth, e);
    forall x | x in BranchWithin(nodes, c, h)
      ensures x !in BranchWithin(nodes, e, h)
    {
      var j: nat :| j <= h && Ancestor(nodes, x, j) == Some(c);
      DescendantIsRooted(nodes, c, depth + 1, x, j);
      forall k: nat
        ensures Ancestor(nodes, x, k) == Some(e) ==> j == k
      {
        if Ancestor(nodes, x, k) == Some(e) {
          DescendantIsRooted(nodes, e, depth + 1, x, k);
          RootedDepthIsUnique(nodes, x, depth + 1 + j, depth + 1 + k);
        }
      }
    }
  }

  lemma ParentIsOutside(nodes: Nodes, id: string, depth: nat, c: string, h: int)
    requires RootedAt(nodes, id, depth) && ParentOf(nodes, c) == Some(id)
    ensures id !in BranchWithin(nodes, c, h)
  {
    ChildIsRooted(nodes, id, depth, c);
    forall j: nat
      ensures Ancestor(nodes, id, j) != Some(c)
    {
      if Ancestor(nodes, id, j) == Some(c) {
        DescendantIsRooted(nodes, c, depth + 1, id, j);
        RootedDepthIsUnique(nodes, id, depth, depth + 1 + j);
      }
    }
  }

  // ---------------------------------------------------------------------
  // The children index
  // ---------------------------------------------------------------------

  type KidIndex = map<string, seq<nat>>

  function ChildRows(nodes: Nodes, parent: string): seq<nat> {
    if nodes == [] then []
    else
      ChildRows(nodes[..|nodes| - 1], parent)
      + (if nodes[|nodes| - 1].parentId == Some(parent) then [|nodes| - 1] else [])
  }

  ghost predicate IndexesRows(nodes: Nodes, kids: KidIndex) {
    forall p :: (p in kids <==> ChildRows(nodes, p) != []) && (p in kids ==> kids[p] == ChildRows(nodes, p))
  }

  method IndexRows(nodes: Nodes) returns (kids: KidIndex)
    ensures IndexesRows(nodes, kids)
  {
    kids := map[];
    for i := 0 to |nodes|
      invariant IndexesRows(nodes[..i], kids)
    {
      assert nodes[..i + 1][..i] == nodes[..i];
      if nodes[i].parentId.Some? {
        var p := nodes[i].parentId.value;
        var before := if p in kids then kids[p] else [];
        kids := kids[p := before + [i]];
      }
    }
    assert nodes[..|nodes|] == nodes;
  }

  lemma {:induction false} ChildRowsAreTheChildren(nodes: Nodes, parent: string)
    ensures forall i | 0 <= i < |ChildRows(nodes, parent)| ::
              ChildRows(nodes, parent)[i] < |nodes| && nodes[ChildRows(nodes, parent)[i]].parentId == Some(parent)
    ensures forall i, j | 0 <= i < j < |ChildRows(nodes, parent)| :: ChildRows(nodes, parent)[i] < ChildRows(nodes, parent)[j]
    ensures forall r | 0 <= r < |nodes| && nodes[r].parentId == Some(parent) :: r in ChildRows(nodes, parent)
  {
    if nodes != [] {
      ChildRowsAreTheChildren(nodes[..|nodes| - 1], parent);
    }
  }

  lemma {:induction false} RowIsFound(nodes: Nodes, r: nat)
    requires DistinctIds(nodes) && r < |nodes|
    ensures Get(nodes, nodes[r].id) == Some(nodes[r])
  {
    if r < |nodes| - 1 {
      RowIsFound(nodes[..|nodes| - 1], r);
    }
  }

  lemma {:induction false} FoundRow(nodes: Nodes, x: string) returns (r: nat)
    requires Get(nodes, x).Some?
    ensures r < |nodes| && nodes[r].id == x && Get(nodes, x) == Some(nodes[r])
  {
    if nodes[|nodes| - 1].id == x {
      r := |nodes| - 1;
    } else {
      r := FoundRow(nodes[..|nodes| - 1], x);
    }
  }

  // ---------------------------------------------------------------------
  // The roll-up
  // ---------------------------------------------------------------------

  type Stats = map<string, BranchStat>

  /** What the roll-up owes a node entered at a depth: the statistics of everything the guard lets it reach. */
  ghost function Owed(nodes: Nodes, direct: Direct, id: string, depth: int): BranchStat {
    StatOver(nodes, direct, BranchWithin(nodes, id, GUARD - depth))
  }

  ghost predicate RecordedAt(nodes: Nodes, direct: Direct, out: Stats, id: string, depth: nat)
    requires id in out
  {
    depth <= GUARD && RootedAt(nodes, id, depth) && out[id] == Owed(nodes, direct, id, depth)
  }

  /** Every record so far is of a node below a root, and is what that node is owed. */
  ghost predicate RecordsOnlyWhatIsOwed(nodes: Nodes, direct: Direct, out: Stats) {
    forall id | id in out :: exists depth: nat :: RecordedAt(nodes, direct, out, id, depth)
  }

  ghost predicate Covers(out: Stats, ids: iset<string>) {
    forall id | id in ids :: id in out
  }

  ghost predicate BelowAChild(nodes: Nodes, x: string, children: seq<nat>, i: nat, h: int)
    requires i <= |children| && forall j | 0 <= j < |children| :: children[j] < |nodes|
  {
    exists j :: 0 <= j < i && x in BranchWithin(nodes, nodes[children[j]].id, h)
  }

  /** A node and what lies below its first i children. */
  ghost function Gathered(nodes: Nodes, id: string, children: seq<nat>, i: nat, h: int): iset<string>
    requires i <= |children| && forall j | 0 <= j < |children| :: children[j] < |nodes|
  {
    iset x | x == id || BelowAChild(nodes, x, children, i, h)
  }

  lemma GatheredStep(nodes: Nodes, id: string, children: seq<nat>, i: nat, h: int)
    requires i < |children| && forall j | 0 <= j < |children| :: children[j] < |nodes|
    ensures Gathered(nodes, id, children, i + 1, h)
            == Gathered(nodes, id, children, i, h) + BranchWithin(nodes, nodes[children[i]].id, h)
  {
    hide BranchWithin;
    forall x
      ensures BelowAChild(nodes, x, children, i + 1, h)
              <==> BelowAChild(nodes, x, children, i, h) || x in BranchWithin(nodes, nodes[children[i]].id, h)
    {
    }
  }

  /** The next child's branch holds nothing gathered so far. */
  lemma NextChildIsNew(nodes: Nodes, id: string, depth: nat, children: seq<nat>, i: nat, h: int)
    requires DistinctIds(nodes) && RootedAt(nodes, id, depth) && children == ChildRows(nodes, id) && i < |children|
    requires forall j | 0 <= j < |children| :: children[j] < |nodes|
    ensures ParentOf(nodes, nodes[children[i]].id) == Some(id)
    ensures Gathered(nodes, id, children, i, h) !! BranchWithin(nodes, nodes[children[i]].id, h)
  {
    hide BranchWithin, RootedAt, ChildRows, Get;
    ChildRowsAreTheChildren(nodes, id);
    RowIsFound(nodes, children[i]);
    forall j | 0 <= j < i
      ensures BranchWithin(nodes, nodes[children[j]].id, h) !! BranchWithin(nodes, nodes[children[i]].id, h)
    {
      RowIsFound(nodes, children[j]);
      SiblingsAreDisjoint(nodes, id, depth, nodes[children[j]].id, nodes[children[i]].id, h);
    }
    ParentIsOutside(nodes, id, depth, nodes[children[i]].id, h);
  }

  lemma GatheredAll(nodes: Nodes, id: string, children: seq<nat>, h: nat)
    requires DistinctIds(nodes) && children == ChildRows(nodes, id)
    requires forall j | 0 <= j < |children| :: children[j] < |nodes|
    ensures Gathered(nodes, id, children, |children|, h) == BranchWithin(nodes, id, h + 1)
  {
    ChildRowsAreTheChildren(nodes, id);
    forall x
      ensures x in Gathered(nodes, id, children, |children|, h) <==> x in BranchWithin(nodes, id, h + 1)
    {
      assert Ancestor(nodes, id, 0) == Some(id);
      if j :| 0 <= j < |children| && x in BranchWithin(nodes, nodes[children[j]].id, h) {
        var c := nodes[children[j]].id;
        var k: nat :| k <= h && Ancestor(nodes, x, k) == Some(c);
        RowIsFound(nodes, children[j]);
        AncestorStep(nodes, x, k);
      }
      if k: nat :| k <= h + 1 && Ancestor(nodes, x, k) == Some(id) {
        if k > 0 {
          var r := ChildOnThePath(nodes, id, x, k);
          var j :| 0 <= j < |children| && children[j] == r;
          assert x in BranchWithin(nodes, nodes[children[j]].id, h);
        }
      }
    }
  }

  /** The row, among the children of `id`, through which x hangs below it. */
  lemma ChildOnThePath(nodes: Nodes, id: string, x: string, k: nat) returns (r: nat)
    requires k > 0 && Ancestor(nodes, x, k) == Some(id)
    ensures r < |nodes| && nodes[r].parentId == Some(id) && r in ChildRows(nodes, id)
    ensures Ancestor(nodes, x, k - 1) == Some(nodes[r].id)
  {
    AncestorsCompose(nodes, x, k - 1, 1);
    AncestorStep(nodes, x, k - 1);
    r := FoundRow(nodes, Ancestor(nodes, x, k - 1).value);
    ChildRowsAreTheChildren(nodes, id);
  }

  /** Nothing else is within reach of a childless node, nor of one at the guard. */
  lemma NothingBelow(nodes: Nodes, id: string, h: nat)
    requires h == 0 || ChildRows(nodes, id) == []
    ensures BranchWithin(nodes, id, h) == iset{id}
  {
    assert Ancestor(nodes, id, 0) == Some(id);
    forall x | x in BranchWithin(nodes, id, h)
      ensures x == id
    {
      var k: nat :| k <= h && Ancestor(nodes, x, k) == Some(id);
      if k > 0 {
        var r := ChildOnThePath(nodes, id, x, k);
      }
    }
  }

  method Roll(nodes: Nodes, kids: KidIndex, direct: Direct, idx: nat, depth: nat, out: Stats)
    returns (stat: BranchStat, out': Stats)
    requires DistinctIds(nodes) && IndexesRows(nodes, kids) && idx < |nodes|
    requires depth <= GUARD && RootedAt(nodes, nodes[idx].id, depth)
    requires RecordsOnlyWhatIsOwed(nodes, direct, out)
    ensures stat == Owed(nodes, direct, nodes[idx].id, depth)
    ensures RecordsOnlyWhatIsOwed(nodes, direct, out') && out.Keys <= out'.Keys
    ensures Covers(out', BranchWithin(nodes, nodes[idx].id, GUARD - depth))
    decreases GUARD - depth
  {
    hide BranchWithin, RootedAt, Gathered, StatOver, ChildRows, Get, DistinctIds;
    var id := nodes[idx].id;
    stat := DirectStat(direct, nodes[idx]);
    out' := out;
    StatOverOne(nodes, direct, idx);
    if depth < GUARD && id in kids {
      var children := kids[id];
      ChildRowsAreTheChildren(nodes, id);
      ghost var h := GUARD - depth - 1;
      GatheredNone(nodes, id, children, h);
      for i := 0 to |children|
        invariant stat == StatOver(nodes, direct, Gathered(nodes, id, children, i, h))
        invariant RecordsOnlyWhatIsOwed(nodes, direct, out') && out.Keys <= out'.Keys
        invariant forall j | 0 <= j < i :: Covers(out', BranchWithin(nodes, nodes[children[j]].id, h))
      {
        NextChildIsNew(nodes, id, depth, children, i, h);
        GatheredStep(nodes, id, children, i, h);
        ChildIsRooted(nodes, id, depth, nodes[children[i]].id);
        var cs;
        cs, out' := Roll(nodes, kids, direct, children[i], depth + 1, out');
        StatOverDisjointUnion(nodes, direct, Gathered(nodes, id, children, i, h),
                              BranchWithin(nodes, nodes[children[i]].id, h));
        stat := Merge(stat, cs);
      }
      GatheredAll(nodes, id, children, h);
      GatheredIsCovered(nodes, id, children, h, out');
    } else {
      NothingBelow(nodes, id, GUARD - depth);
    }
    RecordOneMore(nodes, direct, out', id, depth, stat);
    out' := out'[id := stat];
  }

  lemma RecordOneMore(nodes: Nodes, direct: Direct, out: Stats, id: string, depth: nat, stat: BranchStat)
    requires RecordsOnlyWhatIsOwed(nodes, direct, out)
    requires depth <= GUARD && RootedAt(nodes, id, depth) && stat == Owed(nodes, direct, id, depth)
    ensures RecordsOnlyWhatIsOwed(nodes, direct, out[id := stat])
  {
    hide RootedAt, Owed;
    var after := out[id := stat];
    forall x | x in after
      ensures exists d: nat :: RecordedAt(nodes, direct, after, x, d)
    {
      if x == id {
        assert RecordedAt(nodes, direct, after, x, depth);
      } else {
        var d: nat :| RecordedAt(nodes, direct, out, x, d);
        assert RecordedAt(nodes, direct, after, x, d);
      }
    }
  }

  lemma GatheredNone(nodes: Nodes, id: string, children: seq<nat>, h: int)
    requires forall j | 0 <= j < |children| :: children[j] < |nodes|
    ensures Gathered(nodes, id, children, 0, h) == iset{id}
  {
  }

  lemma GatheredIsCovered(nodes: Nodes, id: string, children: seq<nat>, h: int, out: Stats)
    requires forall j | 0 <= j < |children| :: children[j] < |nodes|
    requires forall j | 0 <= j < |children| :: Covers(out, BranchWithin(nodes, nodes[children[j]].id, h))
    ensures forall x | x in Gathered(nodes, id, children, |children|, h) :: x == id || x in out
  {
  }

  /** Exactly what `SubtreeStats` returns for every node, whatever the catalog looks like. */
  ghost predicate RollsUp(nodes: Nodes, direct: Direct, stats: Stats) {
    && (forall r | 0 <= r < |nodes| :: nodes[r].id in stats)
    && (forall r, d: nat | 0 <= r < |nodes| && d <= 64 && RootedAt(nodes, nodes[r].id, d) ::
          stats[nodes[r].id] == Owed(nodes, direct, nodes[r].id, d))
    && (forall r | 0 <= r < |nodes| && Unreached(nodes, nodes[r].id) ::
          stats[nodes[r].id] == DirectStat(direct, nodes[r]))
  }

  /** No root lies within the guard's reach: a missing parent, a cycle, or more than 64 links. */
  ghost predicate Unreached(nodes: Nodes, id: string) {
    forall d: nat | d <= 64 :: !RootedAt(nodes, id, d)
  }

  method SubtreeStats(nodes: Nodes, direct: Direct) returns (stats: Stats)
    requires DistinctIds(nodes)
    ensures RollsUp(nodes, direct, stats)
  {
    hide BranchWithin, RootedAt, Owed, DirectStat, Get;
    var kids := IndexRows(nodes);
    stats := map[];
    for i := 0 to |nodes|
      invariant RecordsOnlyWhatIsOwed(nodes, direct, stats)
      invariant forall r | 0 <= r < i && nodes[r].parentId.None? :: Covers(stats, BranchWithin(nodes, nodes[r].id, GUARD))
    {
      if nodes[i].parentId.None? {
        RootIsRooted(nodes, i);
        var stat;
        stat, stats := Roll(nodes, kids, direct, i, 0, stats);
      }
    }
    ghost var rolled := stats;
    RolledIsOwed(nodes, direct, rolled);
    stats := FillUnreached(nodes, direct, stats);
  }

  /** A node without a record gets its direct one. */
  method FillUnreached(nodes: Nodes, direct: Direct, rolled: Stats) returns (stats: Stats)
    requires DistinctIds(nodes)
    ensures forall r | 0 <= r < |nodes| :: nodes[r].id in stats
    ensures forall r | 0 <= r < |nodes| ::
              stats[nodes[r].id] == if nodes[r].id in rolled then rolled[nodes[r].id] else DirectStat(direct, nodes[r])
  {
    hide DirectStat;
    stats := rolled;
    for i := 0 to |nodes|
      invariant forall id | id in rolled :: id in stats && stats[id] == rolled[id]
      invariant forall r | 0 <= r < i :: nodes[r].id in stats
      invariant forall r | 0 <= r < i && nodes[r].id !in rolled :: stats[nodes[r].id] == DirectStat(direct, nodes[r])
      invariant forall r | i <= r < |nodes| && nodes[r].id in stats :: nodes[r].id in rolled
    {
      if nodes[i].id !in stats {
        stats := stats[nodes[i].id := DirectStat(direct, nodes[i])];
      }
    }
  }

  /** Once every root is rolled up, exactly the rooted nodes have a record, and it is the one owed. */
  lemma RolledIsOwed(nodes: Nodes, direct: Direct, rolled: Stats)
    requires DistinctIds(nodes) && RecordsOnlyWhatIsOwed(nodes, direct, rolled)
    requires forall r | 0 <= r < |nodes| && nodes[r].parentId.None? :: Covers(rolled, BranchWithin(nodes, nodes[r].id, GUARD))
    ensures forall r, d: nat | 0 <= r < |nodes| && d <= GUARD && RootedAt(nodes, nodes[r].id, d) ::
              nodes[r].id in rolled && rolled[nodes[r].id] == Owed(nodes, direct, nodes[r].id, d)
    ensures forall r | 0 <= r < |nodes| && Unreached(nodes, nodes[r].id) :: nodes[r].id !in rolled
  {
    hide BranchWithin, RootedAt, Owed, Get;
    forall r, d: nat | 0 <= r < |nodes| && d <= GUARD && RootedAt(nodes, nodes[r].id, d)
      ensures nodes[r].id in rolled && rolled[nodes[r].id] == Owed(nodes, direct, nodes[r].id, d)
    {
      var top := RootRow(nodes, nodes[r].id, d);
      assert Covers(rolled, BranchWithin(nodes, nodes[top].id, GUARD));
      OwedIsUnique(nodes, direct, rolled, nodes[r].id, d);
    }
  }

  lemma RootIsRooted(nodes: Nodes, r: nat)
    requires DistinctIds(nodes) && r < |nodes| && nodes[r].parentId.None?
    ensures RootedAt(nodes, nodes[r].id, 0)
  {
    RowIsFound(nodes, r);
  }

  lemma RootRow(nodes: Nodes, id: string, d: nat) returns (top: nat)
    requires d <= GUARD && RootedAt(nodes, id, d)
    ensures top < |nodes| && nodes[top].parentId.None? && id in BranchWithin(nodes, nodes[top].id, GUARD)
  {
    top := FoundRow(nodes, Ancestor(nodes, id, d).value);
  }

  lemma OwedIsUnique(nodes: Nodes, direct: Direct, out: Stats, id: string, d: nat)
    requires RecordsOnlyWhatIsOwed(nodes, direct, out) && id in out && RootedAt(nodes, id, d)
    ensures out[id] == Owed(nodes, direct, id, d)
  {
    hide Owed;
    var e: nat :| RecordedAt(nodes, direct, out, id, e);
    RootedDepthIsUnique(nodes, id, d, e);
  }

  // ---------------------------------------------------------------------
  // Agreement with the closure
  // ---------------------------------------------------------------------

  /** Adding the node of every row whose parent is kept would add nothing. */
  ghost predicate ClosedUnderChildren(nodes: Nodes, keep: set<string>) {
    forall r | 0 <= r < |nodes| && nodes[r].parentId.Some? && nodes[r].parentId.value in keep :: nodes[r].id in keep
  }

  predicate ById(a: ClassNode, b: ClassNode) {
    Sorting.TextLe(a.id, b.id)
  }

  function IdOf(n: ClassNode): string {
    n.id
  }

  /** The kept nodes, once each, in the order of their ids. */
  ghost predicate IsTree(nodes: Nodes, keep: set<string>, tree: Nodes) {
    && DistinctIds(tree) && Sorting.InOrder(ById, tree)
    && forall n :: n in tree <==> n in nodes && n.id in keep
  }

  function Filter(nodes: Nodes, keep: set<string>): (kept: Nodes)
    ensures forall n :: n in kept <==> n in nodes && n.id in keep
    ensures DistinctIds(nodes) ==> DistinctIds(kept)
  {
    if nodes == [] then []
    else
      var front, last := nodes[..|nodes| - 1], nodes[|nodes| - 1];
      assert nodes == front + [last];
      Filter(front, keep) + if last.id in keep then [last] else []
  }

  lemma ByIdIsAnOrder()
    ensures Sorting.IsTotalPreorder(ById)
    ensures forall a, b :: ById(a, b) && ById(b, a) ==> a.id == b.id
  {
    hide Sorting.TextLe;
    forall a, b
      ensures ById(a, b) || ById(b, a)
      ensures ById(a, b) && ById(b, a) ==> a.id == b.id
    {
      Sorting.TextLeIsTotal(a.id, b.id);
    }
    forall a, b, c | ById(a, b) && ById(b, c)
      ensures ById(a, c)
    {
      Sorting.TextLeIsTransitive(a.id, b.id, c.id);
    }
  }

  /** The tree of an export is determined by the ids it keeps. */
  lemma TreeIsUnique(nodes: Nodes, keep: set<string>, a: Nodes, b: Nodes)
    requires DistinctIds(nodes) && IsTree(nodes, keep, a) && IsTree(nodes, keep, b)
    ensures a == b
  {
    hide Sorting.TextLe;
    ByIdIsAnOrder();
    forall m, n | m in a && n in a && ById(m, n) && ById(n, m)
      ensures m == n
    {
      assert m in nodes && n in nodes && m.id == n.id;
    }
    Sorting.OneOrder(ById, IdOf, a, b);
  }

  method SortTree(nodes: Nodes, keep: set<string>) returns (tree: Nodes)
    requires DistinctIds(nodes)
    ensures IsTree(nodes, keep, tree)
  {
    var kept := Filter(nodes, keep);
    tree := Sorting.Sort(ById, kept);
    ByIdIsAnOrder();
    Sorting.SortSorts(ById, kept);
    Sorting.SameMembers(tree, kept);
    Sorting.DistinctIsPermuted(IdOf, kept, tree);
  }

  /**
    The ids a class-scoped export keeps, found by passes over the nodes until one of them adds nothing,
    and its sorted nodes.
   */
  method ClassScope(nodes: Nodes, root: string) returns (keep: set<string>, tree: Nodes)
    requires DistinctIds(nodes)
    ensures forall x :: x in keep <==> x in Branch(nodes, root)
    ensures IsTree(nodes, keep, tree)
  {
    hide Get, IsTree;
    ghost var ids := {root} + (set r | 0 <= r < |nodes| :: nodes[r].id);
    keep := {root};
    assert Ancestor(nodes, root, 0) == Some(root);
    while true
      invariant root in keep && keep <= ids
      invariant forall x | x in keep :: LiesBelow(nodes, x, root)
      decreases |ids - keep|
    {
      ghost var before := keep;
      var size := |keep|;
      for i := 0 to |nodes|
        invariant before <= keep <= ids
        invariant forall x | x in keep :: LiesBelow(nodes, x, root)
        invariant forall r | 0 <= r < i && nodes[r].parentId.Some? && nodes[r].parentId.value in before ::
                    nodes[r].id in keep
      {
        if nodes[i].parentId.Some? {
          if nodes[i].parentId.value in keep {
            ChildLiesBelow(nodes, i, root);
            keep := keep + {nodes[i].id};
          }
        }
      }
      if |keep| == size {
        SameSize(before, keep);
        assert ClosedUnderChildren(nodes, keep);
        break;
      }
      assert keep != before;
      Shrinks(ids, before, keep);
    }
    forall x | LiesBelow(nodes, x, root)
      ensures x in keep
    {
      var k: nat :| Ancestor(nodes, x, k) == Some(root);
      ClosedHoldsTheBranch(nodes, root, keep, x, k);
    }
    tree := SortTree(nodes, keep);
  }

  lemma ChildLiesBelow(nodes: Nodes, i: nat, root: string)
    requires DistinctIds(nodes) && i < |nodes| && nodes[i].parentId.Some?
    requires LiesBelow(nodes, nodes[i].parentId.value, root)
    ensures LiesBelow(nodes, nodes[i].id, root)
  {
    RowIsFound(nodes, i);
    var k: nat :| Ancestor(nodes, nodes[i].parentId.value, k) == Some(root);
    assert Ancestor(nodes, nodes[i].id, k + 1) == Some(root);
  }

  lemma SameSize(a: set<string>, b: set<string>)
    requires a <= b && |a| == |b|
    ensures a == b
  {
    assert |b - a| == |b| - |a|;
  }

  lemma Shrinks(ids: set<string>, a: set<string>, b: set<string>)
    requires a <= b <= ids && a != b
    ensures |ids - b| < |ids - a|
  {
    assert |ids - a| == |ids| - |a| && |ids - b| == |ids| - |b|;
    if |a| == |b| {
      SameSize(a, b);
    }
    assert |b - a| == |b| - |a|;
  }

  lemma {:induction false} ClosedHoldsTheBranch(nodes: Nodes, root: string, keep: set<string>, x: string, k: nat)
    requires root in keep && ClosedUnderChildren(nodes, keep) && Ancestor(nodes, x, k) == Some(root)
    ensures x in keep
    decreases k
  {
    if k > 0 {
      ClosedHoldsTheBranch(nodes, root, keep, ParentOf(nodes, x).value, k - 1);
      var r := FoundRow(nodes, x);
    }
  }

  ghost function Kept(keep: set<string>): iset<string> {
    iset x | x in keep
  }

  /** No node lies more than 64 links below a root. */
  ghost predicate Shallow(nodes: Nodes) {
    forall id, d: nat | RootedAt(nodes, id, d) :: d <= 64
  }

  lemma ReachIsTheBranch(nodes: Nodes, id: string, d: nat)
    requires Shallow(nodes) && RootedAt(nodes, id, d)
    ensures BranchWithin(nodes, id, GUARD - d) == Branch(nodes, id)
  {
    forall x | LiesBelow(nodes, x, id)
      ensures LiesWithin(nodes, x, id, GUARD - d)
    {
      var k: nat :| Ancestor(nodes, x, k) == Some(id);
      DescendantIsRooted(nodes, id, d, x, k);
    }
  }

  /**
    On a catalog no deeper than the guard, every rooted node's rolled-up record is the sum, newest
    and or over exactly the nodes the export's closure keeps for it.
   */
  lemma RollUpAgreesWithTheClosure(nodes: Nodes, direct: Direct, stats: Stats, r: nat, d: nat, keep: set<string>)
    requires Shallow(nodes) && RollsUp(nodes, direct, stats)
    requires r < |nodes| && RootedAt(nodes, nodes[r].id, d)
    requires forall x :: x in keep <==> x in Branch(nodes, nodes[r].id)
    ensures stats[nodes[r].id] == StatOver(nodes, direct, Kept(keep))
  {
    ReachIsTheBranch(nodes, nodes[r].id, d);
    assert Kept(keep) == Branch(nodes, nodes[r].id);
  }

  /** A row one link past the guard is left out of its root's record: the depth bound is needed. */
  lemma PastTheGuardIsLeftOut(nodes: Nodes, direct: Direct, stats: Stats, r: nat, x: nat)
    requires DistinctIds(nodes) && RollsUp(nodes, direct, stats) && r < |nodes| && x < |nodes|
    requires RootedAt(nodes, nodes[r].id, 0) && Ancestor(nodes, nodes[x].id, 65) == Some(nodes[r].id)
    ensures nodes[x].id in Branch(nodes, nodes[r].id)
    ensures stats[nodes[r].id] == StatOver(nodes, direct, BranchWithin(nodes, nodes[r].id, 64) - iset{nodes[x].id})
  {
    forall k: nat | k <= GUARD
      ensures Ancestor(nodes, nodes[x].id, k) != Some(nodes[r].id)
    {
      if Ancestor(nodes, nodes[x].id, k) == Some(nodes[r].id) {
        OneDistance(nodes, nodes[r].id, 0, nodes[x].id, k, GUARD + 1);
      }
    }
    assert BranchWithin(nodes, nodes[r].id, GUARD) - iset{nodes[x].id} == BranchWithin(nodes, nodes[r].id, GUARD);
  }

  // ---------------------------------------------------------------------
  // The collapse interlock
  // ---------------------------------------------------------------------

  datatype LakeEnvelope = LakeEnvelope(oldest: int, newest: int)

  const COLLAPSE_FRESH_FRACTION := 0.34
  const COLLAPSE_MIN_ITEMS := 5

  function Span(env: LakeEnvelope): int {
    if env.newest - env.oldest > 0 then env.newest - env.oldest else 0
  }

  function Age(env: LakeEnvelope, ts: int): int {
    if env.newest - ts > 0 then env.newest - ts else 0
  }

  predicate AutoCollapseSafe(stat: BranchStat, env: LakeEnvelope) {
    && !stat.pinned && stat.lastTs.Some? && Span(env) > 0
    && Age(env, stat.lastTs.value) as real >= COLLAPSE_FRESH_FRACTION * Span(env) as real
  }

  /** At least 0.34 of the time between the lake's oldest and newest event lies after the date. */
  ghost predicate IsOldEnough(env: LakeEnvelope, ts: int) {
    (env.newest - ts) as real >= 0.34 * (env.newest - env.oldest) as real
  }

  /** The rows of a branch that carry a date. */
  ghost predicate DatedIn(nodes: Nodes, direct: Direct, keep: iset<string>, r: int, ts: int) {
    0 <= r < |nodes| && nodes[r].id in keep && DirectStat(direct, nodes[r]).lastTs == Some(ts)
  }

  ghost predicate PinnedIn(nodes: Nodes, keep: iset<string>, r: int) {
    0 <= r < |nodes| && nodes[r].id in keep && nodes[r].pinned
  }

  lemma {:induction false} PinReadsBack(nodes: Nodes, direct: Direct, keep: iset<string>)
    ensures StatOver(nodes, direct, keep).pinned <==> exists r :: PinnedIn(nodes, keep, r)
  {
    if nodes != [] {
      var front, n := nodes[..|nodes| - 1], |nodes| - 1;
      PinReadsBack(front, direct, keep);
      assert StatOver(nodes, direct, keep).pinned <==> StatOver(front, direct, keep).pinned || PinnedIn(nodes, keep, n);
      hide StatOver;
      forall r | 0 <= r < n
        ensures PinnedIn(nodes, keep, r) <==> PinnedIn(front, keep, r)
      {
      }
      if r :| PinnedIn(front, keep, r) {
        assert PinnedIn(nodes, keep, r);
      }
    }
  }

  /** The newest date among the rows of a branch, or none when none is dated. */
  ghost predicate IsNewestIn(nodes: Nodes, direct: Direct, keep: iset<string>, last: Option<int>) {
    && (last.Some? ==> exists r :: DatedIn(nodes, direct, keep, r, last.value))
    && (forall r, ts | DatedIn(nodes, direct, keep, r, ts) :: last.Some? && ts <= last.value)
  }

  lemma NewestWithOneMore(nodes: Nodes, direct: Direct, keep: iset<string>, last: Option<int>)
    requires nodes != [] && IsNewestIn(nodes[..|nodes| - 1], direct, keep, last)
    ensures var n := nodes[|nodes| - 1];
            IsNewestIn(nodes, direct, keep, Newest(last, if n.id in keep then DirectStat(direct, n).lastTs else None))
  {
    var front, n := nodes[..|nodes| - 1], nodes[|nodes| - 1];
    hide DirectStat;
    var newest := Newest(last, if n.id in keep then DirectStat(direct, n).lastTs else None);
    forall r, ts | DatedIn(nodes, direct, keep, r, ts)
      ensures newest.Some? && ts <= newest.value
    {
      assert r < |front| ==> DatedIn(front, direct, keep, r, ts);
    }
    if newest.Some? {
      if last == newest {
        var r :| DatedIn(front, direct, keep, r, newest.value);
        assert DatedIn(nodes, direct, keep, r, newest.value);
      } else {
        assert DatedIn(nodes, direct, keep, |front|, newest.value);
      }
    }
  }

  lemma {:induction false} DateReadsBack(nodes: Nodes, direct: Direct, keep: iset<string>)
    ensures IsNewestIn(nodes, direct, keep, StatOver(nodes, direct, keep).lastTs)
  {
    hide DirectStat;
    if nodes != [] {
      DateReadsBack(nodes[..|nodes| - 1], direct, keep);
      NewestWithOneMore(nodes, direct, keep, StatOver(nodes[..|nodes| - 1], direct, keep).lastTs);
      hide IsNewestIn;
    }
  }

  lemma AgeInTheSpan(env: LakeEnvelope, ts: int)
    requires env.newest > env.oldest
    ensures Age(env, ts) as real >= COLLAPSE_FRESH_FRACTION * Span(env) as real <==> IsOldEnough(env, ts)
  {
  }

  lemma OlderDatesAreOlder(env: LakeEnvelope)
    ensures forall ts, us :: IsOldEnough(env, ts) && us <= ts ==> IsOldEnough(env, us)
  {
  }

  /**
    A branch is safe to collapse on its own exactly when the lake has a span, nothing in the branch
    is protected, something in it is dated, and everything dated is at least 0.34 of the span old.
   */
  lemma SafeMeansColdThroughout(nodes: Nodes, direct: Direct, keep: iset<string>, env: LakeEnvelope)
    ensures AutoCollapseSafe(StatOver(nodes, direct, keep), env) <==>
            && env.newest > env.oldest
            && (forall r | 0 <= r < |nodes| && nodes[r].id in keep :: !nodes[r].pinned)
            && (exists r, ts :: DatedIn(nodes, direct, keep, r, ts))
            && (forall r, ts | DatedIn(nodes, direct, keep, r, ts) :: IsOldEnough(env, ts))
  {
    PinReadsBack(nodes, direct, keep);
    DateReadsBack(nodes, direct, keep);
    hide StatOver;
    if r :| 0 <= r < |nodes| && nodes[r].id in keep && nodes[r].pinned {
      assert PinnedIn(nodes, keep, r);
    }
    forall r, ts | DatedIn(nodes, direct, keep, r, ts) && env.newest > env.oldest
      ensures IsOldEnough(env, ts) <==> Age(env, ts) as real >= COLLAPSE_FRESH_FRACTION * Span(env) as real
    {
      AgeInTheSpan(env, ts);
    }
    OlderDatesAreOlder(env);
  }

  /** The catalog with the caller's protected set in place of the pin column. */
  function Shadow(nodes: Nodes, protected: set<string>): Nodes {
    seq(|nodes|, i requires 0 <= i < |nodes| => nodes[i].(pinned := nodes[i].id in protected))
  }

  method SubtreeStatsProtected(nodes: Nodes, direct: Direct, protected: set<string>) returns (stats: Stats)
    requires DistinctIds(nodes)
    ensures RollsUp(Shadow(nodes, protected), direct, stats)
  {
    stats := SubtreeStats(Shadow(nodes, protected), direct);
  }

  lemma {:induction false} ShadowKeepsParents(nodes: Nodes, protected: set<string>, x: string)
    ensures ParentOf(Shadow(nodes, protected), x) == ParentOf(nodes, x)
    ensures Get(Shadow(nodes, protected), x).Some? <==> Get(nodes, x).Some?
  {
    if nodes != [] {
      var front := nodes[..|nodes| - 1];
      ShadowKeepsParents(front, protected, x);
      assert Shadow(nodes, protected)[..|nodes| - 1] == Shadow(front, protected);
    }
  }

  lemma {:induction false} ShadowKeepsAncestors(nodes: Nodes, protected: set<string>, x: string, k: nat)
    ensures Ancestor(Shadow(nodes, protected), x, k) == Ancestor(nodes, x, k)
    decreases k
  {
    hide ParentOf, Shadow;
    ShadowKeepsParents(nodes, protected, x);
    if k > 0 && ParentOf(nodes, x).Some? {
      ShadowKeepsAncestors(nodes, protected, ParentOf(nodes, x).value, k - 1);
    }
  }

  /** What the verdict reads of the rolled-up record: the node is known, unprotected, large enough and safe. */
  predicate MayCollapse(node: Option<string>, stats: Stats, protected: set<string>, env: LakeEnvelope) {
    && node.Some? && node.value in stats && node.value !in protected
    && stats[node.value].itemCount >= COLLAPSE_MIN_ITEMS
    && AutoCollapseSafe(stats[node.value], env)
  }

  method AdjudicateCollapse(node: Option<string>, stats: Stats, protected: set<string>, env: LakeEnvelope)
    returns (v: Verdict)
    ensures v.Apply? <==> MayCollapse(node, stats, protected, env)
  {
    if node.None? {
      return Refuse("no node");
    }
    if node.value !in stats {
      return Refuse("node does not exist");
    }
    var stat := stats[node.value];
    if stat.itemCount < COLLAPSE_MIN_ITEMS {
      return Refuse("not_cold: too few items to compress");
    }
    if node.value in protected || !AutoCollapseSafe(stat, env) {
      return Refuse("not_cold");
    }
    return Apply;
  }

  /** The links held by the rows whose id is kept. */
  ghost function ItemsIn(nodes: Nodes, direct: Direct, keep: iset<string>): int {
    if nodes == [] then 0
    else
      var n := nodes[|nodes| - 1];
      ItemsIn(nodes[..|nodes| - 1], direct, keep)
      + (if n.id in keep && n.id in direct then direct[n.id].0 else 0)
  }

  lemma {:induction false} StatOverCountsItems(nodes: Nodes, direct: Direct, keep: iset<string>)
    ensures StatOver(nodes, direct, keep).itemCount == ItemsIn(nodes, direct, keep)
  {
    if nodes != [] {
      StatOverCountsItems(nodes[..|nodes| - 1], direct, keep);
    }
  }

  /** A date carried by a kept row. */
  ghost predicate DatedAt(nodes: Nodes, direct: Direct, keep: set<string>, q: int, ts: int) {
    0 <= q < |nodes| && nodes[q].id in keep && nodes[q].id in direct && direct[nodes[q].id].1 == Some(ts)
  }

  /** The rows a branch's export keeps are many enough, unprotected, dated, and old throughout. */
  ghost predicate ColdBranch(nodes: Nodes, direct: Direct, protected: set<string>, env: LakeEnvelope, keep: set<string>) {
    && ItemsIn(nodes, direct, Kept(keep)) >= 5
    && (forall q | 0 <= q < |nodes| && nodes[q].id in keep :: nodes[q].id !in protected)
    && env.newest > env.oldest
    && (exists q, ts :: DatedAt(nodes, direct, keep, q, ts))
    && (forall q, ts | DatedAt(nodes, direct, keep, q, ts) :: IsOldEnough(env, ts))
  }

  /**
    On a catalog no deeper than the guard, with the protected roll-up for records, a collapse of a rooted node is
    judged Apply exactly when the nodes the export keeps for it hold at least five items, none of them is protected,
    one is dated, and everything dated is at least 0.34 of a positive span old.
   */
  lemma CollapseAppliesExactlyWhenCold(nodes: Nodes, direct: Direct, protected: set<string>, stats: Stats,
                                       env: LakeEnvelope, r: nat, d: nat, keep: set<string>, v: Verdict)
    requires Shallow(nodes) && RollsUp(Shadow(nodes, protected), direct, stats)
    requires r < |nodes| && RootedAt(nodes, nodes[r].id, d)
    requires forall x :: x in keep <==> x in Branch(nodes, nodes[r].id)
    requires v.Apply? <==> MayCollapse(Some(nodes[r].id), stats, protected, env)
    ensures v.Apply? <==> ColdBranch(nodes, direct, protected, env, keep)
  {
    hide Shallow, RollsUp, RootedAt, Shadow, MayCollapse, ColdBranch, StatOver;
    RecordIsOverTheClosure(nodes, direct, protected, stats, r, d, keep);
    VerdictReadsTheRecord(nodes, direct, protected, stats, env, r, keep);
  }

  /** A node no root reaches is judged on its own row alone, whatever hangs below it. */
  lemma OrphanIsJudgedAlone(nodes: Nodes, direct: Direct, protected: set<string>, stats: Stats, env: LakeEnvelope,
                            r: nat, v: Verdict)
    requires DistinctIds(nodes) && RollsUp(Shadow(nodes, protected), direct, stats)
    requires r < |nodes| && Unreached(nodes, nodes[r].id)
    requires v.Apply? <==> MayCollapse(Some(nodes[r].id), stats, protected, env)
    ensures v.Apply? <==> ColdBranch(nodes, direct, protected, env, {nodes[r].id})
  {
    hide MayCollapse, ColdBranch, RootedAt;
    hide RollsUp, Shadow, StatOver, Unreached, DistinctIds, Kept;
    OrphanRecord(nodes, direct, protected, stats, r);
    VerdictReadsTheRecord(nodes, direct, protected, stats, env, r, {nodes[r].id});
  }

  lemma OrphanRecord(nodes: Nodes, direct: Direct, protected: set<string>, stats: Stats, r: nat)
    requires DistinctIds(nodes) && RollsUp(Shadow(nodes, protected), direct, stats)
    requires r < |nodes| && Unreached(nodes, nodes[r].id)
    ensures nodes[r].id in stats
    ensures stats[nodes[r].id] == StatOver(Shadow(nodes, protected), direct, Kept({nodes[r].id}))
  {
    hide RootedAt, Get, StatOver;
    var shadow := Shadow(nodes, protected);
    ShadowKeepsTheShape(nodes, protected);
    assert shadow[r].id == nodes[r].id && Unreached(shadow, shadow[r].id);
    StatOverOne(shadow, direct, r);
    assert Kept({nodes[r].id}) == iset{nodes[r].id};
  }

  lemma RecordIsOverTheClosure(nodes: Nodes, direct: Direct, protected: set<string>, stats: Stats, r: nat, d: nat,
                               keep: set<string>)
    requires Shallow(nodes) && RollsUp(Shadow(nodes, protected), direct, stats)
    requires r < |nodes| && RootedAt(nodes, nodes[r].id, d)
    requires forall x :: x in keep <==> x in Branch(nodes, nodes[r].id)
    ensures nodes[r].id in stats && nodes[r].id in keep
    ensures stats[nodes[r].id] == StatOver(Shadow(nodes, protected), direct, Kept(keep))
  {
    var shadow := Shadow(nodes, protected);
    forall x, k: nat
      ensures Ancestor(shadow, x, k) == Ancestor(nodes, x, k)
    {
      ShadowKeepsAncestors(nodes, protected, x, k);
    }
    ShadowKeepsTheShape(nodes, protected);
    assert shadow[r].id == nodes[r].id;
    assert Branch(shadow, nodes[r].id) == Branch(nodes, nodes[r].id);
    RollUpAgreesWithTheClosure(shadow, direct, stats, r, d, keep);
    assert Ancestor(nodes, nodes[r].id, 0) == Some(nodes[r].id);
    assert LiesBelow(nodes, nodes[r].id, nodes[r].id);
  }

  lemma VerdictReadsTheRecord(nodes: Nodes, direct: Direct, protected: set<string>, stats: Stats, env: LakeEnvelope,
                              r: nat, keep: set<string>)
    requires r < |nodes| && nodes[r].id in stats && nodes[r].id in keep
    requires stats[nodes[r].id] == StatOver(Shadow(nodes, protected), direct, Kept(keep))
    ensures MayCollapse(Some(nodes[r].id), stats, protected, env) <==> ColdBranch(nodes, direct, protected, env, keep)
  {
    hide StatOver, AutoCollapseSafe, Age, Span, IsOldEnough;
    var shadow, kept := Shadow(nodes, protected), Kept(keep);
    StatOverCountsItems(shadow, direct, kept);
    ShadowKeepsItems(nodes, direct, protected, kept);
    SafeMeansColdThroughout(shadow, direct, kept, env);
    forall q, ts
      ensures DatedIn(shadow, direct, kept, q, ts) <==> DatedAt(nodes, direct, keep, q, ts)
    {
    }
    assert forall q | 0 <= q < |nodes| :: shadow[q].id == nodes[q].id && (shadow[q].pinned <==> nodes[q].id in protected);
    hide Shadow, Kept, DatedIn, DatedAt;
  }

  lemma {:induction false} ShadowKeepsItems(nodes: Nodes, direct: Direct, protected: set<string>, keep: iset<string>)
    ensures ItemsIn(Shadow(nodes, protected), direct, keep) == ItemsIn(nodes, direct, keep)
  {
    if nodes != [] {
      ShadowKeepsItems(nodes[..|nodes| - 1], direct, protected, keep);
      assert Shadow(nodes, protected)[..|nodes| - 1] == Shadow(nodes[..|nodes| - 1], protected);
    }
  }

  lemma ShadowKeepsTheShape(nodes: Nodes, protected: set<string>)
    ensures forall id, d: nat :: RootedAt(Shadow(nodes, protected), id, d) <==> RootedAt(nodes, id, d)
    ensures Shallow(Shadow(nodes, protected)) <==> Shallow(nodes)
  {
    hide Shadow, Get, ParentOf, Ancestor;
    forall id, d: nat
      ensures RootedAt(Shadow(nodes, protected), id, d) <==> RootedAt(nodes, id, d)
    {
      ShadowKeepsAncestors(nodes, protected, id, d);
      if Ancestor(nodes, id, d).Some? {
        ShadowKeepsRoots(nodes, protected, Ancestor(nodes, id, d).value);
      }
    }
  }

  lemma ShadowKeepsRoots(nodes: Nodes, protected: set<string>, x: string)
    ensures IsRoot(Shadow(nodes, protected), x) <==> IsRoot(nodes, x)
  {
    hide Shadow, Get;
    ShadowKeepsParents(nodes, protected, x);
  }
}
