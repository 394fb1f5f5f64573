/**
  The class catalog as the adjudicator reads it, its bounded walks, and the promote rule.

  Parents are ids, so a catalog may hold missing parents and cycles; every walk is cut after
  64 steps. The main result is that a promote is applied exactly when it is safe, whatever the
  catalog looks like, and that any run of promotes keeps a forest a forest.
 */
module Catalog {
  import opened Wrappers

  /** `pinned` is the flag the coldness roll-up folds; the walks read only the two ids. */
  datatype ClassNode = ClassNode(id: string, parentId: Option<string>, pinned: bool)

  type Nodes = seq<ClassNode>

  const GUARD := 64
  const MAX_DEPTH := 4

  /** Ids are the store's primary key. */
  ghost predicate DistinctIds(nodes: Nodes) {
    forall i, j | 0 <= i < j < |nodes| :: nodes[i].id != nodes[j].id
  }

  function Get(nodes: Nodes, id: string): Option<ClassNode> {
    if nodes == [] then None
    else if nodes[|nodes| - 1].id == id then Some(nodes[|nodes| - 1])
    else Get(nodes[..|nodes| - 1], id)
  }

  function ParentOf(nodes: Nodes, id: string): Option<string> {
    match Get(nodes, id)
    case Some(n) => n.parentId
    case None => None
  }

  /** The id k parent links above `id`. The last one may name a node the catalog does not hold. */
  ghost function Ancestor(nodes: Nodes, id: string, k: nat): Option<string>
    decreases k
  {
    if k == 0 then Some(id)
    else
      match ParentOf(nodes, id)
      case Some(p) => Ancestor(nodes, p, k - 1)
      case None => None
  }

  /** Exactly d parent links lead up from `id`. */
  ghost predicate HasDepth(nodes: Nodes, id: string, d: nat) {
    Ancestor(nodes, id, d).Some? && Ancestor(nodes, id, d + 1).None?
  }

  lemma {:induction false} AncestorsCompose(nodes: Nodes, id: string, j: nat, k: nat)
    ensures Ancestor(nodes, id, j).Some? ==>
              Ancestor(nodes, id, j + k) == Ancestor(nodes, Ancestor(nodes, id, j).value, k)
    ensures Ancestor(nodes, id, j).None? ==> Ancestor(nodes, id, j + k).None?
    decreases j
  {
    if j > 0 && ParentOf(nodes, id).Some? {
      AncestorsCompose(nodes, ParentOf(nodes, id).value, j - 1, k);
    }
  }

  lemma AncestorStep(nodes: Nodes, id: string, k: nat)
    requires Ancestor(nodes, id, k).Some?
    ensures Ancestor(nodes, id, k + 1) == ParentOf(nodes, Ancestor(nodes, id, k).value)
  {
    AncestorsCompose(nodes, id, k, 1);
    var a := Ancestor(nodes, id, k).value;
    if ParentOf(nodes, a).Some? {
      assert Ancestor(nodes, ParentOf(nodes, a).value, 0) == ParentOf(nodes, a);
    }
  }

  // ---------------------------------------------------------------------
  // The bounded walks
  // ---------------------------------------------------------------------

  /** Parent links above `id`, cut at 65. */
  method DepthOf(nodes: Nodes, id: string) returns (d: nat)
    ensures d <= 65 && Ancestor(nodes, id, d).Some?
    ensures d <= 64 ==> HasDepth(nodes, id, d)
  {
    d := 0;
    ghost var at := id;
    var cur := Get(nodes, id);
    while cur.Some?
      invariant d <= GUARD && Ancestor(nodes, id, d) == Some(at) && cur == Get(nodes, at)
      decreases GUARD + 1 - d
    {
      AncestorStep(nodes, id, d);
      match cur.value.parentId {
        case Some(p) =>
          d := d + 1;
          at := p;
          cur := Get(nodes, p);
        case None =>
          break;
      }
      if d > GUARD {
        break;
      }
    }
    if d <= GUARD {
      AncestorStep(nodes, id, d);
    }
  }

  /** Whether `ancestor` is among the first 65 proper ancestors of `node`. */
  method IsDescendant(nodes: Nodes, node: string, ancestor: string) returns (b: bool)
    ensures b <==> exists k :: 1 <= k <= 65 && Ancestor(nodes, node, k) == Some(ancestor)
  {
    AncestorStep(nodes, node, 0);
    var cur := ParentOf(nodes, node);
    var guard := 0;
    while cur.Some?
      invariant guard <= GUARD && cur == Ancestor(nodes, node, guard + 1)
      invariant forall k | 1 <= k <= guard :: Ancestor(nodes, node, k) != Some(ancestor)
      decreases GUARD + 1 - guard
    {
      var p := cur.value;
      if p == ancestor {
        return true;
      }
      guard := guard + 1;
      if guard > GUARD {
        return false;
      }
      AncestorStep(nodes, node, guard);
      cur := ParentOf(nodes, p);
    }
    forall k | guard + 1 <= k
      ensures Ancestor(nodes, node, k).None?
    {
      AncestorsCompose(nodes, node, guard + 1, k - (guard + 1));
    }
    return false;
  }

  /** The root above a node, when it is at most 64 links away and every node on the way is held. */
  method RootOf(nodes: Nodes, id: string) returns (r: Option<string>)
    ensures r.Some? ==> exists k :: 0 <= k <= 64 && Ancestor(nodes, id, k) == r && IsRoot(nodes, r.value)
    ensures r.None? ==> forall k | 0 <= k <= 64 ::
                          Ancestor(nodes, id, k).Some? ==> !IsRoot(nodes, Ancestor(nodes, id, k).value)
  {
    var cur := Get(nodes, id);
    if cur.None? {
      NothingAboveAMissingNode(nodes, id);
      return None;
    }
    var guard := 0;
    ghost var at := id;
    while cur.value.parentId.Some?
      invariant guard <= GUARD && cur.Some? && cur == Get(nodes, at) && Ancestor(nodes, id, guard) == Some(at)
      invariant forall k | 0 <= k < guard ::
                  Ancestor(nodes, id, k).Some? && !IsRoot(nodes, Ancestor(nodes, id, k).value)
      decreases GUARD - guard
    {
      AncestorStep(nodes, id, guard);
      var p := cur.value.parentId.value;
      guard := guard + 1;
      if guard > GUARD {
        return None;
      }
      cur := Get(nodes, p);
      at := p;
      if cur.None? {
        AncestorStep(nodes, id, guard);
        forall k | guard < k
          ensures Ancestor(nodes, id, k).None?
        {
          AncestorsCompose(nodes, id, guard + 1, k - (guard + 1));
        }
        return None;
      }
    }
    GetFinds(nodes, at);
    assert Ancestor(nodes, id, guard) == Some(cur.value.id) && IsRoot(nodes, cur.value.id);
    return Some(cur.value.id);
  }

  predicate IsRoot(nodes: Nodes, id: string) {
    Get(nodes, id).Some? && Get(nodes, id).value.parentId.None?
  }

  lemma {:induction false} GetFinds(nodes: Nodes, id: string)
    ensures Get(nodes, id).Some? ==> Get(nodes, id).value in nodes && Get(nodes, id).value.id == id
    ensures Get(nodes, id).None? <==> forall n | n in nodes :: n.id != id
  {
    if nodes != [] {
      GetFinds(nodes[..|nodes| - 1], id);
      assert nodes == nodes[..|nodes| - 1] + [nodes[|nodes| - 1]];
    }
  }

  lemma NothingAboveAMissingNode(nodes: Nodes, id: string)
    requires Get(nodes, id).None?
    ensures forall k | 0 < k :: Ancestor(nodes, id, k).None?
  {
    forall k | 0 < k
      ensures Ancestor(nodes, id, k).None?
    {
      AncestorStep(nodes, id, 0);
      AncestorsCompose(nodes, id, 1, k - 1);
    }
  }

  // ---------------------------------------------------------------------
  // Subtree height
  // ---------------------------------------------------------------------

  type Kids = map<string, seq<string>>

  function ChildIds(nodes: Nodes, parent: string): seq<string> {
    if nodes == [] then []
    else
      var n := nodes[|nodes| - 1];
      ChildIds(nodes[..|nodes| - 1], parent) + (if n.parentId == Some(parent) then [n.id] else [])
  }

  ghost predicate IndexesChildren(nodes: Nodes, kids: Kids) {
    forall p :: (p in kids <==> ChildIds(nodes, p) != []) && (p in kids ==> kids[p] == ChildIds(nodes, p))
  }

  method IndexChildren(nodes: Nodes) returns (kids: Kids)
    ensures IndexesChildren(nodes, kids)
  {
    kids := map[];
    for i := 0 to |nodes|
      invariant IndexesChildren(nodes[..i], kids)
    {
      var n := nodes[i];
      assert nodes[..i + 1][..i] == nodes[..i];
      if n.parentId.Some? {
        var p := n.parentId.value;
        var before := if p in kids then kids[p] else [];
        kids := kids[p := before + [n.id]];
      }
    }
    assert nodes[..|nodes|] == nodes;
  }

  /** One level per descent, cut below depth 64. */
  function HeightIn(kids: Kids, id: string, depth: nat): nat
    requires depth <= GUARD + 1
    decreases GUARD + 1 - depth, 0
  {
    if depth > GUARD then 0
    else if id in kids then 1 + MaxHeight(kids, kids[id], depth + 1)
    else 0
  }

  function MaxHeight(kids: Kids, ids: seq<string>, depth: nat): nat
    requires depth <= GUARD + 1
    decreases GUARD + 1 - depth, |ids| + 1
  {
    if ids == [] then 0
    else
      var h, rest := HeightIn(kids, ids[0], depth), MaxHeight(kids, ids[1..], depth);
      if h > rest then h else rest
  }

  method SubtreeHeight(nodes: Nodes, id: string) returns (h: nat)
    requires DistinctIds(nodes)
    ensures h <= 65
    ensures forall k: nat | k <= 65 :: k <= h <==> DescendantAt(nodes, id, k)
  {
    var kids := IndexChildren(nodes);
    h := HeightIn(kids, id, 0);
    HeightIsBounded(kids, id, 0);
    forall k: nat | k <= GUARD + 1
      ensures k <= h <==> DescendantAt(nodes, id, k)
    {
      if k <= h {
        HeightHasAWitness(nodes, kids, id, 0, k);
      }
      if DescendantAt(nodes, id, k) {
        var x :| Ancestor(nodes, x, k) == Some(id);
        DescendantsRaiseHeight(nodes, kids, id, 0, k, x);
      }
    }
  }

  /** Some node lies exactly k links below `id`. */
  ghost predicate DescendantAt(nodes: Nodes, id: string, k: nat) {
    exists x :: Ancestor(nodes, x, k) == Some(id)
  }

  lemma {:induction false} HeightIsBounded(kids: Kids, id: string, depth: nat)
    requires depth <= GUARD + 1
    ensures HeightIn(kids, id, depth) <= GUARD + 1 - depth
    decreases GUARD + 1 - depth, 0
  {
    if depth <= GUARD && id in kids {
      MaxHeightIsAttained(kids, kids[id], depth + 1);
      if kids[id] != [] {
        var i :| 0 <= i < |kids[id]| && HeightIn(kids, kids[id][i], depth + 1) == MaxHeight(kids, kids[id], depth + 1);
        HeightIsBounded(kids, kids[id][i], depth + 1);
      }
    }
  }

  lemma {:induction false} MaxHeightIsAttained(kids: Kids, ids: seq<string>, depth: nat)
    requires depth <= GUARD + 1
    ensures forall i | 0 <= i < |ids| :: HeightIn(kids, ids[i], depth) <= MaxHeight(kids, ids, depth)
    ensures ids != [] ==> exists i :: 0 <= i < |ids| && HeightIn(kids, ids[i], depth) == MaxHeight(kids, ids, depth)
    decreases |ids|
  {
    if ids != [] {
      MaxHeightIsAttained(kids, ids[1..], depth);
      if |ids| == 1 || HeightIn(kids, ids[0], depth) > MaxHeight(kids, ids[1..], depth) {
        assert HeightIn(kids, ids[0], depth) == MaxHeight(kids, ids, depth);
      } else {
        var i :| 0 <= i < |ids[1..]| && HeightIn(kids, ids[1..][i], depth) == MaxHeight(kids, ids[1..], depth);
        assert ids[i + 1] == ids[1..][i];
      }
    }
  }

  lemma {:induction false} ChildIdsAreTheChildren(nodes: Nodes, parent: string, x: string)
    requires DistinctIds(nodes)
    ensures x in ChildIds(nodes, parent) <==> ParentOf(nodes, x) == Some(parent)
  {
    if nodes != [] {
      var front, n := nodes[..|nodes| - 1], nodes[|nodes| - 1];
      ChildIdsAreTheChildren(front, parent, x);
      GetFinds(front, x);
    }
  }

  lemma {:induction false} HeightHasAWitness(nodes: Nodes, kids: Kids, id: string, depth: nat, k: nat)
    requires DistinctIds(nodes) && IndexesChildren(nodes, kids)
    requires depth + k <= GUARD + 1 && k <= HeightIn(kids, id, depth)
    ensures DescendantAt(nodes, id, k)
    decreases k
  {
    hide ChildIds, Get, ParentOf, MaxHeight;
    if k == 0 {
      assert Ancestor(nodes, id, 0) == Some(id);
    } else {
      MaxHeightIsAttained(kids, kids[id], depth + 1);
      var i :| 0 <= i < |kids[id]| && HeightIn(kids, kids[id][i], depth + 1) == MaxHeight(kids, kids[id], depth + 1);
      var y := kids[id][i];
      HeightHasAWitness(nodes, kids, y, depth + 1, k - 1);
      var x :| Ancestor(nodes, x, k - 1) == Some(y);
      ChildIdsAreTheChildren(nodes, id, y);
      AncestorStep(nodes, x, k - 1);
      assert Ancestor(nodes, x, k) == Some(id);
    }
  }

  lemma {:induction false} DescendantsRaiseHeight(nodes: Nodes, kids: Kids, id: string, depth: nat, k: nat, x: string)
    requires DistinctIds(nodes) && IndexesChildren(nodes, kids)
    requires depth + k <= GUARD + 1 && Ancestor(nodes, x, k) == Some(id)
    ensures k <= HeightIn(kids, id, depth)
    decreases k
  {
    hide ChildIds, Get, ParentOf, MaxHeight;
    if k > 0 {
      AncestorsCompose(nodes, x, k - 1, 1);
      AncestorStep(nodes, x, k - 1);
      var y := Ancestor(nodes, x, k - 1).value;
      ChildIdsAreTheChildren(nodes, id, y);
      DescendantsRaiseHeight(nodes, kids, y, depth + 1, k - 1, x);
      MaxHeightIsAttained(kids, kids[id], depth + 1);
    }
  }

  // ---------------------------------------------------------------------
  // The promote rule
  // ---------------------------------------------------------------------

  datatype Verdict = Apply | Refuse(reason: string)

  /**
    What a promote must satisfy to be safe: the new parent, when one is named, is held, is not the
    node nor below it at any distance, has a finite depth, and leaves the whole moved subtree at
    depth four or less.
   */
  ghost predicate SafeUnder(nodes: Nodes, node: string, parent: string) {
    && Get(nodes, parent).Some?
    && (forall k: nat :: Ancestor(nodes, parent, k) != Some(node))
    && exists d: nat :: HasDepth(nodes, parent, d)
                        && forall k: nat :: DescendantAt(nodes, node, k) ==> d + 1 + k <= 4
  }

  ghost predicate SafeMove(nodes: Nodes, node: Option<string>, parent: Option<string>) {
    && node.Some? && Get(nodes, node.value).Some?
    && (parent.Some? ==> SafeUnder(nodes, node.value, parent.value))
  }

  /** The verdict is Apply exactly on the safe moves, on any catalog, however deep or cyclic. */
  method AdjudicatePromote(nodes: Nodes, node: Option<string>, parent: Option<string>) returns (v: Verdict)
    requires DistinctIds(nodes)
    ensures v.Apply? <==> SafeMove(nodes, node, parent)
  {
    if node.None? {
      return Refuse("no node");
    }
    var n := node.value;
    if Get(nodes, n).None? {
      return Refuse("node does not exist");
    }
    match parent {
      case None =>
      case Some(p) =>
        assert Ancestor(nodes, p, 0) == Some(p);
        if p == n {
          return Refuse("cycle: a node cannot parent itself");
        }
        if Get(nodes, p).None? {
          return Refuse("new parent does not exist");
        }
        var inside := IsDescendant(nodes, p, n);
        if inside {
          return Refuse("cycle: the new parent is inside the node's own subtree");
        }
        var depth := DepthOf(nodes, p);
        var height := SubtreeHeight(nodes, n);
        var newDepth := depth + 1 + height;
        if newDepth > MAX_DEPTH {
          TooDeepIsUnsafe(nodes, n, p, depth, height);
          return Refuse("too deep");
        }
        ShallowIsSafe(nodes, n, p, depth, height);
    }
    return Apply;
  }

  lemma DepthIsUnique(nodes: Nodes, id: string, d: nat, e: nat)
    requires HasDepth(nodes, id, d) && Ancestor(nodes, id, e).Some?
    ensures e <= d
  {
    if e > d {
      AncestorsCompose(nodes, id, d + 1, e - (d + 1));
    }
  }

  lemma TooDeepIsUnsafe(nodes: Nodes, node: string, parent: string, depth: nat, height: nat)
    requires Ancestor(nodes, parent, depth).Some?
    requires height <= GUARD + 1 && DescendantAt(nodes, node, height)
    requires depth + 1 + height > MAX_DEPTH
    ensures !SafeUnder(nodes, node, parent)
  {
    forall d: nat | HasDepth(nodes, parent, d)
      ensures d + 1 + height > MAX_DEPTH
    {
      DepthIsUnique(nodes, parent, d, depth);
    }
  }

  /** A shallow parent's whole chain was walked, so the guard cannot have hidden the node in it. */
  lemma ShallowIsSafe(nodes: Nodes, node: string, parent: string, depth: nat, height: nat)
    requires parent != node && Get(nodes, parent).Some?
    requires forall k | 1 <= k <= GUARD + 1 :: Ancestor(nodes, parent, k) != Some(node)
    requires depth + 1 + height <= MAX_DEPTH && HasDepth(nodes, parent, depth)
    requires forall k: nat | k <= GUARD + 1 :: k <= height <==> DescendantAt(nodes, node, k)
    ensures SafeUnder(nodes, node, parent)
  {
    forall k: nat
      ensures Ancestor(nodes, parent, k) != Some(node)
    {
      if k > depth {
        AncestorsCompose(nodes, parent, depth + 1, k - (depth + 1));
      }
    }
    forall k: nat | DescendantAt(nodes, node, k)
      ensures depth + 1 + k <= MAX_DEPTH
    {
      if k > height {
        CloserDescendant(nodes, node, k, height + 1);
      }
    }
  }

  /** Below any descendant's distance there is a descendant at every smaller distance. */
  lemma CloserDescendant(nodes: Nodes, id: string, k: nat, j: nat)
    requires DescendantAt(nodes, id, k) && j <= k
    ensures DescendantAt(nodes, id, j)
  {
    var x :| Ancestor(nodes, x, k) == Some(id);
    AncestorsCompose(nodes, x, k - j, j);
    assert Ancestor(nodes, Ancestor(nodes, x, k - j).value, j) == Some(id);
  }

  // ---------------------------------------------------------------------
  // What applying a promote does to the catalog
  // ---------------------------------------------------------------------

  function Reparent(nodes: Nodes, node: string, parent: Option<string>): Nodes {
    if nodes == [] then []
    else
      var n := nodes[|nodes| - 1];
      Reparent(nodes[..|nodes| - 1], node, parent) + [if n.id == node then n.(parentId := parent) else n]
  }

  lemma {:induction false} ReparentMovesOneNode(nodes: Nodes, node: string, parent: Option<string>, x: string)
    ensures |Reparent(nodes, node, parent)| == |nodes|
    ensures forall i | 0 <= i < |nodes| :: Reparent(nodes, node, parent)[i].id == nodes[i].id
    ensures Get(Reparent(nodes, node, parent), x).Some? <==> Get(nodes, x).Some?
    ensures ParentOf(Reparent(nodes, node, parent), x)
            == if x == node && Get(nodes, x).Some? then parent else ParentOf(nodes, x)
  {
    if nodes != [] {
      var front := nodes[..|nodes| - 1];
      ReparentMovesOneNode(front, node, parent, x);
      var moved := Reparent(nodes, node, parent);
      assert moved[..|moved| - 1] == Reparent(front, node, parent);
    }
  }

  /** Some finite number of links leads out of the catalog: `id` is on no cycle and below none. */
  ghost predicate Grounded(nodes: Nodes, id: string) {
    exists k: nat :: Ancestor(nodes, id, k).None?
  }

  ghost predicate Forest(nodes: Nodes) {
    forall id :: Grounded(nodes, id)
  }

  lemma {:induction false} PathsAvoidingTheNodeStay(nodes: Nodes, node: string, parent: Option<string>, x: string, k: nat)
    requires forall j | 0 <= j < k :: Ancestor(nodes, x, j) != Some(node)
    ensures Ancestor(Reparent(nodes, node, parent), x, k) == Ancestor(nodes, x, k)
    decreases k
  {
    hide Get, ParentOf, Reparent;
    if k > 0 {
      assert Ancestor(nodes, x, 0) == Some(x);
      ReparentMovesOneNode(nodes, node, parent, x);
      if ParentOf(nodes, x).Some? {
        var p := ParentOf(nodes, x).value;
        forall j | 0 <= j < k - 1
          ensures Ancestor(nodes, p, j) != Some(node)
        {
          assert Ancestor(nodes, x, j + 1) == Ancestor(nodes, p, j);
        }
        PathsAvoidingTheNodeStay(nodes, node, parent, p, k - 1);
      }
    }
  }

  lemma MovedNodeIsGrounded(nodes: Nodes, node: string, parent: Option<string>)
    requires SafeMove(nodes, Some(node), parent)
    ensures Grounded(Reparent(nodes, node, parent), node)
  {
    var after := Reparent(nodes, node, parent);
    ReparentMovesOneNode(nodes, node, parent, node);
    match parent
    case None =>
      assert Ancestor(after, node, 1).None?;
    case Some(p) =>
      var d: nat :| HasDepth(nodes, p, d);
      PathsAvoidingTheNodeStay(nodes, node, parent, p, d + 1);
      assert Ancestor(after, node, d + 2) == Ancestor(after, p, d + 1);
  }

  /** An applied promote creates no cycle: whatever was grounded stays grounded, and so is the moved node. */
  lemma {:induction false} PromoteCreatesNoCycle(nodes: Nodes, node: string, parent: Option<string>, x: string, k: nat)
    requires SafeMove(nodes, Some(node), parent) && Ancestor(nodes, x, k).None?
    ensures Grounded(Reparent(nodes, node, parent), x)
    decreases k
  {
    hide Get, ParentOf, Reparent;
    var after := Reparent(nodes, node, parent);
    ReparentMovesOneNode(nodes, node, parent, x);
    if x == node {
      MovedNodeIsGrounded(nodes, node, parent);
    } else if ParentOf(nodes, x).None? {
      assert Ancestor(after, x, 1).None?;
    } else {
      var p := ParentOf(nodes, x).value;
      PromoteCreatesNoCycle(nodes, node, parent, p, k - 1);
      var j: nat :| Ancestor(after, p, j).None?;
      assert Ancestor(after, x, j + 1).None?;
    }
  }

  /** Under a named parent every node of the moved subtree ends at depth four or less. */
  lemma MovedSubtreeIsShallow(nodes: Nodes, node: string, parent: string, x: string, k: nat)
    requires SafeMove(nodes, Some(node), Some(parent)) && Ancestor(nodes, x, k) == Some(node)
    ensures exists d: nat :: d <= 4 && HasDepth(Reparent(nodes, node, Some(parent)), x, d)
  {
    var after := Reparent(nodes, node, Some(parent));
    var d: nat :| HasDepth(nodes, parent, d)
                  && forall j: nat :: DescendantAt(nodes, node, j) ==> d + 1 + j <= 4;
    PathsAvoidingTheNodeStay(nodes, node, Some(parent), parent, d);
    PathsAvoidingTheNodeStay(nodes, node, Some(parent), parent, d + 1);
    var j := MovedDepth(nodes, node, parent, d, x, k);
    assert DescendantAt(nodes, node, j);
  }

  lemma {:induction false} MovedDepth(nodes: Nodes, node: string, parent: string, d: nat, x: string, k: nat) returns (j: nat)
    requires Get(nodes, node).Some? && Ancestor(nodes, x, k) == Some(node)
    requires HasDepth(Reparent(nodes, node, Some(parent)), parent, d)
    ensures Ancestor(nodes, x, j) == Some(node)
    ensures HasDepth(Reparent(nodes, node, Some(parent)), x, j + 1 + d)
    decreases k
  {
    hide Get, ParentOf, Reparent;
    var after := Reparent(nodes, node, Some(parent));
    ReparentMovesOneNode(nodes, node, Some(parent), x);
    if x == node {
      j := 0;
      assert Ancestor(after, x, d + 1) == Ancestor(after, parent, d);
      assert Ancestor(after, x, d + 2) == Ancestor(after, parent, d + 1);
    } else {
      var p := ParentOf(nodes, x).value;
      j := MovedDepth(nodes, node, parent, d, p, k - 1);
      j := j + 1;
      assert Ancestor(after, x, j + 1 + d) == Ancestor(after, p, j + d);
      assert Ancestor(after, x, j + 2 + d) == Ancestor(after, p, j + 1 + d);
    }
  }

  /** A node that is not in the moved subtree keeps its whole chain of ancestors. */
  lemma OtherNodesAreUntouched(nodes: Nodes, node: string, parent: Option<string>, x: string)
    requires forall k: nat :: Ancestor(nodes, x, k) != Some(node)
    ensures forall k: nat :: Ancestor(Reparent(nodes, node, parent), x, k) == Ancestor(nodes, x, k)
  {
    forall k: nat
      ensures Ancestor(Reparent(nodes, node, parent), x, k) == Ancestor(nodes, x, k)
    {
      PathsAvoidingTheNodeStay(nodes, node, parent, x, k);
    }
  }

  datatype Promote = Promote(node: Option<string>, parent: Option<string>)

  /** Each promote is judged on the catalog it changes, and applied when the verdict is Apply. */
  ghost function RunPromotes(nodes: Nodes, ps: seq<Promote>): Nodes
    decreases ps
  {
    if ps == [] then nodes
    else if SafeMove(nodes, ps[0].node, ps[0].parent)
    then RunPromotes(Reparent(nodes, ps[0].node.value, ps[0].parent), ps[1..])
    else RunPromotes(nodes, ps[1..])
  }

  /** No run of promotes, whatever was proposed, makes a cycle out of nodes that were on none. */
  lemma {:induction false} RunsCreateNoCycle(nodes: Nodes, ps: seq<Promote>, x: string)
    requires Grounded(nodes, x)
    ensures Grounded(RunPromotes(nodes, ps), x)
    decreases ps
  {
    if ps != [] {
      if SafeMove(nodes, ps[0].node, ps[0].parent) {
        var k: nat :| Ancestor(nodes, x, k).None?;
        PromoteCreatesNoCycle(nodes, ps[0].node.value, ps[0].parent, x, k);
        RunsCreateNoCycle(Reparent(nodes, ps[0].node.value, ps[0].parent), ps[1..], x);
      } else {
        RunsCreateNoCycle(nodes, ps[1..], x);
      }
    }
  }

  lemma {:induction false} RunsKeepIdsDistinct(nodes: Nodes, ps: seq<Promote>)
    requires DistinctIds(nodes)
    ensures DistinctIds(RunPromotes(nodes, ps))
    decreases ps
  {
    if ps != [] {
      if SafeMove(nodes, ps[0].node, ps[0].parent) {
        ReparentMovesOneNode(nodes, ps[0].node.value, ps[0].parent, "");
        RunsKeepIdsDistinct(Reparent(nodes, ps[0].node.value, ps[0].parent), ps[1..]);
      } else {
        RunsKeepIdsDistinct(nodes, ps[1..]);
      }
    }
  }

  /** Any run of promotes keeps a forest a forest, on ids that stay distinct. */
  lemma RunsKeepTheForest(nodes: Nodes, ps: seq<Promote>)
    requires DistinctIds(nodes) && Forest(nodes)
    ensures DistinctIds(RunPromotes(nodes, ps)) && Forest(RunPromotes(nodes, ps))
  {
    RunsKeepIdsDistinct(nodes, ps);
    forall x
      ensures Grounded(RunPromotes(nodes, ps), x)
    {
      RunsCreateNoCycle(nodes, ps, x);
    }
  }
}
