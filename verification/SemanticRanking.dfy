/** Ranking a search's rows: one hit a target, scored by its best chunk, best first, cut at a limit. */
module SemanticRanking {
  import Quantized
  import Sorting
  import VectorCache

  type Rows = seq<VectorCache.Row>

  datatype Hit = Hit(kind: string, target: int, score: real)

  /** The quantised query and the targets the scope permits. */
  datatype Query = Query(vec: Quantized.QVec, eligible: set<(string, int)>)

  predicate Counts(q: Query, r: VectorCache.Row) {
    (r.kind, r.target) in q.eligible
  }

  function ScoreOf(q: Query, r: VectorCache.Row): real {
    Quantized.CosineOf(q.vec, r.vec)
  }

  // ---------------------------------------------------------------------
  // What a ranking is
  // ---------------------------------------------------------------------

  predicate Precedes(a: Hit, b: Hit) {
    a.score > b.score
    || (a.score == b.score
        && if a.kind == b.kind then a.target <= b.target else Sorting.TextLe(a.kind, b.kind))
  }

  ghost predicate InOrder(hits: seq<Hit>) {
    Sorting.InOrder(Precedes, hits)
  }

  function TargetOf(h: Hit): (string, int) {
    (h.kind, h.target)
  }

  ghost predicate DistinctTargets(hits: seq<Hit>) {
    Sorting.DistinctBy(TargetOf, hits)
  }

  ghost predicate IsChunkOf(q: Query, r: VectorCache.Row, kind: string, target: int) {
    Counts(q, r) && r.kind == kind && r.target == target
  }

  /** The hit's score is the greatest among the eligible rows of its target, of which there is one. */
  ghost predicate ScoredByBest(q: Query, rows: Rows, h: Hit) {
    && (exists i :: 0 <= i < |rows| && IsChunkOf(q, rows[i], h.kind, h.target) && ScoreOf(q, rows[i]) == h.score)
    && forall i | 0 <= i < |rows| && IsChunkOf(q, rows[i], h.kind, h.target) :: ScoreOf(q, rows[i]) <= h.score
  }

  ghost predicate Lists(hits: seq<Hit>, kind: string, target: int) {
    exists h :: h in hits && h.kind == kind && h.target == target
  }

  ghost predicate ListsEvery(q: Query, rows: Rows, hits: seq<Hit>) {
    forall i | 0 <= i < |rows| && Counts(q, rows[i]) :: Lists(hits, rows[i].kind, rows[i].target)
  }

  /** Every eligible target that has a row, once, scored by its best chunk, in order. */
  ghost predicate IsRanking(q: Query, rows: Rows, hits: seq<Hit>) {
    && DistinctTargets(hits) && InOrder(hits) && ListsEvery(q, rows, hits)
    && forall h | h in hits :: ScoredByBest(q, rows, h)
  }

  // ---------------------------------------------------------------------
  // Collapsing chunks to targets
  // ---------------------------------------------------------------------

  /** Kinds are interned to a position kept in eight bits. */
  const SLOTS := 256

  ghost predicate DistinctKinds(kinds: seq<string>) {
    forall i, j | 0 <= i < j < |kinds| :: kinds[i] != kinds[j]
  }

  function IndexOf(kinds: seq<string>, kind: string): (i: nat)
    requires kind in kinds
    ensures i < |kinds| && kinds[i] == kind && forall j | 0 <= j < i :: kinds[j] != kind
  {
    if kinds[0] == kind then 0 else IndexOf(kinds[1..], kind) + 1
  }

  /** The kinds of the rows that count, in the order they first occur. */
  function Kinds(q: Query, rows: Rows): (kinds: seq<string>)
    ensures DistinctKinds(kinds)
    ensures forall i | 0 <= i < |rows| && Counts(q, rows[i]) :: rows[i].kind in kinds
    ensures forall kind | kind in kinds :: exists i :: 0 <= i < |rows| && Counts(q, rows[i]) && rows[i].kind == kind
  {
    if rows == [] then []
    else
      var before, r := Kinds(q, rows[..|rows| - 1]), rows[|rows| - 1];
      assert forall i | 0 <= i < |rows| - 1 :: rows[..|rows| - 1][i] == rows[i];
      if Counts(q, r) && r.kind !in before then before + [r.kind] else before
  }

  type Slot = (int, int)

  type Best = map<Slot, real>

  /** A row's score goes to a slot. */
  ghost predicate Feeds(q: Query, kinds: seq<string>, r: VectorCache.Row, slot: Slot) {
    Counts(q, r) && r.kind in kinds && slot == (IndexOf(kinds, r.kind) % SLOTS, r.target)
  }

  ghost predicate FedTo(q: Query, kinds: seq<string>, rows: Rows, slot: Slot) {
    exists i :: 0 <= i < |rows| && Feeds(q, kinds, rows[i], slot)
  }

  ghost predicate Holds(q: Query, kinds: seq<string>, rows: Rows, slot: Slot, s: real) {
    && (exists i :: 0 <= i < |rows| && Feeds(q, kinds, rows[i], slot) && ScoreOf(q, rows[i]) == s)
    && forall i | 0 <= i < |rows| && Feeds(q, kinds, rows[i], slot) :: ScoreOf(q, rows[i]) <= s
  }

  ghost predicate SlotIsRight(q: Query, kinds: seq<string>, rows: Rows, best: Best, slot: Slot) {
    && (slot in best <==> FedTo(q, kinds, rows, slot))
    && (slot in best ==> Holds(q, kinds, rows, slot, best[slot]))
  }

  /** The kinds are those of the rows that count, once each; the table holds each slot's greatest score. */
  ghost predicate Tallied(q: Query, rows: Rows, kinds: seq<string>, best: Best) {
    kinds == Kinds(q, rows) && forall slot :: SlotIsRight(q, kinds, rows, best, slot)
  }

  method Collapse(q: Query, rows: Rows) returns (kinds: seq<string>, best: Best)
    ensures Tallied(q, rows, kinds, best)
  {
    hide Tallied, ScoreOf, Counts;
    kinds, best := [], map[];
    NothingTallied(q);
    for i := 0 to |rows|
      invariant Tallied(q, rows[..i], kinds, best)
    {
      var r := rows[i];
      assert rows[..i + 1] == rows[..i] + [r];
      if !Counts(q, r) {
        SkipRow(q, rows[..i], r, kinds, best);
        continue;
      }
      var s := ScoreOf(q, r);
      ghost var seen, before := kinds, best;
      if r.kind !in kinds {
        kinds := kinds + [r.kind];
      }
      var slot := (IndexOf(kinds, r.kind) % SLOTS, r.target);
      if slot !in best || s > best[slot] {
        best := best[slot := s];
      }
      TallyRow(q, rows[..i], r, seen, before);
    }
    assert rows[..|rows|] == rows;
  }

  lemma NothingTallied(q: Query)
    ensures Tallied(q, [], [], map[])
  {
  }

  lemma SkipRow(q: Query, rows: Rows, r: VectorCache.Row, kinds: seq<string>, best: Best)
    requires Tallied(q, rows, kinds, best) && !Counts(q, r)
    ensures Tallied(q, rows + [r], kinds, best)
  {
    hide ScoreOf, Counts;
    var more := rows + [r];
    forall slot
      ensures SlotIsRight(q, kinds, more, best, slot)
    {
      assert SlotIsRight(q, kinds, rows, best, slot);
      AddRow(q, kinds, rows, r, slot);
    }
    SameKinds(q, rows, r);
  }

  lemma SameKinds(q: Query, rows: Rows, r: VectorCache.Row)
    ensures var kinds := Kinds(q, rows);
            Kinds(q, rows + [r]) == if !Counts(q, r) || r.kind in kinds then kinds else kinds + [r.kind]
  {
    assert (rows + [r])[..|rows|] == rows;
  }

  /** What one more row changes for a slot. */
  lemma AddRow(q: Query, kinds: seq<string>, rows: Rows, r: VectorCache.Row, slot: Slot)
    ensures FedTo(q, kinds, rows + [r], slot) <==> FedTo(q, kinds, rows, slot) || Feeds(q, kinds, r, slot)
    ensures forall s :: Holds(q, kinds, rows, slot, s) && (Feeds(q, kinds, r, slot) ==> ScoreOf(q, r) <= s) ==>
                          Holds(q, kinds, rows + [r], slot, s)
    ensures Feeds(q, kinds, r, slot) && (forall i | 0 <= i < |rows| && Feeds(q, kinds, rows[i], slot) :: ScoreOf(q, rows[i]) <= ScoreOf(q, r)) ==>
              Holds(q, kinds, rows + [r], slot, ScoreOf(q, r))
  {
    hide Feeds, ScoreOf;
    var more := rows + [r];
    assert more[|rows|] == r && forall i | 0 <= i < |rows| :: more[i] == rows[i];
  }

  lemma {:induction false} IndexStays(kinds: seq<string>, extra: string, kind: string)
    requires kind in kinds
    ensures IndexOf(kinds + [extra], kind) == IndexOf(kinds, kind)
  {
    if kinds[0] != kind {
      assert (kinds + [extra])[1..] == kinds[1..] + [extra];
      IndexStays(kinds[1..], extra, kind);
    }
  }

  lemma NewKindMovesNothing(q: Query, rows: Rows, kinds: seq<string>, extra: string, best: Best, slot: Slot)
    requires forall i | 0 <= i < |rows| && Counts(q, rows[i]) :: rows[i].kind in kinds
    requires SlotIsRight(q, kinds, rows, best, slot)
    ensures SlotIsRight(q, kinds + [extra], rows, best, slot)
  {
    hide ScoreOf, Counts;
    forall i | 0 <= i < |rows|
      ensures Feeds(q, kinds + [extra], rows[i], slot) <==> Feeds(q, kinds, rows[i], slot)
    {
      if Counts(q, rows[i]) {
        IndexStays(kinds, extra, rows[i].kind);
      }
    }
    hide Feeds;
  }

  /** The table after a row that counts: its slot holds the greater of what it held and the row's score. */
  ghost function Raised(best: Best, slot: Slot, s: real): Best {
    if slot !in best || s > best[slot] then best[slot := s] else best
  }

  lemma TallySlot(q: Query, rows: Rows, r: VectorCache.Row, kinds: seq<string>, best: Best, slot: Slot)
    requires Counts(q, r) && r.kind in kinds && SlotIsRight(q, kinds, rows, best, slot)
    ensures var fed := (IndexOf(kinds, r.kind) % SLOTS, r.target);
            SlotIsRight(q, kinds, rows + [r], Raised(best, fed, ScoreOf(q, r)), slot)
  {
    AddRow(q, kinds, rows, r, slot);
    var fed := (IndexOf(kinds, r.kind) % SLOTS, r.target);
    assert Feeds(q, kinds, r, slot) <==> slot == fed;
    hide Feeds, ScoreOf, Counts, IndexOf, FedTo;
    var s := ScoreOf(q, r);
    if slot == fed && slot !in best {
      NothingFedYet(q, kinds, rows, slot);
    }
  }

  lemma NothingFedYet(q: Query, kinds: seq<string>, rows: Rows, slot: Slot)
    ensures !FedTo(q, kinds, rows, slot) ==> forall i | 0 <= i < |rows| :: !Feeds(q, kinds, rows[i], slot)
  {
    hide Feeds;
  }

  lemma TallyRow(q: Query, rows: Rows, r: VectorCache.Row, kinds: seq<string>, best: Best)
    requires Tallied(q, rows, kinds, best) && Counts(q, r)
    ensures var now := if r.kind in kinds then kinds else kinds + [r.kind];
            Tallied(q, rows + [r], now, Raised(best, (IndexOf(now, r.kind) % SLOTS, r.target), ScoreOf(q, r)))
  {
    hide ScoreOf, Counts, SlotIsRight, Raised;
    var now := if r.kind in kinds then kinds else kinds + [r.kind];
    var after := Raised(best, (IndexOf(now, r.kind) % SLOTS, r.target), ScoreOf(q, r));
    forall slot
      ensures SlotIsRight(q, now, rows + [r], after, slot)
    {
      assert SlotIsRight(q, kinds, rows, best, slot);
      if r.kind !in kinds {
        NewKindMovesNothing(q, rows, kinds, r.kind, best, slot);
      }
      TallySlot(q, rows, r, now, best, slot);
    }
    SameKinds(q, rows, r);
  }

  // ---------------------------------------------------------------------
  // Listing and sorting
  // ---------------------------------------------------------------------

  /** A slot's hit, labelled with the kind at its position. */
  ghost predicate HitOf(kinds: seq<string>, best: Best, slot: Slot, h: Hit) {
    slot in best && 0 <= slot.0 < |kinds| && h == Hit(kinds[slot.0], slot.1, best[slot])
  }

  /** The hits are the table's entries, one a slot. */
  ghost predicate Enumerates(kinds: seq<string>, best: Best, hits: seq<Hit>, slots: seq<Slot>) {
    && |hits| == |slots|
    && (forall i | 0 <= i < |hits| :: HitOf(kinds, best, slots[i], hits[i]))
    && (forall i, j | 0 <= i < j < |slots| :: slots[i] != slots[j])
  }

  ghost predicate InRange(kinds: seq<string>, best: Best) {
    forall slot | slot in best :: 0 <= slot.0 < |kinds| && slot.0 < SLOTS
  }

  lemma SlotsAreInRange(q: Query, rows: Rows, kinds: seq<string>, best: Best)
    requires Tallied(q, rows, kinds, best)
    ensures InRange(kinds, best)
  {
    hide Holds, Counts;
    forall slot | slot in best
      ensures 0 <= slot.0 < |kinds| && slot.0 < SLOTS
    {
      assert SlotIsRight(q, kinds, rows, best, slot);
      var i :| 0 <= i < |rows| && Feeds(q, kinds, rows[i], slot);
    }
  }

  /** The table's entries, in whatever order the map yields its keys. */
  method Drain(kinds: seq<string>, best: Best) returns (listed: seq<Hit>, ghost slots: seq<Slot>)
    requires InRange(kinds, best)
    ensures Enumerates(kinds, best, listed, slots) && forall slot | slot in best :: slot in slots
  {
    listed, slots := [], [];
    var left := best;
    while left != map[]
      invariant Enumerates(kinds, best, listed, slots)
      invariant forall slot | slot in left :: slot in best && left[slot] == best[slot] && slot !in slots
      invariant forall slot | slot in best :: slot in left || slot in slots
      decreases |left|
    {
      var slot :| slot in left;
      listed, slots := listed + [Hit(kinds[slot.0], slot.1, left[slot])], slots + [slot];
      left := left - {slot};
    }
  }

  lemma PrecedesIsAnOrder()
    ensures Sorting.IsTotalPreorder(Precedes)
    ensures forall a, b :: Precedes(a, b) && Precedes(b, a) ==> a == b
  {
    hide Sorting.TextLe;
    forall a, b
      ensures Precedes(a, b) || Precedes(b, a)
      ensures Precedes(a, b) && Precedes(b, a) ==> a == b
    {
      Sorting.TextLeIsTotal(a.kind, b.kind);
    }
    forall a, b, c | Precedes(a, b) && Precedes(b, c)
      ensures Precedes(a, c)
    {
      Sorting.TextLeIsTotal(a.kind, b.kind);
      Sorting.TextLeIsTotal(b.kind, c.kind);
      if Sorting.TextLe(a.kind, b.kind) && Sorting.TextLe(b.kind, c.kind) {
        Sorting.TextLeIsTransitive(a.kind, b.kind, c.kind);
      }
    }
  }

  // ---------------------------------------------------------------------
  // The whole ranking
  // ---------------------------------------------------------------------

  /** What a row that counts is listed as: its target, under the kind its own kind's position wraps around to. */
  function ListedAs(q: Query, rows: Rows, i: nat): (string, int)
    requires i < |rows| && Counts(q, rows[i])
  {
    var kinds := Kinds(q, rows);
    (kinds[IndexOf(kinds, rows[i].kind) % SLOTS], rows[i].target)
  }

  ghost predicate StandsFor(q: Query, rows: Rows, i: int, h: Hit) {
    0 <= i < |rows| && Counts(q, rows[i]) && ListedAs(q, rows, i) == (h.kind, h.target)
  }

  /** Whatever the rows that count are listed as, once, scored by the best of the rows so listed, in order. */
  ghost predicate IsListing(q: Query, rows: Rows, hits: seq<Hit>) {
    && DistinctTargets(hits) && InOrder(hits)
    && (forall h | h in hits :: exists i :: StandsFor(q, rows, i, h) && ScoreOf(q, rows[i]) == h.score)
    && (forall h, i | h in hits && StandsFor(q, rows, i, h) :: ScoreOf(q, rows[i]) <= h.score)
    && forall i: nat | i < |rows| && Counts(q, rows[i]) :: Lists(hits, ListedAs(q, rows, i).0, ListedAs(q, rows, i).1)
  }

  /** The hits are the first `limit` of the listing, and that is the ranking whenever at most 256 kinds occur. */
  method Rank(q: Query, rows: Rows, limit: nat) returns (hits: seq<Hit>, all: seq<Hit>)
    ensures hits == if limit < |all| then all[..limit] else all
    ensures IsListing(q, rows, all)
    ensures |Kinds(q, rows)| <= SLOTS ==> IsRanking(q, rows, all)
    ensures ListsEvery(q, rows, all) <==> |Kinds(q, rows)| <= SLOTS
  {
    hide Tallied, IsListing, IsRanking, ListsEvery, Sorting.InOrder, Sorting.DistinctBy, Precedes, Enumerates, Kinds, InRange;
    var kinds, best := Collapse(q, rows);
    SlotsAreInRange(q, rows, kinds, best);
    var listed; ghost var slots;
    listed, slots := Drain(kinds, best);
    EntriesAreDistinct(q, rows, kinds, best, listed, slots);
    all := Sorting.Sort(Precedes, listed);
    PrecedesIsAnOrder();
    Sorting.SortSorts(Precedes, listed);
    Sorting.SameMembers(all, listed);
    Sorting.DistinctIsPermuted(TargetOf, listed, all);
    EntriesAreTheListing(q, rows, kinds, best, listed, slots, all);
    assert kinds == Kinds(q, rows) by { KindsAreTallied(q, rows, kinds, best); }
    if |kinds| <= SLOTS {
      FewKindsRank(q, rows, all);
    } else {
      ManyKindsLoseOne(q, rows, all);
    }
    hits := if limit < |all| then all[..limit] else all;
  }

  lemma KindsAreTallied(q: Query, rows: Rows, kinds: seq<string>, best: Best)
    requires Tallied(q, rows, kinds, best)
    ensures kinds == Kinds(q, rows)
  {
  }

  lemma EntriesAreDistinct(q: Query, rows: Rows, kinds: seq<string>, best: Best, listed: seq<Hit>, slots: seq<Slot>)
    requires Tallied(q, rows, kinds, best) && Enumerates(kinds, best, listed, slots)
    ensures DistinctTargets(listed)
  {
    hide SlotIsRight, Counts;
    forall i, j | 0 <= i < j < |listed|
      ensures listed[i].kind != listed[j].kind || listed[i].target != listed[j].target
    {
      assert HitOf(kinds, best, slots[i], listed[i]) && HitOf(kinds, best, slots[j], listed[j]);
      assert slots[i] != slots[j];
    }
  }

  /** A slot is fed by the rows listed under its hit's label, and by no others. */
  lemma SlotMeansLabel(q: Query, rows: Rows, i: nat, slot: Slot, h: Hit)
    requires i < |rows| && 0 <= slot.0 < |Kinds(q, rows)| && slot.0 < SLOTS
    requires h.kind == Kinds(q, rows)[slot.0] && h.target == slot.1
    ensures Feeds(q, Kinds(q, rows), rows[i], slot) <==> StandsFor(q, rows, i, h)
  {
    hide Kinds;
    if Counts(q, rows[i]) {
      var at := IndexOf(Kinds(q, rows), rows[i].kind) % SLOTS;
      assert Kinds(q, rows)[at] == Kinds(q, rows)[slot.0] <==> at == slot.0;
    }
  }

  lemma EntryIsScored(q: Query, rows: Rows, kinds: seq<string>, best: Best, slot: Slot, h: Hit)
    requires kinds == Kinds(q, rows) && InRange(kinds, best)
    requires HitOf(kinds, best, slot, h) && SlotIsRight(q, kinds, rows, best, slot)
    ensures exists i :: StandsFor(q, rows, i, h) && ScoreOf(q, rows[i]) == h.score
    ensures forall i | StandsFor(q, rows, i, h) :: ScoreOf(q, rows[i]) <= h.score
  {
    hide Counts, ScoreOf, Kinds;
    forall i: nat | i < |rows|
      ensures Feeds(q, kinds, rows[i], slot) <==> StandsFor(q, rows, i, h)
    {
      SlotMeansLabel(q, rows, i, slot, h);
    }
    assert forall i | StandsFor(q, rows, i, h) :: 0 <= i < |rows|;
    hide Feeds, StandsFor;
    var i :| 0 <= i < |rows| && Feeds(q, kinds, rows[i], slot) && ScoreOf(q, rows[i]) == best[slot];
    assert StandsFor(q, rows, i, h);
  }

  lemma RowIsListed(q: Query, rows: Rows, kinds: seq<string>, best: Best, listed: seq<Hit>, slots: seq<Slot>, i: nat)
    requires Tallied(q, rows, kinds, best) && Enumerates(kinds, best, listed, slots)
    requires (forall slot | slot in best :: slot in slots) && i < |rows| && Counts(q, rows[i])
    ensures exists k :: 0 <= k < |listed| && ListedAs(q, rows, i) == (listed[k].kind, listed[k].target)
  {
    hide Counts, ScoreOf, Kinds;
    var slot := (IndexOf(kinds, rows[i].kind) % SLOTS, rows[i].target);
    assert Feeds(q, kinds, rows[i], slot) && SlotIsRight(q, kinds, rows, best, slot);
    var k :| 0 <= k < |slots| && slots[k] == slot;
    assert HitOf(kinds, best, slot, listed[k]);
  }

  lemma EntriesAreTheListing(q: Query, rows: Rows, kinds: seq<string>, best: Best, listed: seq<Hit>, slots: seq<Slot>,
                             all: seq<Hit>)
    requires Tallied(q, rows, kinds, best) && InRange(kinds, best)
    requires Enumerates(kinds, best, listed, slots) && (forall slot | slot in best :: slot in slots)
    requires InOrder(all) && DistinctTargets(all) && forall h :: h in all <==> h in listed
    ensures IsListing(q, rows, all)
  {
    hide Counts, ScoreOf, InOrder, DistinctTargets, Kinds, HitOf, SlotIsRight, ListedAs, InRange;
    forall h | h in all
      ensures exists i :: StandsFor(q, rows, i, h) && ScoreOf(q, rows[i]) == h.score
      ensures forall i | StandsFor(q, rows, i, h) :: ScoreOf(q, rows[i]) <= h.score
    {
      var k :| 0 <= k < |listed| && listed[k] == h;
      EntryIsScored(q, rows, kinds, best, slots[k], h);
    }
    forall i: nat | i < |rows| && Counts(q, rows[i])
      ensures Lists(all, ListedAs(q, rows, i).0, ListedAs(q, rows, i).1)
    {
      RowIsListed(q, rows, kinds, best, listed, slots, i);
      var k :| 0 <= k < |listed| && ListedAs(q, rows, i) == (listed[k].kind, listed[k].target);
      assert listed[k] in all;
    }
  }

  lemma OwnLabel(q: Query, rows: Rows, i: nat)
    requires i < |rows| && Counts(q, rows[i]) && |Kinds(q, rows)| <= SLOTS
    ensures ListedAs(q, rows, i) == (rows[i].kind, rows[i].target)
  {
    hide Kinds;
  }

  lemma LabelsAreEarlyKinds(q: Query, rows: Rows, i: nat)
    requires i < |rows| && Counts(q, rows[i]) && |Kinds(q, rows)| > SLOTS
    ensures ListedAs(q, rows, i).0 != Kinds(q, rows)[SLOTS]
  {
    hide Kinds;
  }

  /** With few enough kinds every row that counts is listed as its own target. */
  lemma FewKindsRank(q: Query, rows: Rows, all: seq<Hit>)
    requires IsListing(q, rows, all) && |Kinds(q, rows)| <= SLOTS
    ensures IsRanking(q, rows, all) && ListsEvery(q, rows, all)
  {
    hide Counts, ScoreOf, InOrder, DistinctTargets, Kinds, ListedAs;
    forall i: nat | i < |rows| && Counts(q, rows[i])
      ensures ListedAs(q, rows, i) == (rows[i].kind, rows[i].target)
    {
      OwnLabel(q, rows, i);
    }
    forall h | h in all
      ensures ScoredByBest(q, rows, h)
    {
      var i :| StandsFor(q, rows, i, h) && ScoreOf(q, rows[i]) == h.score;
      assert IsChunkOf(q, rows[i], h.kind, h.target);
      assert forall j | 0 <= j < |rows| && IsChunkOf(q, rows[j], h.kind, h.target) :: StandsFor(q, rows, j, h);
    }
  }

  /** The kind past the last slot labels no hit. */
  lemma ManyKindsLoseOne(q: Query, rows: Rows, all: seq<Hit>)
    requires IsListing(q, rows, all) && |Kinds(q, rows)| > SLOTS
    ensures !ListsEvery(q, rows, all)
  {
    hide Counts, ScoreOf, InOrder, DistinctTargets, ListedAs;
    var lost := Kinds(q, rows)[SLOTS];
    assert lost in Kinds(q, rows);
    var j :| 0 <= j < |rows| && Counts(q, rows[j]) && rows[j].kind == lost;
    hide Kinds;
    forall h | h in all
      ensures h.kind != lost
    {
      var i :| StandsFor(q, rows, i, h) && ScoreOf(q, rows[i]) == h.score;
      LabelsAreEarlyKinds(q, rows, i);
    }
    assert !Lists(all, rows[j].kind, rows[j].target);
  }

  // ---------------------------------------------------------------------
  // What a ranking promises
  // ---------------------------------------------------------------------

  /** Nothing better is left out: a chunk's target is among the hits, or the hits are full and none scores less. */
  lemma NothingBetterIsLeftOut(q: Query, rows: Rows, all: seq<Hit>, limit: nat, i: nat)
    requires IsRanking(q, rows, all) && i < |rows| && (rows[i].kind, rows[i].target) in q.eligible
    ensures var hits := if limit < |all| then all[..limit] else all;
            || (exists h :: h in hits && h.kind == rows[i].kind && h.target == rows[i].target && ScoreOf(q, rows[i]) <= h.score)
            || (|hits| == limit && forall h | h in hits :: ScoreOf(q, rows[i]) <= h.score)
  {
    hide ScoreOf;
    var hits := if limit < |all| then all[..limit] else all;
    assert Lists(all, rows[i].kind, rows[i].target);
    var x :| 0 <= x < |all| && all[x].kind == rows[i].kind && all[x].target == rows[i].target;
    assert ScoredByBest(q, rows, all[x]) && IsChunkOf(q, rows[i], all[x].kind, all[x].target);
    if x < |hits| {
      assert hits[x] == all[x];
    } else {
      forall h | h in hits
        ensures all[x].score <= h.score
      {
        var y :| 0 <= y < |hits| && hits[y] == h;
        assert Precedes(all[y], all[x]);
      }
    }
  }

  /** A hit's target is in scope, and its score is the best among that target's chunks. */
  lemma HitsAreInScope(q: Query, rows: Rows, hits: seq<Hit>, h: Hit)
    requires IsRanking(q, rows, hits) && h in hits
    ensures (h.kind, h.target) in q.eligible
    ensures exists i :: 0 <= i < |rows| && rows[i].kind == h.kind && rows[i].target == h.target
                        && h.score == Quantized.CosineOf(q.vec, rows[i].vec)
    ensures forall i | 0 <= i < |rows| && rows[i].kind == h.kind && rows[i].target == h.target ::
              Quantized.CosineOf(q.vec, rows[i].vec) <= h.score
  {
    hide Quantized.CosineOf, InOrder, DistinctTargets, ListsEvery;
    assert ScoredByBest(q, rows, h);
    var i :| 0 <= i < |rows| && IsChunkOf(q, rows[i], h.kind, h.target) && ScoreOf(q, rows[i]) == h.score;
    forall j | 0 <= j < |rows| && rows[j].kind == h.kind && rows[j].target == h.target
      ensures Quantized.CosineOf(q.vec, rows[j].vec) <= h.score
    {
      assert IsChunkOf(q, rows[j], h.kind, h.target);
    }
  }

  /** No target in scope is left out of the ranking. */
  lemma ScopeIsListed(q: Query, rows: Rows, hits: seq<Hit>, i: nat)
    requires IsRanking(q, rows, hits) && i < |rows| && (rows[i].kind, rows[i].target) in q.eligible
    ensures exists h :: h in hits && h.kind == rows[i].kind && h.target == rows[i].target
  {
    hide ScoredByBest, InOrder, DistinctTargets;
    assert Lists(hits, rows[i].kind, rows[i].target);
  }

  /** Better scores come first; among equal ones kinds in text order, and within a kind smaller targets. */
  lemma HitsAreBestFirst(hits: seq<Hit>, i: nat, j: nat)
    requires InOrder(hits) && DistinctTargets(hits) && i < j < |hits|
    ensures hits[i].score >= hits[j].score
    ensures hits[i].score == hits[j].score ==> Sorting.TextLe(hits[i].kind, hits[j].kind)
    ensures hits[i].score == hits[j].score && hits[i].kind == hits[j].kind ==> hits[i].target < hits[j].target
  {
    assert Precedes(hits[i], hits[j]) && TargetOf(hits[i]) != TargetOf(hits[j]);
    Sorting.TextLeIsTotal(hits[i].kind, hits[j].kind);
  }

  /** Up to 256 kinds the listing is the ranking, so it stays in scope. */
  lemma ListingIsTheRanking(q: Query, rows: Rows, all: seq<Hit>)
    requires IsListing(q, rows, all) && |Kinds(q, rows)| <= 256
    ensures IsRanking(q, rows, all)
  {
    hide Kinds, IsListing, IsRanking;
    FewKindsRank(q, rows, all);
  }

  /** Past that it stays in scope exactly when every row in scope is listed as something in scope. */
  lemma ListingIsInScopeIff(q: Query, rows: Rows, all: seq<Hit>)
    requires IsListing(q, rows, all)
    ensures (forall h | h in all :: (h.kind, h.target) in q.eligible) <==>
            (forall i: nat | i < |rows| && Counts(q, rows[i]) :: ListedAs(q, rows, i) in q.eligible)
  {
    hide Counts, ListedAs, ScoreOf, InOrder, DistinctTargets;
    if forall h | h in all :: (h.kind, h.target) in q.eligible {
      forall i: nat | i < |rows| && Counts(q, rows[i])
        ensures ListedAs(q, rows, i) in q.eligible
      {
        var l := ListedAs(q, rows, i);
        assert Lists(all, l.0, l.1);
        var h :| h in all && h.kind == l.0 && h.target == l.1;
        assert l == (h.kind, h.target);
      }
    }
    if forall i: nat | i < |rows| && Counts(q, rows[i]) :: ListedAs(q, rows, i) in q.eligible {
      forall h | h in all
        ensures (h.kind, h.target) in q.eligible
      {
        var i :| StandsFor(q, rows, i, h) && ScoreOf(q, rows[i]) == h.score;
      }
    }
  }

  lemma {:induction false} KindsInOrder(q: Query, rows: Rows)
    requires forall i | 0 <= i < |rows| :: (rows[i].kind, rows[i].target) in q.eligible
    requires forall i, j | 0 <= i < j < |rows| :: rows[i].kind != rows[j].kind
    ensures |Kinds(q, rows)| == |rows| && forall i | 0 <= i < |rows| :: Kinds(q, rows)[i] == rows[i].kind
  {
    if rows != [] {
      KindsInOrder(q, rows[..|rows| - 1]);
    }
  }

  lemma LabelOfThe257th(q: Query, rows: Rows)
    requires |rows| == 257 && Counts(q, rows[256])
    requires |Kinds(q, rows)| == 257 && Kinds(q, rows)[0] == rows[0].kind && Kinds(q, rows)[256] == rows[256].kind
    ensures ListedAs(q, rows, 256) == (rows[0].kind, rows[256].target)
  {
    hide Kinds, Counts;
    assert IndexOf(Kinds(q, rows), rows[256].kind) == 256;
  }

  /** The 257th kind is listed under the first one's name: with one target a kind, a hit falls outside the scope. */
  lemma TheNextKindLeavesTheScope(q: Query, rows: Rows, all: seq<Hit>)
    requires IsListing(q, rows, all) && |rows| == 257
    requires forall i | 0 <= i < |rows| :: rows[i].target == i
    requires forall i, j | 0 <= i < j < |rows| :: rows[i].kind != rows[j].kind
    requires q.eligible == set i | 0 <= i < |rows| :: (rows[i].kind, rows[i].target)
    ensures exists h :: h in all && h.kind == rows[0].kind && h.target == 256 && (h.kind, h.target) !in q.eligible
  {
    assert (rows[256].kind, rows[256].target) in q.eligible && Counts(q, rows[256]);
    KindsInOrder(q, rows);
    LabelOfThe257th(q, rows);
    assert (rows[0].kind, 256) !in q.eligible;
    hide Kinds, Counts, ListedAs, StandsFor, ScoreOf, InOrder, DistinctTargets;
    assert Lists(all, rows[0].kind, 256);
  }

  /** The rows determine the listing too: no iteration order of the table can show. */
  lemma ListingIsUnique(q: Query, rows: Rows, a: seq<Hit>, b: seq<Hit>)
    requires IsListing(q, rows, a) && IsListing(q, rows, b)
    ensures a == b
  {
    hide ScoreOf, Counts, Precedes, Sorting.InOrder, Sorting.DistinctBy, ListedAs;
    ListingHolds(q, rows, a, b);
    ListingHolds(q, rows, b, a);
    PrecedesIsAnOrder();
    Sorting.OneOrder(Precedes, TargetOf, a, b);
  }

  lemma ListingHolds(q: Query, rows: Rows, a: seq<Hit>, b: seq<Hit>)
    requires IsListing(q, rows, a) && IsListing(q, rows, b)
    ensures forall h | h in a :: h in b
  {
    hide ScoreOf, Counts, InOrder, DistinctTargets, ListedAs;
    forall h | h in a
      ensures h in b
    {
      var i :| StandsFor(q, rows, i, h) && ScoreOf(q, rows[i]) == h.score;
      assert Lists(b, h.kind, h.target);
      var g :| g in b && g.kind == h.kind && g.target == h.target;
      assert forall k :: StandsFor(q, rows, k, g) <==> StandsFor(q, rows, k, h);
      hide StandsFor;
      var j :| StandsFor(q, rows, j, g) && ScoreOf(q, rows[j]) == g.score;
      assert g.score == h.score;
    }
  }

  /** The rows determine the ranking: no iteration order of the table can show. */
  lemma RankingIsUnique(q: Query, rows: Rows, a: seq<Hit>, b: seq<Hit>)
    requires IsRanking(q, rows, a) && IsRanking(q, rows, b)
    ensures a == b
  {
    hide ScoreOf, Counts, Precedes, Sorting.InOrder, Sorting.DistinctBy;
    PrecedesIsAnOrder();
    Sorting.OneOrder(Precedes, TargetOf, a, b);
  }
}
