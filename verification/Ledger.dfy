/**
  The hash-chained ledger and the export bundle verified from its own rows.

  The digest is a parameter. Nothing assumes it injective: the theorems end in
  "or the two lists contain two different texts with one digest", so they hold of
  any digest and name the collision that would be needed to break them.
 */
module Ledger {
  import opened CanonicalJson
  import opened Wrappers
  import Sorting

  type Hasher = string -> string

  const GENESIS_PREV := Zeros(64)

  function Zeros(n: nat): (s: string)
    ensures |s| == n && forall i | 0 <= i < n :: s[i] == '0'
  {
    if n == 0 then "" else Zeros(n - 1) + "0"
  }

  datatype LedgerEventRow = LedgerEventRow(
    seqNo: int,
    ts: int,
    kind: string,
    author: string,
    promptId: Option<int>,
    sessionId: Option<string>,
    versionNumber: Option<int>,
    refKind: Option<string>,
    refId: Option<string>,
    payloadHash: string,
    prevHash: string,
    entryHash: string)

  function CanonicalOf(row: LedgerEventRow): CanonicalEvent {
    CanonicalEvent(row.seqNo, row.ts, row.kind, row.author, row.promptId, row.sessionId,
                   row.versionNumber, row.refKind, row.refId, row.payloadHash)
  }

  function ComputeEntryHash(sha: Hasher, prevHash: string, e: CanonicalEvent): string {
    sha(Preimage(prevHash, e))
  }

  /** The text whose digest the row claims as its entry hash. */
  function EventText(row: LedgerEventRow): string {
    Preimage(row.prevHash, CanonicalOf(row))
  }

  predicate Recomputes(sha: Hasher, row: LedgerEventRow) {
    ComputeEntryHash(sha, row.prevHash, CanonicalOf(row)) == row.entryHash
  }

  // ---------------------------------------------------------------------
  // Stable sort by sequence number
  // ---------------------------------------------------------------------

  type Rows = seq<LedgerEventRow>

  predicate AtMost(a: LedgerEventRow, b: LedgerEventRow) {
    a.seqNo <= b.seqNo
  }

  function SortBySeq(rows: Rows): Rows {
    Sorting.Sort(AtMost, rows)
  }

  ghost predicate Ascending(rows: Rows) {
    forall i, j | 0 <= i < j < |rows| :: rows[i].seqNo <= rows[j].seqNo
  }

  function Pick(row: LedgerEventRow, s: int): Rows {
    if row.seqNo == s then [row] else []
  }

  /** The rows that carry one sequence number, in the order they appear. */
  ghost function Carrying(rows: Rows, s: int): Rows {
    if rows == [] then [] else Carrying(rows[..|rows| - 1], s) + Pick(rows[|rows| - 1], s)
  }

  lemma {:induction false} InsertCarries(rows: Rows, x: LedgerEventRow, s: int)
    ensures Carrying(Sorting.Insert(AtMost, rows, x), s) == Carrying(rows, s) + Pick(x, s)
  {
    if rows == [] || rows[|rows| - 1].seqNo <= x.seqNo {
      CarryingOneMore(rows, x, s);
    } else {
      var front, last := rows[..|rows| - 1], rows[|rows| - 1];
      assert Sorting.Insert(AtMost, rows, x) == Sorting.Insert(AtMost, front, x) + [last];
      hide Sorting.Insert;
      InsertCarries(front, x, s);
      CarryingOneMore(Sorting.Insert(AtMost, front, x), last, s);
      assert Pick(x, s) == [] || Pick(last, s) == [];
    }
  }

  lemma CarryingOneMore(rows: Rows, x: LedgerEventRow, s: int)
    ensures Carrying(rows + [x], s) == Carrying(rows, s) + Pick(x, s)
    ensures Carrying(rows + [x], s) == Carrying(rows, s) + if x.seqNo == s then [x] else []
  {
    assert (rows + [x])[..|rows|] == rows;
  }

  /** The sort orders the rows, loses none, and keeps rows of one sequence number in their order. */
  lemma {:induction false} SortBySeqIsStable(rows: Rows, s: int)
    ensures Ascending(SortBySeq(rows))
    ensures multiset(SortBySeq(rows)) == multiset(rows)
    ensures Carrying(SortBySeq(rows), s) == Carrying(rows, s)
  {
    Sorting.SortSorts(AtMost, rows);
    if rows != [] {
      var front, last := rows[..|rows| - 1], rows[|rows| - 1];
      SortBySeqIsStable(front, s);
      SortBySeqIsStable(front, s);
      InsertCarries(SortBySeq(front), last, s);
    }
  }

  lemma SortBySeqMembers(rows: Rows)
    ensures |SortBySeq(rows)| == |rows|
    ensures forall r :: r in SortBySeq(rows) <==> r in rows
  {
    Sorting.SortSorts(AtMost, rows);
    Sorting.SameMembers(SortBySeq(rows), rows);
  }

  // ---------------------------------------------------------------------
  // Runs of the chain
  // ---------------------------------------------------------------------

  ghost predicate AllRecompute(sha: Hasher, rows: Rows) {
    forall i | 0 <= i < |rows| :: Recomputes(sha, rows[i])
  }

  ghost predicate Contiguous(rows: Rows) {
    forall i, j | 0 <= i && j == i + 1 && j < |rows| :: rows[j].seqNo == rows[i].seqNo + 1
  }

  ghost predicate Linked(rows: Rows) {
    forall i, j | 0 <= i && j == i + 1 && j < |rows| :: rows[j].prevHash == rows[i].entryHash
  }

  /** Every row recomputes and follows its predecessor in number and in hash. */
  ghost predicate ValidRun(sha: Hasher, rows: Rows) {
    AllRecompute(sha, rows) && Contiguous(rows) && Linked(rows)
  }

  /** A run that starts at sequence number 1 on the genesis hash. */
  ghost predicate ValidFromGenesis(sha: Hasher, rows: Rows) {
    ValidRun(sha, rows) && (rows != [] ==> rows[0].seqNo == 1 && rows[0].prevHash == GENESIS_PREV)
  }

  /** Two texts, one hashed in each list, that differ and share a digest. */
  ghost predicate Collision(sha: Hasher, a: Rows, b: Rows) {
    exists i, j :: 0 <= i < |a| && 0 <= j < |b| && Collide(sha, a[i], b[j])
  }

  ghost predicate Collide(sha: Hasher, r: LedgerEventRow, t: LedgerEventRow) {
    EventText(r) != EventText(t) && sha(EventText(r)) == sha(EventText(t))
  }

  lemma SameHashSameRow(sha: Hasher, r: LedgerEventRow, t: LedgerEventRow)
    requires Recomputes(sha, r) && Recomputes(sha, t) && r.entryHash == t.entryHash
    ensures Collide(sha, r, t) || r == t
  {
    if EventText(r) == EventText(t) {
      PreimageDeterminesEvent(r.prevHash, CanonicalOf(r), t.prevHash, CanonicalOf(t));
    }
  }

  /** The rows k places before two equal heads are equal. */
  lemma {:induction false} TailsAgreeAt(sha: Hasher, a: Rows, b: Rows, k: nat)
    requires ValidRun(sha, a) && ValidRun(sha, b) && k < |a| && k < |b|
    requires a[|a| - 1].entryHash == b[|b| - 1].entryHash
    requires !Collision(sha, a, b)
    ensures a[|a| - 1 - k] == b[|b| - 1 - k]
  {
    var i, j := |a| - 1 - k, |b| - 1 - k;
    if k > 0 {
      TailsAgreeAt(sha, a, b, k - 1);
      assert a[i + 1].prevHash == a[i].entryHash && b[j + 1].prevHash == b[j].entryHash;
    }
    SameHashSameRow(sha, a[i], b[j]);
  }

  /** Two valid runs that end in one head hash are one history: the shorter is a suffix of the longer. */
  lemma OneHeadOneHistory(sha: Hasher, a: Rows, b: Rows)
    requires ValidRun(sha, a) && ValidRun(sha, b)
    requires 0 < |a| <= |b| && a[|a| - 1].entryHash == b[|b| - 1].entryHash
    ensures Collision(sha, a, b) || b[|b| - |a|..] == a
  {
    if !Collision(sha, a, b) {
      forall k: nat | k < |a|
        ensures SameFromEnd(a, b, k)
      {
        TailsAgreeAt(sha, a, b, k);
      }
      SuffixFromEnd(a, b);
    }
  }

  ghost predicate SameFromEnd(a: Rows, b: Rows, k: nat)
    requires k < |a| && k < |b|
  {
    a[|a| - 1 - k] == b[|b| - 1 - k]
  }

  lemma SuffixFromEnd(a: Rows, b: Rows)
    requires |a| <= |b| && forall k: nat | k < |a| :: SameFromEnd(a, b, k)
    ensures b[|b| - |a|..] == a
  {
    forall i | 0 <= i < |a|
      ensures b[|b| - |a|..][i] == a[i]
    {
      assert SameFromEnd(a, b, |a| - 1 - i);
    }
  }

  /** A head hash pins the whole chain from genesis. */
  lemma HeadPinsTheChain(sha: Hasher, a: Rows, b: Rows)
    requires ValidFromGenesis(sha, a) && ValidFromGenesis(sha, b)
    requires a != [] && b != [] && a[|a| - 1].entryHash == b[|b| - 1].entryHash
    ensures Collision(sha, a, b) || a == b
  {
    hide CanonicalJson.Canonical;
    if !Collision(sha, a, b) {
      TailsAgreeAt(sha, a, b, 0);
      SeqCounts(a, |a| - 1);
      SeqCounts(b, |b| - 1);
      OneHeadOneHistory(sha, a, b);
      assert b[0..] == b;
    }
  }

  lemma {:induction false} SeqCounts(rows: Rows, k: nat)
    requires Contiguous(rows) && k < |rows|
    ensures rows[k].seqNo == rows[0].seqNo + k
  {
    if k > 0 {
      SeqCounts(rows, k - 1);
    }
  }

  // ---------------------------------------------------------------------
  // Appending
  // ---------------------------------------------------------------------

  /** The fields the caller supplies; the append assigns the number and both hashes. */
  datatype LedgerAppend = LedgerAppend(
    kind: string,
    author: string,
    ts: int,
    promptId: Option<int>,
    sessionId: Option<string>,
    versionNumber: Option<int>,
    refKind: Option<string>,
    refId: Option<string>,
    payloadHash: string)

  function AppendEvent(sha: Hasher, chain: Rows, a: LedgerAppend): Rows {
    var prevSeq := if chain == [] then 0 else chain[|chain| - 1].seqNo;
    var prevHash := if chain == [] then GENESIS_PREV else chain[|chain| - 1].entryHash;
    var e := CanonicalEvent(prevSeq + 1, a.ts, a.kind, a.author, a.promptId, a.sessionId,
                            a.versionNumber, a.refKind, a.refId, a.payloadHash);
    chain + [LedgerEventRow(prevSeq + 1, a.ts, a.kind, a.author, a.promptId, a.sessionId, a.versionNumber,
                            a.refKind, a.refId, a.payloadHash, prevHash, ComputeEntryHash(sha, prevHash, e))]
  }

  function AppendAll(sha: Hasher, chain: Rows, calls: seq<LedgerAppend>): Rows
    decreases calls
  {
    if calls == [] then chain else AppendAll(sha, AppendEvent(sha, chain, calls[0]), calls[1..])
  }

  /** Any run of appends extends the chain it starts from and leaves it valid from genesis. */
  lemma {:induction false} AppendsKeepTheChainValid(sha: Hasher, chain: Rows, calls: seq<LedgerAppend>)
    requires ValidFromGenesis(sha, chain)
    ensures ValidFromGenesis(sha, AppendAll(sha, chain, calls))
    ensures chain <= AppendAll(sha, chain, calls)
    ensures |AppendAll(sha, chain, calls)| == |chain| + |calls|
    decreases calls
  {
    hide CanonicalJson.Canonical;
    if calls != [] {
      AppendsKeepTheChainValid(sha, AppendEvent(sha, chain, calls[0]), calls[1..]);
    }
  }

  // ---------------------------------------------------------------------
  // Bundles
  // ---------------------------------------------------------------------

  /** What `verify_bundle` reads of a bundle. */
  datatype ContextBundle = ContextBundle(headHash: string, events: Rows)

  datatype BundleVerdict = BundleVerdict(
    ok: bool,
    checked: nat,
    firstBadSeq: Option<int>,
    fullChain: bool,
    recomputedHead: Option<string>)

  ghost predicate IsFullChain(rows: Rows) {
    rows != [] && rows[0].seqNo == 1 && Contiguous(rows)
  }

  /** The hash row i must link onto when the walk starts from genesis. */
  ghost function LinkTarget(rows: Rows, i: nat): string
    requires i < |rows|
  {
    if i == 0 then GENESIS_PREV else rows[i - 1].entryHash
  }

  ghost predicate LinksFromGenesis(rows: Rows, i: nat)
    requires i < |rows|
  {
    rows[i].prevHash == LinkTarget(rows, i)
  }

  ghost predicate FirstUnhashed(sha: Hasher, rows: Rows, i: int) {
    0 <= i < |rows| && !Recomputes(sha, rows[i]) && AllRecompute(sha, rows[..i])
  }

  ghost predicate FirstUnlinked(rows: Rows, i: int) {
    0 <= i < |rows| && !LinksFromGenesis(rows, i) && forall k | 0 <= k < i :: LinksFromGenesis(rows, k)
  }

  /** What each shape of verdict says about the sorted rows. */
  ghost predicate VerdictExplained(sha: Hasher, headHash: string, rows: Rows, v: BundleVerdict) {
    if v.ok then
      v.firstBadSeq == None && v.fullChain == IsFullChain(rows) && v.recomputedHead == HeadOf(rows)
    else if !v.fullChain then
      v.recomputedHead == None && exists i :: FirstUnhashed(sha, rows, i) && v.firstBadSeq == Some(rows[i].seqNo)
    else if v.recomputedHead == None then
      IsFullChain(rows) && exists i :: FirstUnlinked(rows, i) && v.firstBadSeq == Some(rows[i].seqNo)
    else
      && IsFullChain(rows) && v.recomputedHead == HeadOf(rows) && HeadOf(rows) != Some(headHash)
      && v.firstBadSeq == Some(rows[|rows| - 1].seqNo)
  }

  function HeadOf(rows: Rows): Option<string> {
    if rows == [] then None else Some(rows[|rows| - 1].entryHash)
  }

  /**
    Re-hash every event; on a contiguous chain from 1, also walk the links and compare the head.
    The verdict is ok exactly for rows that recompute and, when full, form the pinned chain;
    otherwise it names the first row, in sequence order, at which the check failed.
   */
  method VerifyBundle(sha: Hasher, bundle: ContextBundle) returns (v: BundleVerdict)
    ensures v.checked == |bundle.events|
    ensures v.ok <==>
            && AllRecompute(sha, SortBySeq(bundle.events))
            && (IsFullChain(SortBySeq(bundle.events)) ==>
                  && ValidFromGenesis(sha, SortBySeq(bundle.events))
                  && HeadOf(SortBySeq(bundle.events)) == Some(bundle.headHash))
    ensures VerdictExplained(sha, bundle.headHash, SortBySeq(bundle.events), v)
  {
    hide CanonicalJson.Canonical;
    var events := SortBySeq(bundle.events);
    SortBySeqMembers(bundle.events);
    for i := 0 to |events|
      invariant AllRecompute(sha, events[..i])
    {
      if !Recomputes(sha, events[i]) {
        assert FirstUnhashed(sha, events, i);
        return BundleVerdict(false, |events|, Some(events[i].seqNo), false, None);
      }
      assert events[..i + 1] == events[..i] + [events[i]];
    }
    assert events[..|events|] == events;

    var fullChain := IsFullChainCheck(events);
    if fullChain {
      var prev := GENESIS_PREV;
      for i := 0 to |events|
        invariant prev == if i == 0 then GENESIS_PREV else events[i - 1].entryHash
        invariant forall k | 0 <= k < i :: LinksFromGenesis(events, k)
      {
        if events[i].prevHash != prev {
          assert FirstUnlinked(events, i);
          return BundleVerdict(false, |events|, Some(events[i].seqNo), true, None);
        }
        prev := events[i].entryHash;
      }
      assert LinksFromGenesis(events, 0);
      assert Linked(events) by {
        forall i, j | 0 <= i && j == i + 1 && j < |events|
          ensures events[j].prevHash == events[i].entryHash
        {
          assert LinksFromGenesis(events, j);
        }
      }
      var headOk := HeadOf(events) == Some(bundle.headHash);
      return BundleVerdict(headOk, |events|, if headOk then None else Some(events[|events| - 1].seqNo), true, HeadOf(events));
    }
    return BundleVerdict(true, |events|, None, false, HeadOf(events));
  }

  method IsFullChainCheck(events: Rows) returns (full: bool)
    ensures full == IsFullChain(events)
  {
    if |events| == 0 || events[0].seqNo != 1 {
      return false;
    }
    for w := 1 to |events|
      invariant Contiguous(events[..w])
    {
      if events[w].seqNo != events[w - 1].seqNo + 1 {
        return false;
      }
    }
    assert events[..|events|] == events;
    return true;
  }

  /** The condition under which `VerifyBundle` answers ok on a full chain. */
  ghost predicate FullChainOk(sha: Hasher, bundle: ContextBundle) {
    var rows := SortBySeq(bundle.events);
    IsFullChain(rows) && ValidFromGenesis(sha, rows) && HeadOf(rows) == Some(bundle.headHash)
  }

  /** Two full exports that verify under one pinned head carry the same events, whatever order they list them in. */
  lemma FullExportsUnderOneHeadAgree(sha: Hasher, a: ContextBundle, b: ContextBundle)
    requires FullChainOk(sha, a) && FullChainOk(sha, b) && a.headHash == b.headHash
    ensures Collision(sha, SortBySeq(a.events), SortBySeq(b.events)) || SortBySeq(a.events) == SortBySeq(b.events)
    ensures Collision(sha, SortBySeq(a.events), SortBySeq(b.events)) || multiset(a.events) == multiset(b.events)
  {
    HeadPinsTheChain(sha, SortBySeq(a.events), SortBySeq(b.events));
    SortBySeqIsStable(a.events, 0);
    SortBySeqIsStable(b.events, 0);
  }
}
