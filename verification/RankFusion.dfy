/** Reciprocal rank fusion in exact arithmetic: what it returns, and why the order is the lists' alone. */
module RankFusion {
  import Sorting

  const RRF_K := 60

  datatype ArmHit = ArmHit(arm: string, rank: nat, score: real)

  datatype Fused = Fused(key: string, arms: seq<ArmHit>, score: real)

  type Hits = seq<(string, real)>

  datatype Ranking = Ranking(arm: string, hits: Hits)

  type Rankings = seq<Ranking>

  // ---------------------------------------------------------------------
  // What each key is owed
  // ---------------------------------------------------------------------

  /** The reciprocal of the smoothed rank. */
  function Reciprocal(rank: nat): (r: real) {
    1.0 / (RRF_K + rank) as real
  }

  function ListScore(hits: Hits, key: string): (s: real)
    ensures s >= 0.0
  {
    if hits == [] then 0.0
    else
      var n := |hits|;
      ListScore(hits[..n - 1], key) + (if hits[n - 1].0 == key then Reciprocal(n) else 0.0)
  }

  function ListArms(arm: string, hits: Hits, key: string): seq<ArmHit> {
    if hits == [] then []
    else
      var n := |hits|;
      ListArms(arm, hits[..n - 1], key) + (if hits[n - 1].0 == key then [ArmHit(arm, n, hits[n - 1].1)] else [])
  }

  function Score(lists: Rankings, key: string): (s: real)
    ensures s >= 0.0
  {
    if lists == [] then 0.0
    else Score(lists[..|lists| - 1], key) + ListScore(lists[|lists| - 1].hits, key)
  }

  function ArmsOf(lists: Rankings, key: string): seq<ArmHit> {
    if lists == [] then []
    else ArmsOf(lists[..|lists| - 1], key) + ListArms(lists[|lists| - 1].arm, lists[|lists| - 1].hits, key)
  }

  // ---------------------------------------------------------------------
  // The order: score descending, then key
  // ---------------------------------------------------------------------

  predicate Precedes(a: Fused, b: Fused) {
    a.score > b.score || (a.score == b.score && Sorting.TextLe(a.key, b.key))
  }

  ghost predicate InOrder(fs: seq<Fused>) {
    Sorting.InOrder(Precedes, fs)
  }

  ghost predicate DistinctKeys(fs: seq<Fused>) {
    Sorting.DistinctBy(KeyOf, fs)
  }

  function KeyOf(f: Fused): string {
    f.key
  }

  lemma PrecedesIsAnOrder()
    ensures Sorting.IsTotalPreorder(Precedes)
    ensures forall a, b :: Precedes(a, b) && Precedes(b, a) ==> a.key == b.key && a.score == b.score
  {
    hide Sorting.TextLe;
    forall a, b
      ensures Precedes(a, b) || Precedes(b, a)
      ensures Precedes(a, b) && Precedes(b, a) ==> a.key == b.key && a.score == b.score
    {
      Sorting.TextLeIsTotal(a.key, b.key);
    }
    forall a, b, c | Precedes(a, b) && Precedes(b, c)
      ensures Precedes(a, c)
    {
      if a.score == b.score == c.score {
        Sorting.TextLeIsTransitive(a.key, b.key, c.key);
      }
    }
  }

  // ---------------------------------------------------------------------
  // The fusion
  // ---------------------------------------------------------------------

  ghost predicate Owes(lists: Rankings, f: Fused) {
    f.arms == ArmsOf(lists, f.key) && f.arms != [] && f.score == Score(lists, f.key)
  }

  /** Each key some list ranks, once, with its arms and its score, in order. */
  ghost predicate IsFusion(lists: Rankings, out: seq<Fused>) {
    && DistinctKeys(out) && InOrder(out)
    && (forall f | f in out :: Owes(lists, f))
    && (forall key | ArmsOf(lists, key) != [] :: Lists(out, key))
  }

  ghost predicate Lists(fs: seq<Fused>, key: string) {
    exists f :: f in fs && f.key == key
  }

  type Table = map<string, (seq<ArmHit>, real)>

  ghost predicate TalliesAt(lists: Rankings, arm: string, hits: Hits, table: Table, key: string) {
    var arms := ArmsOf(lists, key) + ListArms(arm, hits, key);
    && (key in table <==> arms != [])
    && (key in table ==> table[key] == (arms, Score(lists, key) + ListScore(hits, key)))
  }

  /** The table after some whole lists and the first hits of the next one. */
  ghost predicate Tallies(lists: Rankings, arm: string, hits: Hits, table: Table) {
    forall key :: TalliesAt(lists, arm, hits, table, key)
  }

  method TallyAll(lists: Rankings) returns (fused: Table)
    ensures Tallies(lists, "", [], fused)
  {
    hide Reciprocal, Tallies;
    fused := map[];
    EmptyTable();
    for i := 0 to |lists|
      invariant Tallies(lists[..i], "", [], fused)
    {
      var hits := lists[i].hits;
      StartList(lists[..i], lists[i].arm, fused);
      for r := 0 to |hits|
        invariant Tallies(lists[..i], lists[i].arm, hits[..r], fused)
      {
        var key := hits[r].0;
        var entry := if key in fused then fused[key] else ([], 0.0);
        TallyOneHit(lists[..i], lists[i].arm, hits, r, fused);
        fused := fused[key := (entry.0 + [ArmHit(lists[i].arm, r + 1, hits[r].1)], entry.1 + Reciprocal(r + 1))];
      }
      assert hits[..|hits|] == hits;
      FinishList(lists, i, fused);
    }
    assert lists[..|lists|] == lists;
  }

  ghost predicate EntryOf(table: Table, f: Fused) {
    f.key in table && f == Fused(f.key, table[f.key].0, table[f.key].1)
  }

  /** The table's entries, in whatever order the map yields its keys. */
  method Drain(table: Table) returns (listed: seq<Fused>)
    ensures DistinctKeys(listed)
    ensures forall f | f in listed :: EntryOf(table, f)
    ensures forall key | key in table :: Lists(listed, key)
  {
    listed := [];
    var rest := table.Keys;
    while rest != {}
      invariant rest <= table.Keys && DistinctKeys(listed)
      invariant forall f | f in listed :: EntryOf(table, f) && f.key !in rest
      invariant forall key | key in table && key !in rest :: Lists(listed, key)
      decreases |rest|
    {
      var key :| key in rest;
      var f := Fused(key, table[key].0, table[key].1);
      ghost var before := listed;
      listed := listed + [f];
      rest := rest - {key};
      assert f in listed;
      assert forall g | g in before :: g in listed;
    }
  }

  method RrfFuse(lists: Rankings) returns (out: seq<Fused>)
    ensures IsFusion(lists, out)
  {
    hide Tallies, Sorting.DistinctBy, Sorting.InOrder, IsFusion;
    var fused := TallyAll(lists);
    var listed := Drain(fused);
    PrecedesIsAnOrder();
    out := Sorting.Sort(Precedes, listed);
    Sorting.SortSorts(Precedes, listed);
    SortedFusion(lists, fused, listed, out);
  }

  lemma EmptyTable()
    ensures Tallies([], "", [], map[])
  {
  }

  lemma StartList(lists: Rankings, arm: string, table: Table)
    requires Tallies(lists, "", [], table)
    ensures Tallies(lists, arm, [], table)
  {
    forall key
      ensures TalliesAt(lists, arm, [], table, key)
    {
      assert TalliesAt(lists, "", [], table, key);
    }
  }

  lemma TallyOneHit(lists: Rankings, arm: string, hits: Hits, r: nat, table: Table)
    requires r < |hits| && Tallies(lists, arm, hits[..r], table)
    ensures var key := hits[r].0;
            var entry := if key in table then table[key] else ([], 0.0);
            Tallies(lists, arm, hits[..r + 1],
                    table[key := (entry.0 + [ArmHit(arm, r + 1, hits[r].1)], entry.1 + Reciprocal(r + 1))])
  {
    hide Reciprocal;
    var before, after := hits[..r], hits[..r + 1];
    var key, hit := hits[r].0, [ArmHit(arm, r + 1, hits[r].1)];
    var entry := if key in table then table[key] else ([], 0.0);
    var updated := table[key := (entry.0 + hit, entry.1 + Reciprocal(r + 1))];
    assert after[..r] == before;
    forall k
      ensures TalliesAt(lists, arm, after, updated, k)
    {
      assert TalliesAt(lists, arm, before, table, k);
      if k == key {
        assert ArmsOf(lists, k) + ListArms(arm, after, k) == (ArmsOf(lists, k) + ListArms(arm, before, k)) + hit;
        UntalliedIsEmpty(lists, arm, before, k);
      } else {
        assert ListArms(arm, after, k) == ListArms(arm, before, k);
      }
    }
  }

  /** A key with no arms yet has no score yet. */
  lemma UntalliedIsEmpty(lists: Rankings, arm: string, hits: Hits, key: string)
    ensures ArmsOf(lists, key) + ListArms(arm, hits, key) == [] ==> Score(lists, key) + ListScore(hits, key) == 0.0
  {
    NoArmsNoScore(lists, key);
    NoListArmsNoScore(arm, hits, key);
    if ArmsOf(lists, key) + ListArms(arm, hits, key) == [] {
      assert |ArmsOf(lists, key)| == 0 && |ListArms(arm, hits, key)| == 0;
    }
  }

  lemma {:induction false} NoListArmsNoScore(arm: string, hits: Hits, key: string)
    ensures ListArms(arm, hits, key) == [] ==> ListScore(hits, key) == 0.0
  {
    if hits != [] {
      NoListArmsNoScore(arm, hits[..|hits| - 1], key);
    }
  }

  lemma {:induction false} NoArmsNoScore(lists: Rankings, key: string)
    ensures ArmsOf(lists, key) == [] ==> Score(lists, key) == 0.0
  {
    if lists != [] {
      NoArmsNoScore(lists[..|lists| - 1], key);
      NoListArmsNoScore(lists[|lists| - 1].arm, lists[|lists| - 1].hits, key);
    }
  }

  lemma FinishList(lists: Rankings, i: nat, table: Table)
    requires i < |lists| && Tallies(lists[..i], lists[i].arm, lists[i].hits, table)
    ensures Tallies(lists[..i + 1], "", [], table)
  {
    var shown := lists[..i + 1];
    assert shown[..i] == lists[..i];
    forall key
      ensures TalliesAt(shown, "", [], table, key)
    {
      assert TalliesAt(lists[..i], lists[i].arm, lists[i].hits, table, key);
      assert ArmsOf(shown, key) + ListArms("", [], key) == ArmsOf(shown, key);
    }
  }

  ghost predicate HoldsWhatIsOwed(lists: Rankings, table: Table, key: string) {
    && (key in table <==> ArmsOf(lists, key) != [])
    && (key in table ==> table[key] == (ArmsOf(lists, key), Score(lists, key)))
  }

  lemma SortedFusion(lists: Rankings, table: Table, listed: seq<Fused>, out: seq<Fused>)
    requires Tallies(lists, "", [], table)
    requires DistinctKeys(listed)
    requires forall f | f in listed :: EntryOf(table, f)
    requires forall key | key in table :: Lists(listed, key)
    requires InOrder(out) && multiset(out) == multiset(listed)
    ensures IsFusion(lists, out)
  {
    hide Score, ArmsOf, Precedes;
    Sorting.SameMembers(out, listed);
    Sorting.DistinctIsPermuted(KeyOf, listed, out);
    forall key
      ensures HoldsWhatIsOwed(lists, table, key)
    {
      assert TalliesAt(lists, "", [], table, key);
      assert ArmsOf(lists, key) + ListArms("", [], key) == ArmsOf(lists, key);
    }
    forall f | f in out
      ensures Owes(lists, f)
    {
      assert EntryOf(table, f) && HoldsWhatIsOwed(lists, table, f.key);
    }
    forall key | ArmsOf(lists, key) != []
      ensures Lists(out, key)
    {
      assert HoldsWhatIsOwed(lists, table, key) && Lists(listed, key);
      var f :| f in listed && f.key == key;
      assert f in out;
    }
  }

  // ---------------------------------------------------------------------
  // The order does not depend on the map, nor on the order of the lists
  // ---------------------------------------------------------------------

  /** Greater scores come first, and keys of one score in text order. */
  lemma FusionIsBestFirst(lists: Rankings, out: seq<Fused>, i: nat, j: nat)
    requires IsFusion(lists, out) && i < j < |out|
    ensures out[i].score >= out[j].score
    ensures out[i].score == out[j].score ==> Sorting.TextLe(out[i].key, out[j].key) && out[i].key != out[j].key
  {
    hide Score, ArmsOf, Sorting.TextLe;
    assert Precedes(out[i], out[j]) && KeyOf(out[i]) != KeyOf(out[j]);
  }

  /** A fusion is determined by the lists: no iteration order of the table can show. */
  lemma FusionIsUnique(lists: Rankings, a: seq<Fused>, b: seq<Fused>)
    requires IsFusion(lists, a) && IsFusion(lists, b)
    ensures a == b
  {
    hide Score, ArmsOf, Precedes, Sorting.InOrder, Sorting.DistinctBy;
    forall f
      ensures f in a <==> f in b
    {
      if f in a {
        assert Owes(lists, f);
        assert Lists(b, f.key);
        var g :| g in b && g.key == f.key;
      }
      if f in b {
        assert Owes(lists, f);
        assert Lists(a, f.key);
        var g :| g in a && g.key == f.key;
      }
    }
    PrecedesIsAnOrder();
    Sorting.OneOrder(Precedes, KeyOf, a, b);
  }

  function Without(lists: Rankings, i: nat): Rankings
    requires i < |lists|
  {
    lists[..i] + lists[i + 1..]
  }

  lemma WithoutAndLast(lists: Rankings, i: nat)
    requires i < |lists| - 1
    ensures var w := Without(lists, i);
            |w| == |lists| - 1 && w[..|w| - 1] == Without(lists[..|lists| - 1], i) && w[|w| - 1] == lists[|lists| - 1]
  {
  }

  lemma {:induction false} ScoreWithout(lists: Rankings, i: nat, key: string)
    requires i < |lists|
    ensures Score(lists, key) == Score(Without(lists, i), key) + ListScore(lists[i].hits, key)
  {
    hide ListScore;
    if i == |lists| - 1 {
      assert Without(lists, i) == lists[..|lists| - 1];
    } else {
      ScoreWithout(lists[..|lists| - 1], i, key);
      WithoutAndLast(lists, i);
      hide Without;
    }
  }

  lemma {:induction false} ArmsWithout(lists: Rankings, i: nat, key: string)
    requires i < |lists|
    ensures multiset(ArmsOf(lists, key))
            == multiset(ArmsOf(Without(lists, i), key)) + multiset(ListArms(lists[i].arm, lists[i].hits, key))
  {
    hide ListArms;
    if i == |lists| - 1 {
      assert Without(lists, i) == lists[..|lists| - 1];
    } else {
      ArmsWithout(lists[..|lists| - 1], i, key);
      WithoutAndLast(lists, i);
      hide Without;
    }
  }

  lemma WithoutLeavesTheRest(lists: Rankings, i: nat)
    requires i < |lists|
    ensures multiset(lists) == multiset(Without(lists, i)) + multiset{lists[i]}
  {
    assert lists == lists[..i] + ([lists[i]] + lists[i + 1..]);
  }

  lemma CancelOne(a: multiset<Ranking>, b: multiset<Ranking>, x: Ranking)
    requires a + multiset{x} == b + multiset{x}
    ensures a == b
  {
    assert a == (a + multiset{x}) - multiset{x} && b == (b + multiset{x}) - multiset{x};
  }

  /** A place in `b` of the last list of `a`, without which the two still hold the same lists. */
  lemma Partner(a: Rankings, b: Rankings) returns (i: nat)
    requires multiset(a) == multiset(b) && a != []
    ensures i < |b| && b[i] == a[|a| - 1]
    ensures multiset(Without(a, |a| - 1)) == multiset(Without(b, i))
    ensures |Without(a, |a| - 1)| < |a|
  {
    var n := |a|;
    WithoutLeavesTheRest(a, n - 1);
    assert a[n - 1] in multiset(a);
    i :| 0 <= i < |b| && b[i] == a[n - 1];
    WithoutLeavesTheRest(b, i);
    CancelOne(multiset(Without(a, n - 1)), multiset(Without(b, i)), b[i]);
  }

  lemma {:induction false} ScoreIgnoresListOrder(a: Rankings, b: Rankings, key: string)
    requires multiset(a) == multiset(b)
    ensures Score(a, key) == Score(b, key)
    decreases |a|
  {
    hide ListScore, Without;
    if a == [] {
      assert |multiset(b)| == 0;
    } else {
      var i := Partner(a, b);
      ScoreIgnoresListOrder(Without(a, |a| - 1), Without(b, i), key);
      ScoreWithout(a, |a| - 1, key);
      ScoreWithout(b, i, key);
    }
  }

  lemma {:induction false} ArmsIgnoreListOrder(a: Rankings, b: Rankings, key: string)
    requires multiset(a) == multiset(b)
    ensures multiset(ArmsOf(a, key)) == multiset(ArmsOf(b, key))
    decreases |a|
  {
    hide ListArms, Without;
    if a == [] {
      assert |multiset(b)| == 0;
    } else {
      var i := Partner(a, b);
      ArmsIgnoreListOrder(Without(a, |a| - 1), Without(b, i), key);
      ArmsWithout(a, |a| - 1, key);
      ArmsWithout(b, i, key);
    }
  }

  function Bare(f: Fused): Fused {
    Fused(f.key, [], f.score)
  }

  function BareAll(fs: seq<Fused>): seq<Fused> {
    seq(|fs|, i requires 0 <= i < |fs| => Bare(fs[i]))
  }

  /** Reordering the lists reorders nothing: the same keys with the same scores in the same places. */
  lemma FusionIgnoresListOrder(lists: Rankings, shuffled: Rankings, a: seq<Fused>, b: seq<Fused>)
    requires multiset(lists) == multiset(shuffled)
    requires IsFusion(lists, a) && IsFusion(shuffled, b)
    ensures BareAll(a) == BareAll(b)
    ensures forall f, g | f in a && g in b && f.key == g.key :: multiset(f.arms) == multiset(g.arms)
  {
    hide Score, ArmsOf, Sorting.TextLe;
    forall key
      ensures Score(lists, key) == Score(shuffled, key)
      ensures multiset(ArmsOf(lists, key)) == multiset(ArmsOf(shuffled, key))
      ensures ArmsOf(lists, key) == [] <==> ArmsOf(shuffled, key) == []
    {
      ScoreIgnoresListOrder(lists, shuffled, key);
      ArmsIgnoreListOrder(lists, shuffled, key);
      assert ArmsOf(lists, key) == [] <==> |multiset(ArmsOf(lists, key))| == 0;
      assert ArmsOf(shuffled, key) == [] <==> |multiset(ArmsOf(shuffled, key))| == 0;
    }
    BareHalf(lists, shuffled, a, b);
    BareHalf(shuffled, lists, b, a);
    PrecedesIsAnOrder();
    Sorting.OneOrder(Precedes, KeyOf, BareAll(a), BareAll(b));
  }

  lemma BareHalf(lists: Rankings, shuffled: Rankings, a: seq<Fused>, b: seq<Fused>)
    requires IsFusion(lists, a) && IsFusion(shuffled, b)
    requires forall key :: Score(lists, key) == Score(shuffled, key) && (ArmsOf(lists, key) == [] <==> ArmsOf(shuffled, key) == [])
    ensures InOrder(BareAll(a)) && DistinctKeys(BareAll(a))
    ensures forall f | f in BareAll(a) :: f in BareAll(b)
  {
    hide Score, ArmsOf, Sorting.TextLe;
    forall f | f in BareAll(a)
      ensures f in BareAll(b)
    {
      var i :| 0 <= i < |a| && f == Bare(a[i]);
      assert a[i] in a && Owes(lists, a[i]);
      assert Lists(b, f.key);
      var g :| g in b && g.key == f.key;
      var j :| 0 <= j < |b| && b[j] == g;
      assert BareAll(b)[j] == f;
    }
  }

  // ---------------------------------------------------------------------
  // Agreement beats any single arm
  // ---------------------------------------------------------------------

  ghost predicate RanksOnce(hits: Hits) {
    forall i, j | 0 <= i < j < |hits| :: hits[i].0 != hits[j].0
  }

  lemma {:induction false} ListScoreAbsent(hits: Hits, key: string)
    requires forall i | 0 <= i < |hits| :: hits[i].0 != key
    ensures ListScore(hits, key) == 0.0
  {
    if hits != [] {
      ListScoreAbsent(hits[..|hits| - 1], key);
    }
  }

  /** A list that ranks a key once owes it the reciprocal of that rank. */
  lemma {:induction false} ListScoreIsTheReciprocalRank(hits: Hits, key: string, r: nat)
    requires RanksOnce(hits) && r < |hits| && hits[r].0 == key
    ensures ListScore(hits, key) == Reciprocal(r + 1) == 1.0 / (60 + (r + 1)) as real
  {
    var n := |hits|;
    if r == n - 1 {
      ListScoreAbsent(hits[..n - 1], key);
    } else {
      ListScoreIsTheReciprocalRank(hits[..n - 1], key, r);
    }
  }

  lemma ReciprocalDecreases(a: nat, b: nat)
    requires a <= b
    ensures Reciprocal(a) >= Reciprocal(b)
  {
    var x, y := (RRF_K + a) as real, (RRF_K + b) as real;
    assert 0.0 < x <= y;
    assert 1.0 / x - 1.0 / y == (y - x) / (x * y);
    assert x * y > 0.0;
  }

  lemma {:induction false} TwoListsScore(lists: Rankings, i: nat, j: nat, key: string)
    requires i < j < |lists|
    ensures Score(lists, key) >= ListScore(lists[i].hits, key) + ListScore(lists[j].hits, key)
  {
    var n := |lists|;
    if j == n - 1 {
      OneListScores(lists[..n - 1], i, key);
    } else {
      TwoListsScore(lists[..n - 1], i, j, key);
    }
  }

  lemma {:induction false} OneListScores(lists: Rankings, i: nat, key: string)
    requires i < |lists|
    ensures Score(lists, key) >= ListScore(lists[i].hits, key)
  {
    if i < |lists| - 1 {
      OneListScores(lists[..|lists| - 1], i, key);
    }
  }

  lemma {:induction false} OnlyListScores(lists: Rankings, i: nat, key: string)
    requires i < |lists| && forall k | 0 <= k < |lists| && k != i :: ListScore(lists[k].hits, key) == 0.0
    ensures Score(lists, key) == ListScore(lists[i].hits, key)
  {
    var n := |lists|;
    if i == n - 1 {
      NoListScores(lists[..n - 1], key);
    } else {
      OnlyListScores(lists[..n - 1], i, key);
    }
  }

  lemma {:induction false} NoListScores(lists: Rankings, key: string)
    requires forall k | 0 <= k < |lists| :: ListScore(lists[k].hits, key) == 0.0
    ensures Score(lists, key) == 0.0
  {
    if lists != [] {
      NoListScores(lists[..|lists| - 1], key);
    }
  }

  ghost predicate RanksAt(l: Ranking, key: string, r: nat) {
    r < |l.hits| && l.hits[r].0 == key
  }

  /**
    When no list repeats a key, a key two lists both place in their first 61 comes before every
    key that only one list found, wherever that list placed it.
   */
  lemma AgreementPrecedesAnySingleArm(lists: Rankings, out: seq<Fused>, i: nat, j: nat, ri: nat, rj: nat,
                                      both: string, k: nat, single: string, x: nat, y: nat)
    requires IsFusion(lists, out) && forall l | 0 <= l < |lists| :: RanksOnce(lists[l].hits)
    requires i < j < |lists| && ri < 61 && rj < 61
    requires RanksAt(lists[i], both, ri) && RanksAt(lists[j], both, rj)
    requires k < |lists| && forall l | 0 <= l < |lists| && l != k :: forall r | 0 <= r < |lists[l].hits| :: lists[l].hits[r].0 != single
    requires x < |out| && y < |out| && out[x].key == both && out[y].key == single
    ensures x < y
  {
    hide Score, ListScore, ArmsOf;
    ListScoreIsTheReciprocalRank(lists[i].hits, both, ri);
    ListScoreIsTheReciprocalRank(lists[j].hits, both, rj);
    ReciprocalDecreases(ri + 1, 61);
    ReciprocalDecreases(rj + 1, 61);
    TwoListsScore(lists, i, j, both);
    forall l | 0 <= l < |lists| && l != k
      ensures ListScore(lists[l].hits, single) == 0.0
    {
      ListScoreAbsent(lists[l].hits, single);
    }
    OnlyListScores(lists, k, single);
    AtMostFirst(lists[k].hits, single);
    assert Reciprocal(1) < Reciprocal(61) + Reciprocal(61);
    assert Owes(lists, out[x]) && Owes(lists, out[y]);
    assert out[x].score > out[y].score;
  }

  lemma AtMostFirst(hits: Hits, key: string)
    requires RanksOnce(hits)
    ensures ListScore(hits, key) <= Reciprocal(1)
  {
    hide ListScore;
    if r :| 0 <= r < |hits| && hits[r].0 == key {
      ListScoreIsTheReciprocalRank(hits, key, r);
      ReciprocalDecreases(1, r + 1);
    } else {
      ListScoreAbsent(hits, key);
    }
  }
}
