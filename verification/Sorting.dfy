/** Sorting by an order passed in, and why an order leaves one list of given members. */
module Sorting {
  type Order<!T> = (T, T) -> bool

  ghost predicate IsTotalPreorder<T(!new)>(le: Order<T>) {
    && (forall a, b :: le(a, b) || le(b, a))
    && (forall a, b, c :: le(a, b) && le(b, c) ==> le(a, c))
  }

  ghost predicate InOrder<T>(le: Order<T>, xs: seq<T>) {
    forall i, j | 0 <= i < j < |xs| :: le(xs[i], xs[j])
  }

  ghost predicate DistinctBy<T, K>(key: T -> K, xs: seq<T>) {
    forall i, j | 0 <= i < j < |xs| :: key(xs[i]) != key(xs[j])
  }

  /** After every element that may stand before it. */
  function Insert<T>(le: Order<T>, xs: seq<T>, x: T): seq<T> {
    if xs == [] || le(xs[|xs| - 1], x) then xs + [x]
    else Insert(le, xs[..|xs| - 1], x) + [xs[|xs| - 1]]
  }

  function Sort<T>(le: Order<T>, xs: seq<T>): seq<T> {
    if xs == [] then [] else Insert(le, Sort(le, xs[..|xs| - 1]), xs[|xs| - 1])
  }

  // ---------------------------------------------------------------------
  // The sort orders and keeps everything
  // ---------------------------------------------------------------------

  lemma {:induction false} InsertKeepsAll<T>(le: Order<T>, xs: seq<T>, x: T)
    ensures multiset(Insert(le, xs, x)) == multiset(xs) + multiset{x}
  {
    if xs != [] && !le(xs[|xs| - 1], x) {
      assert xs == xs[..|xs| - 1] + [xs[|xs| - 1]];
      InsertKeepsAll(le, xs[..|xs| - 1], x);
    }
  }

  lemma {:induction false} InsertKeepsOrder<T(!new)>(le: Order<T>, xs: seq<T>, x: T)
    requires IsTotalPreorder(le) && InOrder(le, xs)
    ensures InOrder(le, Insert(le, xs, x))
  {
    if xs != [] {
      var front, last := xs[..|xs| - 1], xs[|xs| - 1];
      if !le(last, x) {
        InsertKeepsOrder(le, front, x);
        InsertKeepsAll(le, front, x);
        var rest := Insert(le, front, x);
        forall i | 0 <= i < |rest|
          ensures le(rest[i], last)
        {
          assert rest[i] in multiset(rest);
          assert rest[i] in front || rest[i] == x;
        }
      }
    }
  }

  lemma {:induction false} SortSorts<T(!new)>(le: Order<T>, xs: seq<T>)
    requires IsTotalPreorder(le)
    ensures InOrder(le, Sort(le, xs)) && multiset(Sort(le, xs)) == multiset(xs)
  {
    hide IsTotalPreorder, InOrder, Insert;
    if xs == [] {
      assert InOrder(le, []) by { SortsNothing(le); }
    } else {
      var front, last := xs[..|xs| - 1], xs[|xs| - 1];
      assert xs == front + [last];
      SortSorts(le, front);
      InsertKeepsOrder(le, Sort(le, front), last);
      InsertKeepsAll(le, Sort(le, front), last);
    }
  }

  lemma SortsOne<T>(le: Order<T>, x: T)
    ensures Sort(le, [x]) == [x]
  {
    assert [x][..0] == [];
    assert Sort(le, [x][..0]) == [];
  }

  lemma SortsNothing<T>(le: Order<T>)
    ensures InOrder(le, [])
  {
  }

  // ---------------------------------------------------------------------
  // Permutations
  // ---------------------------------------------------------------------

  lemma SameMembers<T>(a: seq<T>, b: seq<T>)
    requires multiset(a) == multiset(b)
    ensures |a| == |b| && forall x :: x in a <==> x in b
  {
    assert |multiset(a)| == |multiset(b)|;
    forall x
      ensures x in a <==> x in b
    {
      assert x in a <==> x in multiset(a);
      assert x in b <==> x in multiset(b);
    }
  }

  lemma DistinctIsPermuted<T, K>(key: T -> K, a: seq<T>, b: seq<T>)
    requires DistinctBy(key, a) && multiset(a) == multiset(b)
    ensures DistinctBy(key, b)
  {
    forall i, j | 0 <= i < j < |b|
      ensures key(b[i]) != key(b[j])
    {
      if b[i] == b[j] {
        TwiceInMultiset(b, i, j);
        OnceInMultiset(key, a, b[i]);
      } else {
        SameMembers(a, b);
        assert b[i] in a && b[j] in a;
      }
    }
  }

  lemma TwiceInMultiset<T>(b: seq<T>, i: nat, j: nat)
    requires i < j < |b| && b[i] == b[j]
    ensures multiset(b)[b[i]] >= 2
  {
    assert b == b[..j] + b[j..] && b[..j][i] == b[i] && b[j..][0] == b[j];
    assert multiset(b) == multiset(b[..j]) + multiset(b[j..]);
    assert b[i] in multiset(b[..j]) && b[j] in multiset(b[j..]);
  }

  lemma {:induction false} OnceInMultiset<T, K>(key: T -> K, a: seq<T>, x: T)
    requires DistinctBy(key, a)
    ensures multiset(a)[x] <= 1
  {
    if a != [] {
      var front, last := a[..|a| - 1], a[|a| - 1];
      assert a == front + [last];
      OnceInMultiset(key, front, x);
      if x == last {
        assert x !in front;
        assert x !in multiset(front);
      }
    }
  }

  // ---------------------------------------------------------------------
  // One order
  // ---------------------------------------------------------------------

  lemma FirstIsAMember<T>(a: seq<T>)
    ensures a != [] ==> a[0] in a
    ensures a != [] <==> exists x :: x in a
  {
    if a != [] {
      assert a[0] in a;
    }
  }

  lemma HeadApart<T, K>(key: T -> K, a: seq<T>)
    requires a != [] && DistinctBy(key, a)
    ensures DistinctBy(key, a[1..])
    ensures forall x :: x in a[1..] <==> x in a && x != a[0]
  {
    forall x | x in a[1..]
      ensures x in a && x != a[0]
    {
      var i :| 0 <= i < |a| - 1 && a[1..][i] == x;
      assert a[i + 1] == x;
    }
    forall x | x in a && x != a[0]
      ensures x in a[1..]
    {
      var i :| 0 <= i < |a| && a[i] == x;
      assert a[1..][i - 1] == x;
    }
  }

  /** Two ordered lists of the same members, each listed once, are one list, if members that tie are equal. */
  lemma {:induction false} OneOrder<T, K>(le: Order<T>, key: T -> K, a: seq<T>, b: seq<T>)
    requires InOrder(le, a) && InOrder(le, b) && DistinctBy(key, a) && DistinctBy(key, b)
    requires forall x :: x in a <==> x in b
    requires forall x, y | x in a && y in a && le(x, y) && le(y, x) :: x == y
    ensures a == b
  {
    FirstIsAMember(a);
    FirstIsAMember(b);
    if a != [] {
      OneHead(le, a, b);
      HeadApart(key, a);
      HeadApart(key, b);
      TailInOrder(le, a);
      TailInOrder(le, b);
      hide InOrder, DistinctBy;
      OneOrder(le, key, a[1..], b[1..]);
      assert a == [a[0]] + a[1..] && b == [b[0]] + b[1..];
    }
  }

  lemma TailInOrder<T>(le: Order<T>, a: seq<T>)
    requires InOrder(le, a) && a != []
    ensures InOrder(le, a[1..])
  {
  }

  lemma OneHead<T>(le: Order<T>, a: seq<T>, b: seq<T>)
    requires InOrder(le, a) && InOrder(le, b) && a != [] && b != []
    requires forall x :: x in a <==> x in b
    requires forall x, y | x in a && y in a && le(x, y) && le(y, x) :: x == y
    ensures a[0] == b[0]
  {
    assert a[0] in b && b[0] in a;
    var j :| 0 <= j < |b| && b[j] == a[0];
    var i :| 0 <= i < |a| && a[i] == b[0];
  }

  // ---------------------------------------------------------------------
  // Texts in order
  // ---------------------------------------------------------------------

  predicate TextLe(a: string, b: string) {
    a == "" || (b != "" && (a[0] < b[0] || (a[0] == b[0] && TextLe(a[1..], b[1..]))))
  }

  lemma {:induction false} TextLeIsTotal(a: string, b: string)
    ensures TextLe(a, b) || TextLe(b, a)
    ensures TextLe(a, b) && TextLe(b, a) ==> a == b
  {
    if a != "" && b != "" {
      TextLeIsTotal(a[1..], b[1..]);
      assert a == [a[0]] + a[1..] && b == [b[0]] + b[1..];
    }
  }

  lemma {:induction false} TextLeIsTransitive(a: string, b: string, c: string)
    requires TextLe(a, b) && TextLe(b, c)
    ensures TextLe(a, c)
  {
    if a != "" && b != "" && c != "" {
      if a[0] == b[0] && b[0] == c[0] {
        TextLeIsTransitive(a[1..], b[1..], c[1..]);
      }
    }
  }

  /** Texts stand in order when the first is a prefix of the second, or smaller at the first place they differ. */
  lemma {:induction false} TextLeIsLexicographic(a: string, b: string)
    ensures TextLe(a, b) <==>
            a <= b || exists k :: 0 <= k < |a| && k < |b| && a[..k] == b[..k] && a[k] < b[k]
  {
    if a != "" && b != "" && a[0] == b[0] {
      TextLeIsLexicographic(a[1..], b[1..]);
      assert a == [a[0]] + a[1..] && b == [b[0]] + b[1..];
      assert a[1..] <= b[1..] <==> a <= b;
      if k :| 0 <= k < |a| - 1 && k < |b| - 1 && a[1..][..k] == b[1..][..k] && a[1..][k] < b[1..][k] {
        assert a[..k + 1] == [a[0]] + a[1..][..k] && b[..k + 1] == [b[0]] + b[1..][..k];
        assert a[k + 1] < b[k + 1];
      }
      if k :| 0 <= k < |a| && k < |b| && a[..k] == b[..k] && a[k] < b[k] {
        assert a[1..][..k - 1] == a[..k][1..] && b[1..][..k - 1] == b[..k][1..];
        assert a[1..][k - 1] < b[1..][k - 1];
      }
    } else if a != "" && b != "" && a[0] < b[0] {
      assert a[..0] == b[..0];
    }
  }
}
