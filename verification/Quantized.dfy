/** Quantised embeddings: the eight-lane integer dot product, and how far int8 takes a cosine from the true one. */
module Quantized {

  // ---------------------------------------------------------------------
  // 32-bit arithmetic
  // ---------------------------------------------------------------------

  type I8 = x: int | -128 <= x < 128

  predicate FitsI32(x: int) {
    -0x8000_0000 <= x < 0x8000_0000
  }

  /** Two's-complement truncation to 32 bits, what an unchecked `i32` addition keeps. */
  function Wrap32(x: int): (r: int)
    ensures FitsI32(r) && (FitsI32(x) ==> r == x)
  {
    (x + 0x8000_0000) % 0x1_0000_0000 - 0x8000_0000
  }

  lemma WrapAbsorbs(x: int, y: int)
    ensures Wrap32(Wrap32(x) + y) == Wrap32(x + y)
    ensures Wrap32(x + Wrap32(y)) == Wrap32(x + y)
  {
    SameResidue(x, (x + 0x8000_0000) / 0x1_0000_0000, y);
    SameResidue(y, (y + 0x8000_0000) / 0x1_0000_0000, x);
  }

  lemma SameResidue(x: int, turns: int, y: int)
    ensures (x - 0x1_0000_0000 * turns + y + 0x8000_0000) % 0x1_0000_0000 == (x + y + 0x8000_0000) % 0x1_0000_0000
  {
  }

  // ---------------------------------------------------------------------
  // The dot product
  // ---------------------------------------------------------------------

  function Product(x: I8, y: I8): (r: int)
    ensures -16384 <= r <= 16384
  {
    ProductBound(x, y, 128);
    x as int * y as int
  }

  /** The plain sum of products. */
  function Dot(a: seq<I8>, b: seq<I8>): int
    requires |a| == |b|
  {
    if a == [] then 0 else Dot(a[..|a| - 1], b[..|b| - 1]) + Product(a[|a| - 1], b[|b| - 1])
  }

  function SumOf(s: seq<int>): int {
    if s == [] then 0 else SumOf(s[..|s| - 1]) + s[|s| - 1]
  }

  lemma {:induction false} SumOfUpdate(s: seq<int>, k: nat, x: int)
    requires k < |s|
    ensures SumOf(s[k := x]) == SumOf(s) - s[k] + x
  {
    var t := s[k := x];
    if k < |s| - 1 {
      SumOfUpdate(s[..|s| - 1], k, x);
      assert t[..|t| - 1] == s[..|s| - 1][k := x];
    } else {
      assert t[..|t| - 1] == s[..|s| - 1];
    }
  }

  lemma {:induction false} SumOfZeros(n: nat)
    ensures SumOf(seq(n, _ => 0)) == 0
  {
    if n > 0 {
      SumOfZeros(n - 1);
      assert seq(n, _ => 0)[..n - 1] == seq(n - 1, _ => 0);
    }
  }

  lemma DotStep(a: seq<I8>, b: seq<I8>, i: nat)
    requires |a| == |b| && i < |a|
    ensures Dot(a[..i + 1], b[..i + 1]) == Dot(a[..i], b[..i]) + Product(a[i], b[i])
  {
    assert a[..i + 1][..i] == a[..i] && b[..i + 1][..i] == b[..i];
  }

  lemma ProductBound(x: int, y: int, m: nat)
    requires 0 - m <= x <= m && 0 - m <= y <= m
    ensures -(m * m) <= x * y <= m * m
  {
    assert (m - x) * (m + y) >= 0 && (m + x) * (m - y) >= 0;
    assert (m - x) * (m - y) >= 0 && (m + x) * (m + y) >= 0;
  }

  /** The longest vectors whose dot product cannot leave 32 bits, whatever their int8 values. */
  const SAFE_DIMS := 131_071

  /**
    After `c` blocks and `k` lanes of the next: each lane is its exact total truncated, the exact totals are bounded
    and add up to the dot product so far, and nothing has overflowed in vectors short enough.
   */
  ghost predicate Lanes(acc: seq<int>, exact: seq<int>, a: seq<I8>, b: seq<I8>, c: nat, k: nat, overflowed: bool) {
    && |a| == |b| && |acc| == |exact| == 8 && k <= 8 && 8 * c + k <= |a|
    && (forall j | 0 <= j < 8 :: acc[j] == Wrap32(exact[j]) && Bounded(exact[j], if j < k then c + 1 else c))
    && SumOf(exact) == Dot(a[..8 * c + k], b[..8 * c + k])
    && (|a| <= SAFE_DIMS ==> !overflowed)
    && (!overflowed ==> acc == exact)
  }

  predicate Bounded(x: int, terms: nat) {
    -16384 * terms <= x <= 16384 * terms
  }

  /** A running total of the first `i` products, truncated. */
  ghost predicate Total(sum: int, exact: int, n: nat, terms: nat, overflowed: bool) {
    && sum == Wrap32(exact) && Bounded(exact, terms)
    && (n <= SAFE_DIMS ==> !overflowed) && (!overflowed ==> sum == exact)
  }

  /** Adding a product, or a lane, to a truncated total. */
  lemma Add(sum: int, exact: int, terms: nat, lane: int, step: int, more: nat, n: nat, overflowed: bool)
    requires Total(sum, exact, n, terms, overflowed) && Total(lane, step, n, more, overflowed)
    requires terms + more <= n
    ensures Total(Wrap32(sum + lane), exact + step, n, terms + more, overflowed || !FitsI32(sum + lane))
  {
    WrapAbsorbs(exact, lane);
    WrapAbsorbs(exact, step);
  }

  lemma TotalOfOne(product: int, n: nat, overflowed: bool)
    requires Bounded(product, 1) && (n <= SAFE_DIMS ==> !overflowed)
    ensures Total(product, product, n, 1, overflowed)
  {
  }

  lemma LaneStep(acc: seq<int>, exact: seq<int>, a: seq<I8>, b: seq<I8>, c: nat, k: nat, overflowed: bool)
    requires Lanes(acc, exact, a, b, c, k, overflowed) && k < 8 && 8 * c + k < |a|
    ensures var product := Product(a[8 * c + k], b[8 * c + k]);
            Lanes(acc[k := Wrap32(acc[k] + product)], exact[k := exact[k] + product], a, b, c, k + 1,
                  overflowed || !FitsI32(acc[k] + product))
  {
    hide SumOf, Dot, Product, Wrap32, FitsI32;
    var i := 8 * c + k;
    var product := Product(a[i], b[i]);
    SumOfUpdate(exact, k, exact[k] + product);
    DotStep(a, b, i);
    assert i + 1 == 8 * c + (k + 1);
    TotalOfOne(product, |a|, overflowed);
    Add(acc[k], exact[k], c, product, product, 1, |a|, overflowed);
  }

  lemma LanesStart(acc: seq<int>, a: seq<I8>, b: seq<I8>)
    requires |a| == |b| && |acc| == 8 && forall j | 0 <= j < 8 :: acc[j] == 0
    ensures Lanes(acc, seq(8, _ => 0), a, b, 0, 0, false)
  {
    SumOfZeros(8);
    hide SumOf;
    assert acc == seq(8, _ => 0);
  }

  lemma NextBlock(acc: seq<int>, exact: seq<int>, a: seq<I8>, b: seq<I8>, c: nat, overflowed: bool)
    requires Lanes(acc, exact, a, b, c, 8, overflowed)
    ensures Lanes(acc, exact, a, b, c + 1, 0, overflowed)
  {
    hide SumOf, Dot, Wrap32;
    assert 8 * (c + 1) + 0 == 8 * c + 8;
  }

  /** Every lane, once the blocks are done, seen as a running total of one product a block. */
  ghost predicate AllTotals(acc: seq<int>, exact: seq<int>, n: nat, c: nat, overflowed: bool) {
    |acc| == |exact| == 8 && forall k | 0 <= k < 8 :: Total(acc[k], exact[k], n, c, overflowed)
  }

  lemma LanesDone(acc: seq<int>, exact: seq<int>, a: seq<I8>, b: seq<I8>, c: nat, overflowed: bool)
    requires Lanes(acc, exact, a, b, c, 0, overflowed)
    ensures AllTotals(acc, exact, |a|, c, overflowed) && Total(0, SumOf(exact[..0]), |a|, 0, overflowed)
    ensures SumOf(exact) == Dot(a[..8 * c], b[..8 * c])
  {
    hide Dot, Wrap32;
  }

  lemma SumLane(acc: seq<int>, exact: seq<int>, k: nat, n: nat, c: nat, sum: int, overflowed: bool)
    requires AllTotals(acc, exact, n, c, overflowed) && k < 8 && 8 * c <= n
    requires Total(sum, SumOf(exact[..k]), n, k * c, overflowed)
    ensures Total(Wrap32(sum + acc[k]), SumOf(exact[..k + 1]), n, (k + 1) * c, overflowed || !FitsI32(sum + acc[k]))
    ensures AllTotals(acc, exact, n, c, overflowed || !FitsI32(sum + acc[k]))
  {
    assert exact[..k + 1][..k] == exact[..k];
    assert (k + 1) * c == k * c + c && (k + 1) * c <= 8 * c;
    assert SumOf(exact[..k + 1]) == SumOf(exact[..k]) + exact[k];
    hide SumOf, Wrap32, FitsI32, Bounded;
    Add(sum, SumOf(exact[..k]), k * c, acc[k], exact[k], c, n, overflowed);
  }

  lemma AddProduct(a: seq<I8>, b: seq<I8>, i: nat, sum: int, overflowed: bool)
    requires |a| == |b| && i < |a| && Total(sum, Dot(a[..i], b[..i]), |a|, i, overflowed)
    ensures var next := sum + Product(a[i], b[i]);
            Total(Wrap32(next), Dot(a[..i + 1], b[..i + 1]), |a|, i + 1, overflowed || !FitsI32(next))
  {
    var product := Product(a[i], b[i]);
    DotStep(a, b, i);
    hide Dot, Product;
    assert Total(product, product, |a|, 1, overflowed);
    hide Total, Wrap32, FitsI32;
    Add(sum, Dot(a[..i], b[..i]), i, product, product, 1, |a|, overflowed);
  }

  lemma TotalMeans(sum: int, exact: int, n: nat, terms: nat, overflowed: bool)
    requires Total(sum, exact, n, terms, overflowed)
    ensures sum == Wrap32(exact) && (!overflowed ==> sum == exact) && (n <= SAFE_DIMS ==> !overflowed)
  {
  }

  /**
    Eight running totals over whole blocks of eight, then their sum, then the rest one by one.
    `overflowed` tells whether any addition on the way left 32 bits: a checked build stops there, an unchecked one
    truncates and goes on.
   */
  method DotI8Portable(left: seq<I8>, right: seq<I8>) returns (sum: int, overflowed: bool)
    ensures var n := if |left| < |right| then |left| else |right|;
            && sum == Wrap32(Dot(left[..n], right[..n]))
            && (!overflowed ==> sum == Dot(left[..n], right[..n]))
            && (n <= SAFE_DIMS ==> !overflowed)
  {
    hide Wrap32, Dot, SumOf, FitsI32, Lanes, Total, AllTotals;
    var n := if |left| < |right| then |left| else |right|;
    var a, b := left[..n], right[..n];
    var acc := new int[8](_ => 0);
    overflowed := false;
    var blocks := n / 8;
    ghost var exact: seq<int> := seq(8, _ => 0);
    LanesStart(acc[..], a, b);
    for c := 0 to blocks
      invariant |exact| == 8 && Lanes(acc[..], exact, a, b, c, 0, overflowed)
    {
      for k := 0 to 8
        invariant |exact| == 8 && Lanes(acc[..], exact, a, b, c, k, overflowed)
      {
        var product := Product(a[8 * c + k], b[8 * c + k]);
        LaneStep(acc[..], exact, a, b, c, k, overflowed);
        ghost var next := acc[..][k := Wrap32(acc[k] + product)];
        overflowed := overflowed || !FitsI32(acc[k] + product);
        acc[k] := Wrap32(acc[k] + product);
        exact := exact[k := exact[k] + product];
        assert acc[..] == next;
      }
      NextBlock(acc[..], exact, a, b, c, overflowed);
    }
    sum := 0;
    ghost var lanes := acc[..];
    LanesDone(lanes, exact, a, b, blocks, overflowed);
    for k := 0 to 8
      invariant acc[..] == lanes
      invariant AllTotals(lanes, exact, n, blocks, overflowed)
      invariant Total(sum, SumOf(exact[..k]), n, k * blocks, overflowed)
    {
      SumLane(lanes, exact, k, n, blocks, sum, overflowed);
      overflowed := overflowed || !FitsI32(sum + acc[k]);
      sum := Wrap32(sum + acc[k]);
    }
    assert exact[..8] == exact;
    for i := 8 * blocks to n
      invariant Total(sum, Dot(a[..i], b[..i]), n, i, overflowed)
    {
      var product := Product(a[i], b[i]);
      AddProduct(a, b, i, sum, overflowed);
      overflowed := overflowed || !FitsI32(sum + product);
      sum := Wrap32(sum + product);
    }
    TotalMeans(sum, Dot(a[..n], b[..n]), n, n, overflowed);
    assert a[..n] == left[..n] && b[..n] == right[..n];
  }

  lemma {:induction false} DotBound(a: seq<I8>, b: seq<I8>, m: nat)
    requires |a| == |b|
    requires forall i | 0 <= i < |a| :: 0 - m <= a[i] <= m && 0 - m <= b[i] <= m
    ensures -(m * m * |a|) <= Dot(a, b) <= m * m * |a|
  {
    if a != [] {
      var n := |a| - 1;
      DotBound(a[..n], b[..n], m);
      ProductBound(a[n], b[n], m);
      assert m * m * |a| == m * m * n + m * m;
    }
  }

  lemma {:induction false} DotOfExtremes(n: nat)
    ensures Dot(seq(n, _ => -128), seq(n, _ => -128)) == 16384 * n
  {
    if n > 0 {
      DotOfExtremes(n - 1);
      var s: seq<I8> := seq(n, _ => -128);
      assert s[..n - 1] == seq(n - 1, _ => -128);
    }
  }

  /** The bound on the dimensions is the best there is: one more, all at -128, and the sum changes sign. */
  lemma OneMoreDimensionOverflows()
    ensures var a: seq<I8> := seq(SAFE_DIMS + 1, _ => -128);
            Dot(a, a) == 0x8000_0000 && Wrap32(Dot(a, a)) == -0x8000_0000
  {
    DotOfExtremes(SAFE_DIMS + 1);
  }

  // ---------------------------------------------------------------------
  // Quantising
  // ---------------------------------------------------------------------

  datatype QVec = QVec(scale: real, bytes: seq<I8>)

  /** `f32::EPSILON`, two to the power -23. */
  const EPSILON: real := 1.0 / 8_388_608.0

  function Abs(x: real): (r: real)
    ensures r >= 0.0 && (r == x || r == -x) && x <= r && -x <= r
  {
    if x < 0.0 then -x else x
  }

  /** Nearest integer, halves away from zero. */
  function Round(x: real): (r: int)
    ensures Abs(r as real - x) <= 0.5
    ensures Abs(r as real - x) == 0.5 ==> Abs(r as real) > Abs(x)
  {
    if x >= 0.0 then (x + 0.5).Floor else -((-x + 0.5).Floor)
  }

  function Clamp127(x: int): I8 {
    if x < -127 then -127 else if x > 127 then 127 else x
  }

  /** A product, named so that proofs about sums of products can treat it as a unit. */
  function Times(x: real, y: real): real {
    x * y
  }

  function DotReal(a: seq<real>, b: seq<real>): real
    requires |a| == |b|
  {
    if a == [] then 0.0 else DotReal(a[..|a| - 1], b[..|b| - 1]) + Times(a[|a| - 1], b[|b| - 1])
  }

  /** The Euclidean length of a vector, as an exact root. */
  ghost predicate IsNorm(v: seq<real>, norm: real) {
    norm >= 0.0 && norm * norm == DotReal(v, v)
  }

  function Scaled(v: seq<real>, factor: real): (r: seq<real>)
    ensures |r| == |v| && forall i | 0 <= i < |v| :: r[i] == v[i] * factor
  {
    if v == [] then [] else Scaled(v[..|v| - 1], factor) + [v[|v| - 1] * factor]
  }

  function Unit(v: seq<real>, norm: real): (r: seq<real>) {
    Scaled(v, if norm > EPSILON then 1.0 / norm else 0.0)
  }

  function Peak(v: seq<real>): (p: real)
    ensures p >= 0.0 && forall i | 0 <= i < |v| :: Abs(v[i]) <= p
    ensures p == 0.0 || exists i | 0 <= i < |v| :: Abs(v[i]) == p
  {
    if v == [] then 0.0
    else
      var m := Peak(v[..|v| - 1]);
      var x := Abs(v[|v| - 1]);
      if m < x then x else
        m
  }

  function ScaleFor(peak: real): real {
    if peak > EPSILON then peak / 127.0 else 1.0
  }

  function Component(x: real, scale: real): I8
    requires scale != 0.0
  {
    Clamp127(Round(x / scale))
  }

  /** Normalise to unit length, then to eight bits under one scale. */
  function Quantize(v: seq<real>, norm: real): (q: QVec)
    ensures |q.bytes| == |v|
  {
    var unit := Unit(v, norm);
    var scale := ScaleFor(Peak(unit));
    QVec(scale, seq(|unit|, i requires 0 <= i < |unit| => Component(unit[i], scale)))
  }

  /** The scale is a 127th of the peak when that exceeds two to the power -23, and each byte the nearest multiple. */
  lemma QuantizedByItsPeak(v: seq<real>, norm: real, i: nat)
    requires i < |v|
    ensures var unit, q := Unit(v, norm), Quantize(v, norm);
            && q.scale == (if Peak(unit) > 1.0 / 8_388_608.0 then Peak(unit) / 127.0 else 1.0)
            && (-127.0 <= unit[i] / q.scale <= 127.0 ==> Abs(q.bytes[i] as real - unit[i] / q.scale) <= 0.5)
  {
    hide Unit, Peak;
  }

  function CosineOf(a: QVec, b: QVec): real {
    if |a.bytes| != |b.bytes| then 0.0 else Wrap32(Dot(a.bytes, b.bytes)) as real * a.scale * b.scale
  }

  method Cosine(a: QVec, b: QVec) returns (r: real)
    ensures r == CosineOf(a, b)
  {
    if |a.bytes| != |b.bytes| {
      return 0.0;
    }
    var dot, _ := DotI8Portable(a.bytes, b.bytes);
    assert a.bytes[..|a.bytes|] == a.bytes && b.bytes[..|b.bytes|] == b.bytes;
    return dot as real * a.scale * b.scale;
  }

  // ---------------------------------------------------------------------
  // Products of bounded reals
  // ---------------------------------------------------------------------

  lemma TimesDistributes(x: real, y: real, z: real)
    ensures Times(x + y, z) == Times(x, z) + Times(y, z)
    ensures Times(z, x + y) == Times(z, x) + Times(z, y)
  {
  }

  lemma TimesOne(x: real)
    ensures Times(1.0, x) == x && Times(x, 1.0) == x
  {
  }

  lemma TimesMonotone(x: real, p: real, y: real)
    requires x <= p && 0.0 <= y
    ensures Times(x, y) <= Times(p, y) && Times(y, x) <= Times(y, p)
  {
    assert (p - x) * y >= 0.0;
  }

  lemma AbsOfTimes(x: real, y: real)
    ensures Abs(Times(x, y)) == Times(Abs(x), Abs(y))
  {
    assert (-x) * y == -(x * y) && x * (-y) == -(x * y) && (-x) * (-y) == x * y;
    assert x >= 0.0 && y >= 0.0 ==> x * y >= 0.0;
    assert x < 0.0 && y < 0.0 ==> (-x) * (-y) >= 0.0;
    assert x >= 0.0 && y < 0.0 ==> x * (-y) >= 0.0;
    assert x < 0.0 && y >= 0.0 ==> (-x) * y >= 0.0;
  }

  lemma AbsProduct(x: real, y: real, p: real, q: real)
    requires Abs(x) <= p && Abs(y) <= q
    ensures Abs(Times(x, y)) <= Times(p, q)
  {
    AbsOfTimes(x, y);
    hide Times;
    TimesMonotone(Abs(x), p, Abs(y));
    TimesMonotone(Abs(y), q, p);
  }

  lemma Regroup(a: real, b: real, c: real, d: real)
    ensures Times(Times(Times(a, b), c), d) == Times(Times(a, c), Times(b, d))
  {
  }

  lemma {:induction false} RealOfProduct(b: int, c: int)
    ensures (b * c) as real == Times(b as real, c as real)
    decreases if b < 0 then -b else b
  {
    if b > 0 {
      RealOfProduct(b - 1, c);
      assert b * c == (b - 1) * c + c;
    } else if b < 0 {
      RealOfProduct(b + 1, c);
      assert b * c == (b + 1) * c - c;
    }
  }

  // ---------------------------------------------------------------------
  // How close a byte times its scale is to the component it stands for
  // ---------------------------------------------------------------------

  /** A stored byte stands for a component to within half a step, and neither exceeds the peak. */
  ghost predicate Close(b: int, scale: real, x: real, peak: real) {
    && Abs(Times(b as real, scale) - x) <= peak / 254.0
    && Abs(Times(b as real, scale)) <= peak && Abs(x) <= peak
  }

  lemma QuotientBound(x: real, scale: real, most: real)
    requires scale > 0.0 && most >= 0.0 && Abs(x) <= most * scale
    ensures (x / scale) * scale == x && Abs(x / scale) <= most
  {
    var y := x / scale;
    assert y * scale == x;
  }

  lemma ByteIsClose(x: real, peak: real)
    requires EPSILON < peak && Abs(x) <= peak
    ensures Close(Component(x, ScaleFor(peak)), ScaleFor(peak), x, peak)
  {
    var scale := peak / 127.0;
    assert ScaleFor(peak) == scale && scale > 0.0 && 127.0 * scale == peak;
    QuotientBound(x, scale, 127.0);
    assert Component(x, scale) as int == Round(x / scale);
    hide Round, Times, Abs, ScaleFor, Component, Close;
    RoundedIsClose(Round(x / scale), x / scale, x, scale, peak);
  }

  lemma RoundedIsClose(b: int, y: real, x: real, scale: real, peak: real)
    requires y * scale == x && 127.0 * scale == peak && scale > 0.0
    requires Abs(b as real - y) <= 0.5 && -127 <= b <= 127 && Abs(x) <= peak
    ensures Close(b, scale, x, peak)
  {
    assert Times(y, scale) == x && Times(0.5, scale) == scale / 2.0 && Times(127.0, scale) == peak;
    hide Times;
    AbsProduct(b as real - y, scale, 0.5, scale);
    AbsProduct(b as real, scale, 127.0, scale);
    TimesDistributes(b as real - y, y, scale);
    assert b as real - y + y == b as real;
  }

  lemma ProductsAreClose(d: real, x: real, p: real, e: real, y: real, q: real)
    requires Abs(d - x) <= p / 254.0 && Abs(d) <= p && Abs(e - y) <= q / 254.0 && Abs(y) <= q
    ensures Abs(Times(d, e) - Times(x, y)) <= Times(p, q) / 127.0
  {
    hide Times, Abs;
    AbsProduct(d, e - y, p, q / 254.0);
    AbsProduct(d - x, y, p / 254.0, q);
    TimesDistributes(e - y, y, d);
    TimesDistributes(d - x, x, y);
    assert e - y + y == e && d - x + x == d;
    Halves(p, q);
  }

  lemma Halves(p: real, q: real)
    ensures Times(p, q / 254.0) + Times(p / 254.0, q) == Times(p, q) / 127.0
  {
  }

  /** An integer sum of products with the two scales folded back in. */
  function Rescaled(d: int, s: real, t: real): real {
    Times(Times(d as real, s), t)
  }

  /** A product of two stored bytes stands for a product of components to within an error. */
  ghost predicate ProductClose(b: I8, s: real, x: real, c: I8, t: real, y: real, error: real) {
    Abs(Rescaled(Product(b, c), s, t) - Times(x, y)) <= error
  }

  lemma ProductIsClose(b: I8, s: real, x: real, p: real, c: I8, t: real, y: real, q: real)
    requires Close(b, s, x, p) && Close(c, t, y, q)
    ensures ProductClose(b, s, x, c, t, y, Times(p, q) / 127.0)
  {
    hide Product, Abs, Times;
    RescaledProduct(b, s, c, t);
    ProductsAreClose(Times(b as real, s), x, p, Times(c as real, t), y, q);
  }

  lemma RescaledProduct(b: I8, s: real, c: I8, t: real)
    ensures Rescaled(Product(b, c), s, t) == Times(Times(b as real, s), Times(c as real, t))
  {
    hide Times;
    RealOfProduct(b, c);
    Regroup(b as real, c as real, s, t);
  }

  lemma {:induction false} DotIsClose(a: seq<I8>, s: real, u: seq<real>, b: seq<I8>, t: real, w: seq<real>, error: real)
    requires |a| == |u| == |b| == |w|
    requires forall i | 0 <= i < |a| :: ProductClose(a[i], s, u[i], b[i], t, w[i], error)
    ensures Abs(Rescaled(Dot(a, b), s, t) - DotReal(u, w)) <= Times(|a| as real, error)
  {
    if a == [] {
    } else {
      hide Rescaled, Product, Abs, Times;
      var n := |a| - 1;
      DotIsClose(a[..n], s, u[..n], b[..n], t, w[..n], error);
      assert ProductClose(a[n], s, u[n], b[n], t, w[n], error);
      ErrorsAdd(Dot(a[..n], b[..n]), Product(a[n], b[n]), s, t, DotReal(u[..n], w[..n]), Times(u[n], w[n]), n, error);
    }
  }

  lemma ErrorsAdd(before: int, product: int, s: real, t: real, exact: real, step: real, n: nat, e: real)
    requires Abs(Rescaled(before, s, t) - exact) <= Times(n as real, e) && Abs(Rescaled(product, s, t) - step) <= e
    ensures Abs(Rescaled(before + product, s, t) - (exact + step)) <= Times((n + 1) as real, e)
  {
    TimesOne(e);
    hide Times, Abs;
    TimesDistributes(before as real, product as real, s);
    TimesDistributes(Times(before as real, s), Times(product as real, s), t);
    TimesDistributes(n as real, 1.0, e);
  }

  /**
    The quantised cosine is within n * p * q / 127 of the dot product of the unit vectors, p and q being their
    largest components in magnitude.
   */
  ghost predicate WithinError(v: seq<real>, norm: real, w: seq<real>, other: real)
    requires |v| == |w|
  {
    Abs(CosineOf(Quantize(v, norm), Quantize(w, other)) - DotReal(Unit(v, norm), Unit(w, other)))
    <= Times(|v| as real, Times(Peak(Unit(v, norm)), Peak(Unit(w, other))) / 127.0)
  }

  lemma CosineRescales(a: QVec, b: QVec)
    requires |a.bytes| == |b.bytes| && FitsI32(Dot(a.bytes, b.bytes))
    ensures CosineOf(a, b) == Rescaled(Dot(a.bytes, b.bytes), a.scale, b.scale)
  {
  }

  /**
    While the integer sum fits in 32 bits and both peaks can be told from zero, the error bound holds at any length.
   */
  lemma CosineIsClose(v: seq<real>, norm: real, w: seq<real>, other: real)
    requires |v| == |w|
    requires EPSILON < Peak(Unit(v, norm)) && EPSILON < Peak(Unit(w, other))
    requires FitsI32(Dot(Quantize(v, norm).bytes, Quantize(w, other).bytes))
    ensures WithinError(v, norm, w, other)
  {
    hide Peak, Close, ProductClose, Component, Round, Unit, Dot, DotReal, Product, Times, Abs;
    var a, b := Quantize(v, norm), Quantize(w, other);
    var u, x := Unit(v, norm), Unit(w, other);
    var p, q := Peak(u), Peak(x);
    forall i | 0 <= i < |v|
      ensures ProductClose(a.bytes[i], a.scale, u[i], b.bytes[i], b.scale, x[i], Times(p, q) / 127.0)
    {
      ByteIsClose(u[i], p);
      ByteIsClose(x[i], q);
      ProductIsClose(a.bytes[i], a.scale, u[i], p, b.bytes[i], b.scale, x[i], q);
    }
    DotIsClose(a.bytes, a.scale, u, b.bytes, b.scale, x, Times(p, q) / 127.0);
    CosineRescales(a, b);
  }

  // ---------------------------------------------------------------------
  // No hypothesis on the peaks or the sum is needed below 133,145 dimensions
  // ---------------------------------------------------------------------

  lemma {:induction false} DotScaled(v: seq<real>, factor: real, w: seq<real>, other: real)
    requires |v| == |w|
    ensures DotReal(Scaled(v, factor), Scaled(w, other)) == Times(Times(factor, other), DotReal(v, w))
  {
    if v == [] {
    } else {
      var n := |v| - 1;
      DotScaled(v[..n], factor, w[..n], other);
      hide Times;
      assert Scaled(v, factor)[..n] == Scaled(v[..n], factor) && Scaled(w, other)[..n] == Scaled(w[..n], other);
      FactorOut(factor, other, DotReal(v[..n], w[..n]), v[n], w[n]);
    }
  }

  lemma FactorOut(f: real, g: real, rest: real, x: real, y: real)
    ensures Times(Times(f, g), rest) + Times(x * f, y * g) == Times(Times(f, g), rest + Times(x, y))
  {
    assert (x * f) * (y * g) == f * g * (x * y);
  }

  lemma InverseOf(x: real)
    requires x != 0.0
    ensures Times(1.0 / x, x) == 1.0
  {
  }

  lemma Cancel(i: real, j: real, n: real, m: real, d: real)
    requires Times(i, n) == 1.0 && Times(j, m) == 1.0
    ensures Times(Times(Times(i, j), d), Times(n, m)) == d
  {
    Regroup(i, j, n, m);
    assert Times(1.0, d) == d && Times(1.0, 1.0) == 1.0;
  }

  /** The dot product of the unit vectors is the cosine of the angle between the vectors given. */
  lemma UnitDotIsTheCosine(v: seq<real>, norm: real, w: seq<real>, other: real)
    requires |v| == |w| && norm > EPSILON && other > EPSILON
    ensures Times(DotReal(Unit(v, norm), Unit(w, other)), Times(norm, other)) == DotReal(v, w)
  {
    hide DotReal, Scaled, Times;
    DotScaled(v, 1.0 / norm, w, 1.0 / other);
    InverseOf(norm);
    InverseOf(other);
    Cancel(1.0 / norm, 1.0 / other, norm, other, DotReal(v, w));
  }

  lemma {:induction false} SquaresUnderThePeak(u: seq<real>, p: real)
    requires forall i | 0 <= i < |u| :: Abs(u[i]) <= p
    ensures DotReal(u, u) <= Times(|u| as real, Times(p, p))
  {
    if u == [] {
    } else {
      hide Times;
      var n := |u| - 1;
      SquaresUnderThePeak(u[..n], p);
      AbsProduct(u[n], u[n], p, p);
      TimesDistributes(n as real, 1.0, Times(p, p));
      TimesOne(Times(p, p));
    }
  }

  /** The largest component of a unit vector of fewer than two to the 46 dimensions can be told from zero. */
  lemma UnitPeakIsVisible(v: seq<real>, norm: real)
    requires IsNorm(v, norm) && norm > EPSILON && |v| < 8_388_608 * 8_388_608
    ensures EPSILON < Peak(Unit(v, norm))
  {
    var u, i := Unit(v, norm), 1.0 / norm;
    assert DotReal(v, v) == Times(norm, norm);
    hide Peak, DotReal, Times, Scaled;
    DotScaled(v, i, v, i);
    InverseOf(norm);
    Cancel(i, i, norm, norm, 1.0);
    TimesOne(Times(i, i));
    TimesOne(1.0);
    assert DotReal(u, u) == 1.0;
    var p := Peak(u);
    SquaresUnderThePeak(u, p);
    NoSmallPeak(|v|, p);
  }

  lemma NoSmallPeak(n: nat, p: real)
    requires n < 8_388_608 * 8_388_608 && p >= 0.0 && 1.0 <= Times(n as real, Times(p, p))
    ensures EPSILON < p
  {
    if p <= EPSILON {
      var most := 8_388_608.0 * 8_388_608.0 - 1.0;
      assert Times(EPSILON, EPSILON) == 1.0 / (most + 1.0);
      var square := Times(EPSILON, EPSILON);
      assert Times(most, square) < 1.0;
      hide Times;
      TimesMonotone(p, EPSILON, p);
      TimesMonotone(p, EPSILON, EPSILON);
      TimesMonotone(Times(p, p), square, n as real);
      TimesMonotone(n as real, most, square);
    }
  }

  /** A vector too short to normalise becomes all zeros. */
  lemma TooShortIsZero(v: seq<real>, norm: real)
    requires norm <= EPSILON
    ensures Peak(Unit(v, norm)) == 0.0
    ensures forall i | 0 <= i < |v| :: Unit(v, norm)[i] == 0.0 && Quantize(v, norm).bytes[i] == 0
  {
    assert forall i | 0 <= i < |v| :: Unit(v, norm)[i] == 0.0;
  }

  lemma {:induction false} DotWithZero(a: seq<I8>, b: seq<I8>, u: seq<real>, w: seq<real>)
    requires |a| == |b| == |u| == |w|
    requires || (forall i | 0 <= i < |a| :: a[i] == 0 && u[i] == 0.0)
             || (forall i | 0 <= i < |a| :: b[i] == 0 && w[i] == 0.0)
    ensures Dot(a, b) == 0 && DotReal(u, w) == 0.0
  {
    if a != [] {
      var n := |a| - 1;
      DotWithZero(a[..n], b[..n], u[..n], w[..n]);
    }
  }

  lemma BytesWithin(v: seq<real>, norm: real)
    ensures forall i | 0 <= i < |v| :: -127 <= Quantize(v, norm).bytes[i] as int <= 127
  {
    hide Round, Peak, Unit;
  }

  /**
    For any two vectors of the same length up to 133,144 dimensions, zero vectors included, the error bound holds.
   */
  lemma QuantisedCosineError(v: seq<real>, norm: real, w: seq<real>, other: real)
    requires |v| == |w| <= 133_144 && IsNorm(v, norm) && IsNorm(w, other)
    ensures WithinError(v, norm, w, other)
  {
    hide Dot, DotReal, Peak, Unit, Round, Clamp127, Product;
    var a, b := Quantize(v, norm), Quantize(w, other);
    var u, x := Unit(v, norm), Unit(w, other);
    if norm <= EPSILON || other <= EPSILON {
      if norm <= EPSILON {
        TooShortIsZero(v, norm);
      } else {
        TooShortIsZero(w, other);
      }
      DotWithZero(a.bytes, b.bytes, u, x);
    } else {
      UnitPeakIsVisible(v, norm);
      UnitPeakIsVisible(w, other);
      BytesWithin(v, norm);
      BytesWithin(w, other);
      DotBound(a.bytes, b.bytes, 127);
      CosineIsClose(v, norm, w, other);
    }
  }

  // ---------------------------------------------------------------------
  // Storage
  // ---------------------------------------------------------------------

  type U8 = x: int | 0 <= x < 256

  function ToU8(b: I8): U8 {
    if b < 0 then 256 + b as int else b
  }

  function ToI8(b: U8): I8 {
    if b >= 128 then b as int - 256 else b
  }

  function Pack(q: QVec): (blob: seq<U8>) {
    seq(|q.bytes|, i requires 0 <= i < |q.bytes| => ToU8(q.bytes[i]))
  }

  function Unpack(blob: seq<U8>, scale: real): (q: QVec) {
    QVec(scale, seq(|blob|, i requires 0 <= i < |blob| => ToI8(blob[i])))
  }

  /** Storing and loading are inverse to each other, on every vector and every blob. */
  lemma PackRoundTrip(q: QVec, blob: seq<U8>, scale: real)
    ensures Unpack(Pack(q), q.scale) == q && Pack(Unpack(blob, scale)) == blob
  {
    assert Unpack(Pack(q), q.scale).bytes == q.bytes;
  }
}
