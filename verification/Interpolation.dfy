/**
  Lagrange interpolation over the integers, one Euclidean division per term, as
  `lagrangeInterpolation` does it with math/big.
 */
module Interpolation {
  import opened FiniteDifferences
  import opened LagrangeWeights
  import opened Sequences

  datatype Point = Point(x: int, y: int)

  function Xs(points: seq<Point>): (xs: seq<int>)
    ensures |xs| == |points|
    ensures forall i :: 0 <= i < |points| ==> xs[i] == points[i].x
  {
    seq(|points|, i requires 0 <= i < |points| => points[i].x)
  }

  /** The product of `base - x` over all x in `xs`. */
  function Product(base: int, xs: seq<int>): int {
    if xs == [] then 1 else Product(base, xs[..|xs| - 1]) * (base - xs[|xs| - 1])
  }

  lemma {:induction false} ProductNonzero(base: int, xs: seq<int>)
    requires base !in xs
    ensures Product(base, xs) != 0
  {
    if xs != [] {
      ProductNonzero(base, xs[..|xs| - 1]);
      NonzeroTimes(Product(base, xs[..|xs| - 1]), base - xs[|xs| - 1]);
    }
  }

  lemma NonzeroTimes(p: int, e: int)
    requires p != 0 && e != 0
    ensures p * e != 0
  {
  }

  /** Distinct coordinates rule out a zero denominator. */
  lemma DenominatorNonzero(xs: seq<int>, i: nat)
    requires Distinct(xs) && i < |xs|
    ensures Product(xs[i], Others(xs, i)) != 0
  {
    var others := Others(xs, i);
    assert forall j :: 0 <= j < |others| ==> others[j] != xs[i];
    ProductNonzero(xs[i], others);
  }

  /**
    What point i contributes to the interpolated value at `x`. A zero denominator, which the
    program would turn into a panic, has no term.
   */
  function Term(x: int, points: seq<Point>, i: nat): int
    requires i < |points|
  {
    var denominator := Product(points[i].x, Others(Xs(points), i));
    if denominator == 0 then 0
    else (points[i].y * Product(x, Others(Xs(points), i))) / denominator
  }

  function SumOfTerms(x: int, points: seq<Point>, n: nat): int
    requires n <= |points|
  {
    if n == 0 then 0 else SumOfTerms(x, points, n - 1) + Term(x, points, n - 1)
  }

  function Interpolate(x: int, points: seq<Point>): int {
    SumOfTerms(x, points, |points|)
  }

  /** The product over the first j coordinates, leaving out coordinate i. */
  ghost function ProductSkipping(base: int, xs: seq<int>, i: nat, j: nat): int
    requires j <= |xs|
  {
    if j == 0 then 1
    else if j - 1 == i then ProductSkipping(base, xs, i, j - 1)
    else ProductSkipping(base, xs, i, j - 1) * (base - xs[j - 1])
  }

  lemma {:induction false} SkippingIsOthers(base: int, xs: seq<int>, i: nat, j: nat)
    requires i < |xs| && j <= |xs|
    ensures ProductSkipping(base, xs, i, j) == Product(base, Others(xs, i)[..if j <= i then j else j - 1])
  {
    if j > 0 {
      SkippingIsOthers(base, xs, i, j - 1);
      var others, n := Others(xs, i), if j <= i then j else j - 1;
      if j - 1 != i {
        assert others[..n][..n - 1] == others[..n - 1];
      }
    }
  }

  /** The inner loop: numerator and denominator of point i. */
  method LagrangeProducts(x: int, points: seq<Point>, i: nat) returns (numerator: int, denominator: int)
    requires i < |points|
    ensures numerator == Product(x, Others(Xs(points), i))
    ensures denominator == Product(points[i].x, Others(Xs(points), i))
  {
    ghost var xs := Xs(points);
    numerator, denominator := 1, 1;
    for j := 0 to |points|
      invariant numerator == ProductSkipping(x, xs, i, j)
      invariant denominator == ProductSkipping(points[i].x, xs, i, j)
    {
      if i != j {
        numerator := numerator * (x - points[j].x);
        denominator := denominator * (points[i].x - points[j].x);
      }
    }
    SkippingIsOthers(x, xs, i, |xs|);
    SkippingIsOthers(points[i].x, xs, i, |xs|);
    assert Others(xs, i)[..|xs| - 1] == Others(xs, i);
  }

  method LagrangeInterpolation(x: int, points: seq<Point>) returns (result: int)
    requires Distinct(Xs(points))
    ensures result == Interpolate(x, points)
  {
    result := 0;
    for i := 0 to |points|
      invariant result == SumOfTerms(x, points, i)
    {
      var numerator, denominator := LagrangeProducts(x, points, i);
      DenominatorNonzero(Xs(points), i);
      var term := points[i].y * numerator;
      result := result + term / denominator;
    }
  }

  // ----- blocks of consecutive coordinates

  /** a, a + 1, ..., a + m - 1. */
  ghost function Range(a: int, m: nat): (r: seq<int>)
    ensures |r| == m
    ensures forall i :: 0 <= i < m ==> r[i] == a + i
  {
    seq(m, i => a + i)
  }

  /** The coordinates are consecutive integers from `a` on, in any order. */
  ghost predicate IsBlock(xs: seq<int>, a: int) {
    multiset(xs) == multiset(Range(a, |xs|))
  }

  lemma BlockMember(xs: seq<int>, a: int, x: int)
    requires IsBlock(xs, a)
    ensures x in xs <==> a <= x < a + |xs|
  {
    var r := Range(a, |xs|);
    assert x in xs <==> x in multiset(xs);
    assert x in r <==> x in multiset(r);
    if a <= x < a + |xs| {
      assert r[x - a] == x;
    }
  }

  lemma BlockDistinct(xs: seq<int>, a: int)
    requires IsBlock(xs, a)
    ensures Distinct(xs)
  {
    forall i, j | 0 <= i < j < |xs|
      ensures xs[i] != xs[j]
    {
      BlockMember(xs, a, xs[i]);
      var t := xs[i] - a;
      SplitRange(a, |xs|, t);
      assert xs[i] !in Range(a, t) && xs[i] !in Range(a + t + 1, |xs| - 1 - t);
      if xs[i] == xs[j] {
        OccursTwice(xs, i, j);
      }
    }
  }

  lemma SplitRange(a: int, m: nat, t: nat)
    requires t < m
    ensures Range(a, m) == Range(a, t) + [a + t] + Range(a + t + 1, m - 1 - t)
    ensures multiset(Range(a, m)) ==
            multiset(Range(a, t)) + multiset{a + t} + multiset(Range(a + t + 1, m - 1 - t))
  {
  }

  // ----- products do not depend on the order

  lemma SwapFactors(p: int, u: int, v: int)
    ensures (p * u) * v == (p * v) * u
    ensures (p * u) * v == p * (u * v)
  {
  }

  lemma {:induction false} ProductRemove(base: int, xs: seq<int>, i: nat)
    requires i < |xs|
    ensures Product(base, xs) == Product(base, Others(xs, i)) * (base - xs[i])
  {
    var n := |xs| - 1;
    var init := xs[..n];
    if i == n {
      assert Others(xs, n) == init;
    } else {
      ProductRemove(base, init, i);
      var rest := Others(xs, i);
      assert rest[..n - 1] == Others(init, i) && rest[n - 1] == xs[n];
      SwapFactors(Product(base, Others(init, i)), base - xs[i], base - xs[n]);
    }
  }

  lemma {:induction false} ProductPermutation(base: int, xs: seq<int>, ys: seq<int>)
    requires multiset(xs) == multiset(ys)
    ensures Product(base, xs) == Product(base, ys)
    decreases |xs|
  {
    if xs == [] {
      assert |multiset(ys)| == 0;
    } else {
      var j := MatchLast(xs, ys);
      ProductPermutation(base, xs[..|xs| - 1], Others(ys, j));
      ProductRemove(base, ys, j);
    }
  }

  lemma {:induction false} ProductAppend(base: int, xs: seq<int>, ys: seq<int>)
    ensures Product(base, xs + ys) == Product(base, xs) * Product(base, ys)
  {
    if ys == [] {
      assert xs + ys == xs;
    } else {
      var init, e := ys[..|ys| - 1], base - ys[|ys| - 1];
      ProductAppend(base, xs, init);
      assert (xs + ys)[..|xs + ys| - 1] == xs + init;
      SwapFactors(Product(base, xs), Product(base, init), e);
    }
  }

  // ----- the Lagrange products of a block

  lemma {:induction false} ProductFromZero(a: int, r: nat)
    ensures Product(0, Range(a, r)) == Sign(r) * Rising(a, r)
  {
    if r > 0 {
      ProductFromZero(a, r - 1);
      RangeProduct(0, a, r);
      FlipSign(Sign(r - 1), Rising(a, r - 1), a + r - 1);
    }
  }

  lemma RangeProduct(base: int, a: int, r: nat)
    requires r > 0
    ensures Product(base, Range(a, r)) == Product(base, Range(a, r - 1)) * (base - (a + r - 1))
  {
    assert Range(a, r)[..r - 1] == Range(a, r - 1);
  }

  lemma FlipSign(s: int, p: int, e: int)
    ensures (s * p) * (0 - e) == (0 - s) * (p * e)
    ensures (s * p) * (0 - e) == (0 - s) * (e * p)
  {
  }

  /** Coordinates above x = a - 1 contribute r! up to sign to the denominator. */
  lemma {:induction false} ProductAbove(a: int, r: nat)
    ensures Product(a - 1, Range(a, r)) == Sign(r) * Factorial(r)
  {
    if r > 0 {
      ProductAbove(a, r - 1);
      RangeProduct(a - 1, a, r);
      FlipSign(Sign(r - 1), Factorial(r - 1), r);
    }
  }

  /** Coordinates below x = a + t contribute t! to the denominator. */
  lemma {:induction false} ProductBelow(a: int, t: nat)
    ensures Product(a + t, Range(a, t)) == Factorial(t)
    decreases t
  {
    if t > 0 {
      var xs := Range(a, t);
      ProductRemove(a + t, xs, 0);
      assert Others(xs, 0) == Range(a + 1, t - 1);
      ProductBelow(a + 1, t - 1);
    }
  }

  /** Removing coordinate a + t leaves the coordinates below and above it. */
  lemma BlockOthers(xs: seq<int>, a: int, i: nat, t: nat)
    requires IsBlock(xs, a) && i < |xs| && xs[i] == a + t && t < |xs|
    ensures multiset(Others(xs, i)) ==
            multiset(Range(a, t)) + multiset(Range(a + t + 1, |xs| - 1 - t))
  {
    SplitRange(a, |xs|, t);
    OthersMultiset(xs, i);
    TakeOut(multiset(Range(a, t)), a + t, multiset(Range(a + t + 1, |xs| - 1 - t)));
  }

  lemma TakeOut(below: multiset<int>, x: int, above: multiset<int>)
    ensures below + multiset{x} + above - multiset{x} == below + above
  {
  }

  lemma ProductOfOthers(base: int, xs: seq<int>, a: int, i: nat, t: nat)
    requires IsBlock(xs, a) && i < |xs| && xs[i] == a + t && t < |xs|
    ensures Product(base, Others(xs, i)) ==
            Product(base, Range(a, t)) * Product(base, Range(a + t + 1, |xs| - 1 - t))
  {
    var lo, hi := Range(a, t), Range(a + t + 1, |xs| - 1 - t);
    BlockOthers(xs, a, i, t);
    ProductPermutation(base, Others(xs, i), lo + hi);
    ProductAppend(base, lo, hi);
  }

  /** The denominator of coordinate a + t: t! * (m - 1 - t)! up to sign. */
  lemma BlockDenominator(xs: seq<int>, a: int, i: nat, t: nat)
    requires IsBlock(xs, a) && i < |xs| && xs[i] == a + t && t < |xs|
    ensures Product(xs[i], Others(xs, i)) ==
            Factorial(t) * (Sign(|xs| - 1 - t) * Factorial(|xs| - 1 - t))
  {
    ProductOfOthers(a + t, xs, a, i, t);
    ProductBelow(a, t);
    ProductAbove(a + t + 1, |xs| - 1 - t);
  }

  /** The numerator of coordinate a + t: the product of the other coordinates up to sign. */
  lemma BlockNumerator(xs: seq<int>, a: int, i: nat, t: nat)
    requires IsBlock(xs, a) && i < |xs| && xs[i] == a + t && t < |xs|
    ensures Product(0, Others(xs, i)) ==
            (Sign(t) * Rising(a, t)) * (Sign(|xs| - 1 - t) * Rising(a + t + 1, |xs| - 1 - t))
  {
    ProductOfOthers(0, xs, a, i, t);
    ProductFromZero(a, t);
    ProductFromZero(a + t + 1, |xs| - 1 - t);
  }

  /** For consecutive coordinates the numerator is the integer weight times the denominator. */
  lemma NumeratorIsMultiple(xs: seq<int>, a: nat, i: nat, x: int) returns (w: int, d: int, n: int)
    requires IsBlock(xs, a) && i < |xs| && x == xs[i]
    ensures a <= x < a + |xs|
    ensures w == Weights(a, |xs|)[x - a]
    ensures d == Product(x, Others(xs, i)) != 0
    ensures n == Product(0, Others(xs, i)) == w * d
  {
    d, n := Product(x, Others(xs, i)), Product(0, Others(xs, i));
    BlockMember(xs, a, xs[i]);
    BlockDistinct(xs, a);
    DenominatorNonzero(xs, i);
    var t := xs[i] - a;
    var r := |xs| - 1 - t;
    BlockDenominator(xs, a, i, t);
    BlockNumerator(xs, a, i, t);
    WeightsAreQuotients(a, |xs|, t);
    w := Weights(a, |xs|)[t];
    SignsCancel(w, Factorial(t), Factorial(r), Sign(t), Sign(r),
                Rising(a, t), Rising(a + t + 1, r));
  }

  lemma SignsCancel(w: int, p: int, q: int, s: int, s': int, u: int, v: int)
    requires w * (p * q) == s * (u * v)
    ensures (s * u) * (s' * v) == w * (p * (s' * q))
  {
    calc {
      (s * u) * (s' * v);
      s' * (s * (u * v));
      s' * (w * (p * q));
      w * (p * (s' * q));
    }
  }

  /** The term (y * n) / d is computed without remainder, and it is w * y. */
  ghost predicate ExactTerm(y: int, n: int, d: int, w: int) {
    d != 0 && (y * n) % d == 0 && (y * n) / d == w * y
  }

  /** The division of every term is exact, whatever the share `y`. */
  lemma DivisionIsExact(xs: seq<int>, a: nat, i: nat, y: int) returns (n: int, d: int, w: int)
    requires IsBlock(xs, a) && i < |xs|
    ensures a <= xs[i] < a + |xs|
    ensures n == Product(0, Others(xs, i)) && d == Product(xs[i], Others(xs, i))
    ensures w == Weights(a, |xs|)[xs[i] - a]
    ensures ExactTerm(y, n, d, w)
  {
    w, d, n := NumeratorIsMultiple(xs, a, i, xs[i]);
    ExactQuotient(y, n, d, w);
  }

  lemma ExactQuotient(y: int, n: int, d: int, w: int)
    requires d != 0 && n == w * d
    ensures ExactTerm(y, n, d, w)
  {
    assert y * n == (w * y) * d;
    MultipleHasNoRemainder(w * y, d);
  }
}
