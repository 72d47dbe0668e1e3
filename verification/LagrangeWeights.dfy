/**
  The Lagrange weights at 0 of a block of consecutive integers a, a + 1, ..., a + m - 1.

  `Weights` is built from integers only, by moving the block up one step at a time from
  0, 1, ..., m - 1. Two facts make it the right list: it takes every polynomial with at most
  m coefficients to its value at 0, and each entry times the Lagrange denominator is the
  Lagrange numerator, so the division in the program is exact.
 */
module LagrangeWeights {
  import opened FiniteDifferences

  /** x * (x + 1) * ... * (x + r - 1), a product of r consecutive integers. */
  ghost function Rising(x: int, r: nat): int {
    if r == 0 then 1 else Rising(x, r - 1) * (x + r - 1)
  }

  ghost function Weights(a: nat, m: nat): (w: seq<int>)
    requires m >= 1
    ensures |w| == m
  {
    if a == 0 then [1] + seq(m - 1, _ => 0)
    else
      var w := Weights(a - 1, m);
      AddScaled(w[1..] + [0], -w[0], AlternatingRow(m)[1..])
  }

  // ----- the weights interpolate

  /** Applied to m consecutive values, the weights give the value at 0. */
  lemma {:induction false} WeightsInterpolate(a: nat, m: nat, c: seq<int>)
    requires 1 <= m && |c| <= m
    ensures Weighted(Weights(a, m), c, a) == Eval(c, 0)
  {
    if a == 0 {
      var zeros := seq(m - 1, _ => 0);
      WeightedZeros(zeros, c, 1);
      assert Weights(0, m)[1..] == zeros;
    } else {
      WeightsInterpolate(a - 1, m, c);
      MoveBlock(a, m, c);
    }
  }

  lemma {:induction false} WeightedZeros(w: seq<int>, c: seq<int>, x: int)
    requires forall i :: 0 <= i < |w| ==> w[i] == 0
    ensures Weighted(w, c, x) == 0
  {
    if w != [] {
      WeightedZeros(w[1..], c, x + 1);
    }
  }

  /** Replacing the first value by the combination of the next m leaves the sum unchanged. */
  lemma MoveBlock(a: nat, m: nat, c: seq<int>)
    requires 1 <= a && 1 <= m && |c| <= m
    ensures Weighted(Weights(a, m), c, a) == Weighted(Weights(a - 1, m), c, a - 1)
  {
    var w, row := Weights(a - 1, m), AlternatingRow(m);
    WeightedAddScaled(w[1..] + [0], -w[0], row[1..], c, a);
    WeightedAppendZero(w[1..], c, a);
    AlternatingRowIsDifference(c, m, a - 1);
    DifferenceVanishes(c, m, a - 1);
    SubstituteFirst(w[0], Eval(c, a - 1), Weighted(row[1..], c, a));
  }

  lemma SubstituteFirst(w: int, first: int, rest: int)
    requires 1 * first + rest == 0
    ensures -w * rest == w * first
  {
  }

  // ----- the weights are the Lagrange quotients

  /** `w` times t! * (m - 1 - t)! is, up to sign, the product of the other coordinates. */
  ghost predicate IsQuotient(w: int, a: int, m: nat, t: nat)
    requires t < m
  {
    w * (Factorial(t) * Factorial(m - 1 - t)) ==
    Sign(t) * (Rising(a, t) * Rising(a + t + 1, m - 1 - t))
  }

  lemma {:induction false} WeightsAreQuotients(a: nat, m: nat, t: nat)
    requires t < m
    ensures IsQuotient(Weights(a, m)[t], a, m, t)
  {
    if a == 0 {
      QuotientBase(a, m, t, Weights(a, m)[t]);
    } else {
      var w, e, v := Weights(a - 1, m), AlternatingRow(m)[t + 1], Weights(a, m)[t];
      WeightStep(a, m, t);
      WeightsAreQuotients(a - 1, m, 0);
      AlternatingRowFactorial(m, t + 1);
      if t + 1 < m {
        WeightsAreQuotients(a - 1, m, t + 1);
        QuotientStep(a, m, t, w[0], w[t + 1], e, v);
      } else {
        QuotientStepLast(a, m, t, w[0], e, v);
      }
    }
  }

  /** The entry `v` of the moved block, in terms of two old weights and a signed binomial. */
  ghost predicate Substitution(v: int, w1: int, w0: int, e: int) {
    v == w1 + -w0 * e
  }

  lemma WeightStep(a: nat, m: nat, t: nat)
    requires 1 <= a && t < m
    ensures Substitution(Weights(a, m)[t], if t + 1 < m then Weights(a - 1, m)[t + 1] else 0,
                         Weights(a - 1, m)[0], AlternatingRow(m)[t + 1])
  {
  }

  lemma QuotientBase(a: int, m: nat, t: nat, v: int)
    requires t < m && a == 0 && v == if t == 0 then 1 else 0
    ensures IsQuotient(v, a, m, t)
  {
    if t == 0 {
      RisingIsFactorial(m - 1);
      assert Factorial(0) == Rising(0, 0) == Sign(0) == 1;
    } else {
      RisingFront(0, t - 1);
      assert Rising(0, t) == 0;
    }
  }

  lemma {:induction false} RisingSplit(x: int, r: nat, s: nat)
    ensures Rising(x, r + s) == Rising(x, r) * Rising(x + r, s)
  {
    if s > 0 {
      RisingSplit(x, r, s - 1);
      var p, q, e := Rising(x, r), Rising(x + r, s - 1), x + r + s - 1;
      assert (p * q) * e == p * (q * e);
    }
  }

  lemma RisingFront(x: int, r: nat)
    ensures Rising(x, r + 1) == x * Rising(x + 1, r)
  {
    RisingSplit(x, 1, r);
    assert Rising(x, 1) == Rising(x, 0) * x == x;
  }

  lemma {:induction false} RisingIsFactorial(r: nat)
    ensures Rising(1, r) == Factorial(r)
  {
    if r > 0 {
      RisingIsFactorial(r - 1);
    }
  }

  /** The weight of the first coordinate: (m - 1)! times it is the product of the others. */
  lemma FirstWeight(w: int, a: int, m: nat)
    requires 1 <= m && IsQuotient(w, a, m, 0)
    ensures w * Factorial(m - 1) == Rising(a + 1, m - 1)
    ensures w * Factorial(m) == m * Rising(a + 1, m - 1)
  {
    var f := Factorial(m - 1);
    assert Factorial(0) == Rising(a, 0) == Sign(0) == 1;
    assert w * (m * f) == m * (w * f);
  }

  lemma QuotientStepLast(a: int, m: nat, t: nat, w: int, e: int, v: int)
    requires t + 1 == m && IsQuotient(w, a - 1, m, 0) && e == Sign(m) && Substitution(v, 0, w, e)
    ensures IsQuotient(v, a, m, t)
  {
    FirstWeight(w, a - 1, m);
    assert Factorial(0) == Rising(a + m, 0) == 1;
    LastAlgebra(w, Sign(m), Sign(m - 1), m, Factorial(m - 1), Factorial(m), Rising(a, m - 1));
  }

  lemma LastAlgebra(w: int, s: int, s': int, m: int, f: int, mf: int, p: int)
    requires m >= 1 && mf == m * f && s' == -s && w * mf == m * p
    ensures (0 + -w * s) * (f * 1) == s' * (p * 1)
  {
    assert m * (w * f) == m * p;
    assert w * f == p;
    assert (-w * s) * f == -s * (w * f);
  }

  /** The products of coordinates in one step all share the runs `x` and `y`. */
  lemma SharedRuns(a: int, t: nat, n: nat) returns (x: int, y: int)
    requires 1 <= n
    ensures Rising(a, t) == x
    ensures Rising(a - 1, t + 1) == (a - 1) * x
    ensures Rising(a + t + 1, n - 1) == y
    ensures Rising(a + t + 1, n) == y * (a + t + n)
    ensures Rising(a, t + n) == x * ((a + t) * y)
  {
    x, y := Rising(a, t), Rising(a + t + 1, n - 1);
    RisingFront(a - 1, t);
    RisingSplit(a, t, n);
    RisingFront(a + t, n - 1);
  }

  /** The two known quotient formulas, in terms of the shared runs. */
  lemma KnownQuotients(a: int, m: nat, t: nat, w0: int, w1: int) returns (x: int, y: int)
    requires t + 1 < m && IsQuotient(w0, a - 1, m, 0) && IsQuotient(w1, a - 1, m, t + 1)
    ensures Rising(a, t) == x && Rising(a + t + 1, m - 1 - t) == y * (a + m - 1)
    ensures w0 * Factorial(m) == m * (x * ((a + t) * y))
    ensures w1 * (Factorial(t + 1) * Factorial(m - 2 - t)) == Sign(t + 1) * (((a - 1) * x) * y)
  {
    x, y := SharedRuns(a, t, m - 1 - t);
    assert m - 1 - (t + 1) == m - 2 - t && t + (m - 1 - t) == m - 1;
    FirstWeight(w0, a - 1, m);
  }

  lemma QuotientStep(a: int, m: nat, t: nat, w0: int, w1: int, e: int, v: int)
    requires t + 1 < m && IsQuotient(w0, a - 1, m, 0) && IsQuotient(w1, a - 1, m, t + 1)
    requires IsSignedBinomial(e, m, t + 1) && Substitution(v, w1, w0, e)
    ensures IsQuotient(v, a, m, t)
  {
    var x, y := KnownQuotients(a, m, t, w0, w1);
    assert m - (t + 1) == m - 1 - t;
    StepAlgebra(w0, w1, e, a, m, t, Factorial(t), Factorial(m - 2 - t), Factorial(t + 1),
                Factorial(m - 1 - t), Factorial(m), Sign(t), Sign(t + 1), x, y);
  }

  lemma StepAlgebra(w0: int, w1: int, row: int, a: int, m: int, t: int, p: int, q: int,
                    tp: int, nq: int, mf: int, s: int, s': int, x: int, y: int)
    requires 0 <= t < m - 1 && s' == -s && tp == (t + 1) * p && nq == (m - 1 - t) * q
    requires row * (tp * nq) == s' * mf
    requires w0 * mf == m * (x * ((a + t) * y))
    requires w1 * (tp * q) == s' * (((a - 1) * x) * y)
    ensures (w1 + -w0 * row) * (p * nq) == s * (x * (y * (a + m - 1)))
  {
    var n, xy := m - 1 - t, x * y;
    var u := (w1 + -w0 * row) * (p * nq);
    assert (t + 1) * u == n * (w1 * (tp * q)) - w0 * (row * (tp * nq)) by {
      Distribute(w0, w1, row, t + 1, n, p, q);
    }
    assert w1 * (tp * q) == -s * ((a - 1) * xy) by {
      assert ((a - 1) * x) * y == (a - 1) * xy;
    }
    assert w0 * mf == m * ((a + t) * xy) by {
      assert x * ((a + t) * y) == (a + t) * xy;
    }
    Collect(w0, mf, s, a, m, t, xy, n * (w1 * (tp * q)) - w0 * (row * (tp * nq)));
    CancelFactor(t + 1, u, s * (xy * (a + m - 1)));
    assert xy * (a + m - 1) == x * (y * (a + m - 1));
  }

  lemma Distribute(w0: int, w1: int, row: int, k: int, n: int, p: int, q: int)
    ensures k * ((w1 + -w0 * row) * (p * (n * q))) ==
            n * (w1 * ((k * p) * q)) - w0 * (row * ((k * p) * (n * q)))
  {
    var d := p * q;
    assert p * (n * q) == n * d && (k * p) * q == k * d && (k * p) * (n * q) == k * (n * d);
    var e := n * d;
    assert n * (w1 * (k * d)) == w1 * (k * e);
    assert w0 * (row * (k * e)) == (w0 * row) * (k * e);
    assert k * ((w1 + -w0 * row) * e) == (w1 - w0 * row) * (k * e);
  }

  lemma Collect(w0: int, mf: int, s: int, a: int, m: int, t: int, z: int, v: int)
    requires w0 * mf == m * ((a + t) * z)
    requires v == (m - 1 - t) * (-s * ((a - 1) * z)) - w0 * (-s * mf)
    ensures v == (t + 1) * (s * (z * (a + m - 1)))
  {
    assert w0 * (-s * mf) == -s * (w0 * mf);
    var b, c := (a - 1) * z, (a + t) * z;
    assert v == s * (m * c - (m - 1 - t) * b) by {
      assert (m - 1 - t) * (-s * b) == -s * ((m - 1 - t) * b);
    }
    assert m * c - (m - 1 - t) * b == (t + 1) * (z * (a + m - 1)) by {
      assert m * c == (m * a + m * t) * z;
      assert (m - 1 - t) * b == ((m - 1 - t) * (a - 1)) * z;
      assert (t + 1) * (z * (a + m - 1)) == ((t + 1) * (a + m - 1)) * z;
      assert (m - 1 - t) * (a - 1) == m * a - m - a + 1 - t * a + t;
    }
    var g := z * (a + m - 1);
    assert s * ((t + 1) * g) == (t + 1) * (s * g);
  }

  lemma CancelFactor(k: int, u: int, v: int)
    requires k > 0 && k * u == k * v
    ensures u == v
  {
    assert (k * u) / k == u && (k * v) / k == v by {
      MultipleHasNoRemainder(u, k);
      MultipleHasNoRemainder(v, k);
    }
  }

  /** r! divides any product of r consecutive positive integers. */
  lemma FactorialDividesRising(x: nat, r: nat)
    requires x >= 1
    ensures Rising(x, r) % Factorial(r) == 0
  {
    var w := Weights(x - 1, r + 1)[0];
    WeightsAreQuotients(x - 1, r + 1, 0);
    FirstWeight(w, x - 1, r + 1);
    MultipleHasNoRemainder(w, Factorial(r));
  }

  lemma MultipleHasNoRemainder(q: int, d: int)
    requires d != 0
    ensures (q * d) % d == 0 && (q * d) / d == q
    ensures (d * q) / d == q
  {
    var e, r := (q * d) / d, (q * d) % d;
    assert d * (q - e) == q * d - d * e;
    NoMultipleBetween(d, q - e);
  }

  lemma NoMultipleBetween(d: int, z: int)
    requires 0 <= d * z < (if d > 0 then d else -d)
    ensures z == 0
  {
  }
}
