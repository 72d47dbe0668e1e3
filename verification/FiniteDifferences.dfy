/**
  Integer polynomials and their alternating binomial sums.

  Shamir sharing over a field rests on division by differences of x coordinates.
  The program works over the integers and reduces modulo 256, which is no field, so the
  argument used here is the one that needs no division at all: an alternating binomial
  sum of m + 1 consecutive values of a polynomial with at most m coefficients is zero.
 */
module FiniteDifferences {

  /** The value at `x` of the polynomial whose i-th coefficient is `c[i]`. */
  function Eval(c: seq<int>, x: int): int {
    if c == [] then 0 else c[0] + x * Eval(c[1..], x)
  }

  /** The m-th difference: the sum over j of (-1)^j * binomial(m, j) * c(x + j). */
  ghost function Difference(c: seq<int>, m: nat, x: int): int {
    if m == 0 then Eval(c, x) else Difference(c, m - 1, x) - Difference(c, m - 1, x + 1)
  }

  /** The sum over t of `w[t] * c(x + t)`: the weights `w` applied to consecutive values. */
  ghost function Weighted(w: seq<int>, c: seq<int>, x: int): int {
    if w == [] then 0 else w[0] * Eval(c, x) + Weighted(w[1..], c, x + 1)
  }

  /** `u + s * v`, element by element. */
  ghost function AddScaled(u: seq<int>, s: int, v: seq<int>): (r: seq<int>)
    requires |u| == |v|
    ensures |r| == |u|
    ensures forall i :: 0 <= i < |u| ==> r[i] == u[i] + s * v[i]
  {
    seq(|u|, i requires 0 <= i < |u| => u[i] + s * v[i])
  }

  /** Row m of Pascal's triangle with alternating signs: (-1)^j * binomial(m, j). */
  ghost function AlternatingRow(m: nat): (r: seq<int>)
    ensures |r| == m + 1 && r[0] == 1
  {
    if m == 0 then [1]
    else AddScaled(AlternatingRow(m - 1) + [0], -1, [0] + AlternatingRow(m - 1))
  }

  ghost function Sign(n: nat): int {
    if n % 2 == 0 then 1 else -1
  }

  ghost function Factorial(n: nat): (f: int)
    ensures f >= 1
  {
    if n == 0 then 1 else n * Factorial(n - 1)
  }

  // ----- differences of products and polynomials

  /** The product rule for differences, applied to c(x) = c[0] + x * c[1..](x). */
  lemma {:induction false} DifferenceOfProduct(c: seq<int>, m: nat, x: int)
    requires c != []
    ensures Difference(c, m, x) ==
            (if m == 0 then c[0] else 0)
            + x * Difference(c[1..], m, x)
            - (if m == 0 then 0 else m * Difference(c[1..], m - 1, x + 1))
  {
    var q := c[1..];
    if m > 0 {
      DifferenceOfProduct(c, m - 1, x);
      DifferenceOfProduct(c, m - 1, x + 1);
      var u, v := Difference(q, m - 1, x), Difference(q, m - 1, x + 1);
      if m == 1 {
        ProductStep(x, 0, u, v, 0, v);
      } else {
        var s, t := Difference(q, m - 2, x + 1), Difference(q, m - 2, x + 2);
        ProductStep(x, m - 1, u, v, t, s);
      }
    }
  }

  /** The algebra of one step: `u`, `v` are differences at x and x + 1; `s`, `t` lower ones. */
  lemma ProductStep(x: int, n: int, u: int, v: int, t: int, s: int)
    requires n == 0 || v == s - t
    ensures (x * u - n * s) - ((x + 1) * v - n * t) == x * (u - v) - (n + 1) * v
  {
    assert n * s - n * t == n * (s - t);
  }

  /** A polynomial with at most m coefficients has m-th difference zero everywhere. */
  lemma {:induction false} DifferenceVanishes(c: seq<int>, m: nat, x: int)
    requires |c| <= m
    ensures Difference(c, m, x) == 0
    decreases |c|, m
  {
    if c == [] {
      if m > 0 {
        DifferenceVanishes(c, m - 1, x);
        DifferenceVanishes(c, m - 1, x + 1);
      }
    } else {
      DifferenceOfProduct(c, m, x);
      DifferenceVanishes(c[1..], m, x);
      DifferenceVanishes(c[1..], m - 1, x + 1);
    }
  }

  // ----- linearity of weighted sums

  lemma {:induction false} WeightedAddScaled(u: seq<int>, s: int, v: seq<int>, c: seq<int>, x: int)
    requires |u| == |v|
    ensures Weighted(AddScaled(u, s, v), c, x) == Weighted(u, c, x) + s * Weighted(v, c, x)
  {
    if u != [] {
      WeightedAddScaled(u[1..], s, v[1..], c, x + 1);
      assert AddScaled(u, s, v)[1..] == AddScaled(u[1..], s, v[1..]);
      var e, p, q := Eval(c, x), Weighted(u[1..], c, x + 1), Weighted(v[1..], c, x + 1);
      assert (u[0] + s * v[0]) * e + (p + s * q) == (u[0] * e + p) + s * (v[0] * e + q);
    }
  }

  lemma {:induction false} WeightedAppendZero(w: seq<int>, c: seq<int>, x: int)
    ensures Weighted(w + [0], c, x) == Weighted(w, c, x)
  {
    if w == [] {
      assert Weighted([0], c, x) == 0 * Eval(c, x) + Weighted([0][1..], c, x + 1);
    } else {
      WeightedAppendZero(w[1..], c, x + 1);
      assert (w + [0])[1..] == w[1..] + [0];
    }
  }

  /** The recursive difference is the alternating binomial sum. */
  lemma {:induction false} AlternatingRowIsDifference(c: seq<int>, m: nat, x: int)
    ensures Weighted(AlternatingRow(m), c, x) == Difference(c, m, x)
  {
    if m == 0 {
      assert Weighted([1], c, x) == 1 * Eval(c, x) + Weighted([1][1..], c, x + 1);
    } else {
      var row := AlternatingRow(m - 1);
      WeightedAddScaled(row + [0], -1, [0] + row, c, x);
      WeightedAppendZero(row, c, x);
      assert ([0] + row)[1..] == row;
      assert Weighted([0] + row, c, x) == 0 * Eval(c, x) + Weighted(row, c, x + 1);
      AlternatingRowIsDifference(c, m - 1, x);
      AlternatingRowIsDifference(c, m - 1, x + 1);
    }
  }

  lemma {:induction false} AlternatingRowEnd(m: nat)
    ensures AlternatingRow(m)[m] == Sign(m)
  {
    if m > 0 {
      AlternatingRowEnd(m - 1);
    }
  }

  /** The factorial formula: `e` is (-1)^j * binomial(m, j). */
  ghost predicate IsSignedBinomial(e: int, m: nat, j: nat)
    requires j <= m
  {
    e * (Factorial(j) * Factorial(m - j)) == Sign(j) * Factorial(m)
  }

  lemma {:induction false} AlternatingRowFactorial(m: nat, j: nat)
    requires j <= m
    ensures IsSignedBinomial(AlternatingRow(m)[j], m, j)
    ensures j == m ==> AlternatingRow(m)[j] == Sign(m)
  {
    if j == 0 || j == m {
      AlternatingRowEnd(m);
      assert Factorial(0) == 1;
    } else {
      var prev := AlternatingRow(m - 1);
      AlternatingRowFactorial(m - 1, j);
      AlternatingRowFactorial(m - 1, j - 1);
      PascalStep(m, j, prev[j], prev[j - 1]);
    }
  }

  lemma PascalStep(m: nat, j: nat, a: int, b: int)
    requires 0 < j < m && IsSignedBinomial(a, m - 1, j) && IsSignedBinomial(b, m - 1, j - 1)
    ensures IsSignedBinomial(a + -1 * b, m, j)
  {
    assert (m - 1) - (j - 1) == m - j;
    ScalePascal(a, b, j, m - j, Factorial(j - 1), Factorial(m - 1 - j),
                Factorial(j), Factorial(m - j), Sign(j), Sign(j - 1), Factorial(m - 1), Factorial(m));
  }

  /** The step of Pascal's rule after multiplying by both factorials. */
  lemma ScalePascal(a: int, b: int, j: int, r: int, p: int, q: int, jp: int, rq: int,
                    s: int, s': int, f: int, mf: int)
    requires jp == j * p && rq == r * q && mf == (j + r) * f && s' == -s
    requires a * (jp * q) == s * f
    requires b * (p * rq) == s' * f
    ensures (a - b) * (jp * rq) == s * mf
  {
    calc {
      (a - b) * (jp * rq);
      a * (jp * (r * q)) - b * ((j * p) * rq);
      r * (a * (jp * q)) - j * (b * (p * rq));
      r * (s * f) - j * (s' * f);
      s * ((j + r) * f);
    }
  }
}
