/**
  Secret sharing of byte strings: `Split` and `Combine`.

  A share is a row of bytes: the x coordinate, then one polynomial value per data byte, each
  kept modulo 256. `Combine` interpolates at 0 over the integers and keeps the low byte of the
  absolute value of the sum, because that is what math/big's Uint64 followed by % 256 yields.
 */
module Shamir {
  import opened FiniteDifferences
  import opened LagrangeWeights
  import opened Interpolation
  import opened Results
  import opened Sequences

  datatype Error = KExceedsN | EmptyData | EntropyFailed | NoShares

  // ----- the low byte of a big integer

  /** math/big's Uint64: the low 64 bits of the absolute value. */
  function Uint64(x: int): nat {
    (if x < 0 then -x else x) % 0x1_0000_0000_0000_0000
  }

  /** Minus a byte, modulo 256. */
  function Negated(b: byte): byte {
    if b == 0 then 0 else 256 - b
  }

  lemma LowBits(n: nat)
    ensures (n % 0x1_0000_0000_0000_0000) % 256 == n % 256
  {
    var q, r := n / 0x1_0000_0000_0000_0000, n % 0x1_0000_0000_0000_0000;
    assert n == 256 * (0x100_0000_0000_0000 * q) + r;
  }

  lemma NegativeByte(x: int)
    ensures (-x) % 256 == Negated(x % 256)
  {
    assert -x == 256 * (-(x / 256) - 1) + (256 - x % 256);
  }

  function LowByte(x: int): (b: byte)
    ensures x >= 0 ==> b == x % 256
    ensures x < 0 ==> b == Negated(x % 256)
  {
    LowBits(if x < 0 then -x else x);
    NegativeByte(x);
    Uint64(x) % 256
  }

  // ----- evaluating the polynomial

  ghost function Power(x: int, e: nat): int {
    if e == 0 then 1 else x * Power(x, e - 1)
  }

  method Exp(x: int, e: nat) returns (p: int)
    ensures p == Power(x, e)
  {
    p := 1;
    for i := 0 to e
      invariant p == Power(x, i)
    {
      p := x * p;
    }
  }

  /** The sum of coefficient times power, term by term, is the value in Horner form. */
  method EvaluatePolynomial(coefficients: seq<int>, x: int) returns (result: int)
    ensures result == Eval(coefficients, x)
  {
    result := 0;
    for i := 0 to |coefficients|
      invariant result + Power(x, i) * Eval(coefficients[i..], x) == Eval(coefficients, x)
    {
      var power := Exp(x, i);
      HornerStep(result, power, coefficients[i], x, Eval(coefficients[i + 1..], x));
      assert coefficients[i..][1..] == coefficients[i + 1..];
      result := result + coefficients[i] * power;
    }
  }

  lemma HornerStep(result: int, power: int, c: int, x: int, rest: int)
    ensures result + c * power + (x * power) * rest == result + power * (c + x * rest)
  {
  }

  lemma {:induction false} EvalNonnegative(c: seq<int>, x: nat)
    requires forall i :: 0 <= i < |c| ==> c[i] >= 0
    ensures Eval(c, x) >= 0
  {
    if c != [] {
      EvalNonnegative(c[1..], x);
    }
  }

  // ----- congruence modulo 256

  ghost predicate Congruent(u: int, v: int) {
    u % 256 == v % 256
  }

  lemma CongruentBy(u: int, v: int, q: int)
    requires u == v + 256 * q
    ensures Congruent(u, v)
  {
  }

  lemma CongruentTimes(w: int, u: int, v: int)
    requires Congruent(u, v)
    ensures Congruent(w * u, w * v)
  {
    var q := u / 256 - v / 256;
    assert w * (v + 256 * q) == w * v + 256 * (w * q);
    CongruentBy(w * u, w * v, w * q);
  }

  lemma CongruentProduct(u: int, v: int, x: int, y: int)
    requires Congruent(u, v) && Congruent(x, y)
    ensures Congruent(x * u, y * v)
  {
    CongruentTimes(x, u, v);
    CongruentTimes(v, x, y);
    Commute(x, v);
    Commute(y, v);
  }

  lemma Commute(u: int, v: int)
    ensures u * v == v * u
  {
  }

  lemma CongruentPlus(s: int, t: int, u: int, v: int)
    requires Congruent(s, t) && Congruent(u, v)
    ensures Congruent(s + u, t + v)
  {
    CongruentBy(s + u, t + v, s / 256 - t / 256 + u / 256 - v / 256);
  }

  /** A polynomial with integer coefficients respects congruence of its argument. */
  lemma {:induction false} EvalCongruent(c: seq<int>, x: int, y: int)
    requires Congruent(x, y)
    ensures Congruent(Eval(c, x), Eval(c, y))
  {
    if c != [] {
      EvalCongruent(c[1..], x, y);
      CongruentProduct(Eval(c[1..], x), Eval(c[1..], y), x, y);
      CongruentPlus(c[0], c[0], x * Eval(c[1..], x), y * Eval(c[1..], y));
    }
  }

  // ----- splitting

  type Draws = (nat, nat) -> Option<byte>

  /** The polynomial of one byte: the byte itself, then k - 1 drawn coefficients. */
  ghost function PolynomialOf(secret: byte, position: nat, k: nat, draw: Draws): (c: seq<byte>)
    ensures |c| == k
    ensures k > 0 ==> c[0] == secret
    ensures forall i :: 1 <= i < k && draw(position, i).Some? ==> c[i] == draw(position, i).value
  {
    seq(k, i requires 0 <= i < k =>
      if i == 0 then secret else match draw(position, i) case Some(v) => v case None => 0)
  }

  ghost function Polynomials(data: seq<byte>, k: nat, draw: Draws): (polys: seq<seq<byte>>)
    ensures |polys| == |data|
    ensures forall b :: 0 <= b < |data| ==> polys[b] == PolynomialOf(data[b], b, k, draw)
  {
    seq(|data|, b requires 0 <= b < |data| => PolynomialOf(data[b], b, k, draw))
  }

  ghost predicate AllDrawn(positions: nat, k: nat, draw: Draws) {
    forall b, i :: 0 <= b < positions && 1 <= i < k ==> draw(b, i).Some?
  }

  /** Share i: the label, then the low byte of each polynomial's value at i + 1. */
  ghost function ShareRow(polys: seq<seq<byte>>, i: nat): (row: seq<byte>)
    ensures |row| == |polys| + 1 && row[0] == (i + 1) % 256
    ensures forall p :: 1 <= p <= |polys| ==> row[p] == LowByte(Eval(polys[p - 1], i + 1))
  {
    [(i + 1) % 256] + seq(|polys|, b requires 0 <= b < |polys| => LowByte(Eval(polys[b], i + 1)))
  }

  /** The polynomial of one byte position; None when the random reader failed. */
  method DrawPolynomial(secret: byte, position: nat, k: nat, draw: Draws) returns (r: Option<seq<byte>>)
    requires 1 <= k
    ensures r.Some? <==> forall i :: 1 <= i < k ==> draw(position, i).Some?
    ensures r.Some? ==> r.value == PolynomialOf(secret, position, k, draw)
  {
    ghost var c := PolynomialOf(secret, position, k, draw);
    var coefficients := new byte[k];
    coefficients[0] := secret;
    for i := 1 to k
      invariant forall j :: 1 <= j < i ==> draw(position, j).Some?
      invariant forall j :: 0 <= j < i ==> coefficients[j] == c[j]
    {
      match draw(position, i) {
        case None => return None;
        case Some(coeff) => coefficients[i] := coeff;
      }
    }
    assert coefficients[..] == c;
    return Some(coefficients[..]);
  }

  /** Entry p of share number `i` is right: entry 0 is the label, the others values. */
  ghost predicate EntryDone(row: array<byte>, polys: seq<seq<byte>>, i: nat, p: nat)
    reads row
    requires p < row.Length && p <= |polys|
  {
    row[p] == ShareRow(polys, i)[p]
  }

  ghost predicate EntriesDone(shares: seq<array<byte>>, polys: seq<seq<byte>>, rows: nat, p: nat)
    reads shares
    requires rows <= |shares| && p <= |polys|
    requires forall i :: 0 <= i < |shares| ==> shares[i].Length == |polys| + 1
  {
    forall i :: 0 <= i < rows ==> EntryDone(shares[i], polys, i, p)
  }

  /** Entry p of every share: the polynomial of byte p - 1 at 1, ..., n. */
  method FillColumn(shares: seq<array<byte>>, ghost polys: seq<seq<byte>>, coefficients: seq<byte>, p: nat)
    requires Distinct(shares) && 1 <= p <= |polys| && coefficients == polys[p - 1]
    requires forall i :: 0 <= i < |shares| ==> shares[i].Length == |polys| + 1
    modifies shares
    ensures EntriesDone(shares, polys, |shares|, p)
    ensures forall i, q :: 0 <= i < |shares| && 0 <= q <= |polys| && q != p ==>
      shares[i][q] == old(shares[i][q])
  {
    for i := 0 to |shares|
      invariant EntriesDone(shares, polys, i, p)
      invariant forall i, q :: 0 <= i < |shares| && 0 <= q <= |polys| && q != p ==>
        shares[i][q] == old(shares[i][q])
    {
      var result := EvaluatePolynomial(coefficients, i + 1);
      shares[i][p] := LowByte(result);
    }
  }

  /** The random reader is the input `draw`; None is a failed read. */
  method Split(data: seq<byte>, n: int, k: int, draw: Draws) returns (r: Result<seq<array<byte>>, Error>)
    requires k <= n && data != [] ==> 1 <= k
    ensures k > n ==> r == Failure(KExceedsN)
    ensures k <= n && data == [] ==> r == Failure(EmptyData)
    ensures k <= n && data != [] ==> (r.Success? <==> AllDrawn(|data|, k, draw))
    ensures k <= n && data != [] && r.Failure? ==> r == Failure(EntropyFailed)
    ensures r.Success? ==> |r.value| == n
    ensures r.Success? ==> forall i :: 0 <= i < n ==>
      r.value[i][..] == ShareRow(Polynomials(data, k, draw), i)
  {
    if k > n {
      return Failure(KExceedsN);
    }
    if data == [] {
      return Failure(EmptyData);
    }
    var shares := LabelledRows(Polynomials(data, k, draw), |data|, n);
    var ok := FillShares(shares, data, k, draw);
    return if ok then Success(shares) else Failure(EntropyFailed);
  }

  /** Draws one polynomial per byte and fills in its values; false when the random reader failed. */
  method FillShares(shares: seq<array<byte>>, data: seq<byte>, k: nat, draw: Draws) returns (ok: bool)
    requires 1 <= k && Distinct(shares)
    requires forall i :: 0 <= i < |shares| ==> shares[i].Length == |data| + 1
    requires EntriesDone(shares, Polynomials(data, k, draw), |shares|, 0)
    modifies shares
    ensures ok <==> AllDrawn(|data|, k, draw)
    ensures ok ==> forall i :: 0 <= i < |shares| ==> shares[i][..] == ShareRow(Polynomials(data, k, draw), i)
  {
    ghost var polys := Polynomials(data, k, draw);
    for byteIdx := 0 to |data|
      invariant AllDrawn(byteIdx, k, draw)
      invariant forall p :: 0 <= p <= byteIdx ==> EntriesDone(shares, polys, |shares|, p)
    {
      var coefficients := DrawPolynomial(data[byteIdx], byteIdx, k, draw);
      if coefficients == None {
        return false;
      }
      FillColumn(shares, polys, coefficients.value, byteIdx + 1);
    }
    RowsAreDone(shares, polys);
    return true;
  }

  lemma RowsAreDone(shares: seq<array<byte>>, polys: seq<seq<byte>>)
    requires forall i :: 0 <= i < |shares| ==> shares[i].Length == |polys| + 1
    requires forall p :: 0 <= p <= |polys| ==> EntriesDone(shares, polys, |shares|, p)
    ensures forall i :: 0 <= i < |shares| ==> shares[i][..] == ShareRow(polys, i)
  {
    forall i | 0 <= i < |shares|
      ensures shares[i][..] == ShareRow(polys, i)
    {
      forall p | 0 <= p <= |polys|
        ensures shares[i][p] == ShareRow(polys, i)[p]
      {
        assert EntriesDone(shares, polys, |shares|, p) && EntryDone(shares[i], polys, i, p);
      }
    }
  }

  method LabelledRows(ghost polys: seq<seq<byte>>, dataLen: nat, n: nat) returns (shares: seq<array<byte>>)
    requires |polys| == dataLen
    ensures |shares| == n && Distinct(shares) && fresh(set s | s in shares)
    ensures forall i :: 0 <= i < n ==> shares[i].Length == dataLen + 1
    ensures EntriesDone(shares, polys, n, 0)
  {
    shares := [];
    for i := 0 to n
      invariant |shares| == i && Distinct(shares) && fresh(set s | s in shares)
      invariant forall j :: 0 <= j < i ==> shares[j].Length == dataLen + 1
      invariant EntriesDone(shares, polys, i, 0)
    {
      var row := new byte[dataLen + 1];
      row[0] := (i + 1) % 256;
      shares := shares + [row];
    }
  }

  // ----- combining

  ghost function Contents(shares: seq<array<byte>>): (rows: seq<seq<byte>>)
    reads shares
    ensures |rows| == |shares|
    ensures forall i :: 0 <= i < |shares| ==> rows[i] == shares[i][..]
  {
    seq(|shares|, i requires 0 <= i < |shares| reads shares => shares[i][..])
  }

  function ByteAt(row: seq<byte>, i: nat): byte {
    if i < |row| then row[i] else 0
  }

  ghost function Labels(rows: seq<seq<byte>>): (xs: seq<int>)
    ensures |xs| == |rows|
    ensures forall i :: 0 <= i < |rows| ==> xs[i] == ByteAt(rows[i], 0)
  {
    seq(|rows|, i requires 0 <= i < |rows| => ByteAt(rows[i], 0))
  }

  /** The interpolation points of byte position b. */
  ghost function PointsAt(rows: seq<seq<byte>>, b: nat): (points: seq<Point>)
    ensures |points| == |rows|
    ensures forall i :: 0 <= i < |rows| ==> points[i] == Point(ByteAt(rows[i], 0), ByteAt(rows[i], b + 1))
  {
    seq(|rows|, i requires 0 <= i < |rows| => Point(ByteAt(rows[i], 0), ByteAt(rows[i], b + 1)))
  }

  /** The integer that `Combine` reduces to byte b. */
  ghost function InterpolatedSum(rows: seq<seq<byte>>, b: nat): int {
    Interpolate(0, PointsAt(rows, b))
  }

  /** What indexing a short row or dividing by zero would otherwise turn into a panic. */
  ghost predicate Combinable(rows: seq<seq<byte>>) {
    rows != [] ==>
      && |rows[0]| >= 1
      && (|rows[0]| > 1 ==>
            && (forall i :: 0 <= i < |rows| ==> |rows[i]| >= |rows[0]|)
            && Distinct(Labels(rows)))
  }

  ghost function Combined(rows: seq<seq<byte>>): (data: seq<byte>)
    requires rows != [] && |rows[0]| >= 1
    ensures |data| == |rows[0]| - 1
    ensures forall b :: 0 <= b < |data| ==> data[b] == LowByte(InterpolatedSum(rows, b))
  {
    seq(|rows[0]| - 1, b requires 0 <= b < |rows[0]| - 1 => LowByte(InterpolatedSum(rows, b)))
  }

  /** One byte position: collect the points and interpolate. */
  method CombineAt(shares: seq<array<byte>>, ghost rows: seq<seq<byte>>, byteIdx: nat) returns (b: byte)
    requires rows == Contents(shares) && rows != [] && Combinable(rows) && byteIdx + 1 < |rows[0]|
    ensures b == Combined(rows)[byteIdx]
  {
    assert forall i :: 0 <= i < |shares| ==> |rows[i]| == shares[i].Length;
    var points: seq<Point> := [];
    for i := 0 to |shares|
      invariant points == PointsAt(rows, byteIdx)[..i]
    {
      assert rows[i] == shares[i][..];
      points := points + [Point(shares[i][0], shares[i][byteIdx + 1])];
    }
    assert Xs(points) == Labels(rows);
    assert points == PointsAt(rows, byteIdx);
    var secret := LagrangeInterpolation(0, points);
    b := LowByte(secret);
  }

  method Combine(shares: seq<array<byte>>) returns (r: Result<seq<byte>, Error>)
    requires Combinable(Contents(shares))
    ensures shares == [] ==> r == Failure(NoShares)
    ensures shares != [] ==> r == Success(Combined(Contents(shares)))
  {
    if |shares| == 0 {
      return Failure(NoShares);
    }
    var dataLen := shares[0].Length - 1;
    var result := new byte[dataLen];
    FillSecret(shares, result);
    return Success(result[..]);
  }

  method FillSecret(shares: seq<array<byte>>, result: array<byte>)
    requires shares != [] && Combinable(Contents(shares)) && result !in shares
    requires result.Length == shares[0].Length - 1
    modifies result
    ensures result[..] == Combined(Contents(shares))
  {
    ghost var rows, expected := Contents(shares), Combined(Contents(shares));
    for byteIdx := 0 to result.Length
      invariant Contents(shares) == rows
      invariant result[..byteIdx] == expected[..byteIdx]
    {
      var b := CombineAt(shares, rows, byteIdx);
      result[byteIdx] := b;
    }
  }

  // ----- summing over a block of coordinates

  ghost function Total(g: int -> int, xs: seq<int>): int {
    if xs == [] then 0 else Total(g, xs[..|xs| - 1]) + g(xs[|xs| - 1])
  }

  lemma {:induction false} TotalRemove(g: int -> int, xs: seq<int>, i: nat)
    requires i < |xs|
    ensures Total(g, xs) == Total(g, Others(xs, i)) + g(xs[i])
  {
    var n := |xs| - 1;
    if i == n {
      assert Others(xs, n) == xs[..n];
    } else {
      TotalRemove(g, xs[..n], i);
      assert Others(xs, i)[..n - 1] == Others(xs[..n], i);
    }
  }

  lemma {:induction false} TotalPermutation(g: int -> int, xs: seq<int>, ys: seq<int>)
    requires multiset(xs) == multiset(ys)
    ensures Total(g, xs) == Total(g, ys)
    decreases |xs|
  {
    if xs == [] {
      assert |multiset(ys)| == 0;
    } else {
      var j := MatchLast(xs, ys);
      TotalPermutation(g, xs[..|xs| - 1], Others(ys, j));
      TotalRemove(g, ys, j);
    }
  }

  /** Over the coordinates in increasing order, the total is the weighted sum. */
  lemma {:induction false} TotalOfRange(g: int -> int, w: seq<int>, c: seq<int>, x: int)
    requires forall z :: x <= z < x + |w| ==> g(z) == w[z - x] * Eval(c, z)
    ensures Total(g, Range(x, |w|)) == Weighted(w, c, x)
  {
    if w != [] {
      forall z | x + 1 <= z < x + 1 + |w[1..]|
        ensures g(z) == w[1..][z - (x + 1)] * Eval(c, z)
      {
        assert w[1..][z - (x + 1)] == w[z - x];
      }
      TotalOfRange(g, w[1..], c, x + 1);
      TotalRemove(g, Range(x, |w|), 0);
      assert Others(Range(x, |w|), 0) == Range(x + 1, |w[1..]|);
      assert g(x) == w[x - x] * Eval(c, x);
    }
  }

  // ----- recovering the secret

  /** `g` is weight times polynomial value on the block of m coordinates from `a` on. */
  ghost predicate IsWeightedValue(g: int -> int, a: nat, m: nat, c: seq<int>) {
    m >= 1 && forall x :: a <= x < a + m ==> g(x) == Weights(a, m)[x - a] * Eval(c, x)
  }

  lemma TermIsCongruent(points: seq<Point>, a: nat, c: seq<int>, g: int -> int, i: nat)
    requires IsBlock(Xs(points), a) && i < |points|
    requires Congruent(points[i].y, Eval(c, points[i].x))
    requires IsWeightedValue(g, a, |points|, c)
    ensures Congruent(Term(0, points, i), g(points[i].x))
  {
    var x, y := points[i].x, points[i].y;
    var n, d, w := DivisionIsExact(Xs(points), a, i, y);
    CongruentTimes(w, y, Eval(c, x));
  }

  /** Term by term, the interpolated sum is congruent to the exact weighted sum. */
  lemma {:induction false} SumIsCongruent(points: seq<Point>, a: nat, c: seq<int>, g: int -> int, n: nat)
    requires IsBlock(Xs(points), a) && n <= |points|
    requires forall i :: 0 <= i < |points| ==> Congruent(points[i].y, Eval(c, points[i].x))
    requires IsWeightedValue(g, a, |points|, c)
    ensures Congruent(SumOfTerms(0, points, n), Total(g, Xs(points)[..n]))
  {
    if n > 0 {
      var xs, x := Xs(points)[..n], points[n - 1].x;
      SumIsCongruent(points, a, c, g, n - 1);
      assert xs[..n - 1] == Xs(points)[..n - 1];
      TermIsCongruent(points, a, c, g, n - 1);
      var s, t, u, v := SumOfTerms(0, points, n - 1), Total(g, xs[..n - 1]), Term(0, points, n - 1), g(x);
      CongruentPlus(s, t, u, v);
      assert SumOfTerms(0, points, n) == s + u && Total(g, xs) == t + v;
    }
  }

  /**
    The identity at the centre of the scheme: for points on a polynomial modulo 256, at
    consecutive coordinates in any order and at least as many as the polynomial has
    coefficients, the interpolated integer is congruent to the constant term.
   */
  lemma InterpolationIsCongruent(points: seq<Point>, a: nat, c: seq<int>)
    requires c != [] && |c| <= |points| && IsBlock(Xs(points), a)
    requires forall i :: 0 <= i < |points| ==> Congruent(points[i].y, Eval(c, points[i].x))
    ensures Congruent(Interpolate(0, points), c[0])
  {
    var g := WeightedValue(a, |points|, c);
    InterpolatedIsTotal(points, a, c, g);
    TotalIsConstantTerm(Xs(points), a, c, g);
  }

  lemma InterpolatedIsTotal(points: seq<Point>, a: nat, c: seq<int>, g: int -> int)
    requires IsBlock(Xs(points), a) && IsWeightedValue(g, a, |points|, c)
    requires forall i :: 0 <= i < |points| ==> Congruent(points[i].y, Eval(c, points[i].x))
    ensures Congruent(Interpolate(0, points), Total(g, Xs(points)))
  {
    SumIsCongruent(points, a, c, g, |points|);
    assert Xs(points)[..|points|] == Xs(points);
  }

  lemma TotalIsConstantTerm(xs: seq<int>, a: nat, c: seq<int>, g: int -> int)
    requires c != [] && |c| <= |xs| && IsBlock(xs, a) && IsWeightedValue(g, a, |xs|, c)
    ensures Total(g, xs) == c[0]
  {
    TotalPermutation(g, xs, Range(a, |xs|));
    TotalOfRange(g, Weights(a, |xs|), c, a);
    WeightsInterpolate(a, |xs|, c);
    assert Eval(c, 0) == c[0];
  }

  ghost function WeightedValue(a: nat, m: nat, c: seq<int>): (g: int -> int)
    requires m >= 1
    ensures IsWeightedValue(g, a, m, c)
  {
    x => if a <= x < a + m then Weights(a, m)[x - a] * Eval(c, x) else 0
  }

  /** `rows` are shares of one `Split`, in any order: row j is share number idx[j]. */
  ghost predicate SharesOf(rows: seq<seq<byte>>, idx: seq<nat>, polys: seq<seq<byte>>) {
    && |rows| == |idx|
    && forall j :: 0 <= j < |rows| ==> rows[j] == ShareRow(polys, idx[j])
  }

  /**
    The shares are a usable selection of one split of `data`: at least k of them, with
    consecutive labels starting at `a`. The labels are the stored bytes, so this also covers
    splits into more than 255 shares, where labels wrap around, and a block containing label 0.
   */
  ghost predicate Selection(rows: seq<seq<byte>>, idx: seq<nat>, data: seq<byte>, k: nat, draw: Draws, a: nat) {
    && 1 <= k <= |rows| && data != []
    && SharesOf(rows, idx, Polynomials(data, k, draw))
    && IsBlock(Labels(rows), a)
  }

  lemma SelectionCombinable(rows: seq<seq<byte>>, idx: seq<nat>, data: seq<byte>, k: nat, draw: Draws, a: nat)
    requires Selection(rows, idx, data, k, draw, a)
    ensures Combinable(rows) && |rows[0]| == |data| + 1
  {
    BlockDistinct(Labels(rows), a);
  }

  lemma ShareIsCongruent(c: seq<byte>, i: nat)
    ensures Congruent(LowByte(Eval(c, i + 1)), Eval(c, (i + 1) % 256))
  {
    EvalNonnegative(c, i + 1);
    EvalCongruent(c, i + 1, (i + 1) % 256);
  }

  /** Every interpolation point lies on the polynomial of its byte, modulo 256. */
  lemma PointsAreCongruent(rows: seq<seq<byte>>, idx: seq<nat>, polys: seq<seq<byte>>, b: nat)
    requires SharesOf(rows, idx, polys) && b < |polys|
    ensures var points := PointsAt(rows, b);
            forall j :: 0 <= j < |points| ==> Congruent(points[j].y, Eval(polys[b], points[j].x))
  {
    var points := PointsAt(rows, b);
    forall j | 0 <= j < |points|
      ensures Congruent(points[j].y, Eval(polys[b], points[j].x))
    {
      assert rows[j][b + 1] == LowByte(Eval(polys[b + 1 - 1], idx[j] + 1));
      ShareIsCongruent(polys[b], idx[j]);
    }
  }

  /** Whatever coefficients were drawn, the interpolated integer is the byte modulo 256. */
  lemma InterpolationRecoversSecret(rows: seq<seq<byte>>, idx: seq<nat>, data: seq<byte>, k: nat,
                                    draw: Draws, a: nat, b: nat)
    requires Selection(rows, idx, data, k, draw, a) && b < |data|
    ensures InterpolatedSum(rows, b) % 256 == data[b]
  {
    PointsAreCongruent(rows, idx, Polynomials(data, k, draw), b);
    assert Xs(PointsAt(rows, b)) == Labels(rows);
    InterpolationIsCongruent(PointsAt(rows, b), a, Polynomials(data, k, draw)[b]);
  }

  /** The byte `Combine` returns: right for a nonnegative sum, negated for a negative one. */
  lemma CombinedByte(rows: seq<seq<byte>>, idx: seq<nat>, data: seq<byte>, k: nat,
                     draw: Draws, a: nat, b: nat)
    requires Selection(rows, idx, data, k, draw, a) && b < |data|
    ensures Combinable(rows) && |rows[0]| == |data| + 1
    ensures Combined(rows)[b] ==
            if InterpolatedSum(rows, b) >= 0 then data[b] else Negated(data[b])
  {
    SelectionCombinable(rows, idx, data, k, draw, a);
    InterpolationRecoversSecret(rows, idx, data, k, draw, a, b);
  }

  /** `Combine` inverts `Split` exactly when no negative sum meets a byte its negation changes. */
  lemma RoundTripExactly(rows: seq<seq<byte>>, idx: seq<nat>, data: seq<byte>, k: nat,
                         draw: Draws, a: nat)
    requires Selection(rows, idx, data, k, draw, a)
    ensures Combinable(rows) && |rows[0]| == |data| + 1
    ensures Combined(rows) == data <==>
            forall b :: 0 <= b < |data| ==>
              InterpolatedSum(rows, b) >= 0 || data[b] == 0 || data[b] == 128
  {
    SelectionCombinable(rows, idx, data, k, draw, a);
    forall b | 0 <= b < |data|
      ensures Combined(rows)[b] == data[b] <==>
              InterpolatedSum(rows, b) >= 0 || data[b] == 0 || data[b] == 128
    {
      CombinedByte(rows, idx, data, k, draw, a, b);
    }
    if Combined(rows) == data {
      forall b | 0 <= b < |data|
        ensures InterpolatedSum(rows, b) >= 0 || data[b] == 0 || data[b] == 128
      {
        assert Combined(rows)[b] == data[b];
      }
    }
  }

  /** The round trip does fail: byte 1, threshold 2, coefficient 255, shares 1 and 2. */
  lemma RoundTripCanFail()
    ensures var draw: Draws := (b, i) => Some(255);
            var rows := [[1, 0], [2, 255]];
            && Selection(rows, [0, 1], [1], 2, draw, 1)
            && Combinable(rows) && Combined(rows) == [255]
  {
    var draw: Draws := (b, i) => Some(255);
    var rows: seq<seq<byte>> := [[1, 0], [2, 255]];
    var polys := Polynomials([1], 2, draw);
    assert polys == [[1, 255]] by {
      assert PolynomialOf(1, 0, 2, draw) == [1, 255];
    }
    SharesOfExample(polys);
    assert Labels(rows) == Range(1, 2);
    SelectionCombinable(rows, [0, 1], [1], 2, draw, 1);
    assert PointsAt(rows, 0) == [Point(1, 0), Point(2, 255)];
    SumOfTwo(PointsAt(rows, 0));
    assert Combined(rows) == [255];
  }

  lemma SharesOfExample(polys: seq<seq<byte>>)
    requires polys == [[1, 255]]
    ensures ShareRow(polys, 0) == [1, 0] && ShareRow(polys, 1) == [2, 255]
  {
    var c := [1, 255];
    assert c[1..] == [255] && [255][1..] == [];
    assert Eval([255], 1) == 255 && Eval([255], 2) == 255;
    assert Eval(c, 1) == 256 && Eval(c, 2) == 511;
  }

  lemma SumOfTwo(points: seq<Point>)
    requires points == [Point(1, 0), Point(2, 255)]
    ensures Interpolate(0, points) == -255
  {
    var xs := Xs(points);
    assert Others(xs, 0) == [2] && Others(xs, 1) == [1];
    forall base, x: int
      ensures Product(base, [x]) == base - x
    {
      assert Product(base, []) == 1;
    }
    assert Term(0, points, 0) == 0;
    assert Term(0, points, 1) == -255;
    assert SumOfTerms(0, points, 1) == SumOfTerms(0, points, 0) + Term(0, points, 0);
  }
}
