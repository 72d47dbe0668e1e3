/**
  The arithmetic of one weighted draw without replacement.

  Candidates are positions 0, ..., |ws| - 1 with weights `ws`; `chosen` is the set of positions
  already selected. A draw is a value `v` between zero and the weight still unselected.
 */
module WeightedDraw {
  import opened Results
  import opened Sequences

  ghost predicate NonNegative(ws: seq<real>) {
    forall i :: 0 <= i < |ws| ==> ws[i] >= 0.0
  }

  /** The weight of the unselected candidates before position i. */
  ghost function WeightBefore(ws: seq<real>, chosen: set<nat>, i: nat): real
    requires i <= |ws|
  {
    if i == 0 then 0.0
    else WeightBefore(ws, chosen, i - 1) + (if i - 1 in chosen then 0.0 else ws[i - 1])
  }

  ghost function WeightLeft(ws: seq<real>, chosen: set<nat>): real {
    WeightBefore(ws, chosen, |ws|)
  }

  /** Candidate i owns the half-open interval (before, before + weight]. */
  ghost predicate InInterval(ws: seq<real>, chosen: set<nat>, i: nat, v: real) {
    && i < |ws| && i !in chosen
    && WeightBefore(ws, chosen, i) < v <= WeightBefore(ws, chosen, i) + ws[i]
  }

  ghost predicate IsFirstUnselected(ws: seq<real>, chosen: set<nat>, i: nat) {
    && i < |ws| && i !in chosen
    && forall j :: 0 <= j < i ==> j in chosen
  }

  /** The first unselected position from i on whose cumulative weight reaches v. */
  ghost function Scan(ws: seq<real>, chosen: set<nat>, v: real, i: nat): Option<nat>
    requires i <= |ws|
    decreases |ws| - i
  {
    if i == |ws| then None
    else if i !in chosen && v <= WeightBefore(ws, chosen, i + 1) then Some(i)
    else Scan(ws, chosen, v, i + 1)
  }

  lemma {:induction false} WeightBeforeMonotone(ws: seq<real>, chosen: set<nat>, i: nat, j: nat)
    requires NonNegative(ws) && i <= j <= |ws|
    ensures WeightBefore(ws, chosen, i) <= WeightBefore(ws, chosen, j)
  {
    if i < j {
      WeightBeforeMonotone(ws, chosen, i, j - 1);
    }
  }

  /**
    The intervals of the unselected candidates partition (0, WeightLeft]: every draw in it
    lies in the interval of one candidate, and of no other.
   */
  lemma {:induction false} IntervalsPartition(ws: seq<real>, chosen: set<nat>, v: real, n: nat) returns (i: nat)
    requires NonNegative(ws) && n <= |ws| && 0.0 < v <= WeightBefore(ws, chosen, n)
    ensures i < n && InInterval(ws, chosen, i, v)
    ensures forall j: nat :: InInterval(ws, chosen, j, v) ==> j == i
  {
    assert n > 0;
    if v <= WeightBefore(ws, chosen, n - 1) {
      i := IntervalsPartition(ws, chosen, v, n - 1);
    } else {
      i := n - 1;
      IntervalsDisjoint(ws, chosen, v, i);
    }
  }

  lemma IntervalsDisjoint(ws: seq<real>, chosen: set<nat>, v: real, i: nat)
    requires NonNegative(ws) && InInterval(ws, chosen, i, v)
    ensures forall j: nat :: InInterval(ws, chosen, j, v) ==> j == i
  {
    forall j: nat | InInterval(ws, chosen, j, v)
      ensures j == i
    {
      if j < i {
        WeightBeforeMonotone(ws, chosen, j + 1, i);
      } else if i < j {
        WeightBeforeMonotone(ws, chosen, i + 1, j);
      }
    }
  }

  /** Nothing lies outside (0, WeightLeft]. */
  lemma IntervalsInRange(ws: seq<real>, chosen: set<nat>, v: real, i: nat)
    requires NonNegative(ws) && InInterval(ws, chosen, i, v)
    ensures 0.0 < v <= WeightLeft(ws, chosen)
  {
    WeightBeforeMonotone(ws, chosen, 0, i);
    WeightBeforeMonotone(ws, chosen, i + 1, |ws|);
  }

  /**
    The scan picks the candidate whose interval holds the draw, and the first unselected
    candidate for a draw of zero; it finds one exactly when some candidate is unselected.
   */
  lemma ScanIsWeightedDraw(ws: seq<real>, chosen: set<nat>, v: real)
    requires NonNegative(ws) && 0.0 <= v <= WeightLeft(ws, chosen)
    ensures Scan(ws, chosen, v, 0).Some? <==> exists i :: 0 <= i < |ws| && i !in chosen
    ensures forall i :: 0 <= i < |ws| ==>
      (Scan(ws, chosen, v, 0) == Some(i) <==>
       if v == 0.0 then IsFirstUnselected(ws, chosen, i) else InInterval(ws, chosen, i, v))
  {
    if v == 0.0 {
      ScanAtZero(ws, chosen, 0);
    } else {
      var i := IntervalsPartition(ws, chosen, v, |ws|);
      ScanReaches(ws, chosen, v, 0, i);
    }
  }

  lemma {:induction false} ScanAtZero(ws: seq<real>, chosen: set<nat>, i: nat)
    requires NonNegative(ws) && i <= |ws| && forall j :: 0 <= j < i ==> j in chosen
    ensures match Scan(ws, chosen, 0.0, i)
            case Some(p) => IsFirstUnselected(ws, chosen, p)
            case None => forall j :: 0 <= j < |ws| ==> j in chosen
    decreases |ws| - i
  {
    if i < |ws| {
      WeightBeforeMonotone(ws, chosen, 0, i + 1);
      if i in chosen {
        ScanAtZero(ws, chosen, i + 1);
      }
    }
  }

  lemma {:induction false} ScanReaches(ws: seq<real>, chosen: set<nat>, v: real, i: nat, p: nat)
    requires NonNegative(ws) && i <= p && InInterval(ws, chosen, p, v)
    ensures Scan(ws, chosen, v, i) == Some(p)
    decreases p - i
  {
    if i < p {
      WeightBeforeMonotone(ws, chosen, i + 1, p);
      ScanReaches(ws, chosen, v, i + 1, p);
    }
  }

  /** Selecting a candidate takes exactly its weight off the unselected weight. */
  lemma {:induction false} WeightAfterSelection(ws: seq<real>, chosen: set<nat>, p: nat, n: nat)
    requires p < |ws| && p !in chosen && n <= |ws|
    ensures WeightBefore(ws, chosen + {p}, n) ==
            WeightBefore(ws, chosen, n) - (if p < n then ws[p] else 0.0)
  {
    if n > 0 {
      WeightAfterSelection(ws, chosen, p, n - 1);
    }
  }

  // ----- repeated draws

  ghost predicate UnitDraws(draws: nat -> real) {
    forall i :: 0.0 <= draws(i) <= 1.0
  }

  ghost function Positions(picks: seq<nat>): set<nat> {
    set p | p in picks
  }

  /** Draw k, scaled to the weight still unselected. */
  ghost function DrawValue(ws: seq<real>, draws: nat -> real, k: nat, chosen: set<nat>): real {
    draws(k) * WeightLeft(ws, chosen)
  }

  /**
    The positions selected by the first n draws: draw k, scaled to the weight that the first k
    selections left over, selects the candidate the scan finds.
   */
  ghost function Picks(ws: seq<real>, draws: nat -> real, n: nat): seq<nat> {
    if n == 0 then []
    else
      var before := Picks(ws, draws, n - 1);
      var chosen := Positions(before);
      match Scan(ws, chosen, DrawValue(ws, draws, n - 1, chosen), 0)
      case Some(p) => before + [p]
      case None => before
  }

  lemma DrawValueInRange(ws: seq<real>, draws: nat -> real, k: nat, chosen: set<nat>)
    requires NonNegative(ws) && UnitDraws(draws)
    ensures 0.0 <= DrawValue(ws, draws, k, chosen) <= WeightLeft(ws, chosen)
  {
    WeightBeforeMonotone(ws, chosen, 0, |ws|);
    ScaleByUnit(draws(k), WeightLeft(ws, chosen));
  }

  lemma DrawIsScaled(ws: seq<real>, draws: nat -> real, k: nat, chosen: set<nat>)
    ensures DrawValue(ws, draws, k, chosen) == draws(k) * WeightLeft(ws, chosen)
  {
  }

  lemma ScaleByUnit(d: real, total: real)
    requires 0.0 <= d <= 1.0 && total >= 0.0
    ensures 0.0 <= d * total <= total
  {
  }

  /** As long as a candidate is left, every draw selects exactly one new candidate. */
  lemma NextPick(ws: seq<real>, draws: nat -> real, k: nat, picks: seq<nat>) returns (p: nat)
    requires NonNegative(ws) && UnitDraws(draws) && |picks| < |ws|
    ensures Scan(ws, Positions(picks), DrawValue(ws, draws, k, Positions(picks)), 0) == Some(p)
    ensures p < |ws| && p !in picks
  {
    var chosen := Positions(picks);
    var v := DrawValue(ws, draws, k, chosen);
    DrawValueInRange(ws, draws, k, chosen);
    var i := SomeUnselected(|ws|, picks);
    ScanIsWeightedDraw(ws, chosen, v);
    ScanResult(ws, chosen, v, 0);
    p := Scan(ws, chosen, v, 0).value;
  }

  lemma {:induction false} ScanResult(ws: seq<real>, chosen: set<nat>, v: real, i: nat)
    requires i <= |ws|
    ensures match Scan(ws, chosen, v, i) case Some(p) => i <= p < |ws| && p !in chosen case None => true
    decreases |ws| - i
  {
    if i < |ws| {
      ScanResult(ws, chosen, v, i + 1);
    }
  }

  /** Fewer than m positions cannot exhaust 0, ..., m - 1. */
  lemma SomeUnselected(m: nat, picks: seq<nat>) returns (i: nat)
    requires |picks| < m
    ensures i < m && i !in Positions(picks)
  {
    PositionsCardinality(picks);
    if Below(m) <= Positions(picks) {
      SubsetSize(Below(m), Positions(picks));
      assert false;
    }
    i :| i in Below(m) && i !in Positions(picks);
  }

  lemma {:induction false} PositionsCardinality(picks: seq<nat>)
    ensures |Positions(picks)| <= |picks|
  {
    if picks != [] {
      var n := |picks| - 1;
      PositionsCardinality(picks[..n]);
      assert Positions(picks) == Positions(picks[..n]) + {picks[n]};
    }
  }

  ghost predicate DistinctPositions(picks: seq<nat>, m: nat) {
    && (forall i :: 0 <= i < |picks| ==> picks[i] < m)
    && (forall i, j :: 0 <= i < j < |picks| ==> picks[i] != picks[j])
  }

  /** Drawing n of at least n candidates yields n distinct ones, for every stream of draws. */
  lemma {:induction false} PicksAreDistinct(ws: seq<real>, draws: nat -> real, n: nat)
    requires NonNegative(ws) && UnitDraws(draws) && n <= |ws|
    ensures |Picks(ws, draws, n)| == n && DistinctPositions(Picks(ws, draws, n), |ws|)
  {
    if n > 0 {
      PicksAreDistinct(ws, draws, n - 1);
      var p := NextPick(ws, draws, n - 1, Picks(ws, draws, n - 1));
    }
  }

  /** One more draw: a new candidate joins the selection, and its weight leaves the total. */
  lemma ExtendPicks(ws: seq<real>, draws: nat -> real, picks: seq<nat>) returns (p: nat)
    requires NonNegative(ws) && UnitDraws(draws) && |picks| < |ws|
    requires picks == Picks(ws, draws, |picks|) && DistinctPositions(picks, |ws|)
    ensures Scan(ws, Positions(picks), DrawValue(ws, draws, |picks|, Positions(picks)), 0) == Some(p)
    ensures p < |ws|
    ensures picks + [p] == Picks(ws, draws, |picks| + 1) && DistinctPositions(picks + [p], |ws|)
    ensures WeightLeft(ws, Positions(picks + [p])) == WeightLeft(ws, Positions(picks)) - ws[p]
  {
    p := NextPick(ws, draws, |picks|, picks);
    WeightAfterSelection(ws, Positions(picks), p, |ws|);
    assert (picks + [p])[|picks|] == p;
    assert Positions(picks + [p]) == Positions(picks) + {p};
  }

  /** Selection k is the weighted draw among the candidates the first k selections left. */
  lemma PickIsWeightedDraw(ws: seq<real>, draws: nat -> real, k: nat)
    requires NonNegative(ws) && UnitDraws(draws) && k < |ws|
    ensures |Picks(ws, draws, k)| == k && |Picks(ws, draws, k + 1)| == k + 1
    ensures Picks(ws, draws, k + 1)[..k] == Picks(ws, draws, k)
    ensures var p, chosen := Picks(ws, draws, k + 1)[k], Positions(Picks(ws, draws, k));
            var v := DrawValue(ws, draws, k, chosen);
            if v == 0.0 then IsFirstUnselected(ws, chosen, p) else InInterval(ws, chosen, p, v)
  {
    PicksAreDistinct(ws, draws, k);
    PicksAreDistinct(ws, draws, k + 1);
    var picks := Picks(ws, draws, k);
    var p := NextPick(ws, draws, k, picks);
    DrawValueInRange(ws, draws, k, Positions(picks));
    ScanIsWeightedDraw(ws, Positions(picks), DrawValue(ws, draws, k, Positions(picks)));
  }

  /**
    The candidate owns the draw: the draw times the unselected weight lies in its interval, or is
    zero and the candidate is the first unselected one.
   */
  ghost predicate Owns(ws: seq<real>, chosen: set<nat>, p: nat, draw: real) {
    var v := draw * WeightLeft(ws, chosen);
    if v == 0.0 then IsFirstUnselected(ws, chosen, p) else InInterval(ws, chosen, p, v)
  }

  /** Which candidate draw k selects: the owner of the draw, and nobody else. */
  lemma PickExactly(ws: seq<real>, draws: nat -> real, k: nat, p: nat)
    requires NonNegative(ws) && UnitDraws(draws) && k < |ws| && p < |ws|
    ensures |Picks(ws, draws, k)| == k && |Picks(ws, draws, k + 1)| == k + 1
    ensures Picks(ws, draws, k + 1)[..k] == Picks(ws, draws, k)
    ensures Picks(ws, draws, k + 1)[k] == p <==> Owns(ws, Positions(Picks(ws, draws, k)), p, draws(k))
  {
    var picks := Picks(ws, draws, k);
    PicksAreDistinct(ws, draws, k);
    var q := NextPick(ws, draws, k, picks);
    assert (picks + [q])[k] == q;
    DrawValueInRange(ws, draws, k, Positions(picks));
    OwnerIsScanned(ws, draws, k, Positions(picks), p);
  }

  lemma OwnerIsScanned(ws: seq<real>, draws: nat -> real, k: nat, chosen: set<nat>, p: nat)
    requires NonNegative(ws) && 0.0 <= DrawValue(ws, draws, k, chosen) <= WeightLeft(ws, chosen) && p < |ws|
    ensures Scan(ws, chosen, DrawValue(ws, draws, k, chosen), 0) == Some(p) <==> Owns(ws, chosen, p, draws(k))
  {
    ScanIsWeightedDraw(ws, chosen, DrawValue(ws, draws, k, chosen));
    DrawIsScaled(ws, draws, k, chosen);
  }

  lemma ScaleUp(a: real, b: real, total: real)
    requires total > 0.0
    ensures a < b <==> a * total < b * total
  {
  }

  /** `cut` is the fraction of the unselected weight that `value` is. */
  ghost predicate IsCut(cut: real, left: real, value: real) {
    left > 0.0 && cut * left == value
  }

  lemma CutsCompare(a: real, b: real, left: real, x: real, y: real)
    requires IsCut(a, left, x) && IsCut(b, left, y)
    ensures a < b <==> x < y
  {
    ScaleUp(a, b, left);
  }

  /**
    The chance of a candidate: as long as some weight is unselected, the positive draws that select
    an unselected candidate are those between two cuts, and lie as far apart as its share of the
    unselected weight: `low` and `high` are the fractions at which its interval begins and ends.
   */
  lemma PickIsProportional(ws: seq<real>, draws: nat -> real, k: nat, p: nat, chosen: set<nat>, low: real, high: real)
    requires NonNegative(ws) && UnitDraws(draws) && k < |ws| && p < |ws| && draws(k) > 0.0
    requires chosen == Positions(Picks(ws, draws, k)) && p !in chosen
    requires IsCut(low, WeightLeft(ws, chosen), WeightBefore(ws, chosen, p))
    requires IsCut(high, WeightLeft(ws, chosen), WeightBefore(ws, chosen, p) + ws[p])
    ensures |Picks(ws, draws, k + 1)| == k + 1
    ensures Picks(ws, draws, k + 1)[k] == p <==> low < draws(k) <= high
    ensures 0.0 <= low <= high <= 1.0 && IsCut(high - low, WeightLeft(ws, chosen), ws[p])
  {
    PickExactly(ws, draws, k, p);
    OwnedDraws(ws, chosen, p, draws(k), low, high);
    CutsInUnit(ws, chosen, p, low, high);
  }

  lemma CutsInUnit(ws: seq<real>, chosen: set<nat>, p: nat, low: real, high: real)
    requires NonNegative(ws) && p < |ws| && p !in chosen
    requires IsCut(low, WeightLeft(ws, chosen), WeightBefore(ws, chosen, p))
    requires IsCut(high, WeightLeft(ws, chosen), WeightBefore(ws, chosen, p) + ws[p])
    ensures 0.0 <= low <= high <= 1.0 && IsCut(high - low, WeightLeft(ws, chosen), ws[p])
  {
    var before, left := WeightBefore(ws, chosen, p), WeightLeft(ws, chosen);
    WeightBeforeMonotone(ws, chosen, 0, p);
    WeightBeforeMonotone(ws, chosen, p + 1, |ws|);
    CutsCompare(low, 0.0, left, before, 0.0);
    CutsCompare(high, low, left, before + ws[p], before);
    CutsCompare(1.0, high, left, left, before + ws[p]);
  }

  lemma OwnedDraws(ws: seq<real>, chosen: set<nat>, p: nat, d: real, low: real, high: real)
    requires NonNegative(ws) && p < |ws| && p !in chosen && d > 0.0
    requires IsCut(low, WeightLeft(ws, chosen), WeightBefore(ws, chosen, p))
    requires IsCut(high, WeightLeft(ws, chosen), WeightBefore(ws, chosen, p) + ws[p])
    ensures Owns(ws, chosen, p, d) <==> low < d <= high
  {
    var v := ScaledValue(d, WeightLeft(ws, chosen));
    BetweenCuts(low, high, d, WeightLeft(ws, chosen), WeightBefore(ws, chosen, p), WeightBefore(ws, chosen, p) + ws[p], v);
    OwnsInterval(ws, chosen, p, d, v);
  }

  lemma ScaledValue(d: real, left: real) returns (v: real)
    requires d > 0.0 && left > 0.0
    ensures IsCut(d, left, v) && v > 0.0
  {
    v := d * left;
    ScaleUp(0.0, d, left);
  }

  lemma BetweenCuts(low: real, high: real, d: real, left: real, x: real, y: real, v: real)
    requires IsCut(low, left, x) && IsCut(high, left, y) && IsCut(d, left, v)
    ensures x < v <= y <==> low < d <= high
  {
    CutsCompare(low, d, left, x, v);
    CutsCompare(high, d, left, y, v);
  }

  lemma OwnsInterval(ws: seq<real>, chosen: set<nat>, p: nat, d: real, v: real)
    requires p < |ws| && p !in chosen && IsCut(d, WeightLeft(ws, chosen), v) && v > 0.0
    ensures Owns(ws, chosen, p, d) <==> WeightBefore(ws, chosen, p) < v <= WeightBefore(ws, chosen, p) + ws[p]
  {
  }

  lemma CutExists(left: real, value: real) returns (cut: real)
    requires left > 0.0
    ensures IsCut(cut, left, value)
  {
    cut := value / left;
  }

  /** More draws keep the earlier selections. */
  lemma {:induction false} PicksExtend(ws: seq<real>, draws: nat -> real, k: nat, n: nat)
    requires NonNegative(ws) && UnitDraws(draws) && k <= n <= |ws|
    ensures |Picks(ws, draws, n)| == n && |Picks(ws, draws, k)| == k
    ensures Picks(ws, draws, n)[..k] == Picks(ws, draws, k)
    decreases n
  {
    PicksAreDistinct(ws, draws, n);
    if k < n {
      PicksExtend(ws, draws, k, n - 1);
    }
  }

  lemma {:induction false} PicksAgree(ws: seq<real>, a: nat -> real, b: nat -> real, n: nat)
    requires forall i :: 0 <= i < n ==> a(i) == b(i)
    ensures Picks(ws, a, n) == Picks(ws, b, n)
  {
    if n > 0 {
      PicksAgree(ws, a, b, n - 1);
      var chosen := Positions(Picks(ws, a, n - 1));
      DrawIsScaled(ws, a, n - 1, chosen);
      DrawIsScaled(ws, b, n - 1, chosen);
      assert a(n - 1) == b(n - 1);
      assert DrawValue(ws, a, n - 1, chosen) == DrawValue(ws, b, n - 1, chosen);
    }
  }

  /** Everybody still unselected who has any weight is selected by some value of the next draw. */
  lemma EverybodyCanBeDrawn(ws: seq<real>, draws: nat -> real, k: nat, p: nat) returns (d: real)
    requires NonNegative(ws) && UnitDraws(draws) && k < |ws| && p < |ws|
    requires p !in Positions(Picks(ws, draws, k)) && ws[p] > 0.0
    ensures 0.0 <= d <= 1.0
    ensures var redrawn := (i: nat) => if i == k then d else draws(i);
            |Picks(ws, redrawn, k + 1)| == k + 1 && Picks(ws, redrawn, k + 1)[k] == p
  {
    var chosen := Positions(Picks(ws, draws, k));
    var before, left := WeightBefore(ws, chosen, p), WeightLeft(ws, chosen);
    WeightBeforeMonotone(ws, chosen, 0, p);
    WeightBeforeMonotone(ws, chosen, p + 1, |ws|);
    var low := CutExists(left, before);
    d := CutExists(left, before + ws[p]);
    CutsCompare(0.0, d, left, 0.0, before + ws[p]);
    CutsCompare(low, d, left, before, before + ws[p]);
    CutsCompare(1.0, d, left, left, before + ws[p]);
    var redrawn := (i: nat) => if i == k then d else draws(i);
    PicksAgree(ws, redrawn, draws, k);
    PickIsProportional(ws, redrawn, k, p, chosen, low, d);
  }

  /** Once every candidate is selected no draw selects anything: more cannot be drawn. */
  lemma DrawFromNothing(ws: seq<real>, draws: nat -> real, n: nat)
    requires NonNegative(ws) && UnitDraws(draws)
    ensures |Picks(ws, draws, |ws| + n)| == |ws|
    ensures Picks(ws, draws, |ws| + n) == Picks(ws, draws, |ws|)
    decreases n
  {
    PicksAreDistinct(ws, draws, |ws|);
    if n > 0 {
      DrawFromNothing(ws, draws, n - 1);
      var picks := Picks(ws, draws, |ws| + n - 1);
      AllSelected(picks, |ws|);
      NothingToScan(ws, Positions(picks), DrawValue(ws, draws, |ws| + n - 1, Positions(picks)), 0);
    }
  }

  lemma {:induction false} NothingToScan(ws: seq<real>, chosen: set<nat>, v: real, i: nat)
    requires i <= |ws| && forall j :: 0 <= j < |ws| ==> j in chosen
    ensures Scan(ws, chosen, v, i) == None
    decreases |ws| - i
  {
    if i < |ws| {
      NothingToScan(ws, chosen, v, i + 1);
    }
  }

  lemma {:induction false} DistinctCardinality(picks: seq<nat>, m: nat)
    requires DistinctPositions(picks, m)
    ensures |Positions(picks)| == |picks|
  {
    if picks != [] {
      var n := |picks| - 1;
      DistinctCardinality(picks[..n], m);
      assert Positions(picks) == Positions(picks[..n]) + {picks[n]};
    }
  }

  lemma AllSelected(picks: seq<nat>, m: nat)
    requires DistinctPositions(picks, m) && |picks| == m
    ensures forall i :: 0 <= i < m ==> i in Positions(picks)
  {
    DistinctCardinality(picks, m);
    forall i | 0 <= i < m
      ensures i in Positions(picks)
    {
      if i !in Positions(picks) {
        SubsetSize(Positions(picks) + {i}, Below(m));
      }
    }
  }
}
