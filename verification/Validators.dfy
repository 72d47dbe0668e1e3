/**
  Selecting the validator committee: weights, the deterministic top two thirds, weighted draws
  for the rest, and the two committee slots of the manager.
 */
module Validators {
  import opened Results
  import opened Sequences
  import opened WeightedDraw

  class Validator {
    const peerId: PeerId
    const stakeAmount: int
    const reputation: real
    const availability: real
    var weight: real

    constructor (peerId: PeerId, stakeAmount: int, reputation: real, availability: real)
      ensures this.peerId == peerId && this.stakeAmount == stakeAmount
      ensures this.reputation == reputation && this.availability == availability
      ensures weight == 0.0
    {
      this.peerId, this.stakeAmount := peerId, stakeAmount;
      this.reputation, this.availability := reputation, availability;
      weight := 0.0;
    }
  }

  // ----- weights

  /** Four tenths stake in units of 10000, three tenths reputation, three tenths availability. */
  function WeightOf(v: Validator): real {
    v.stakeAmount as real / 10000.0 * 0.4 + v.reputation * 0.3 + v.availability * 0.3
  }

  ghost predicate Weighed(s: seq<Validator>)
    reads s
  {
    forall v :: v in s ==> v.weight == WeightOf(v)
  }

  method CalculateWeights(validators: array<Validator>)
    modifies validators[..]
    ensures Weighed(validators[..])
  {
    for i := 0 to validators.Length
      invariant Weighed(validators[..i])
    {
      validators[i].weight := WeightOf(validators[i]);
    }
    assert validators[..validators.Length] == validators[..];
  }

  /**
    What the computed weights are worth: 0.4 for every 10000 of stake and 0.3 for every unit of
    reputation and of availability, starting from nothing.
   */
  lemma WeightRates(s: seq<Validator>, a: Validator, b: Validator)
    requires Weighed(s) && a in s && b in s
    ensures 10.0 * (a.weight - b.weight) ==
            4.0 * ((a.stakeAmount - b.stakeAmount) as real / 10000.0)
            + 3.0 * (a.reputation - b.reputation) + 3.0 * (a.availability - b.availability)
    ensures a.stakeAmount == 0 && a.reputation == 0.0 && a.availability == 0.0 ==> a.weight == 0.0
  {
  }

  /** No less of anything and more of something: stake, reputation or availability. */
  ghost predicate Dominates(a: Validator, b: Validator) {
    && a.stakeAmount >= b.stakeAmount && a.reputation >= b.reputation && a.availability >= b.availability
    && (a.stakeAmount > b.stakeAmount || a.reputation > b.reputation || a.availability > b.availability)
  }

  /** A candidate that dominates another has strictly more computed weight. */
  lemma DominanceIsMoreWeight(s: seq<Validator>, a: Validator, b: Validator)
    requires Weighed(s) && a in s && b in s && Dominates(a, b)
    ensures a.weight > b.weight
  {
    WeightRates(s, a, b);
  }

  // ----- lists of candidates

  ghost predicate DistinctIds(s: seq<Validator>) {
    forall i, j :: 0 <= i < j < |s| ==> s[i].peerId != s[j].peerId
  }

  ghost predicate Descending(s: seq<Validator>)
    reads s
  {
    forall i, j :: 0 <= i < j < |s| ==> s[i].weight >= s[j].weight
  }

  ghost predicate HaveWeights(s: seq<Validator>, ws: seq<real>)
    reads s
  {
    |ws| == |s| && forall i :: 0 <= i < |s| ==> s[i].weight == ws[i]
  }

  ghost function WeightsOf(s: seq<Validator>): (ws: seq<real>)
    reads s
    ensures HaveWeights(s, ws)
  {
    seq(|s|, i requires 0 <= i < |s| reads s => s[i].weight)
  }

  /** `r` lists the elements of `s` at the given positions. */
  ghost predicate ElementsAt(r: seq<Validator>, s: seq<Validator>, positions: seq<nat>) {
    && |r| == |positions|
    && forall i :: 0 <= i < |r| ==> positions[i] < |s| && r[i] == s[positions[i]]
  }

  /** The first i elements are in place: none is lighter than any element after it. */
  ghost predicate PlacedUpTo(a: array<Validator>, i: nat)
    reads a, a[..]
    requires i <= a.Length
  {
    forall p, q :: 0 <= p < i && p < q < a.Length ==> a[p].weight >= a[q].weight
  }

  method Swap(a: array<Validator>, i: nat, j: nat)
    requires i < j < a.Length
    modifies a
    ensures a[i] == old(a[j]) && a[j] == old(a[i])
    ensures forall q :: 0 <= q < a.Length && q != i && q != j ==> a[q] == old(a[q])
    ensures multiset(a[..]) == old(multiset(a[..]))
  {
    a[i], a[j] := a[j], a[i];
  }

  /** Brings the heaviest of a[i..] to position i by exchanges. */
  method PlaceHeaviest(a: array<Validator>, i: nat)
    requires i < a.Length && PlacedUpTo(a, i)
    modifies a
    ensures multiset(a[..]) == old(multiset(a[..]))
    ensures PlacedUpTo(a, i + 1)
  {
    for j := i + 1 to a.Length
      invariant multiset(a[..]) == old(multiset(a[..]))
      invariant PlacedUpTo(a, i)
      invariant forall q :: i < q < j ==> a[i].weight >= a[q].weight
    {
      if a[j].weight > a[i].weight {
        Swap(a, i, j);
      }
    }
  }

  /** In-place sort; the order among equal weights is whatever the exchanges leave. */
  method SortDescending(a: array<Validator>)
    modifies a
    ensures multiset(a[..]) == old(multiset(a[..]))
    ensures Descending(a[..])
  {
    for i := 0 to a.Length
      invariant multiset(a[..]) == old(multiset(a[..]))
      invariant PlacedUpTo(a, i)
    {
      PlaceHeaviest(a, i);
    }
  }

  // ----- weighted random selection

  ghost function IdsAt(s: seq<Validator>, positions: seq<nat>): (ids: set<PeerId>)
    requires forall i :: 0 <= i < |positions| ==> positions[i] < |s|
  {
    set i | 0 <= i < |positions| :: s[positions[i]].peerId
  }

  method TotalWeight(candidates: seq<Validator>) returns (total: real)
    ensures total == WeightLeft(WeightsOf(candidates), {})
  {
    total := 0.0;
    for i := 0 to |candidates|
      invariant total == WeightBefore(WeightsOf(candidates), {}, i)
    {
      total := total + candidates[i].weight;
    }
  }

  /**
    Weighted draws without replacement. The list of candidates never shrinks; the loop ends
    because `totalWeight` is always the weight of the unselected candidates, so that every
    draw falls into the interval of one of them. Asking for more than there are would not end.
   */
  method WeightedRandomSelection(candidates: seq<Validator>, count: nat, draws: nat -> real)
    returns (selected: seq<Validator>)
    requires NonNegative(WeightsOf(candidates)) && DistinctIds(candidates)
    requires UnitDraws(draws) && count <= |candidates|
    ensures |selected| == count
    ensures ElementsAt(selected, candidates, Picks(WeightsOf(candidates), draws, count))
  {
    ghost var ws := WeightsOf(candidates);
    var totalWeight := TotalWeight(candidates);
    selected := [];
    var selectedMap: set<PeerId> := {};
    ghost var picks: seq<nat> := [];
    assert Positions(picks) == {};
    while |selected| < count
      invariant |selected| == |picks| <= count
      invariant picks == Picks(ws, draws, |picks|) && DistinctPositions(picks, |candidates|)
      invariant ElementsAt(selected, candidates, picks)
      invariant selectedMap == IdsAt(candidates, picks)
      invariant totalWeight == WeightLeft(ws, Positions(picks))
    {
      var randomFloat := Draw(draws, |selected|, totalWeight, ws, Positions(picks));
      var i := DrawOne(candidates, selectedMap, randomFloat, ws, draws, picks);
      ElementsAppend(selected, candidates, picks, i);
      selected := selected + [candidates[i]];
      selectedMap := selectedMap + {candidates[i].peerId};
      totalWeight := totalWeight - candidates[i].weight;
      picks := picks + [i];
    }
  }

  method Draw(draws: nat -> real, k: nat, totalWeight: real, ghost ws: seq<real>, ghost chosen: set<nat>)
    returns (randomFloat: real)
    requires totalWeight == WeightLeft(ws, chosen)
    ensures randomFloat == DrawValue(ws, draws, k, chosen)
  {
    randomFloat := draws(k) * totalWeight;
  }

  lemma ElementsAppend(selected: seq<Validator>, candidates: seq<Validator>, picks: seq<nat>, i: nat)
    requires ElementsAt(selected, candidates, picks) && i < |candidates|
    ensures ElementsAt(selected + [candidates[i]], candidates, picks + [i])
  {
  }

  /** One round: exactly one new candidate, the one whose interval holds the draw. */
  method DrawOne(candidates: seq<Validator>, selectedMap: set<PeerId>, randomFloat: real,
                 ghost ws: seq<real>, ghost draws: nat -> real, ghost picks: seq<nat>) returns (i: nat)
    requires HaveWeights(candidates, ws) && NonNegative(ws)
    requires DistinctIds(candidates) && UnitDraws(draws)
    requires DistinctPositions(picks, |candidates|) && |picks| < |candidates|
    requires picks == Picks(ws, draws, |picks|) && selectedMap == IdsAt(candidates, picks)
    requires randomFloat == DrawValue(ws, draws, |picks|, Positions(picks))
    ensures i < |candidates| && DistinctPositions(picks + [i], |candidates|)
    ensures picks + [i] == Picks(ws, draws, |picks| + 1)
    ensures IdsAt(candidates, picks + [i]) == IdsAt(candidates, picks) + {candidates[i].peerId}
    ensures WeightLeft(ws, Positions(picks + [i])) == WeightLeft(ws, Positions(picks)) - candidates[i].weight
  {
    ghost var p := ExtendPicks(ws, draws, picks);
    SelectedIds(candidates, picks);
    i := ScanCandidates(candidates, selectedMap, randomFloat, ws, Positions(picks));
    AppendPick(candidates, picks, i);
  }

  lemma AppendPick(candidates: seq<Validator>, picks: seq<nat>, i: nat)
    requires forall k :: 0 <= k < |picks| ==> picks[k] < |candidates|
    requires i < |candidates|
    ensures IdsAt(candidates, picks + [i]) == IdsAt(candidates, picks) + {candidates[i].peerId}
  {
    var after := picks + [i];
    assert after[|picks|] == i;
    forall id | id in IdsAt(candidates, picks)
      ensures id in IdsAt(candidates, after)
    {
      var k :| 0 <= k < |picks| && candidates[picks[k]].peerId == id;
      assert after[k] == picks[k];
    }
  }

  lemma SelectedIds(candidates: seq<Validator>, picks: seq<nat>)
    requires DistinctIds(candidates)
    requires forall k :: 0 <= k < |picks| ==> picks[k] < |candidates|
    ensures forall i :: 0 <= i < |candidates| ==>
      (candidates[i].peerId in IdsAt(candidates, picks) <==> i in Positions(picks))
  {
    forall i | 0 <= i < |candidates|
      ensures candidates[i].peerId in IdsAt(candidates, picks) <==> i in Positions(picks)
    {
      if candidates[i].peerId in IdsAt(candidates, picks) {
        var k :| 0 <= k < |picks| && candidates[picks[k]].peerId == candidates[i].peerId;
        assert picks[k] == i;
      }
    }
  }

  /** The inner loop: skip selected candidates, accumulate weight until the draw is reached. */
  method ScanCandidates(candidates: seq<Validator>, selectedMap: set<PeerId>, randomFloat: real,
                        ghost ws: seq<real>, ghost chosen: set<nat>) returns (selected: nat)
    requires HaveWeights(candidates, ws)
    requires forall i :: 0 <= i < |candidates| ==>
      (candidates[i].peerId in selectedMap <==> i in chosen)
    requires Scan(ws, chosen, randomFloat, 0).Some?
    ensures Scan(ws, chosen, randomFloat, 0) == Some(selected)
  {
    var cumulativeWeight := 0.0;
    selected := 0;
    while selected < |candidates|
      invariant selected <= |candidates|
      invariant cumulativeWeight == WeightBefore(ws, chosen, selected)
      invariant Scan(ws, chosen, randomFloat, 0) == Scan(ws, chosen, randomFloat, selected)
    {
      if candidates[selected].peerId !in selectedMap {
        cumulativeWeight := cumulativeWeight + candidates[selected].weight;
        if randomFloat <= cumulativeWeight {
          return;
        }
      }
      selected := selected + 1;
    }
  }

  // ----- the committee

  /** Two thirds of the seats, rounded down. */
  ghost function TopCount(count: nat): (top: nat)
    ensures 3 * top <= 2 * count < 3 * top + 3
  {
    count * 2 / 3
  }

  /**
    `committee` is chosen from a sorted list with weights `ws`: its top two thirds, then draws
    from what follows.
   */
  ghost predicate IsCommittee(committee: seq<Validator>, sorted: seq<Validator>, ws: seq<real>,
                              count: nat, draws: nat -> real)
    requires |ws| == |sorted| && count <= |sorted|
  {
    var top := TopCount(count);
    && |committee| == count
    && committee[..top] == sorted[..top]
    && ElementsAt(committee[top..], sorted[top..], Picks(ws[top..], draws, count - top))
  }

  /** `committee` is the selection from one sorted order of the candidates. */
  ghost predicate IsSelection(committee: seq<Validator>, sorted: seq<Validator>, candidates: seq<Validator>,
                              count: nat, draws: nat -> real)
    reads sorted
  {
    && multiset(sorted) == multiset(candidates) && Descending(sorted)
    && count <= |sorted|
    && IsCommittee(committee, sorted, WeightsOf(sorted), count, draws)
  }

  lemma SortedCandidates(sorted: seq<Validator>, candidates: seq<Validator>)
    requires multiset(sorted) == multiset(candidates)
    requires NonNegative(WeightsOf(candidates)) && DistinctIds(candidates)
    ensures |sorted| == |candidates|
    ensures forall v :: v in sorted <==> v in candidates
    ensures NonNegative(WeightsOf(sorted)) && DistinctIds(sorted)
  {
    PermutationMembers(sorted, candidates);
    DistinctPermutation(candidates, sorted);
    forall i | 0 <= i < |sorted|
      ensures WeightsOf(sorted)[i] >= 0.0
    {
      var p := PositionOf(candidates, sorted[i]);
      assert WeightsOf(candidates)[p] >= 0.0;
    }
    forall i, j | 0 <= i < j < |sorted|
      ensures sorted[i].peerId != sorted[j].peerId
    {
      var p := PositionOf(candidates, sorted[i]);
      var q := PositionOf(candidates, sorted[j]);
      assert p < q || q < p;
    }
  }

  /** Every member of the heavy part weighs at least as much as every candidate outside it. */
  ghost predicate HeaviestFirst(committee: seq<Validator>, top: nat, candidates: seq<Validator>)
    reads committee, candidates
    requires top <= |committee|
  {
    forall m, v :: m in committee[..top] && v in candidates && v !in committee[..top] ==>
      m.weight >= v.weight
  }

  /** Positions 0, ..., top - 1, then the picks among the positions behind them. */
  lemma ShiftedPositions(top: nat, picks: seq<nat>, n: nat) returns (at: seq<nat>)
    requires DistinctPositions(picks, n)
    ensures |at| == top + |picks| && DistinctPositions(at, top + n)
    ensures forall i :: 0 <= i < top ==> at[i] == i
    ensures forall i :: top <= i < |at| ==> at[i] == top + picks[i - top]
  {
    at := seq(top + |picks|, i requires 0 <= i < top + |picks| => if i < top then i else top + picks[i - top]);
    forall i, j | 0 <= i < j < |at|
      ensures at[i] != at[j]
    {
      if i >= top {
        assert picks[i - top] != picks[j - top];
      }
    }
  }

  /** The positions in the sorted list that make up the committee. */
  lemma CommitteePositions(committee: seq<Validator>, sorted: seq<Validator>, ws: seq<real>, count: nat,
                           draws: nat -> real) returns (at: seq<nat>)
    requires |ws| == |sorted| && NonNegative(ws) && UnitDraws(draws) && count <= |sorted|
    requires IsCommittee(committee, sorted, ws, count, draws)
    ensures DistinctPositions(at, |sorted|) && ElementsAt(committee, sorted, at)
  {
    var top := TopCount(count);
    PicksAreDistinct(ws[top..], draws, count - top);
    var picks := Picks(ws[top..], draws, count - top);
    at := ShiftedPositions(top, picks, |sorted[top..]|);
    forall i | 0 <= i < count
      ensures committee[i] == sorted[at[i]]
    {
      if i < top {
        assert committee[..top][i] == sorted[..top][i];
      } else {
        assert committee[top..][i - top] == sorted[top..][picks[i - top]];
      }
    }
  }

  /** What the committee of any sorted order of the candidates is, ties broken anyhow. */
  lemma CommitteeProperties(committee: seq<Validator>, sorted: seq<Validator>, candidates: seq<Validator>,
                            count: nat, draws: nat -> real)
    requires IsSelection(committee, sorted, candidates, count, draws)
    requires NonNegative(WeightsOf(candidates)) && DistinctIds(candidates) && UnitDraws(draws)
    ensures |committee| == count && DistinctIds(committee)
    ensures forall m :: m in committee ==> m in candidates
    ensures HeaviestFirst(committee, TopCount(count), candidates)
  {
    SortedCandidates(sorted, candidates);
    var at := CommitteePositions(committee, sorted, WeightsOf(sorted), count, draws);
    forall i, j | 0 <= i < j < |committee|
      ensures committee[i].peerId != committee[j].peerId
    {
      assert at[i] < at[j] || at[j] < at[i];
    }
    forall m | m in committee
      ensures m in candidates
    {
      var i := PositionOf(committee, m);
      assert sorted[at[i]] == m;
    }
    TopIsHeaviest(sorted, candidates, TopCount(count));
  }

  lemma TopIsHeaviest(sorted: seq<Validator>, candidates: seq<Validator>, top: nat)
    requires multiset(sorted) == multiset(candidates) && Descending(sorted) && top <= |sorted|
    ensures forall m, v :: m in sorted[..top] && v in candidates && v !in sorted[..top] ==>
      m.weight >= v.weight
  {
    PermutationMembers(sorted, candidates);
    forall m, v | m in sorted[..top] && v in candidates && v !in sorted[..top]
      ensures m.weight >= v.weight
    {
      var i := PositionOf(sorted[..top], m);
      var j := PositionOf(sorted, v);
      assert forall k :: 0 <= k < top ==> sorted[..top][k] == sorted[k];
    }
  }

  /**
    Selects `count` of the candidates. The committee is a slice of the candidates' own array:
    the drawn members are appended behind the top part, over whatever stood there.
   */
  method SelectValidators(candidates: array<Validator>, count: nat, draws: nat -> real)
    returns (committee: seq<Validator>, ghost sorted: seq<Validator>)
    requires NonNegative(WeightsOf(candidates[..])) && DistinctIds(candidates[..]) && UnitDraws(draws)
    modifies candidates
    ensures candidates.Length <= count ==> committee == candidates[..] == old(candidates[..])
    ensures candidates.Length > count ==>
      && IsSelection(committee, sorted, old(candidates[..]), count, draws)
      && candidates[..] == committee + sorted[count..]
  {
    if candidates.Length <= count {
      return candidates[..], candidates[..];
    }
    ghost var before := candidates[..];
    SortDescending(candidates);
    sorted := candidates[..];
    SortedCandidates(sorted, before);
    committee := SelectFromSorted(candidates, WeightsOf(sorted), count, draws);
  }

  method SelectFromSorted(candidates: array<Validator>, ghost ws: seq<real>, count: nat, draws: nat -> real)
    returns (committee: seq<Validator>)
    requires HaveWeights(candidates[..], ws) && NonNegative(ws)
    requires DistinctIds(candidates[..]) && UnitDraws(draws) && count < candidates.Length
    modifies candidates
    ensures IsCommittee(committee, old(candidates[..]), ws, count, draws)
    ensures candidates[..] == committee + old(candidates[count..])
  {
    ghost var sorted := candidates[..];
    var topCount := count * 2 / 3;
    var remainingSlots := count - topCount;
    var selected := [];
    if remainingSlots > 0 {
      var remaining := candidates[topCount..];
      assert remaining == sorted[topCount..];
      assert WeightsOf(remaining) == ws[topCount..];
      selected := WeightedRandomSelection(remaining, remainingSlots, draws);
    }
    AppendInPlace(candidates, topCount, selected);
    committee := candidates[..count];
    AppendedSlice(committee, sorted, selected, ws, topCount, count, draws);
  }

  lemma AppendedSlice(committee: seq<Validator>, sorted: seq<Validator>, selected: seq<Validator>, ws: seq<real>,
                      top: nat, count: nat, draws: nat -> real)
    requires |ws| == |sorted| && count <= |sorted| && top == TopCount(count) && |selected| == count - top
    requires |committee| == count
    requires committee + sorted[count..] == sorted[..top] + selected + sorted[top + |selected|..]
    requires ElementsAt(selected, sorted[top..], Picks(ws[top..], draws, count - top))
    ensures IsCommittee(committee, sorted, ws, count, draws)
  {
    var all := sorted[..top] + selected + sorted[count..];
    assert committee == all[..count];
    assert committee[..top] == sorted[..top] && committee[top..] == selected;
  }

  /** append within the capacity of the backing array overwrites what follows the slice. */
  method AppendInPlace(a: array<Validator>, n: nat, added: seq<Validator>)
    requires n + |added| <= a.Length
    modifies a
    ensures a[..] == old(a[..n]) + added + old(a[n + |added|..])
  {
    for i := 0 to |added|
      invariant a[..n] == old(a[..n])
      invariant a[n..n + i] == added[..i]
      invariant a[n + i..] == old(a[n + i..])
    {
      a[n + i] := added[i];
    }
  }

  /** The candidates of the tail that are among the first k members behind the top. */
  ghost function TakenPositions(tail: seq<Validator>, drawn: seq<Validator>): set<nat> {
    set j: nat | j < |tail| && tail[j] in drawn
  }

  lemma TakenArePositions(tail: seq<Validator>, drawn: seq<Validator>, picks: seq<nat>)
    requires DistinctIds(tail) && ElementsAt(drawn, tail, picks)
    ensures TakenPositions(tail, drawn) == Positions(picks)
  {
    forall j: nat
      ensures j in TakenPositions(tail, drawn) <==> j in Positions(picks)
    {
      if j in TakenPositions(tail, drawn) {
        var i := PositionOf(drawn, tail[j]);
        assert tail[picks[i]].peerId == tail[j].peerId;
      }
      if j in Positions(picks) {
        var i := PositionOf(picks, j);
        assert drawn[i] == tail[j];
      }
    }
  }

  /**
    How the seats behind the top are filled, told from the stream and the weights alone: seat k
    goes to the candidate of the tail, not seated yet, that owns the draw among those not seated.
   */
  lemma SeatsAreDrawnByWeight(committee: seq<Validator>, sorted: seq<Validator>, candidates: seq<Validator>,
                              count: nat, draws: nat -> real, tail: seq<Validator>, drawn: seq<Validator>, k: nat, p: nat)
    requires IsSelection(committee, sorted, candidates, count, draws)
    requires NonNegative(WeightsOf(candidates)) && DistinctIds(candidates) && UnitDraws(draws)
    requires |committee| == count && tail == sorted[TopCount(count)..] && drawn == committee[TopCount(count)..]
    requires k < |drawn| && p < |tail|
    ensures drawn[k] == tail[p] <==> Owns(WeightsOf(tail), TakenPositions(tail, drawn[..k]), p, draws(k))
  {
    SelectedTail(committee, sorted, candidates, count, draws);
    TailIsDrawn(tail, WeightsOf(tail), drawn, draws, k, p);
  }

  lemma SelectedTail(committee: seq<Validator>, sorted: seq<Validator>, candidates: seq<Validator>,
                     count: nat, draws: nat -> real)
    requires IsSelection(committee, sorted, candidates, count, draws)
    requires NonNegative(WeightsOf(candidates)) && DistinctIds(candidates)
    ensures var top := TopCount(count);
            var tail, drawn := sorted[top..], committee[top..];
            && NonNegative(WeightsOf(tail)) && DistinctIds(tail) && |drawn| == count - top <= |tail|
            && ElementsAt(drawn, tail, Picks(WeightsOf(tail), draws, |drawn|))
  {
    SortedCandidates(sorted, candidates);
    TailOfSelection(committee, sorted, WeightsOf(sorted), count, draws);
  }

  lemma TailOfSelection(committee: seq<Validator>, sorted: seq<Validator>, ws: seq<real>, count: nat, draws: nat -> real)
    requires HaveWeights(sorted, ws) && NonNegative(ws) && DistinctIds(sorted) && count <= |sorted|
    requires IsCommittee(committee, sorted, ws, count, draws)
    ensures var top := TopCount(count);
            var tail, drawn := sorted[top..], committee[top..];
            && NonNegative(WeightsOf(tail)) && DistinctIds(tail) && |drawn| == count - top <= |tail|
            && ElementsAt(drawn, tail, Picks(WeightsOf(tail), draws, |drawn|))
  {
    assert WeightsOf(sorted[TopCount(count)..]) == ws[TopCount(count)..];
  }

  lemma TailIsDrawn(tail: seq<Validator>, ws: seq<real>, drawn: seq<Validator>, draws: nat -> real, k: nat, p: nat)
    requires |ws| == |tail| && NonNegative(ws) && DistinctIds(tail) && UnitDraws(draws)
    requires k < |drawn| <= |tail| && p < |tail|
    requires ElementsAt(drawn, tail, Picks(ws, draws, |drawn|))
    ensures var taken := TakenPositions(tail, drawn[..k]);
            drawn[k] == tail[p] <==> Owns(ws, taken, p, draws(k))
  {
    var picks := Picks(ws, draws, |drawn|);
    PicksExtend(ws, draws, k, |drawn|);
    PicksExtend(ws, draws, k + 1, |drawn|);
    TakenArePositions(tail, drawn[..k], picks[..k]);
    PickExactly(ws, draws, k, p);
    assert picks[..k + 1][k] == picks[k];
    SamePosition(tail, picks[k], p);
  }

  lemma SamePosition(s: seq<Validator>, i: nat, j: nat)
    requires DistinctIds(s) && i < |s| && j < |s|
    ensures s[i] == s[j] <==> i == j
  {
    if i < j {
      assert s[i].peerId != s[j].peerId;
    } else if j < i {
      assert s[j].peerId != s[i].peerId;
    }
  }

  /** Whenever a dominated candidate is among the first `top` members, so is the one that dominates it. */
  ghost predicate RespectsDominance(committee: seq<Validator>, top: nat, candidates: seq<Validator>)
    requires top <= |committee|
  {
    forall a, b :: a in candidates && b in committee[..top] && Dominates(a, b) ==> a in committee[..top]
  }

  lemma Dominance(committee: seq<Validator>, sorted: seq<Validator>, candidates: seq<Validator>,
                  count: nat, draws: nat -> real)
    requires IsSelection(committee, sorted, candidates, count, draws)
    requires NonNegative(WeightsOf(candidates)) && DistinctIds(candidates) && UnitDraws(draws)
    requires Weighed(candidates)
    ensures TopCount(count) <= |committee| && RespectsDominance(committee, TopCount(count), candidates)
  {
    CommitteeProperties(committee, sorted, candidates, count, draws);
    forall a, b | a in candidates && b in committee[..TopCount(count)] && Dominates(a, b)
      ensures a in committee[..TopCount(count)]
    {
      assert b in committee;
      DominanceIsMoreWeight(candidates, a, b);
    }
  }

  // ----- the manager

  datatype Committee = Committee(validators: seq<Validator>, cycleId: nat)

  /** The two committee slots: a selection fills the next one, its delayed activation moves it on. */
  datatype Cycles = Cycles(current: Option<Committee>, next: Option<Committee>)

  datatype CycleEvent = Selected(committee: Committee) | Activated

  function ApplyCycle(c: Cycles, e: CycleEvent): Cycles {
    match e
    case Selected(committee) => c.(next := Some(committee))
    case Activated => Cycles(c.next, None)
  }

  function RunCycles(c: Cycles, events: seq<CycleEvent>): Cycles {
    if events == [] then c else ApplyCycle(RunCycles(c, events[..|events| - 1]), events[|events| - 1])
  }

  /** The last committee selected in the run, if no activation came after it. */
  function Pending(next: Option<Committee>, events: seq<CycleEvent>): Option<Committee> {
    if events == [] then next
    else match events[|events| - 1]
      case Selected(committee) => Some(committee)
      case Activated => None
  }

  lemma {:induction false} PendingIsNext(c: Cycles, events: seq<CycleEvent>)
    ensures RunCycles(c, events).next == Pending(c.next, events)
  {
    if events != [] {
      PendingIsNext(c, events[..|events| - 1]);
    }
  }

  /**
    What is in charge at any time: the committee selected right before the last activation, over
    every run of selections and activations. An activation that follows another one without a
    selection in between leaves no committee in charge.
   */
  lemma {:induction false} CurrentCommitteeExactly(c: Cycles, events: seq<CycleEvent>, later: seq<CycleEvent>)
    requires forall e :: e in later ==> e.Selected?
    ensures RunCycles(c, events + [Activated] + later).current == Pending(c.next, events)
  {
    var run := events + [Activated] + later;
    if later == [] {
      assert run[..|run| - 1] == events;
      PendingIsNext(c, events);
    } else {
      assert run[..|run| - 1] == events + [Activated] + later[..|later| - 1];
      assert later[|later| - 1] in later;
      CurrentCommitteeExactly(c, events, later[..|later| - 1]);
    }
  }

  /** Two selections less than the activation delay apart leave the node without a committee. */
  lemma OverlappingSelections(c: Cycles, a: Committee, b: Committee)
    ensures RunCycles(c, [Selected(a), Selected(b), Activated]).current == Some(b)
    ensures RunCycles(c, [Selected(a), Selected(b), Activated, Activated]).current == None
  {
    var events := [Selected(a), Selected(b)];
    assert [Selected(a), Selected(b), Activated] == events + [Activated] + [];
    CurrentCommitteeExactly(c, events, []);
    assert [Selected(a), Selected(b), Activated, Activated] == (events + [Activated]) + [Activated] + [];
    CurrentCommitteeExactly(c, events + [Activated], []);
  }

  /** Weighs the candidates and selects min(N, 21) of them. */
  method SelectCommittee(eligible: array<Validator>, draws: nat -> real)
    returns (committee: seq<Validator>, ghost sorted: seq<Validator>)
    requires DistinctIds(eligible[..]) && UnitDraws(draws)
    requires forall v :: v in eligible[..] ==>
      v.stakeAmount >= 0 && v.reputation >= 0.0 && v.availability >= 0.0
    modifies eligible, eligible[..]
    ensures Weighed(old(eligible[..]))
    ensures eligible.Length <= 21 ==> committee == old(eligible[..])
    ensures eligible.Length > 21 ==>
      && IsSelection(committee, sorted, old(eligible[..]), 21, draws)
      && NonNegative(WeightsOf(old(eligible[..])))
    ensures IsWellChosen(committee, old(eligible[..]))
  {
    ghost var before := eligible[..];
    CalculateWeights(eligible);
    var committeeSize := eligible.Length;
    if committeeSize > 21 {
      committeeSize := 21;
    } else if committeeSize < 3 {
      committeeSize := eligible.Length;
    }
    NonNegativeWeights(before);
    assert NonNegative(WeightsOf(eligible[..]));
    committee, sorted := SelectValidators(eligible, committeeSize, draws);
    if |before| > 21 {
      CommitteeProperties(committee, sorted, before, 21, draws);
      Dominance(committee, sorted, before, 21, draws);
    }
  }

  /**
    min(N, 21) distinct candidates; above 21 the first 14 weigh at least as much as anybody else,
    and a candidate that dominates one of them is one of them.
   */
  ghost predicate IsWellChosen(committee: seq<Validator>, candidates: seq<Validator>)
    reads committee, candidates
  {
    && |committee| == (if |candidates| > 21 then 21 else |candidates|) && DistinctIds(committee)
    && (forall m :: m in committee ==> m in candidates)
    && (|candidates| > 21 ==>
          TopCount(21) == 14 && HeaviestFirst(committee, 14, candidates) && RespectsDominance(committee, 14, candidates))
  }

  class ValidatorManager {
    var currentCycle: Option<Committee>
    var nextCycle: Option<Committee>

    constructor ()
      ensures State() == Cycles(None, None)
    {
      currentCycle, nextCycle := None, None;
    }

    ghost function State(): Cycles
      reads this
    {
      Cycles(currentCycle, nextCycle)
    }

    /**
      `eligible` is what the network view offered. The committee has min(N, 21) distinct members,
      all of them eligible; above 21 it is the selection from a sorted order: the 14 heaviest
      first, then seven weighted draws from the rest.
     */
    method PerformValidationSelection(eligible: array<Validator>, draws: nat -> real, cycleId: nat)
      returns (ok: bool, ghost sorted: seq<Validator>)
      requires DistinctIds(eligible[..]) && UnitDraws(draws)
      requires forall v :: v in eligible[..] ==>
        v.stakeAmount >= 0 && v.reputation >= 0.0 && v.availability >= 0.0
      modifies this`nextCycle, eligible, eligible[..]
      ensures ok <==> eligible.Length > 0
      ensures !ok ==> State() == old(State()) && eligible[..] == old(eligible[..])
      ensures ok ==> nextCycle.Some? && nextCycle.value.cycleId == cycleId
      ensures ok ==> State() == ApplyCycle(old(State()), Selected(nextCycle.value))
      ensures ok ==> Weighed(old(eligible[..]))
      ensures ok ==>
        var committee := nextCycle.value.validators;
        && IsWellChosen(committee, old(eligible[..]))
        && (eligible.Length <= 21 ==> committee == old(eligible[..]))
        && (eligible.Length > 21 ==> IsSelection(committee, sorted, old(eligible[..]), 21, draws))
    {
      if eligible.Length == 0 {
        return false, [];
      }
      var selected;
      selected, sorted := SelectCommittee(eligible, draws);
      nextCycle := Some(Committee(selected, cycleId));
      return true, sorted;
    }

    /** The delayed switch: the next committee becomes the current one. */
    method Activate()
      modifies this
      ensures State() == ApplyCycle(old(State()), Activated)
    {
      currentCycle := nextCycle;
      nextCycle := None;
    }
  }

  lemma NonNegativeWeights(s: seq<Validator>)
    requires Weighed(s)
    requires forall v :: v in s ==> v.stakeAmount >= 0 && v.reputation >= 0.0 && v.availability >= 0.0
    ensures NonNegative(WeightsOf(s))
  {
    forall i | 0 <= i < |s|
      ensures s[i].weight >= 0.0
    {
      assert s[i] in s;
    }
  }
}
