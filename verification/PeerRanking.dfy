/** Reputation scores and the ranking of peers by score. */
module PeerRanking {
  import opened Results
  import opened Sequences

  datatype ScoredPeer = ScoredPeer(peer: PeerId, score: real)

  // ----- scores

  /** A score change, clamped to [0, 1]. */
  function Clamp(score: real): real {
    if score < 0.0 then 0.0 else if score > 1.0 then 1.0 else score
  }

  /** A missing entry reads as zero when a score is changed. */
  function Updated(reputation: map<PeerId, real>, p: PeerId, change: real): map<PeerId, real> {
    reputation[p := Clamp((if p in reputation then reputation[p] else 0.0) + change)]
  }

  /** A missing entry reads as one half when a score is asked for. */
  function ScoreOf(reputation: map<PeerId, real>, p: PeerId): real {
    if p in reputation then reputation[p] else 0.5
  }

  ghost predicate ScoresInRange(reputation: map<PeerId, real>) {
    forall p :: p in reputation ==> 0.0 <= reputation[p] <= 1.0
  }

  /** Scores stay within [0, 1] over every list of changes. */
  ghost function UpdatedAll(reputation: map<PeerId, real>, changes: seq<(PeerId, real)>): map<PeerId, real> {
    if changes == [] then reputation
    else
      var last := changes[|changes| - 1];
      Updated(UpdatedAll(reputation, changes[..|changes| - 1]), last.0, last.1)
  }

  lemma {:induction false} UpdatesKeepRange(reputation: map<PeerId, real>, changes: seq<(PeerId, real)>)
    requires ScoresInRange(reputation)
    ensures ScoresInRange(UpdatedAll(reputation, changes))
  {
    if changes != [] {
      UpdatesKeepRange(reputation, changes[..|changes| - 1]);
    }
  }

  /** The score moved by `change`, as far as [0, 1] allows. */
  ghost predicate MovedBy(before: real, after: real, change: real) {
    && (0.0 <= before + change <= 1.0 ==> after == before + change)
    && (before + change < 0.0 ==> after == 0.0)
    && (before + change > 1.0 ==> after == 1.0)
  }

  /**
    What a score change does: it moves the score by exactly the change until an end is reached, a
    penalty lowers every positive score, a reward raises every score below one, and nobody
    else's score is touched.
   */
  lemma UpdateMovesScore(reputation: map<PeerId, real>, p: PeerId, change: real)
    requires ScoresInRange(reputation)
    ensures var before := if p in reputation then reputation[p] else 0.0;
            var after := Updated(reputation, p, change);
            && after.Keys == reputation.Keys + {p}
            && MovedBy(before, after[p], change)
            && (change < 0.0 && before > 0.0 ==> after[p] < before)
            && (change > 0.0 && before < 1.0 ==> after[p] > before)
            && forall q :: q in reputation && q != p ==> after[q] == reputation[q]
  {
  }

  /**
    A reward is meant not to lower a peer's score. It does so exactly for a peer without an entry
    and a reward below one half, because the two defaults differ.
   */
  lemma RewardNeverLowersExactly(reputation: map<PeerId, real>, p: PeerId, reward: real)
    requires ScoresInRange(reputation) && reward >= 0.0
    ensures ScoreOf(Updated(reputation, p, reward), p) >= ScoreOf(reputation, p) <==>
            p in reputation || reward >= 0.5
  {
  }

  /** A first small reward takes an unknown peer from one half to a tenth. */
  lemma RewardCanLower()
    ensures ScoreOf(map[], "peer") == 0.5 && ScoreOf(Updated(map[], "peer", 0.1), "peer") == 0.1
  {
  }

  // ----- the ranking

  ghost predicate Eligible(reputation: map<PeerId, real>, minScore: real, p: PeerId) {
    p in reputation && reputation[p] >= minScore
  }

  ghost function EligiblePeers(reputation: map<PeerId, real>, minScore: real): set<PeerId> {
    set p | p in reputation && reputation[p] >= minScore
  }

  ghost predicate Descending(s: seq<ScoredPeer>) {
    forall i, j :: 0 <= i < j < |s| ==> s[i].score >= s[j].score
  }

  /** `best` is a top prefix of the eligible peers: as many as asked for or all, none left out for a worse one. */
  ghost predicate IsTopPrefix(best: seq<PeerId>, reputation: map<PeerId, real>, minScore: real, maxPeers: nat) {
    && Distinct(best)
    && (forall p :: p in best ==> Eligible(reputation, minScore, p))
    && |best| == (var n := |EligiblePeers(reputation, minScore)|; if n < maxPeers then n else maxPeers)
    && (forall i, j :: 0 <= i < j < |best| ==> ScoreOf(reputation, best[i]) >= ScoreOf(reputation, best[j]))
    && (forall p, q :: p in best && Eligible(reputation, minScore, q) && q !in best ==>
          ScoreOf(reputation, p) >= ScoreOf(reputation, q))
  }

  /** An eligible peer is left out only of a full list. */
  lemma TopPrefixLeavesOut(best: seq<PeerId>, reputation: map<PeerId, real>, minScore: real, maxPeers: nat, q: PeerId)
    requires IsTopPrefix(best, reputation, minScore, maxPeers)
    requires Eligible(reputation, minScore, q) && q !in best
    ensures |best| == maxPeers
  {
    var listed := set p | p in best;
    var all := EligiblePeers(reputation, minScore);
    DistinctSize(best);
    assert listed <= all - {q};
    SubsetSize(listed, all - {q});
  }

  /**
    The list of best peers in terms of the scores alone: its peers score at least `minScore`, come
    by descending score, and nobody left out scores more; if it is not full, everybody who
    scores at least `minScore` is in it.
   */
  lemma BestPeersMeaning(best: seq<PeerId>, reputation: map<PeerId, real>, minScore: real, maxPeers: nat)
    requires IsTopPrefix(best, reputation, minScore, maxPeers)
    ensures |best| <= maxPeers && forall p :: p in best ==> p in reputation && reputation[p] >= minScore
    ensures forall i, j :: 0 <= i < j < |best| ==>
      best[i] != best[j] && best[i] in reputation && best[j] in reputation && reputation[best[i]] >= reputation[best[j]]
    ensures forall q :: q in reputation && q !in best && reputation[q] >= minScore ==>
      |best| == maxPeers && forall p :: p in best ==> reputation[p] >= reputation[q]
  {
    forall q | q in reputation && q !in best && reputation[q] >= minScore
      ensures |best| == maxPeers && forall p :: p in best ==> reputation[p] >= reputation[q]
    {
      assert Eligible(reputation, minScore, q);
      TopPrefixLeavesOut(best, reputation, minScore, maxPeers, q);
      forall p | p in best
        ensures reputation[p] >= reputation[q]
      {
        assert Eligible(reputation, minScore, p);
      }
    }
    forall i, j | 0 <= i < j < |best|
      ensures best[i] in reputation && best[j] in reputation && reputation[best[i]] >= reputation[best[j]]
    {
      assert Eligible(reputation, minScore, best[i]) && Eligible(reputation, minScore, best[j]);
    }
  }

  /** The first i elements are in place: none scores lower than any element after it. */
  ghost predicate PlacedUpTo(a: array<ScoredPeer>, i: nat)
    reads a
    requires i <= a.Length
  {
    forall p, q :: 0 <= p < i && p < q < a.Length ==> a[p].score >= a[q].score
  }

  method Exchange(a: array<ScoredPeer>, i: nat, j: nat)
    requires i < j < a.Length
    modifies a
    ensures a[i] == old(a[j]) && a[j] == old(a[i])
    ensures forall q :: 0 <= q < a.Length && q != i && q != j ==> a[q] == old(a[q])
    ensures multiset(a[..]) == old(multiset(a[..]))
  {
    a[i], a[j] := a[j], a[i];
  }

  /** The inner loop of the exchange sort: the best of a[i..] comes to position i. */
  method PlaceBest(a: array<ScoredPeer>, i: nat)
    requires i < a.Length && PlacedUpTo(a, i)
    modifies a
    ensures multiset(a[..]) == old(multiset(a[..]))
    ensures PlacedUpTo(a, i + 1)
  {
    for j := i + 1 to a.Length
      invariant multiset(a[..]) == old(multiset(a[..]))
      invariant PlacedUpTo(a, i)
      invariant forall q :: i < q < j ==> a[i].score >= a[q].score
    {
      if a[j].score > a[i].score {
        Exchange(a, i, j);
      }
    }
  }

  /** The nested exchange loops leave a descending permutation. */
  method SortByScore(a: array<ScoredPeer>)
    modifies a
    ensures multiset(a[..]) == old(multiset(a[..]))
    ensures Descending(a[..])
  {
    for i := 0 to a.Length
      invariant multiset(a[..]) == old(multiset(a[..]))
      invariant PlacedUpTo(a, i)
    {
      PlaceBest(a, i);
    }
  }

  /** The scored list of the peers in `done`: every eligible one once, with its score. */
  ghost predicate IsScoredList(s: seq<ScoredPeer>, reputation: map<PeerId, real>, minScore: real, done: set<PeerId>) {
    && (forall i :: 0 <= i < |s| ==> s[i].peer in done && Eligible(reputation, minScore, s[i].peer))
    && (forall i :: 0 <= i < |s| ==> s[i].score == reputation[s[i].peer])
    && (forall i, j :: 0 <= i < j < |s| ==> s[i].peer != s[j].peer)
    && (forall p :: p in done && Eligible(reputation, minScore, p) ==> ScoredPeer(p, reputation[p]) in s)
  }

  /** Collects the peers with at least the minimum score, in map order. */
  method CollectEligible(reputation: map<PeerId, real>, minScore: real) returns (scored: seq<ScoredPeer>)
    ensures IsScoredList(scored, reputation, minScore, reputation.Keys)
  {
    scored := [];
    var remaining := reputation.Keys;
    while remaining != {}
      invariant remaining <= reputation.Keys
      invariant IsScoredList(scored, reputation, minScore, reputation.Keys - remaining)
      decreases |remaining|
    {
      var p :| p in remaining;
      remaining := remaining - {p};
      if reputation[p] >= minScore {
        ghost var before := scored;
        scored := scored + [ScoredPeer(p, reputation[p])];
        assert scored[|before|] == ScoredPeer(p, reputation[p]);
        assert forall q :: q in before ==> q in scored;
      }
    }
    assert reputation.Keys - remaining == reputation.Keys;
  }

  /** A permutation of the scored list is still one. */
  lemma ScoredPermutation(s: seq<ScoredPeer>, t: seq<ScoredPeer>, reputation: map<PeerId, real>, minScore: real)
    requires IsScoredList(s, reputation, minScore, reputation.Keys) && multiset(s) == multiset(t)
    ensures IsScoredList(t, reputation, minScore, reputation.Keys)
  {
    PermutationMembers(s, t);
    DistinctPermutation(s, t);
    forall i | 0 <= i < |t|
      ensures Eligible(reputation, minScore, t[i].peer) && t[i].score == reputation[t[i].peer]
    {
      var j := PositionOf(s, t[i]);
    }
    forall i, j | 0 <= i < j < |t|
      ensures t[i].peer != t[j].peer
    {
      var a, b := t[i], t[j];
      assert a == ScoredPeer(a.peer, reputation[a.peer]) && b == ScoredPeer(b.peer, reputation[b.peer]) && a != b;
    }
  }

  /** The scored list has one element for each eligible peer. */
  lemma {:induction false} ScoredCount(s: seq<ScoredPeer>, peers: set<PeerId>)
    requires forall i :: 0 <= i < |s| ==> s[i].peer in peers
    requires forall i, j :: 0 <= i < j < |s| ==> s[i].peer != s[j].peer
    requires forall p :: p in peers ==> exists i :: 0 <= i < |s| && s[i].peer == p
    ensures |s| == |peers|
    decreases |s|
  {
    if s == [] {
      assert peers == {};
    } else {
      var n := |s| - 1;
      ScoredCount(s[..n], peers - {s[n].peer});
    }
  }

  /** The peers of the first n entries of a descending scored list are a top prefix. */
  lemma PrefixIsTop(s: seq<ScoredPeer>, n: nat, best: seq<PeerId>, reputation: map<PeerId, real>, minScore: real, maxPeers: nat)
    requires IsScoredList(s, reputation, minScore, reputation.Keys) && Descending(s)
    requires n == (if |s| < maxPeers then |s| else maxPeers)
    requires |best| == n && forall i :: 0 <= i < n ==> best[i] == s[i].peer
    ensures IsTopPrefix(best, reputation, minScore, maxPeers)
  {
    var eligible := EligiblePeers(reputation, minScore);
    forall p | p in eligible
      ensures exists i :: 0 <= i < |s| && s[i].peer == p
    {
      var i := PositionOf(s, ScoredPeer(p, reputation[p]));
    }
    ScoredCount(s, eligible);
    forall p, q | p in best && Eligible(reputation, minScore, q) && q !in best
      ensures ScoreOf(reputation, p) >= ScoreOf(reputation, q)
    {
      var i := PositionOf(best, p);
      var j := PositionOf(s, ScoredPeer(q, reputation[q]));
      assert j >= n by {
        assert forall k :: 0 <= k < n ==> best[k] != q;
      }
    }
  }

  method GetBestPeers(reputation: map<PeerId, real>, minScore: real, maxPeers: nat) returns (result: seq<PeerId>)
    ensures IsTopPrefix(result, reputation, minScore, maxPeers)
  {
    var collected := CollectEligible(reputation, minScore);
    var scoredPeers := new ScoredPeer[|collected|](i requires 0 <= i < |collected| => collected[i]);
    assert scoredPeers[..] == collected;
    SortByScore(scoredPeers);
    ghost var sorted := scoredPeers[..];
    ScoredPermutation(collected, sorted, reputation, minScore);
    result := [];
    var i := 0;
    while i < scoredPeers.Length && i < maxPeers
      invariant |result| == i <= scoredPeers.Length && i <= maxPeers
      invariant forall k :: 0 <= k < i ==> result[k] == sorted[k].peer
      invariant scoredPeers[..] == sorted
    {
      result := result + [scoredPeers[i].peer];
      i := i + 1;
    }
    PrefixIsTop(sorted, i, result, reputation, minScore, maxPeers);
  }
}
