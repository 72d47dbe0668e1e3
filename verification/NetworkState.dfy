/**
  The node's view of the network: known peers, reputation and the file index, and the handlers
  that update them in place. Connected peers are an input.
 */
module NetworkState {
  import opened Results
  import opened Sequences
  import opened FileIndex
  import opened PeerRanking
  import opened PeerStanding

  // ----- the view

  class NetworkView {
    var peers: map<PeerId, PeerInfo>
    var fileIndex: Index
    var reputation: map<PeerId, real>

    constructor ()
      ensures peers == map[] && fileIndex == map[] && reputation == map[]
    {
      peers, fileIndex, reputation := map[], map[], map[];
    }

    // ----- reputation

    method UpdatePeer(peerId: PeerId, scoreChange: real)
      modifies this`reputation
      ensures reputation == Updated(old(reputation), peerId, scoreChange)
      ensures old(ScoresInRange(reputation)) ==> ScoresInRange(reputation)
      ensures peerId in reputation &&
              MovedBy(if peerId in old(reputation) then old(reputation)[peerId] else 0.0, reputation[peerId], scoreChange)
    {
      var currentScore := if peerId in reputation then reputation[peerId] else 0.0;
      var newScore := currentScore + scoreChange;
      if newScore < 0.0 {
        newScore := 0.0;
      } else if newScore > 1.0 {
        newScore := 1.0;
      }
      reputation := reputation[peerId := newScore];
    }

    ghost function PeerState(): Standing
      reads this
    {
      Standing(peers, reputation)
    }

    method RecordSuccessfulInteraction(peerId: PeerId)
      modifies this`reputation, this`peers
      ensures PeerState() == ApplyEvent(old(PeerState()), Interaction(peerId, true))
      ensures old(InRange(PeerState())) ==> InRange(PeerState())
    {
      UpdatePeer(peerId, 0.05);
      if peerId in peers {
        var raised := peers[peerId].reliability + 0.05;
        peers := peers[peerId := peers[peerId].(reliability := if 1.0 < raised then 1.0 else raised)];
      }
    }

    method RecordFailedInteraction(peerId: PeerId)
      modifies this`reputation, this`peers
      ensures PeerState() == ApplyEvent(old(PeerState()), Interaction(peerId, false))
      ensures old(InRange(PeerState())) ==> InRange(PeerState())
    {
      UpdatePeer(peerId, -0.1);
      if peerId in peers {
        var lowered := peers[peerId].reliability - 0.1;
        peers := peers[peerId := peers[peerId].(reliability := if 0.0 > lowered then 0.0 else lowered)];
      }
    }

    /** A new peer starts fully reliable; a known one keeps its reliability. */
    method HandleNodeInfo(peerId: PeerId, info: FarmerInfo, now: int)
      modifies this`reputation, this`peers
      ensures PeerState() == ApplyEvent(old(PeerState()), NodeInfo(peerId, info, now))
      ensures old(InRange(PeerState())) ==> InRange(PeerState())
    {
      if peerId !in peers {
        peers := peers[peerId := PeerInfo(Some(info), now, 1.0, 1)];
      } else {
        peers := peers[peerId := peers[peerId].(info := Some(info), lastSeen := now)];
      }
      UpdatePeer(peerId, 0.1);
    }

    /** A connecting peer that is not known yet starts fully reliable; a known one is not refreshed. */
    method OnPeerConnected(peerId: PeerId, now: int, reward: real)
      modifies this`reputation, this`peers
      ensures PeerState() == ApplyEvent(old(PeerState()), Connected(peerId, now, reward))
      ensures old(InRange(PeerState())) ==> InRange(PeerState())
    {
      if peerId !in peers {
        peers := peers[peerId := PeerInfo(None, now, 1.0, 1)];
      }
      UpdatePeer(peerId, reward);
    }

    method OnPeerDisconnected(peerId: PeerId)
      modifies this`reputation
      ensures PeerState() == ApplyEvent(old(PeerState()), Disconnected(peerId))
      ensures old(InRange(PeerState())) ==> InRange(PeerState())
    {
      UpdatePeer(peerId, -0.01);
    }

    method DecayOrBoost(p: PeerId, now: int)
      requires p in peers
      modifies this`reputation
      ensures reputation == UpdatedIfDue(old(reputation), p, peers[p], now)
      ensures old(ScoresInRange(reputation)) ==> ScoresInRange(reputation)
    {
      if peers[p].lastSeen < now - 30 * 60 {
        var decayAmount := -0.05;
        if peers[p].lastSeen < now - 2 * 60 * 60 {
          decayAmount := -0.1;
        }
        UpdatePeer(p, decayAmount);
      }
      if now - peers[p].lastSeen < 10 * 60 && peers[p].reliability > 0.8 {
        UpdatePeer(p, 0.02);
      }
    }

    method PerformReputationUpdate(now: int)
      modifies this`reputation
      ensures PeerState() == ApplyEvent(old(PeerState()), PeriodicUpdate(now))
      ensures old(InRange(PeerState())) ==> InRange(PeerState())
    {
      UpdateScores(now);
    }

    /** Decay and boost, peer by peer in map order. */
    method UpdateScores(now: int)
      modifies this`reputation
      ensures reputation == PeriodicallyUpdated(old(reputation), peers, now, peers.Keys)
      ensures old(ScoresInRange(reputation)) ==> ScoresInRange(reputation)
    {
      ghost var before, done := reputation, {};
      var remaining := peers.Keys;
      UpdatedNobody(before, peers, now);
      while remaining != {}
        invariant remaining <= peers.Keys && done == peers.Keys - remaining
        invariant reputation == PeriodicallyUpdated(before, peers, now, done)
        invariant old(ScoresInRange(reputation)) ==> ScoresInRange(reputation)
        decreases |remaining|
      {
        var p :| p in remaining;
        remaining := remaining - {p};
        UpdatedOneMore(before, peers, now, done, p);
        DecayOrBoost(p, now);
        done := done + {p};
      }
      assert done == peers.Keys;
    }

    // ----- the file index

    /** Appends every peer of `incoming` that is not in the list yet. */
    static method MergeInto(existing: seq<PeerId>, incoming: seq<PeerId>) returns (merged: seq<PeerId>)
      ensures merged == Merge(existing, incoming)
    {
      merged := existing;
      for i := 0 to |incoming|
        invariant merged == Merge(existing, incoming[..i])
      {
        MergeAppend(existing, incoming[..i], incoming[i]);
        assert incoming[..i + 1] == incoming[..i] + [incoming[i]];
        var found := Contains(merged, incoming[i]);
        if !found {
          merged := merged + [incoming[i]];
        }
      }
      assert incoming[..|incoming|] == incoming;
    }

    static method Contains(peers: seq<PeerId>, p: PeerId) returns (found: bool)
      ensures found <==> p in peers
    {
      for i := 0 to |peers|
        invariant p !in peers[..i]
      {
        if peers[i] == p {
          return true;
        }
      }
      return false;
    }

    /** Keeps the peers that are not `p`. */
    static method RemoveFrom(peers: seq<PeerId>, p: PeerId) returns (updated: seq<PeerId>)
      ensures updated == Without(peers, {p})
    {
      updated := [];
      for i := 0 to |peers|
        invariant updated == Without(peers[..i], {p})
      {
        assert peers[..i + 1][..i] == peers[..i];
        if peers[i] != p {
          updated := updated + [peers[i]];
        }
      }
      assert peers[..|peers|] == peers;
    }

    /** Creates the list of a new hash, then merges into it. */
    method MergeOne(h: Hash, incoming: seq<PeerId>)
      modifies this`fileIndex
      ensures fileIndex == old(fileIndex)[h := Merge(PeersOf(old(fileIndex), h), incoming)]
    {
      if h !in fileIndex {
        fileIndex := fileIndex[h := []];
      }
      var merged := MergeInto(fileIndex[h], incoming);
      fileIndex := fileIndex[h := merged];
    }

    /**
      Merges every location. The final log line reads the first one, so that an announcement
      without locations, for which `ok` is false, ends in a panic.
     */
    method HandleFileAnnounce(locations: seq<Location>) returns (ok: bool)
      modifies this`fileIndex
      ensures fileIndex == Apply(old(fileIndex), Announce(locations))
      ensures ok <==> locations != []
    {
      for i := 0 to |locations|
        invariant Announced(fileIndex, locations[i..]) == Announced(old(fileIndex), locations)
      {
        assert locations[i..][0] == locations[i] && locations[i..][1..] == locations[i + 1..];
        MergeOne(locations[i].hash, locations[i].peers);
      }
      ok := |locations| > 0;
    }

    /** At start-up the node enters itself for each of its local files. */
    method AdoptLocalFiles(localFiles: seq<Hash>, self: PeerId)
      modifies this`fileIndex
      ensures fileIndex == Apply(old(fileIndex), Adopt(localFiles, self))
    {
      for i := 0 to |localFiles|
        invariant fileIndex == Adopted(old(fileIndex), localFiles[..i], self)
      {
        var fileHash := localFiles[i];
        assert localFiles[..i + 1][..i] == localFiles[..i];
        if fileHash !in fileIndex {
          fileIndex := fileIndex[fileHash := []];
        }
        fileIndex := fileIndex[fileHash := fileIndex[fileHash] + [self]];
      }
      assert localFiles[..|localFiles|] == localFiles;
    }

    method HandleFileDelete(fileHash: Hash, peerId: PeerId)
      modifies this`fileIndex
      ensures fileIndex == Apply(old(fileIndex), Delete(fileHash, peerId))
    {
      if fileHash in fileIndex {
        var updatedPeers := RemoveFrom(fileIndex[fileHash], peerId);
        if |updatedPeers| == 0 {
          fileIndex := fileIndex - {fileHash};
        } else {
          fileIndex := fileIndex[fileHash := updatedPeers];
        }
      }
    }

    /** Adding one peer is announcing one location. */
    method UpdateFileIndex(fileHash: Hash, peerId: PeerId)
      modifies this`fileIndex
      ensures fileIndex == Apply(old(fileIndex), Announce([Location(fileHash, [peerId])]))
    {
      ghost var before := fileIndex;
      if fileHash !in fileIndex {
        fileIndex := fileIndex[fileHash := []];
      }
      var peers := fileIndex[fileHash];
      assert [peerId][1..] == [] && [Location(fileHash, [peerId])][1..] == [];
      assert Announced(before, [Location(fileHash, [peerId])]) == before[fileHash := Merge(peers, [peerId])];
      assert Merge(peers, [peerId]) == if peerId in peers then peers else peers + [peerId];
      var found := Contains(peers, peerId);
      if found {
        return;
      }
      fileIndex := fileIndex[fileHash := peers + [peerId]];
    }

    method RemoveFileFromIndex(fileHash: Hash, peerId: PeerId)
      modifies this`fileIndex
      ensures fileIndex == Apply(old(fileIndex), Delete(fileHash, peerId))
    {
      HandleFileDelete(fileHash, peerId);
    }

    /** Merges the answer of a queried peer, in map order. */
    method MergeQueryResponse(response: Index)
      modifies this`fileIndex
      ensures fileIndex == Apply(old(fileIndex), QueryResponse(response))
    {
      ghost var before, done := fileIndex, {};
      var remaining := response.Keys;
      QueriedNothing(before, response);
      while remaining != {}
        invariant remaining <= response.Keys && done == response.Keys - remaining
        invariant fileIndex == Queried(before, Restricted(response, done))
        decreases |remaining|
      {
        var h :| h in remaining;
        remaining := remaining - {h};
        QueriedOneMore(before, response, done, h);
        MergeOne(h, response[h]);
        done := done + {h};
      }
      assert Restricted(response, done) == response;
    }

    /** Rewrites every list without one peer; hashes stay, even with an empty list. */
    method RemovePeerEverywhere(p: PeerId)
      modifies this`fileIndex
      ensures fileIndex == Swept(old(fileIndex), {p})
    {
      ghost var before := fileIndex;
      var remaining := fileIndex.Keys;
      while remaining != {}
        invariant remaining <= before.Keys && fileIndex.Keys == before.Keys
        invariant forall h :: h in before ==>
          fileIndex[h] == if h in remaining then before[h] else Without(before[h], {p})
        decreases |remaining|
      {
        var h :| h in remaining;
        remaining := remaining - {h};
        var updatedPeers := RemoveFrom(fileIndex[h], p);
        fileIndex := fileIndex[h := updatedPeers];
      }
    }

    method ForgetPeer(p: PeerId)
      modifies this
      ensures peers == old(peers) - {p} && reputation == old(reputation) - {p}
      ensures fileIndex == Swept(old(fileIndex), {p})
    {
      peers := peers - {p};
      reputation := reputation - {p};
      RemovePeerEverywhere(p);
    }

    /** Forgets every peer not seen for ten minutes: its entry, its score, its place in every list. */
    method CleanupStalePeers(now: int)
      modifies this
      ensures PeerState() == ApplyEvent(old(PeerState()), StaleSweep(now))
      ensures fileIndex == Apply(old(fileIndex), Sweep(StalePeers(old(peers), now)))
    {
      ghost var before, index, scores, stale := peers, fileIndex, reputation, StalePeers(peers, now);
      ghost var gone: set<PeerId> := {};
      var remaining := peers.Keys;
      SweptNobody(index);
      while remaining != {}
        invariant remaining <= before.Keys && gone == stale - remaining
        invariant peers == before - gone && reputation == scores - gone
        invariant fileIndex == Swept(index, gone)
        decreases |remaining|
      {
        var p :| p in remaining;
        remaining := remaining - {p};
        if peers[p].lastSeen < now - STALE_AFTER {
          ForgetPeer(p);
          RemoveTwice(before, gone, p);
          RemoveTwice(scores, gone, p);
          SweptTwice(index, gone, p);
          gone := gone + {p};
        }
      }
    }
  }

  lemma UpdatedNobody(reputation: map<PeerId, real>, peers: map<PeerId, PeerInfo>, now: int)
    ensures PeriodicallyUpdated(reputation, peers, now, {}) == reputation
  {
  }

  lemma UpdatedOneMore(reputation: map<PeerId, real>, peers: map<PeerId, PeerInfo>, now: int, done: set<PeerId>, p: PeerId)
    requires p in peers && p !in done && done <= peers.Keys
    ensures PeriodicallyUpdated(reputation, peers, now, done + {p}) ==
            UpdatedIfDue(PeriodicallyUpdated(reputation, peers, now, done), p, peers[p], now)
  {
    var part, whole := PeriodicallyUpdated(reputation, peers, now, done), PeriodicallyUpdated(reputation, peers, now, done + {p});
    assert p in part <==> p in reputation;
    forall q
      ensures q in whole <==> q in UpdatedIfDue(part, p, peers[p], now)
      ensures q in whole ==> whole[q] == UpdatedIfDue(part, p, peers[p], now)[q]
    {
    }
  }

  lemma {:induction false} WithoutNobody(peers: seq<PeerId>)
    ensures Without(peers, {}) == peers
  {
    if peers != [] {
      WithoutNobody(peers[..|peers| - 1]);
    }
  }

  lemma RemoveTwice<V>(m: map<PeerId, V>, gone: set<PeerId>, p: PeerId)
    ensures m - gone - {p} == m - (gone + {p})
  {
  }

  ghost function Restricted(response: Index, done: set<Hash>): Index {
    map h | h in response && h in done :: response[h]
  }

  lemma QueriedNothing(index: Index, response: Index)
    ensures Queried(index, Restricted(response, {})) == index
  {
    assert forall h :: h in index ==> Merge(PeersOf(index, h), []) == index[h];
  }

  lemma QueriedOneMore(index: Index, response: Index, done: set<Hash>, h: Hash)
    requires h in response && h !in done
    ensures var part := Queried(index, Restricted(response, done));
            part[h := Merge(PeersOf(part, h), response[h])] == Queried(index, Restricted(response, done + {h}))
  {
    var some, more := Restricted(response, done), Restricted(response, done + {h});
    var part, whole := Queried(index, some), Queried(index, more);
    assert PeersOf(some, h) == [] && PeersOf(part, h) == PeersOf(index, h);
    forall g
      ensures g in whole <==> g == h || g in part
      ensures g in whole ==> whole[g] == if g == h then Merge(PeersOf(part, h), response[h]) else part[g]
    {
      assert PeersOf(more, g) == if g == h then response[h] else PeersOf(some, g);
    }
  }

  lemma SweptNobody(index: Index)
    ensures Swept(index, {}) == index
  {
    forall h | h in index
      ensures Without(index[h], {}) == index[h]
    {
      WithoutNobody(index[h]);
    }
  }

  lemma SweptTwice(index: Index, gone: set<PeerId>, p: PeerId)
    ensures Swept(Swept(index, gone), {p}) == Swept(index, gone + {p})
  {
    forall h | h in index
      ensures Without(Without(index[h], gone), {p}) == Without(index[h], gone + {p})
    {
      WithoutTwice(index[h], gone, {p});
    }
  }
}
