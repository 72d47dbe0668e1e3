/** Placing the shards of a file on peers, and collecting them again. */
module Distribution {
  import opened Results
  import opened Sequences
  import opened ErasureCode
  import opened Sharding
  import ChunkStore
  import FileStore
  import opened FileManagement
  import opened FileIndex
  import opened PeerRanking
  import opened PeerStanding
  import opened NetworkState

  datatype ShardTransfer = ShardTransfer(shardIndex: int, peer: PeerId, completed: bool, size: nat)

  datatype StorageOperation = StorageOperation(hash: Hash, shards: seq<Option<ShardTransfer>>)

  datatype Error =
    | NotEnoughPeers
    | ShardingFailed(reason: Sharding.Error)
    | TooFewPlaced
    | TooFewRetrieved

  // ----- choosing storage peers

  predicate IsGateway(peers: map<PeerId, PeerInfo>, p: PeerId) {
    p in peers && peers[p].info.Some? && peers[p].info.value.gateway
  }

  /** A peer that may be chosen from the view. */
  ghost predicate Usable(view: NetworkView, connected: set<PeerId>, self: PeerId, p: PeerId)
    reads view
  {
    p in view.peers && p in connected && p != self && Suitable(view.peers[p])
  }

  /** Distinct connected peers other than this node, each well reputed or suitable. */
  ghost predicate AreCandidates(candidates: seq<PeerId>, view: NetworkView, connected: set<PeerId>, self: PeerId)
    reads view
  {
    && Distinct(candidates)
    && (forall p :: p in candidates ==> p in connected && p != self)
    && (forall p :: p in candidates ==>
          || Usable(view, connected, self, p)
          || (Eligible(view.reputation, 0.7, p) && !IsGateway(view.peers, p)))
  }

  /** At most `count` candidates, and fewer only if every usable peer is among them. */
  ghost predicate AreStoragePeers(candidates: seq<PeerId>, view: NetworkView, connected: set<PeerId>, self: PeerId, count: nat)
    reads view
  {
    && AreCandidates(candidates, view, connected, self)
    && |candidates| <= count
    && (|candidates| < count ==> forall p :: Usable(view, connected, self, p) ==> p in candidates)
  }

  /** A ranked peer that is taken: connected, not this node, no gateway. */
  predicate Taken(peers: map<PeerId, PeerInfo>, connected: set<PeerId>, self: PeerId, p: PeerId) {
    p != self && !IsGateway(peers, p) && p in connected
  }

  /** The ranked peers that are taken, in their order. */
  function TakenOf(best: seq<PeerId>, peers: map<PeerId, PeerInfo>, connected: set<PeerId>, self: PeerId):
    (taken: seq<PeerId>)
    ensures |taken| <= |best|
  {
    if best == [] then []
    else
      var front, last := TakenOf(best[..|best| - 1], peers, connected, self), best[|best| - 1];
      if Taken(peers, connected, self, last) then front + [last] else front
  }

  /** `best` is the ranking used: the best `count` peers with a score of at least 0.7, none before the ranking exists. */
  ghost predicate IsRanking(best: seq<PeerId>, view: NetworkView, rankingReady: bool, count: nat)
    reads view
  {
    if rankingReady then IsTopPrefix(best, view.reputation, 0.7, count) else best == []
  }

  /** The taken ones of the ranking come first, in ranking order; only usable peers follow. */
  ghost predicate RankedFirst(candidates: seq<PeerId>, best: seq<PeerId>, view: NetworkView, connected: set<PeerId>, self: PeerId)
    reads view
  {
    var taken := TakenOf(best, view.peers, connected, self);
    && taken <= candidates
    && forall i :: |taken| <= i < |candidates| ==> Usable(view, connected, self, candidates[i])
  }

  lemma {:induction false} TakenMembers(best: seq<PeerId>, peers: map<PeerId, PeerInfo>, connected: set<PeerId>, self: PeerId)
    ensures forall p :: p in TakenOf(best, peers, connected, self) <==> p in best && Taken(peers, connected, self, p)
    ensures Distinct(best) ==> Distinct(TakenOf(best, peers, connected, self))
  {
    if best != [] {
      TakenMembers(best[..|best| - 1], peers, connected, self);
    }
  }

  lemma TakenAreCandidates(best: seq<PeerId>, view: NetworkView, connected: set<PeerId>, self: PeerId, count: nat)
    requires IsRanking(best, view, true, count)
    ensures AreCandidates(TakenOf(best, view.peers, connected, self), view, connected, self)
  {
    TakenMembers(best, view.peers, connected, self);
  }

  /** The well-reputed peers by descending score, as far as they can be taken. */
  method TakeRanked(view: NetworkView, connected: set<PeerId>, self: PeerId, count: nat)
    returns (candidates: seq<PeerId>, ghost best: seq<PeerId>)
    ensures IsRanking(best, view, true, count)
    ensures candidates == TakenOf(best, view.peers, connected, self) && |candidates| <= count
    ensures AreCandidates(candidates, view, connected, self)
  {
    var bestPeers := GetBestPeers(view.reputation, 0.7, count);
    best := bestPeers;
    TakenAreCandidates(best, view, connected, self, count);
    candidates := TakeInOrder(bestPeers, view.peers, connected, self, count);
  }

  method TakeInOrder(bestPeers: seq<PeerId>, peers: map<PeerId, PeerInfo>, connected: set<PeerId>, self: PeerId, count: nat)
    returns (candidates: seq<PeerId>)
    requires |bestPeers| <= count
    ensures candidates == TakenOf(bestPeers, peers, connected, self)
  {
    candidates := [];
    for i := 0 to |bestPeers|
      invariant candidates == TakenOf(bestPeers[..i], peers, connected, self)
    {
      var p := bestPeers[i];
      assert bestPeers[..i + 1][..i] == bestPeers[..i];
      if p != self && !IsGateway(peers, p) {
        if p in connected {
          candidates := candidates + [p];
        }
        if |candidates| >= count {
          assert bestPeers[..i + 1] == bestPeers;
          return;
        }
      }
    }
    assert bestPeers[..|bestPeers|] == bestPeers;
  }

  /** First the well-reputed peers by descending score, then any usable peer of the view, in map order. */
  method SelectStoragePeers(view: NetworkView, connected: set<PeerId>, self: PeerId, rankingReady: bool, count: nat)
    returns (candidates: seq<PeerId>, ghost best: seq<PeerId>)
    ensures AreStoragePeers(candidates, view, connected, self, count)
    ensures IsRanking(best, view, rankingReady, count) && RankedFirst(candidates, best, view, connected, self)
  {
    candidates, best := [], [];
    if rankingReady {
      candidates, best := TakeRanked(view, connected, self, count);
    }
    ghost var taken := candidates;
    var remaining := view.peers.Keys;
    while remaining != {} && |candidates| < count
      invariant remaining <= view.peers.Keys
      invariant AreCandidates(candidates, view, connected, self) && |candidates| <= count
      invariant forall p :: Usable(view, connected, self, p) && p !in remaining ==> p in candidates
      invariant taken <= candidates
      invariant forall i :: |taken| <= i < |candidates| ==> Usable(view, connected, self, candidates[i])
      decreases |remaining|
    {
      var p :| p in remaining;
      remaining := remaining - {p};
      if p !in candidates && p != self && p in connected && Suitable(view.peers[p]) {
        candidates := candidates + [p];
      }
    }
  }

  ghost predicate ByScore(peers: seq<PeerId>, reputation: map<PeerId, real>) {
    forall i, j :: 0 <= i < j < |peers| ==> ScoreOf(reputation, peers[i]) >= ScoreOf(reputation, peers[j])
  }

  lemma {:induction false} TakenByScore(best: seq<PeerId>, reputation: map<PeerId, real>, peers: map<PeerId, PeerInfo>,
                                        connected: set<PeerId>, self: PeerId)
    requires ByScore(best, reputation)
    ensures ByScore(TakenOf(best, peers, connected, self), reputation)
  {
    if best != [] {
      var front, last := best[..|best| - 1], best[|best| - 1];
      var taken := TakenOf(front, peers, connected, self);
      TakenByScore(front, reputation, peers, connected, self);
      TakenMembers(front, peers, connected, self);
      forall i | 0 <= i < |taken|
        ensures ScoreOf(reputation, taken[i]) >= ScoreOf(reputation, last)
      {
        var k := PositionOf(front, taken[i]);
        assert best[k] == taken[i];
      }
    }
  }

  /**
    The storage peers, without the vocabulary of their selection: distinct, connected, not this node;
    each scores at least 0.7 or is in the view and suitable; and if there are too few of them,
    every connected suitable peer of the view other than this node is among them.
   */
  lemma StoragePeersMeaning(candidates: seq<PeerId>, view: NetworkView, connected: set<PeerId>, self: PeerId, count: nat)
    requires AreStoragePeers(candidates, view, connected, self, count)
    ensures |candidates| <= count && self !in candidates && forall p :: p in candidates ==> p in connected
    ensures forall i, j :: 0 <= i < j < |candidates| ==> candidates[i] != candidates[j]
    ensures forall p :: p in candidates ==>
      (p in view.reputation && view.reputation[p] >= 0.7) || (p in view.peers && Suitable(view.peers[p]))
    ensures |candidates| < count ==>
      forall p :: p in view.peers && p in connected && p != self && Suitable(view.peers[p]) ==> p in candidates
  {
  }

  /**
    The well-reputed storage peers come first and by descending score. A peer that scores at least
    0.7 and is ranked is left out only if it is a gateway, not connected, or this node; one that
    is not ranked scores no more than any ranked one.
   */
  lemma RankedPeersLead(candidates: seq<PeerId>, best: seq<PeerId>, view: NetworkView, connected: set<PeerId>,
                        self: PeerId, count: nat) returns (n: nat)
    requires IsRanking(best, view, true, count) && RankedFirst(candidates, best, view, connected, self)
    ensures n <= |candidates| && ByScore(candidates[..n], view.reputation)
    ensures forall p :: p in candidates[..n] <==>
      && p in best && p in connected && p != self
      && !(p in view.peers && view.peers[p].info.Some? && view.peers[p].info.value.gateway)
    ensures forall p :: p in best ==> p in view.reputation && view.reputation[p] >= 0.7
    ensures forall q :: q in view.reputation && q !in best && view.reputation[q] >= 0.7 ==>
      |best| == count && forall p :: p in best ==> view.reputation[p] >= view.reputation[q]
    ensures forall i :: n <= i < |candidates| ==> Usable(view, connected, self, candidates[i])
  {
    var taken := TakenOf(best, view.peers, connected, self);
    n := |taken|;
    TakenMembers(best, view.peers, connected, self);
    TakenByScore(best, view.reputation, view.peers, connected, self);
    assert candidates[..n] == taken;
    BestPeersMeaning(best, view.reputation, 0.7, count);
  }

  /**
    Gateways are meant to be skipped, but only the ranked peers are tested. A chosen gateway stands
    behind them and is usable. None is chosen if the ranked peers are enough; if too few peers
    are found in all, a gateway is chosen exactly if it is usable.
   */
  lemma GatewaysChosenExactly(candidates: seq<PeerId>, best: seq<PeerId>, view: NetworkView, connected: set<PeerId>,
                              self: PeerId, rankingReady: bool, count: nat, p: PeerId)
    requires AreStoragePeers(candidates, view, connected, self, count)
    requires IsRanking(best, view, rankingReady, count) && RankedFirst(candidates, best, view, connected, self)
    requires IsGateway(view.peers, p)
    ensures var taken := |TakenOf(best, view.peers, connected, self)|;
            && (p in candidates <==> p in candidates[taken..])
            && (p in candidates ==> Usable(view, connected, self, p) && taken < count)
            && (|candidates| < count ==> (p in candidates <==> Usable(view, connected, self, p)))
  {
    if p in candidates {
      var i := BehindTaken(candidates, best, view, connected, self, p);
      assert candidates[|TakenOf(best, view.peers, connected, self)|..][i] == p;
    }
  }

  lemma BehindTaken(candidates: seq<PeerId>, best: seq<PeerId>, view: NetworkView, connected: set<PeerId>,
                    self: PeerId, p: PeerId) returns (i: nat)
    requires RankedFirst(candidates, best, view, connected, self) && IsGateway(view.peers, p) && p in candidates
    ensures var taken := |TakenOf(best, view.peers, connected, self)|;
            taken + i < |candidates| && candidates[taken + i] == p && Usable(view, connected, self, p)
  {
    var taken := TakenOf(best, view.peers, connected, self);
    TakenMembers(best, view.peers, connected, self);
    var at := PositionOf(candidates, p);
    assert p !in taken && forall k :: 0 <= k < |taken| ==> candidates[k] == taken[k];
    i := at - |taken|;
  }

  /** With a place left by the ranked peers, and only gateways usable besides them, a gateway is chosen. */
  lemma GatewayFillsPlace(candidates: seq<PeerId>, best: seq<PeerId>, view: NetworkView, connected: set<PeerId>,
                          self: PeerId, rankingReady: bool, count: nat, p: PeerId)
    requires AreStoragePeers(candidates, view, connected, self, count)
    requires IsRanking(best, view, rankingReady, count) && RankedFirst(candidates, best, view, connected, self)
    requires |TakenOf(best, view.peers, connected, self)| < count
    requires IsGateway(view.peers, p) && Usable(view, connected, self, p)
    requires forall q :: Usable(view, connected, self, q) ==>
      IsGateway(view.peers, q) || q in TakenOf(best, view.peers, connected, self)
    ensures exists q :: q in candidates && IsGateway(view.peers, q)
  {
    var taken := TakenOf(best, view.peers, connected, self);
    if |candidates| < count {
      assert p in candidates;
    } else {
      var q := candidates[|taken|];
      assert forall i :: 0 <= i < |taken| ==> taken[i] == candidates[i];
      assert q in candidates && Usable(view, connected, self, q) && q !in taken;
    }
  }

  // ----- placing shards

  /** Shard i goes to peer i; the transfers report whether it arrived. */
  ghost function Transfers(shards: seq<Shard>, peers: seq<PeerId>, arrives: (nat, PeerId) -> bool):
    (r: seq<Option<ShardTransfer>>)
    requires |shards| == |peers|
    ensures |r| == |shards|
    ensures forall i :: 0 <= i < |shards| ==>
      r[i] == Some(ShardTransfer(i + 1, peers[i], arrives(i + 1, peers[i]), |shards[i].data|))
  {
    seq(|shards|, i requires 0 <= i < |shards| =>
      Some(ShardTransfer(i + 1, peers[i], arrives(i + 1, peers[i]), |shards[i].data|)))
  }

  function Completed(t: Option<ShardTransfer>): bool {
    t.Some? && t.value.completed
  }

  function CountCompleted(transfers: seq<Option<ShardTransfer>>): nat {
    if transfers == [] then 0
    else CountCompleted(transfers[..|transfers| - 1]) + (if Completed(transfers[|transfers| - 1]) then 1 else 0)
  }

  /** One goroutine per shard, finishing in any order; each writes its own slot. */
  method Distribute(shards: seq<Shard>, peers: seq<PeerId>, arrives: (nat, PeerId) -> bool)
    returns (transfers: seq<Option<ShardTransfer>>)
    requires |shards| == |peers|
    ensures transfers == Transfers(shards, peers, arrives)
  {
    var slots := new Option<ShardTransfer>[|shards|](_ => None);
    var pending := Below(|shards|);
    while pending != {}
      invariant pending <= Below(|shards|)
      invariant forall i :: 0 <= i < |shards| && i !in pending ==> slots[i] == Transfers(shards, peers, arrives)[i]
      decreases |pending|
    {
      var i: nat :| i in pending;
      slots[i] := Some(ShardTransfer(i + 1, peers[i], arrives(i + 1, peers[i]), |shards[i].data|));
      pending := pending - {i};
    }
    transfers := slots[..];
  }

  method CountSuccessful(transfers: seq<Option<ShardTransfer>>) returns (n: nat)
    ensures n == CountCompleted(transfers)
  {
    n := 0;
    for i := 0 to |transfers|
      invariant n == CountCompleted(transfers[..i])
    {
      assert transfers[..i + 1][..i] == transfers[..i];
      if Completed(transfers[i]) {
        n := n + 1;
      }
    }
    assert transfers[..|transfers|] == transfers;
  }

  ghost function HoldingPeers(transfers: seq<Option<ShardTransfer>>): set<PeerId> {
    set i | 0 <= i < |transfers| && Completed(transfers[i]) :: transfers[i].value.peer
  }

  /** With distinct peers, every completed transfer is a shard on a peer of its own. */
  lemma {:induction false} CompletedOnDistinctPeers(transfers: seq<Option<ShardTransfer>>, peers: seq<PeerId>)
    requires |transfers| <= |peers| && Distinct(peers)
    requires forall i :: 0 <= i < |transfers| ==> transfers[i].Some? && transfers[i].value.peer == peers[i]
    ensures |HoldingPeers(transfers)| == CountCompleted(transfers)
  {
    if transfers != [] {
      var n := |transfers| - 1;
      var front := transfers[..n];
      CompletedOnDistinctPeers(front, peers);
      assert forall p :: p in HoldingPeers(front) ==> p != peers[n];
      if Completed(transfers[n]) {
        assert HoldingPeers(transfers) == HoldingPeers(front) + {peers[n]};
      } else {
        assert HoldingPeers(transfers) == HoldingPeers(front);
      }
    }
  }

  /** The peers that received their shard. */
  ghost function Reached(peers: seq<PeerId>, arrives: (nat, PeerId) -> bool): set<PeerId> {
    set i | 0 <= i < |peers| && arrives(i + 1, peers[i]) :: peers[i]
  }

  /** The positions whose shard arrives: shard i + 1 at peer i. */
  ghost function Arrivals(peers: seq<PeerId>, arrives: (nat, PeerId) -> bool): set<nat> {
    set i: nat | i < |peers| && arrives(i + 1, peers[i])
  }

  /** Distinct peers receive one shard each. */
  lemma ArrivalsAreReached(peers: seq<PeerId>, arrives: (nat, PeerId) -> bool)
    requires Distinct(peers)
    ensures |Reached(peers, arrives)| == |Arrivals(peers, arrives)|
  {
    var arrivals := Arrivals(peers, arrives);
    ImageSize(peers, arrivals);
    assert Reached(peers, arrives) == PeersAt(peers, arrivals);
  }

  ghost function PeersAt(peers: seq<PeerId>, at: set<nat>): set<PeerId> {
    set i | i in at && i < |peers| :: peers[i]
  }

  lemma {:induction false} ImageSize(peers: seq<PeerId>, at: set<nat>)
    requires Distinct(peers) && forall i :: i in at ==> i < |peers|
    ensures |PeersAt(peers, at)| == |at|
    decreases at
  {
    if at != {} {
      var i :| i in at;
      ImageSize(peers, at - {i});
      assert PeersAt(peers, at) == PeersAt(peers, at - {i}) + {peers[i]};
    }
  }

  /** Exactly the peers that received their shard hold one, and no peer holds two. */
  lemma ReachedPeersHold(shards: seq<Shard>, peers: seq<PeerId>, arrives: (nat, PeerId) -> bool)
    requires |shards| == |peers| && Distinct(peers)
    ensures var transfers := Transfers(shards, peers, arrives);
            && HoldingPeers(transfers) == Reached(peers, arrives)
            && CountCompleted(transfers) == |Reached(peers, arrives)|
  {
    var transfers := Transfers(shards, peers, arrives);
    CompletedOnDistinctPeers(transfers, peers);
    forall p
      ensures p in HoldingPeers(transfers) <==> p in Reached(peers, arrives)
    {
      if p in Reached(peers, arrives) {
        var i :| 0 <= i < |peers| && arrives(i + 1, peers[i]) && peers[i] == p;
        assert Completed(transfers[i]);
      }
    }
  }

  /** What a successful placement recorded: every transfer as it happened, enough peers with a shard each. */
  ghost predicate IsPlacement(transfers: seq<Option<ShardTransfer>>, env: FileStore.Env, data: Bytes, total: nat,
                              required: int, peers: seq<PeerId>, arrives: (nat, PeerId) -> bool)
  {
    var shards := Sharded(env.codec, env.hash, data, total, required);
    && shards.Success? && |shards.value| == total == |peers|
    && transfers == Transfers(shards.value, peers, arrives)
    && HoldingPeers(transfers) == Reached(peers, arrives)
    && |HoldingPeers(transfers)| >= required
  }

  /** Shards the file and sends shard i + 1 to peer i; fails if too few arrive. */
  method PlaceShards(env: FileStore.Env, data: Bytes, total: nat, required: int, peers: seq<PeerId>,
                     arrives: (nat, PeerId) -> bool) returns (r: Result<seq<Option<ShardTransfer>>, Error>)
    requires total <= 256 && |peers| == total && Distinct(peers)
    requires 1 <= required <= total ==> Lawful(env.codec, required, total)
    ensures r.Success? <==> data != [] && 1 <= required <= total && |Arrivals(peers, arrives)| >= required
    ensures r.Success? ==> IsPlacement(r.value, env, data, total, required, peers, arrives)
    ensures r == Failure(TooFewPlaced) <==>
            data != [] && 1 <= required <= total && |Arrivals(peers, arrives)| < required
    ensures r.Failure? && r != Failure(TooFewPlaced) ==>
      r == Failure(ShardingFailed(if data == [] then EmptyData
                                  else if required > total then RequiredExceedsTotal
                                  else RequiredNotPositive))
  {
    var sharded := ShardData(env.codec, env.hash, data, total, required);
    if sharded.Failure? {
      return Failure(ShardingFailed(sharded.error));
    }
    ShardsOfLawfulCode(env, data, total, required);
    var transfers := Distribute(sharded.value, peers, arrives);
    var successfulShards := CountSuccessful(transfers);
    ReachedPeersHold(sharded.value, peers, arrives);
    ArrivalsAreReached(peers, arrives);
    return if successfulShards < required then Failure(TooFewPlaced) else Success(transfers);
  }

  /** An announcement names all storage peers, this node and all gateways, nobody else and nobody twice. */
  lemma AnnouncementNames(storagePeers: seq<PeerId>, self: PeerId, gateways: seq<PeerId>, p: PeerId)
    requires Distinct(storagePeers) && self !in storagePeers
    ensures p in Merge(storagePeers + [self], gateways) <==> p in storagePeers || p == self || p in gateways
    ensures Distinct(Merge(storagePeers + [self], gateways))
    ensures storagePeers <= Merge(storagePeers + [self], gateways)
  {
    MergeKeeps(storagePeers + [self], gateways);
    MergeAppends(storagePeers + [self], gateways);
  }

  // ----- the storage operations of a node

  class StorageOperations {
    const view: NetworkView
    const fileManager: FileManager
    const self: PeerId
    var pendingOps: map<Hash, StorageOperation>

    constructor (view: NetworkView, fileManager: FileManager, self: PeerId)
      ensures this.view == view && this.fileManager == fileManager && this.self == self && pendingOps == map[]
    {
      this.view, this.fileManager, this.self := view, fileManager, self;
      pendingOps := map[];
    }

    /** Storage peers, this node, and the gateways not yet listed. */
    method AnnouncementPeers(storagePeers: seq<PeerId>, gateways: seq<PeerId>) returns (peers: seq<PeerId>)
      ensures peers == Merge(storagePeers + [self], gateways)
    {
      peers := NetworkView.MergeInto(storagePeers + [self], gateways);
    }

    /**
      The announcement needs the file's local metadata. It is made before that metadata is stored,
      so the view changes only for a file that was already known; its list is then replaced.
     */
    method AnnounceFile(fileHash: Hash, peers: seq<PeerId>)
      modifies view`fileIndex
      ensures view.fileIndex ==
              if fileHash in fileManager.fileIndex then Apply(old(view.fileIndex), Overwrite(fileHash, peers))
              else old(view.fileIndex)
    {
      if fileHash in fileManager.fileIndex {
        view.fileIndex := view.fileIndex[fileHash := peers];
      }
    }

    /**
      `arrives` is the outcome of every transfer. The call succeeds exactly if there are enough
      peers, the file can be sharded, and at least `requiredShards` shards arrive, each on a
      connected peer of its own. A success is recorded as it happened; a failure changes nothing.
     */
    method StoreFileDistributed(fileName: string, data: Bytes, totalShards: nat, requiredShards: int,
                                connected: set<PeerId>, gateways: seq<PeerId>, rankingReady: bool,
                                arrives: (nat, PeerId) -> bool, io: ChunkStore.SaveOutcome)
      returns (r: Result<Hash, Error>, ghost storagePeers: seq<PeerId>, ghost best: seq<PeerId>)
      requires totalShards <= 256
      requires 1 <= requiredShards <= totalShards ==> Lawful(fileManager.env.codec, requiredShards, totalShards)
      modifies this`pendingOps, view`fileIndex, fileManager`fileIndex, fileManager.engine.disk`fileMeta
      ensures old(AreStoragePeers(storagePeers, view, connected, self, totalShards))
      ensures old(IsRanking(best, view, rankingReady, totalShards) && RankedFirst(storagePeers, best, view, connected, self))
      ensures r.Success? <==>
        && |storagePeers| == totalShards && data != [] && 1 <= requiredShards <= totalShards
        && |Arrivals(storagePeers, arrives)| >= requiredShards
      ensures r == Failure(NotEnoughPeers) <==> |storagePeers| < totalShards
      ensures r == Failure(TooFewPlaced) <==>
        && |storagePeers| == totalShards && data != [] && 1 <= requiredShards <= totalShards
        && |Arrivals(storagePeers, arrives)| < requiredShards
      ensures r.Success? ==>
        && r.value == fileManager.env.hash(data) && r.value in pendingOps
        && pendingOps == old(pendingOps)[r.value := pendingOps[r.value]]
        && pendingOps[r.value].hash == r.value
        && IsPlacement(pendingOps[r.value].shards, fileManager.env, data, totalShards, requiredShards, storagePeers, arrives)
        && HoldingPeers(pendingOps[r.value].shards) <= connected - {self}
      ensures r.Success? ==>
        var peers := Merge(storagePeers + [self], gateways);
        view.fileIndex == if r.value in old(fileManager.fileIndex) then Apply(old(view.fileIndex), Overwrite(r.value, peers))
                          else old(view.fileIndex)
      ensures r.Success? ==>
        fileManager.State() == FileStore.UpdateFile(old(fileManager.State()),
          FileStore.FileMetadata(r.value, fileName, |data|, totalShards, requiredShards, [], storagePeers, |data|), io)
      ensures r.Failure? ==>
        && pendingOps == old(pendingOps) && view.fileIndex == old(view.fileIndex)
        && fileManager.State() == old(fileManager.State())
    {
      var chosen;
      chosen, best := SelectStoragePeers(view, connected, self, rankingReady, totalShards);
      storagePeers := chosen;
      if |chosen| < totalShards {
        return Failure(NotEnoughPeers), chosen, best;
      }
      var fileHash := fileManager.env.hash(data);
      var placed := PlaceShards(fileManager.env, data, totalShards, requiredShards, chosen, arrives);
      if placed.Failure? {
        return Failure(placed.error), chosen, best;
      }
      pendingOps := pendingOps[fileHash := StorageOperation(fileHash, placed.value)];
      var announcementPeers := AnnouncementPeers(chosen, gateways);
      AnnounceFile(fileHash, announcementPeers);
      var metadata := FileStore.FileMetadata(fileHash, fileName, |data|, totalShards, requiredShards, [], chosen, |data|);
      var saved := fileManager.UpdateFileMetadata(metadata, io);
      return Success(fileHash), chosen, best;
    }
  }

  lemma ShardsOfLawfulCode(env: FileStore.Env, data: Bytes, total: nat, required: int)
    requires 1 <= required <= total ==> Lawful(env.codec, required, total)
    requires Sharded(env.codec, env.hash, data, total, required).Success?
    ensures |Sharded(env.codec, env.hash, data, total, required).value| == total
  {
    var parts, per := Split(data, required), PerShard(|data|, required);
    assert per > 0;
    assert IsCodeword(env.codec.encode(total, parts), parts, total, per);
  }

  // ----- collecting shards

  /** The retrieved shards among 1, ..., n, in increasing order. */
  ghost function InOrder(fetched: nat -> Option<Shard>, n: nat): seq<Shard> {
    if n == 0 then []
    else InOrder(fetched, n - 1) + (match fetched(n) case Some(shard) => [shard] case None => [])
  }

  /** The numbers of the shards that could be fetched. */
  ghost function FetchedNumbers(fetched: nat -> Option<Shard>, n: nat): set<nat> {
    set i | 1 <= i <= n && fetched(i).Some?
  }

  /** As many as were fetched are in the list. */
  lemma {:induction false} InOrderCounts(fetched: nat -> Option<Shard>, n: nat)
    ensures |InOrder(fetched, n)| == |FetchedNumbers(fetched, n)|
  {
    if n > 0 {
      InOrderCounts(fetched, n - 1);
      if fetched(n).Some? {
        assert FetchedNumbers(fetched, n) == FetchedNumbers(fetched, n - 1) + {n};
      } else {
        assert FetchedNumbers(fetched, n) == FetchedNumbers(fetched, n - 1);
      }
    }
  }

  /** Exactly what was fetched is in the list. */
  lemma {:induction false} InOrderHolds(fetched: nat -> Option<Shard>, n: nat, shard: Shard)
    ensures shard in InOrder(fetched, n) <==> exists i :: 1 <= i <= n && fetched(i) == Some(shard)
  {
    if n > 0 {
      InOrderHolds(fetched, n - 1, shard);
      if fetched(n) == Some(shard) {
        assert shard in InOrder(fetched, n);
      }
    }
  }

  /** Results arrive in any order and are kept by index. */
  method CollectResults(fetched: nat -> Option<Shard>, total: nat) returns (shardMap: map<nat, Shard>)
    ensures forall i :: 1 <= i <= total ==> (i in shardMap <==> fetched(i).Some?)
    ensures forall i :: 1 <= i <= total && i in shardMap ==> fetched(i) == Some(shardMap[i])
  {
    shardMap := map[];
    var pending := Below(total + 1) - {0};
    while pending != {}
      invariant forall i :: i in shardMap ==> i !in pending
      invariant forall i: nat :: 1 <= i <= total && i !in pending ==>
        (i in shardMap <==> fetched(i).Some?) && (i in shardMap ==> fetched(i) == Some(shardMap[i]))
      decreases |pending|
    {
      var i: nat :| i in pending;
      pending := pending - {i};
      match fetched(i) {
        case Some(shard) => shardMap := shardMap[i := shard];
        case None =>
      }
    }
  }

  /** The list handed on is ordered by index; missing shards leave no gap in the list. */
  method RetrieveShards(fetched: nat -> Option<Shard>, total: nat, required: int)
    returns (r: Result<seq<Shard>, Error>)
    ensures r == if |FetchedNumbers(fetched, total)| < required then Failure(TooFewRetrieved)
                 else Success(InOrder(fetched, total))
  {
    InOrderCounts(fetched, total);
    var shardMap := CollectResults(fetched, total);
    var ordered: seq<Shard> := [];
    for i := 1 to total + 1
      invariant ordered == InOrder(fetched, i - 1)
    {
      if i in shardMap {
        ordered := ordered + [shardMap[i]];
      }
    }
    return if |ordered| < required then Failure(TooFewRetrieved) else Success(ordered);
  }

  /** Every fetched shard carries its own index. */
  ghost predicate ProperShards(fetched: nat -> Option<Shard>, total: nat) {
    forall i :: 1 <= i <= total && fetched(i).Some? ==> fetched(i).value.index == i
  }

  /** Shard i was fetched and has data, but some shard before it was not fetched. */
  ghost predicate BehindGap(fetched: nat -> Option<Shard>, i: nat) {
    fetched(i).Some? && HasData(fetched(i).value) && exists j :: 1 <= j < i && fetched(j).None?
  }

  lemma {:induction false} InOrderIsCompacted(fetched: nat -> Option<Shard>, n: nat)
    requires ProperShards(fetched, n)
    ensures Compacted(InOrder(fetched, n), n)
  {
    if n > 0 {
      InOrderIsCompacted(fetched, n - 1);
    }
  }

  lemma {:induction false} InOrderLength(fetched: nat -> Option<Shard>, n: nat)
    ensures |InOrder(fetched, n)| <= n
    ensures |InOrder(fetched, n)| == n <==> forall i :: 1 <= i <= n ==> fetched(i).Some?
  {
    if n > 0 {
      InOrderLength(fetched, n - 1);
    }
  }

  /** Every shard with data is in its own slot exactly if none stands behind a gap. */
  lemma {:induction false} OwnSlotsExactly(fetched: nat -> Option<Shard>, n: nat)
    requires ProperShards(fetched, n)
    ensures InOwnSlots(InOrder(fetched, n)) <==> forall i :: 1 <= i <= n ==> !BehindGap(fetched, i)
  {
    if n > 0 {
      var front := InOrder(fetched, n - 1);
      InOrderLength(fetched, n - 1);
      OwnSlotsExactly(fetched, n - 1);
      if fetched(n).Some? {
        assert InOrder(fetched, n) == front + [fetched(n).value];
        OwnSlotsOneMore(front, fetched(n).value);
        assert BehindGap(fetched, n) <==> HasData(fetched(n).value) && |front| != n - 1;
        assert InOwnSlots(front + [fetched(n).value]) <==> InOwnSlots(front) && !BehindGap(fetched, n);
      } else {
        assert InOrder(fetched, n) == front && !BehindGap(fetched, n);
      }
    }
  }

  lemma OwnSlotsOneMore(front: seq<Shard>, shard: Shard)
    ensures InOwnSlots(front + [shard]) <==>
            InOwnSlots(front) && (HasData(shard) ==> shard.index == |front| + 1)
  {
    var all := front + [shard];
    assert all[|front|] == shard;
    if InOwnSlots(all) {
      assert forall i :: 0 <= i < |front| ==> all[i] == front[i];
    }
  }

  /** For retrieved shards, placing by position is placing by index exactly if no shard with data follows a gap. */
  lemma RetrievedPlacementExactly(fetched: nat -> Option<Shard>, total: nat)
    requires ProperShards(fetched, total)
    ensures Placed(InOrder(fetched, total), total) == PlacedByIndex(InOrder(fetched, total), total) <==>
            forall i :: 1 <= i <= total ==> !BehindGap(fetched, i)
  {
    InOrderIsCompacted(fetched, total);
    OwnSlotsExactly(fetched, total);
    PlacementAgreesExactly(InOrder(fetched, total), total);
  }
}
