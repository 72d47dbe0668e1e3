/**
  When storing a file succeeds, and that deleting it again undoes it.
 */
module StoreOutcome {
  import opened Results
  import opened FiniteSums
  import opened ErasureCode
  import opened Sharding
  import opened ChunkStore
  import opened FileStore
  import opened StoreRollback
  import opened FileRuns
  import opened Conservation

  // ----- every chunk belongs to an indexed file

  ghost predicate OwnedBy(index: FileIndex, id: ChunkId, h: Hash, i: nat) {
    h in index && i < index[h].totalShards && id == ShardId(h, i)
  }

  /** No chunk is in the chunk index but the shards of the indexed files. */
  ghost predicate Owned(fs: Files) {
    forall id :: id in fs.store.chunks ==> exists h, i :: OwnedBy(fs.index, id, h, i)
  }

  lemma StoreKeepsOwned(env: Env, fs: Files, e: FileEvent)
    requires Consistent(fs) && Owned(fs)
    requires e.StoreOp? && Faultless(env, e)
    ensures Owned(ApplyOp(env, fs, e))
  {
    var (after, r) := StoreFile(env, fs, e.name, e.data, e.total, e.required, e.peers, e.plan);
    var h := env.hash(e.data);
    if r.Failure? {
      FailedStoreFileIsNeutral(env, fs, e.name, e.data, e.total, e.required, e.peers, e.plan);
    } else {
      StoreFileHolds(env, fs, e.name, e.data, e.total, e.required, e.peers, e.plan);
      forall id | Foreign(id, h, e.total)
        ensures Untouched(fs.store, after.store, id)
      {
        StoredFileTouchesOwn(env, fs, e, id);
      }
      NewFileKeepsOwned(fs, after, h);
    }
  }

  lemma NewFileKeepsOwned(fs: Files, after: Files, h: Hash)
    requires Owned(fs) && h !in fs.index && h in after.index && after.index == fs.index[h := after.index[h]]
    requires after.index[h].totalShards >= 0
    requires forall id :: Foreign(id, h, after.index[h].totalShards) ==> Untouched(fs.store, after.store, id)
    ensures Owned(after)
  {
    forall id | id in after.store.chunks
      ensures exists g, i :: OwnedBy(after.index, id, g, i)
    {
      if Foreign(id, h, after.index[h].totalShards) {
        assert Untouched(fs.store, after.store, id);
        var g, i :| OwnedBy(fs.index, id, g, i);
        assert OwnedBy(after.index, id, g, i);
      } else {
        var i :| 0 <= i < after.index[h].totalShards && ShardId(h, i) == id;
        assert OwnedBy(after.index, id, h, i);
      }
    }
  }

  lemma StoredFileTouchesOwn(env: Env, fs: Files, e: FileEvent, id: ChunkId)
    requires ChunkStore.Valid(fs.store) && e.StoreOp? && LawfulOp(env, e)
    requires StoreFile(env, fs, e.name, e.data, e.total, e.required, e.peers, e.plan).1.Success?
    requires Foreign(id, env.hash(e.data), e.total)
    ensures Untouched(fs.store, ApplyOp(env, fs, e).store, id)
  {
    ShardCount(env, e.data, e.total, e.required);
    var shards := Sharded(env.codec, env.hash, e.data, e.total, e.required).value;
    StoreShardsTouchesOwn(fs.store, env.hash(e.data), shards, 0, e.plan.store, id);
  }

  lemma DeleteKeepsOwned(fs: Files, h: Hash, plan: Plan)
    requires Consistent(fs) && Owned(fs) && NoFailure(plan)
    ensures Owned(DeleteFile(fs, h, plan).0)
  {
    if h in fs.index {
      var after, n := DeleteFile(fs, h, plan).0, fs.index[h].totalShards;
      assert Accounted(fs.store, h, fs.index[h]);
      forall id | id in after.store.chunks
        ensures exists g, i :: OwnedBy(after.index, id, g, i)
      {
        if Foreign(id, h, n) {
          DeleteShardsTouchesOwn(fs.store, h, n, plan.delete, id);
          var g, i :| OwnedBy(fs.index, id, g, i);
          assert OwnedBy(after.index, id, g, i);
        } else {
          var i :| 0 <= i < n && ShardId(h, i) == id;
          assert SizedShard(fs.store, h, i, PerShard(fs.index[h].originalSize, fs.index[h].requiredShards));
          DeleteShardsRemoves(fs.store, h, n, plan.delete, i);
          assert false;
        }
      }
    }
  }

  lemma {:induction false} RunKeepsOwned(env: Env, fs: Files, events: seq<FileEvent>)
    requires Consistent(fs) && Owned(fs)
    requires forall e :: e in events ==> Faultless(env, e)
    ensures Owned(RunOps(env, fs, events))
  {
    if events != [] {
      var front, e := events[..|events| - 1], events[|events| - 1];
      RunKeepsOwned(env, fs, front);
      RunKeepsConsistent(env, fs, front);
      assert Faultless(env, e);
      if e.StoreOp? {
        StoreKeepsOwned(env, RunOps(env, fs, front), e);
      } else {
        DeleteKeepsOwned(RunOps(env, fs, front), e.hash, e.plan);
      }
    }
  }

  // ----- when storing succeeds

  /** Without failures, new shards that fit into the quota are all stored. */
  lemma {:induction false} FittingShardsAreStored(s: Store, h: Hash, shards: seq<Shard>, i: nat, plan: Plan,
                                                  per: nat, need: nat)
    requires ChunkStore.Valid(s) && i <= |shards| && NoFailure(plan)
    requires forall j :: 0 <= j < |shards| ==> |shards[j].data| == per
    requires forall j :: i <= j < |shards| ==> ShardId(h, j) !in s.chunks
    requires need == (|shards| - i) * per && TotalBytes(s) + need <= s.maxBytes
    ensures StoreShards(s, h, shards, i, plan.store).AllStored?
    decreases |shards| - i
  {
    if i < |shards| {
      OneLess(|shards| - i, per, need);
      FittingShardIsStored(s, ShardId(h, i), shards[i].data, plan.store(i));
      LaterShardsStayAbsent(s, h, i, |shards|, shards[i].data, plan.store(i));
      FittingShardsAreStored(StoreChunk(s, ShardId(h, i), shards[i].data, plan.store(i)).store, h, shards, i + 1,
                             plan, per, need - per);
    }
  }

  lemma FittingShardIsStored(s: Store, id: ChunkId, data: Bytes, io: StoreIo)
    requires ChunkStore.Valid(s) && id !in s.chunks && io.mkdir && io.write == WriteOk && io.save == SaveOk
    requires TotalBytes(s) + |data| <= s.maxBytes
    ensures var step := StoreChunk(s, id, data, io);
            && step.status == Ok && ChunkStore.Valid(step.store) && step.store.maxBytes == s.maxBytes
            && TotalBytes(step.store) == TotalBytes(s) + |data|
  {
    StoreChunkWithinQuota(s, id, data, io);
    StoreChunkKeepsValid(s, id, data, io);
    StoreChunkAddsSize(s, id, data, io);
  }

  lemma LaterShardsStayAbsent(s: Store, h: Hash, i: nat, n: nat, data: Bytes, io: StoreIo)
    requires forall j :: i <= j < n ==> ShardId(h, j) !in s.chunks
    ensures forall j :: i < j < n ==> ShardId(h, j) !in StoreChunk(s, ShardId(h, i), data, io).store.chunks
  {
    forall j | i < j < n
      ensures ShardId(h, j) !in StoreChunk(s, ShardId(h, i), data, io).store.chunks
    {
      ShardIdsAreInjective(h, i, h, j);
    }
  }

  /** The shards of a file that is not indexed are new. */
  lemma UnindexedShardsAreNew(fs: Files, h: Hash, i: nat)
    requires Consistent(fs) && Owned(fs) && h !in fs.index
    ensures ShardId(h, i) !in fs.store.chunks
  {
    if ShardId(h, i) in fs.store.chunks {
      var g, j :| OwnedBy(fs.index, ShardId(h, i), g, j);
      assert Accounted(fs.store, g, fs.index[g]);
      ShardIdsAreInjective(h, i, g, j);
    }
  }

  /** The four things that must hold of a file to be stored. */
  ghost predicate Storable(env: Env, fs: Files, data: Bytes, total: nat, required: int) {
    && data != [] && 1 <= required <= total && env.hash(data) !in fs.index
    && TotalBytes(fs.store) + total * PerShard(|data|, required) <= fs.store.maxBytes
  }

  /** None of the first n shards of the file is in the chunk index. */
  ghost predicate NoShardPresent(s: Store, h: Hash, n: nat) {
    forall i :: 0 <= i < n ==> ShardId(h, i) !in s.chunks
  }

  lemma NewFileIsStoredExactly(fs: Files, m: FileMetadata, shards: seq<Shard>, plan: Plan, per: nat)
    requires ChunkStore.Valid(fs.store) && NoFailure(plan)
    requires forall j :: 0 <= j < |shards| ==> |shards[j].data| == per
    requires TotalBytes(fs.store) + |shards| * per <= fs.store.maxBytes
    ensures StoreNewFile(fs, m, shards, |shards|, plan).1.Success? <==>
            NoShardPresent(fs.store, m.fileHash, |shards|)
  {
    if NoShardPresent(fs.store, m.fileHash, |shards|) {
      FittingShardsAreStored(fs.store, m.fileHash, shards, 0, plan, per, |shards| * per);
    }
    StoreShardsHolds(fs.store, m.fileHash, shards, 0, plan.store);
  }

  /**
    In any state, whatever failures it has been through: a new file that fits is stored exactly if
    no entry left behind stands where one of its shards goes. An entry left behind by a call with
    more shards does not block one with so few that they end before it.
   */
  lemma LeftoverEntryBlocksExactly(env: Env, fs: Files, e: FileEvent)
    requires ChunkStore.Valid(fs.store) && e.StoreOp? && Faultless(env, e)
    requires Storable(env, fs, e.data, e.total, e.required)
    ensures StoreFile(env, fs, e.name, e.data, e.total, e.required, e.peers, e.plan).1.Success? <==>
            NoShardPresent(fs.store, env.hash(e.data), e.total)
  {
    var h, per := env.hash(e.data), PerShard(|e.data|, e.required);
    var shards := Sharded(env.codec, env.hash, e.data, e.total, e.required).value;
    ShardCount(env, e.data, e.total, e.required);
    NewFileIsStoredExactly(fs, MetadataFor(h, e.name, e.data, e.total, e.required, shards, e.peers), shards, e.plan, per);
  }

  lemma StorableIsStored(env: Env, fs: Files, e: FileEvent)
    requires Consistent(fs) && Owned(fs)
    requires e.StoreOp? && Faultless(env, e) && Storable(env, fs, e.data, e.total, e.required)
    ensures StoreFile(env, fs, e.name, e.data, e.total, e.required, e.peers, e.plan).1.Success?
  {
    forall i | 0 <= i < e.total
      ensures ShardId(env.hash(e.data), i) !in fs.store.chunks
    {
      UnindexedShardsAreNew(fs, env.hash(e.data), i);
    }
    LeftoverEntryBlocksExactly(env, fs, e);
  }

  lemma StoreSucceedsExactly(env: Env, fs: Files, e: FileEvent)
    requires Consistent(fs) && Owned(fs)
    requires e.StoreOp? && Faultless(env, e)
    ensures var r := StoreFile(env, fs, e.name, e.data, e.total, e.required, e.peers, e.plan).1;
            && (Storable(env, fs, e.data, e.total, e.required) ==> r.Success?)
            && (TotalBytes(fs.store) <= fs.store.maxBytes && NoWrap(fs.store.maxBytes, e.data, e.required) ==>
                (r.Success? <==> Storable(env, fs, e.data, e.total, e.required)))
  {
    if Storable(env, fs, e.data, e.total, e.required) {
      StorableIsStored(env, fs, e);
    } else if
      && StoreFile(env, fs, e.name, e.data, e.total, e.required, e.peers, e.plan).1.Success?
      && TotalBytes(fs.store) <= fs.store.maxBytes && NoWrap(fs.store.maxBytes, e.data, e.required)
    {
      StoreFileAddsShare(env, fs, e.name, e.data, e.total, e.required, e.peers, e.plan);
      StoreFileWithinQuota(env, fs, e.name, e.data, e.total, e.required, e.peers, e.plan);
    }
  }

  /**
    After every run of StoreFile and DeleteFile without input/output failures, a file is stored
    if its content is not empty, its parameters make sense, it is not stored already, and its
    share fits into what the indexed files leave of the quota. It is stored exactly then, if no
    quota check can wrap around. No leftover chunk of an earlier file ever stands in the way.
   */
  lemma StoreSucceedsExactlyAfterRun(env: Env, maxBytes: uint64, events: seq<FileEvent>, e: FileEvent)
    requires forall x :: x in events ==> Faultless(env, x)
    requires e.StoreOp? && Faultless(env, e)
    ensures var fs := RunOps(env, EmptyFiles(maxBytes), events);
            var succeeds := StoreFile(env, fs, e.name, e.data, e.total, e.required, e.peers, e.plan).1.Success?;
            var storable :=
              && e.data != [] && 1 <= e.required <= e.total && env.hash(e.data) !in fs.index
              && Sum(fs.index.Keys, Shares(fs.index)) + e.total * PerShard(|e.data|, e.required) <= maxBytes;
            && (storable ==> succeeds)
            && ((forall x :: x in events + [e] && x.StoreOp? ==> NoWrap(maxBytes, x.data, x.required)) ==>
                (succeeds <==> storable))
  {
    var fs := RunOps(env, EmptyFiles(maxBytes), events);
    EmptyIsConsistent(maxBytes);
    RunKeepsConsistent(env, EmptyFiles(maxBytes), events);
    RunKeepsOwned(env, EmptyFiles(maxBytes), events);
    StoreSucceedsExactly(env, fs, e);
    if forall x :: x in events + [e] && x.StoreOp? ==> NoWrap(maxBytes, x.data, x.required) {
      assert e in events + [e] && forall x :: x in events ==> x in events + [e];
      RunKeepsQuota(env, EmptyFiles(maxBytes), events);
    }
  }

  /**
    A concrete success: two bytes in three shards, two of them required, under a quota of three
    bytes. So the results about stored files speak of something.
   */
  lemma ExampleIsStored(hash: HashFunction, plan: Plan)
    requires NoFailure(plan)
    ensures var env, empty := Env(SUM_CODE, hash), EmptyFiles(3);
            var (after, r) := StoreFile(env, empty, "name", [1, 2], 3, 2, [], plan);
            r == Success(hash([1, 2])) && FileHeld(env, after, [1, 2], 3, 2)
  {
    var env, empty := Env(SUM_CODE, hash), EmptyFiles(3);
    SumCodeIsLawful();
    EmptyIsConsistent(3);
    assert PerShard(2, 2) == 1;
    StorableIsStored(env, empty, StoreOp("name", [1, 2], 3, 2, [], plan));
    StoreFileHolds(env, empty, "name", [1, 2], 3, 2, [], plan);
  }

  // ----- deleting undoes storing

  lemma DeleteUndoesNewFile(fs: Files, m: FileMetadata, shards: seq<Shard>, store: Plan, plan: Plan)
    requires ChunkStore.Valid(fs.store) && m.fileHash !in fs.index && m.totalShards == |shards|
    requires StoreNewFile(fs, m, shards, |shards|, store).1.Success? && AllRemoved(|shards|, plan.delete)
    ensures var after := DeleteFile(StoreNewFile(fs, m, shards, |shards|, store).0, m.fileHash, plan).0;
            && after.index == fs.index
            && Undone(fs.store, after.store, m.fileHash, |shards|, fs.store.chunks, true)
  {
    var stored := StoreNewFile(fs, m, shards, |shards|, store).0;
    StoredIsComplete(fs.store, m.fileHash, shards, store.store, stored.store);
    UndoAll(fs.store, stored.store, m.fileHash, shards, plan.delete);
    assert stored.index - {m.fileHash} == fs.index;
  }

  /**
    Deleting a file right after storing it, with successful removals, restores the file index,
    the chunk index, and every file on disk that is not one of its shards; the whole disk if no
    shard file was left over from before.
   */
  lemma DeleteUndoesStore(env: Env, fs: Files, e: FileEvent, plan: Plan)
    requires ChunkStore.Valid(fs.store) && e.StoreOp? && LawfulOp(env, e) && AllRemoved(e.total, plan.delete)
    requires StoreFile(env, fs, e.name, e.data, e.total, e.required, e.peers, e.plan).1.Success?
    ensures var h := env.hash(e.data);
            var after := DeleteFile(ApplyOp(env, fs, e), h, plan).0;
            && after.index == fs.index
            && Undone(fs.store, after.store, h, e.total, fs.store.chunks, true)
  {
    var h := env.hash(e.data);
    var shards := Sharded(env.codec, env.hash, e.data, e.total, e.required).value;
    ShardCount(env, e.data, e.total, e.required);
    DeleteUndoesNewFile(fs, MetadataFor(h, e.name, e.data, e.total, e.required, shards, e.peers), shards, e.plan, plan);
  }
}
