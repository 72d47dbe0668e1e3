/**
  Conservation of bytes and the storage quota, over every run of StoreFile and DeleteFile without
  input/output failures.
 */
module Conservation {
  import opened Results
  import opened FiniteSums
  import opened ErasureCode
  import opened Sharding
  import opened ChunkStore
  import opened FileStore
  import opened StoreRollback
  import opened FileRuns

  /** The bytes a file occupies: its shards, each of the original size over the data shards, rounded up. */
  ghost function Share(m: FileMetadata): nat {
    if m.requiredShards < 1 || m.totalShards < 0 then 0
    else m.totalShards * PerShard(m.originalSize, m.requiredShards)
  }

  ghost function Shares(index: FileIndex): Hash -> nat {
    h => if h in index then Share(index[h]) else 0
  }

  ghost predicate SizedShard(s: Store, h: Hash, i: nat, size: nat) {
    var id := ShardId(h, i);
    && id in s.chunks && s.chunks[id] == ChunkPath(id)
    && ChunkPath(id) in s.files && |s.files[ChunkPath(id)]| == size
  }

  /** Every shard of the indexed file is on disk in its size. */
  ghost predicate Accounted(s: Store, h: Hash, m: FileMetadata) {
    && 1 <= m.requiredShards <= m.totalShards
    && forall i :: 0 <= i < m.totalShards ==> SizedShard(s, h, i, PerShard(m.originalSize, m.requiredShards))
  }

  /** The bytes of all chunks are the shares of the indexed files. */
  ghost predicate Consistent(fs: Files) {
    && ChunkStore.Valid(fs.store)
    && (forall h :: h in fs.index ==> Accounted(fs.store, h, fs.index[h]))
    && TotalBytes(fs.store) == Sum(fs.index.Keys, Shares(fs.index))
  }

  ghost predicate NoFailure(plan: Plan) {
    && (forall i :: plan.store(i).mkdir && plan.store(i).write == WriteOk && plan.store(i).save == SaveOk)
    && (forall i :: plan.delete(i).remove && plan.delete(i).save == SaveOk)
    && plan.save == SaveOk
  }

  // ----- bytes of a list of shards

  lemma OneLess(n: nat, per: nat, bytes: nat)
    requires n >= 1 && bytes == n * per
    ensures bytes >= per && bytes - per == (n - 1) * per
  {
    assert bytes == per + (n - 1) * per;
  }

  /** The identifiers of the first n shards of a file. */
  ghost function OwnIds(h: Hash, n: nat): (ids: set<ChunkId>)
    ensures forall id :: id in ids <==> !Foreign(id, h, n)
  {
    if n == 0 then {} else OwnIds(h, n - 1) + {ShardId(h, n - 1)}
  }

  /** n shards of equal size sum up to n times that size. */
  lemma {:induction false} OwnIdsSum(h: Hash, n: nat, f: ChunkId -> nat, per: nat, bytes: nat)
    requires bytes == n * per && forall i :: 0 <= i < n ==> f(ShardId(h, i)) == per
    ensures Sum(OwnIds(h, n), f) == bytes
  {
    if n > 0 {
      OneLess(n, per, bytes);
      OwnIdsSum(h, n - 1, f, per, bytes - per);
      LaterShardIsForeign(h, n - 1, n - 1);
      SumInsert(OwnIds(h, n - 1), f, ShardId(h, n - 1));
    }
  }

  lemma StoredKeys(s: Store, after: Store, h: Hash, shards: seq<Shard>)
    requires AllStoredFrom(s, after, h, shards)
    ensures after.chunks.Keys == s.chunks.Keys + OwnIds(h, |shards|) && s.chunks.Keys !! OwnIds(h, |shards|)
  {
    forall id
      ensures id in after.chunks <==> id in s.chunks || id in OwnIds(h, |shards|)
      ensures id in OwnIds(h, |shards|) ==> id !in s.chunks
    {
      if Foreign(id, h, |shards|) {
        assert Untouched(s, after, id);
      } else {
        var i :| 0 <= i < |shards| && ShardId(h, i) == id;
        assert ShardId(h, i) !in s.chunks && ShardHeld(after, h, i, shards[i].data);
      }
    }
  }

  /** Stored shards add their bytes: the keys are the old ones and the shards', and the old sizes stay. */
  lemma StoredBytes(s: Store, after: Store, h: Hash, shards: seq<Shard>, per: nat, bytes: nat)
    requires ChunkStore.Valid(s) && AllStoredFrom(s, after, h, shards) && bytes == |shards| * per
    requires forall j :: 0 <= j < |shards| ==> |shards[j].data| == per
    ensures TotalBytes(after) == TotalBytes(s) + bytes
  {
    var own, f := OwnIds(h, |shards|), Sizes(after);
    StoredKeys(s, after, h, shards);
    forall id | id in s.chunks
      ensures f(id) == Sizes(s)(id)
    {
      assert Untouched(s, after, id);
    }
    forall i | 0 <= i < |shards|
      ensures f(ShardId(h, i)) == per
    {
      assert ShardHeld(after, h, i, shards[i].data);
    }
    SumSame(s.chunks.Keys, f, Sizes(s));
    OwnIdsSum(h, |shards|, f, per, bytes);
    SumUnion(s.chunks.Keys, own, f);
  }

  /** As long as no sum in a quota check can wrap around, stored shards keep the quota. */
  lemma {:induction false} StoreShardsWithinQuota(s: Store, h: Hash, shards: seq<Shard>, i: nat,
                                                  io: nat -> StoreIo, per: nat)
    requires ChunkStore.Valid(s) && i <= |shards|
    requires forall j :: 0 <= j < |shards| ==> |shards[j].data| == per
    requires TotalBytes(s) <= s.maxBytes && s.maxBytes + per < TWO_TO_THE_64
    requires StoreShards(s, h, shards, i, io).AllStored?
    ensures TotalBytes(StoreShards(s, h, shards, i, io).store) <= s.maxBytes
    decreases |shards| - i
  {
    if i < |shards| {
      var id, data := ShardId(h, i), shards[i].data;
      StoreChunkKeepsValid(s, id, data, io(i));
      StoreChunkWithinQuota(s, id, data, io(i));
      StoreShardsWithinQuota(StoreChunk(s, id, data, io(i)).store, h, shards, i + 1, io, per);
    }
  }

  lemma {:induction false} DeleteShardsBytes(s: Store, h: Hash, n: nat, io: nat -> DeleteIo, per: nat, bytes: nat)
    requires ChunkStore.Valid(s) && AllRemoved(n, io)
    requires forall i :: 0 <= i < n ==> SizedShard(s, h, i, per)
    requires bytes == n * per
    ensures TotalBytes(DeleteShards(s, h, n, io)) + bytes == TotalBytes(s)
  {
    if n > 0 {
      OneLess(n, per, bytes);
      DeleteShardsBytes(s, h, n - 1, io, per, bytes - per);
      DeleteShardsKeepsSized(s, h, n - 1, io, per);
      DeleteChunkFreesSize(DeleteShards(s, h, n - 1, io), ShardId(h, n - 1), io(n - 1));
    }
  }

  /** Deleting the shards before it leaves shard n in its size. */
  lemma DeleteShardsKeepsSized(s: Store, h: Hash, n: nat, io: nat -> DeleteIo, per: nat)
    requires ChunkStore.Valid(s) && SizedShard(s, h, n, per)
    ensures ChunkStore.Valid(DeleteShards(s, h, n, io)) && SizedShard(DeleteShards(s, h, n, io), h, n, per)
  {
    DeleteShardsKeepsValid(s, h, n, io);
    LaterShardIsForeign(h, n, n);
    DeleteShardsTouchesOwn(s, h, n, io, ShardId(h, n));
  }

  /** The same index and the same indexed files are the same number of bytes. */
  lemma SameChunksSameBytes(s: Store, after: Store)
    requires after.chunks == s.chunks
    requires forall id :: id in s.chunks ==> Untouched(s, after, id)
    requires ChunkStore.Valid(s)
    ensures TotalBytes(after) == TotalBytes(s)
  {
    forall id | id in s.chunks
      ensures Sizes(after)(id) == Sizes(s)(id)
    {
      assert Untouched(s, after, id);
    }
    SumSame(s.chunks.Keys, Sizes(after), Sizes(s));
  }

  lemma UntouchedStaysSized(s: Store, after: Store, h: Hash, m: FileMetadata)
    requires Accounted(s, h, m)
    requires forall i :: 0 <= i < m.totalShards ==> Untouched(s, after, ShardId(h, i))
    ensures Accounted(after, h, m)
  {
    forall i | 0 <= i < m.totalShards
      ensures SizedShard(after, h, i, PerShard(m.originalSize, m.requiredShards))
    {
      assert SizedShard(s, h, i, PerShard(m.originalSize, m.requiredShards)) && Untouched(s, after, ShardId(h, i));
    }
  }

  // ----- shares of the index

  lemma SharesInsert(index: FileIndex, h: Hash, m: FileMetadata)
    requires h !in index
    ensures Sum(index[h := m].Keys, Shares(index[h := m])) == Sum(index.Keys, Shares(index)) + Share(m)
  {
    var larger := index[h := m];
    assert larger.Keys == index.Keys + {h};
    SumInsert(index.Keys, Shares(larger), h);
    SumSame(index.Keys, Shares(larger), Shares(index));
  }

  lemma SharesRemove(index: FileIndex, h: Hash)
    requires h in index
    ensures Sum(index.Keys, Shares(index)) == Sum((index - {h}).Keys, Shares(index - {h})) + Share(index[h])
  {
    SharesInsert(index - {h}, h, index[h]);
    assert (index - {h})[h := index[h]] == index;
  }

  // ----- the operations

  /** The file `h` was added to the index, is accounted for, and added its share. */
  ghost predicate Added(fs: Files, after: Files, h: Hash) {
    && h !in fs.index && h in after.index && after.index == fs.index[h := after.index[h]]
    && Accounted(after.store, h, after.index[h])
    && TotalBytes(after.store) == TotalBytes(fs.store) + Share(after.index[h])
    && ChunkStore.Valid(after.store) && after.store.maxBytes == fs.store.maxBytes
  }

  lemma StoreNewFileAdds(fs: Files, m: FileMetadata, shards: seq<Shard>, plan: Plan)
    requires ChunkStore.Valid(fs.store) && m.fileHash !in fs.index
    requires 1 <= m.requiredShards <= m.totalShards == |shards|
    requires forall j :: 0 <= j < |shards| ==> |shards[j].data| == PerShard(m.originalSize, m.requiredShards)
    requires StoreNewFile(fs, m, shards, |shards|, plan).1.Success?
    ensures Added(fs, StoreNewFile(fs, m, shards, |shards|, plan).0, m.fileHash)
    ensures StoreNewFile(fs, m, shards, |shards|, plan).0.index[m.fileHash] == m
  {
    var h, per := m.fileHash, PerShard(m.originalSize, m.requiredShards);
    var after := StoreShards(fs.store, h, shards, 0, plan.store).store;
    StoredIsComplete(fs.store, h, shards, plan.store, after);
    StoredBytes(fs.store, after, h, shards, per, Share(m));
    StoreShardsKeepsValid(fs.store, h, shards, 0, plan.store);
    forall i | 0 <= i < |shards|
      ensures SizedShard(after, h, i, per)
    {
      assert ShardHeld(after, h, i, shards[i].data);
    }
  }

  /** Storing a file adds exactly its share. */
  lemma StoreFileAddsShare(env: Env, fs: Files, name: string, data: Bytes, total: nat, required: nat,
                           peers: seq<PeerId>, plan: Plan)
    requires ChunkStore.Valid(fs.store)
    requires 1 <= required <= total ==> Lawful(env.codec, required, total)
    requires StoreFile(env, fs, name, data, total, required, peers, plan).1.Success?
    ensures Added(fs, StoreFile(env, fs, name, data, total, required, peers, plan).0, env.hash(data))
  {
    var shards := Sharded(env.codec, env.hash, data, total, required).value;
    ShardCount(env, data, total, required);
    StoreNewFileAdds(fs, MetadataFor(env.hash(data), name, data, total, required, shards, peers), shards, plan);
  }

  /** The quota check for a shard of this file cannot wrap around. */
  ghost predicate NoWrap(maxBytes: nat, data: Bytes, required: int) {
    required >= 1 ==> maxBytes + PerShard(|data|, required) < TWO_TO_THE_64
  }

  lemma StoreFileWithinQuota(env: Env, fs: Files, name: string, data: Bytes, total: nat, required: nat,
                             peers: seq<PeerId>, plan: Plan)
    requires ChunkStore.Valid(fs.store)
    requires TotalBytes(fs.store) <= fs.store.maxBytes && NoWrap(fs.store.maxBytes, data, required)
    requires 1 <= required <= total ==> Lawful(env.codec, required, total)
    requires StoreFile(env, fs, name, data, total, required, peers, plan).1.Success?
    ensures TotalBytes(StoreFile(env, fs, name, data, total, required, peers, plan).0.store) <= fs.store.maxBytes
  {
    var shards := Sharded(env.codec, env.hash, data, total, required).value;
    ShardCount(env, data, total, required);
    StoreShardsWithinQuota(fs.store, env.hash(data), shards, 0, plan.store, PerShard(|data|, required));
  }

  /** Without input/output failures a failed StoreFile leaves index, chunks and used bytes alone. */
  lemma FailedStoreFileIsNeutral(env: Env, fs: Files, name: string, data: Bytes, total: nat, required: int,
                                 peers: seq<PeerId>, plan: Plan)
    requires ChunkStore.Valid(fs.store) && NoFailure(plan)
    requires 1 <= required <= total ==> Lawful(env.codec, required, total)
    requires StoreFile(env, fs, name, data, total, required, peers, plan).1.Failure?
    ensures var after := StoreFile(env, fs, name, data, total, required, peers, plan).0;
            && after.index == fs.index && after.store.chunks == fs.store.chunks
            && (forall id :: id in fs.store.chunks ==> Untouched(fs.store, after.store, id))
            && TotalBytes(after.store) == TotalBytes(fs.store)
            && ChunkStore.Valid(after.store) && after.store.maxBytes == fs.store.maxBytes
  {
    var (after, r) := StoreFile(env, fs, name, data, total, required, peers, plan);
    StoreFileIsAllOrNothing(env, fs, name, data, total, required, peers, plan);
    StoreFileKeepsValid(env, fs, name, data, total, required, peers, plan);
    NoMetadataFailure(env, fs, name, data, total, required, peers, plan);
    forall id | id in fs.store.chunks
      ensures Untouched(fs.store, after.store, id)
    {
      ExistingChunksUntouched(env, fs, name, data, total, required, peers, plan, id);
    }
    SameChunksSameBytes(fs.store, after.store);
  }

  lemma StoreFileKeepsValid(env: Env, fs: Files, name: string, data: Bytes, total: nat, required: int,
                            peers: seq<PeerId>, plan: Plan)
    requires ChunkStore.Valid(fs.store)
    ensures ChunkStore.Valid(StoreFile(env, fs, name, data, total, required, peers, plan).0.store)
    ensures StoreFile(env, fs, name, data, total, required, peers, plan).0.store.maxBytes == fs.store.maxBytes
  {
    var h := env.hash(data);
    if data != [] && required <= total && h !in fs.index && required > 0 {
      var shards := Sharded(env.codec, env.hash, data, total, required).value;
      var r := StoreShards(fs.store, h, shards, 0, plan.store);
      StoreShardsKeepsValid(fs.store, h, shards, 0, plan.store);
      DeleteShardsKeepsValid(r.store, h, StoredCount(r, shards), plan.delete);
      DeleteShardsKeepsValid(r.store, h, total, plan.delete);
    }
  }

  /** With every save successful the cause of a failure is a duplicate chunk or the quota. */
  lemma {:induction false} ShardsFailForCause(s: Store, h: Hash, shards: seq<Shard>, i: nat, plan: Plan)
    requires i <= |shards| && NoFailure(plan)
    ensures var r := StoreShards(s, h, shards, i, plan.store);
            r.FailedAt? ==> r.cause == DuplicateChunk || r.cause == QuotaExceeded
    decreases |shards| - i
  {
    if i < |shards| {
      ShardsFailForCause(StoreChunk(s, ShardId(h, i), shards[i].data, plan.store(i)).store, h, shards, i + 1, plan);
    }
  }

  lemma NoMetadataFailure(env: Env, fs: Files, name: string, data: Bytes, total: nat, required: int,
                          peers: seq<PeerId>, plan: Plan)
    requires NoFailure(plan) && StoreFile(env, fs, name, data, total, required, peers, plan).1.Failure?
    ensures var h, e := env.hash(data), StoreFile(env, fs, name, data, total, required, peers, plan).1.error;
            IndexAfterFailure(fs.store.chunks, h, e) == fs.store.chunks
  {
    var h := env.hash(data);
    if data != [] && required <= total && h !in fs.index && required > 0 {
      ShardsFailForCause(fs.store, h, Sharded(env.codec, env.hash, data, total, required).value, 0, plan);
    }
  }

  /** Deleting a file frees exactly its share and takes it out of the index. */
  lemma DeleteFileFreesShare(fs: Files, h: Hash, plan: Plan)
    requires Consistent(fs) && h in fs.index && AllRemoved(fs.index[h].totalShards, plan.delete)
    ensures var after := DeleteFile(fs, h, plan).0;
            && after.index == fs.index - {h}
            && TotalBytes(after.store) + Share(fs.index[h]) == TotalBytes(fs.store)
            && ChunkStore.Valid(after.store) && after.store.maxBytes == fs.store.maxBytes
  {
    var m := fs.index[h];
    assert Accounted(fs.store, h, m);
    DeleteShardsBytes(fs.store, h, m.totalShards, plan.delete, PerShard(m.originalSize, m.requiredShards), Share(m));
    DeleteShardsKeepsValid(fs.store, h, m.totalShards, plan.delete);
  }

  // ----- every run

  /** A StoreFile or DeleteFile without input/output failures. */
  ghost predicate Faultless(env: Env, e: FileEvent) {
    LawfulOp(env, e) && !e.UpdateOp? && NoFailure(e.plan)
  }

  lemma StoreKeepsConsistent(env: Env, fs: Files, e: FileEvent)
    requires Consistent(fs)
    requires e.StoreOp? && Faultless(env, e)
    ensures Consistent(ApplyOp(env, fs, e)) && ApplyOp(env, fs, e).store.maxBytes == fs.store.maxBytes
  {
    var after := ApplyOp(env, fs, e);
    var h := env.hash(e.data);
    forall g | g in fs.index
      ensures Accounted(after.store, g, fs.index[g])
    {
      forall i | 0 <= i < fs.index[g].totalShards
        ensures Untouched(fs.store, after.store, ShardId(g, i))
      {
        assert SizedShard(fs.store, g, i, PerShard(fs.index[g].originalSize, fs.index[g].requiredShards));
        ExistingChunksUntouched(env, fs, e.name, e.data, e.total, e.required, e.peers, e.plan, ShardId(g, i));
      }
      UntouchedStaysSized(fs.store, after.store, g, fs.index[g]);
    }
    if StoreFile(env, fs, e.name, e.data, e.total, e.required, e.peers, e.plan).1.Success? {
      StoreFileAddsShare(env, fs, e.name, e.data, e.total, e.required, e.peers, e.plan);
      SharesInsert(fs.index, h, after.index[h]);
    } else {
      FailedStoreFileIsNeutral(env, fs, e.name, e.data, e.total, e.required, e.peers, e.plan);
    }
  }

  lemma DeleteKeepsConsistent(fs: Files, h: Hash, plan: Plan)
    requires Consistent(fs) && NoFailure(plan)
    ensures Consistent(DeleteFile(fs, h, plan).0)
    ensures DeleteFile(fs, h, plan).0.store.maxBytes == fs.store.maxBytes
  {
    if h in fs.index {
      var after := DeleteFile(fs, h, plan).0;
      DeleteFileFreesShare(fs, h, plan);
      SharesRemove(fs.index, h);
      assert Accounted(fs.store, h, fs.index[h]);
      forall g | g in after.index
        ensures Accounted(after.store, g, after.index[g])
      {
        assert Accounted(fs.store, g, fs.index[g]);
        forall i | 0 <= i < fs.index[g].totalShards
          ensures Untouched(fs.store, after.store, ShardId(g, i))
        {
          DeleteFileTouchesOwn(fs, h, plan, g, i);
        }
        UntouchedStaysSized(fs.store, after.store, g, fs.index[g]);
      }
    }
  }

  lemma OpKeepsConsistent(env: Env, fs: Files, e: FileEvent)
    requires Consistent(fs) && Faultless(env, e)
    ensures Consistent(ApplyOp(env, fs, e)) && ApplyOp(env, fs, e).store.maxBytes == fs.store.maxBytes
  {
    match e
    case StoreOp(_, _, _, _, _, _) => StoreKeepsConsistent(env, fs, e);
    case DeleteOp(h, plan) => DeleteKeepsConsistent(fs, h, plan);
  }

  lemma {:induction false} RunKeepsConsistent(env: Env, fs: Files, events: seq<FileEvent>)
    requires Consistent(fs)
    requires forall e :: e in events ==> Faultless(env, e)
    ensures Consistent(RunOps(env, fs, events)) && RunOps(env, fs, events).store.maxBytes == fs.store.maxBytes
  {
    if events != [] {
      RunKeepsConsistent(env, fs, events[..|events| - 1]);
      OpKeepsConsistent(env, RunOps(env, fs, events[..|events| - 1]), events[|events| - 1]);
    }
  }

  /** The operation keeps the quota, if none of its quota checks can wrap around. */
  lemma OpKeepsQuota(env: Env, fs: Files, e: FileEvent)
    requires Consistent(fs) && Faultless(env, e) && TotalBytes(fs.store) <= fs.store.maxBytes
    requires e.StoreOp? ==> NoWrap(fs.store.maxBytes, e.data, e.required)
    ensures TotalBytes(ApplyOp(env, fs, e).store) <= fs.store.maxBytes
  {
    match e
    case StoreOp(name, data, total, required, peers, plan) =>
      if StoreFile(env, fs, name, data, total, required, peers, plan).1.Success? {
        StoreFileWithinQuota(env, fs, name, data, total, required, peers, plan);
      } else {
        FailedStoreFileIsNeutral(env, fs, name, data, total, required, peers, plan);
      }
    case DeleteOp(h, plan) =>
      if h in fs.index {
        DeleteFileFreesShare(fs, h, plan);
      }
  }

  lemma {:induction false} RunKeepsQuota(env: Env, fs: Files, events: seq<FileEvent>)
    requires Consistent(fs) && TotalBytes(fs.store) <= fs.store.maxBytes
    requires forall e :: e in events ==> Faultless(env, e)
    requires forall e :: e in events && e.StoreOp? ==> NoWrap(fs.store.maxBytes, e.data, e.required)
    ensures TotalBytes(RunOps(env, fs, events).store) <= fs.store.maxBytes
  {
    if events != [] {
      RunKeepsQuota(env, fs, events[..|events| - 1]);
      RunKeepsConsistent(env, fs, events[..|events| - 1]);
      OpKeepsQuota(env, RunOps(env, fs, events[..|events| - 1]), events[|events| - 1]);
    }
  }

  ghost function EmptyFiles(maxBytes: uint64): Files {
    Files(Store(map[], map[], Missing, maxBytes), map[], Missing)
  }

  /**
    After every run of StoreFile and DeleteFile without input/output failures, the used bytes are
    the sum over the indexed files of total shards times shard size, as a 64-bit number. If no
    quota check of the run can wrap around, the sum never exceeds the quota, and so is exact.
   */
  lemma BytesAreConserved(env: Env, maxBytes: uint64, events: seq<FileEvent>)
    requires forall e :: e in events ==> Faultless(env, e)
    ensures var fs := RunOps(env, EmptyFiles(maxBytes), events);
            var shares := Sum(fs.index.Keys, Shares(fs.index));
            && UsedBytes(fs.store) == U64(shares)
            && ((forall e :: e in events && e.StoreOp? ==> NoWrap(maxBytes, e.data, e.required)) ==>
                UsedBytes(fs.store) == shares <= maxBytes)
  {
    EmptyIsConsistent(maxBytes);
    RunKeepsConsistent(env, EmptyFiles(maxBytes), events);
    if forall e :: e in events && e.StoreOp? ==> NoWrap(maxBytes, e.data, e.required) {
      RunKeepsQuota(env, EmptyFiles(maxBytes), events);
    }
  }

  lemma EmptyIsConsistent(maxBytes: uint64)
    ensures Consistent(EmptyFiles(maxBytes)) && TotalBytes(EmptyFiles(maxBytes).store) == 0
  {
    var fs := EmptyFiles(maxBytes);
    assert fs.store.chunks.Keys == {} && fs.index.Keys == {};
  }
}
