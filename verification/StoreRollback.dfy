/**
  StoreFile is all or nothing: what a failed call leaves behind, cause by cause.
 */
module StoreRollback {
  import opened Results
  import opened ErasureCode
  import opened Sharding
  import opened ChunkStore
  import opened FileStore

  /**
    The state `failed` after shard k could not be stored: the first k shards are newly held, and
    `mid`, the state before the failing store, differs from `s` in those shards only.
   */
  ghost predicate FailureAt(s: Store, mid: Store, failed: Store, h: Hash, shards: seq<Shard>, k: nat,
                            cause: ChunkStore.Error, io: StoreIo) {
    && k < |shards|
    && ChunkStore.Valid(failed)
    && NewlyHeld(s, failed, h, shards, 0, k)
    && (forall id :: Foreign(id, h, k) ==> Untouched(s, mid, id))
    && (forall p :: ForeignPath(p, h, k) ==> SamePath(s, mid, p))
    && FailedStore(mid, failed, ShardId(h, k), cause, io)
  }

  lemma {:induction false} FailurePoint(s: Store, h: Hash, shards: seq<Shard>, i: nat, io: nat -> StoreIo, r: ShardsStored)
    returns (mid: Store)
    requires ChunkStore.Valid(s) && i <= |shards| && r == StoreShards(s, h, shards, i, io) && r.FailedAt?
    ensures i <= r.shard < |shards|
    ensures StoreShards(s, h, shards[..r.shard], i, io) == AllStored(mid)
    ensures FailedStore(mid, r.store, ShardId(h, r.shard), r.cause, io(r.shard))
    ensures StoreChunk(mid, ShardId(h, r.shard), shards[r.shard].data, io(r.shard)).status == Err(r.cause)
    decreases |shards| - i
  {
    var id, data := ShardId(h, i), shards[i].data;
    var step := StoreChunk(s, id, data, io(i));
    if step.status == Ok {
      StoreChunkKeepsValid(s, id, data, io(i));
      mid := FailurePoint(step.store, h, shards, i + 1, io, r);
      assert shards[..r.shard][i] == shards[i];
    } else {
      StoreChunkFailure(s, id, data, io(i));
      mid := s;
    }
  }

  lemma FailureOf(s: Store, h: Hash, shards: seq<Shard>, io: nat -> StoreIo, r: ShardsStored) returns (mid: Store)
    requires ChunkStore.Valid(s) && r == StoreShards(s, h, shards, 0, io) && r.FailedAt?
    ensures r.shard < |shards|
    ensures FailureAt(s, mid, r.store, h, shards, r.shard, r.cause, io(r.shard))
  {
    mid := FailurePoint(s, h, shards, 0, io, r);
    StoreShardsKeepsValid(s, h, shards, 0, io);
    StoreShardsHolds(s, h, shards, 0, io);
    PrefixTouchesOwn(s, h, shards[..r.shard], io, mid);
  }

  lemma PrefixTouchesOwn(s: Store, h: Hash, shards: seq<Shard>, io: nat -> StoreIo, mid: Store)
    requires ChunkStore.Valid(s) && StoreShards(s, h, shards, 0, io) == AllStored(mid)
    ensures forall id :: Foreign(id, h, |shards|) ==> Untouched(s, mid, id)
    ensures forall p :: ForeignPath(p, h, |shards|) ==> SamePath(s, mid, p)
  {
    forall id | Foreign(id, h, |shards|)
      ensures Untouched(s, mid, id)
    {
      StoreShardsTouchesOwn(s, h, shards, 0, io, id);
    }
    forall p | ForeignPath(p, h, |shards|)
      ensures SamePath(s, mid, p)
    {
      StoreShardsKeepsPath(s, h, shards, 0, io, p);
    }
  }

  ghost predicate FreshPaths(s: Store, h: Hash, n: nat) {
    forall i :: 0 <= i < n ==> ChunkPath(ShardId(h, i)) !in s.files
  }

  /**
    `after` is `s` undone: the given chunk index, no other file changed, and where none of the
    file's n shard paths existed before, the disk of `s` exactly when `nothing` holds.
   */
  ghost predicate Undone(s: Store, after: Store, h: Hash, n: nat, chunks: Chunks, nothing: bool) {
    && after.chunks == chunks
    && (forall p :: ForeignPath(p, h, n) ==> SamePath(s, after, p))
    && (FreshPaths(s, h, n) ==> (after.files == s.files <==> nothing))
  }

  /** The index entry of every chunk after the roll back. */
  ghost predicate EntryRestored(s: Store, after: Store, id: ChunkId, own: ChunkId, cause: ChunkStore.Error) {
    if cause == MetadataFailed && id == own
    then id !in s.chunks && id in after.chunks && after.chunks[id] == ChunkPath(id)
    else SameEntry(s, after, id)
  }

  lemma RollbackEntry(s: Store, mid: Store, failed: Store, h: Hash, shards: seq<Shard>, k: nat,
                      cause: ChunkStore.Error, io: StoreIo, del: nat -> DeleteIo, id: ChunkId)
    requires FailureAt(s, mid, failed, h, shards, k, cause, io) && AllRemoved(k, del)
    ensures EntryRestored(s, DeleteShards(failed, h, k, del), id, ShardId(h, k), cause)
  {
    if Foreign(id, h, k) {
      DeleteShardsTouchesOwn(failed, h, k, del, id);
      assert Untouched(s, mid, id);
      assert id != ShardId(h, k) ==> Untouched(mid, failed, id);
    } else {
      var j :| 0 <= j < k && ShardId(h, j) == id;
      assert ShardId(h, j) !in s.chunks && ShardHeld(failed, h, j, shards[j].data);
      DeleteShardsRemoves(failed, h, k, del, j);
      ShardIdsAreInjective(h, j, h, k);
    }
  }

  /** The file at every path after the roll back. */
  lemma RollbackPath(s: Store, mid: Store, failed: Store, h: Hash, shards: seq<Shard>, k: nat,
                     cause: ChunkStore.Error, io: StoreIo, del: nat -> DeleteIo, p: Path)
    requires FailureAt(s, mid, failed, h, shards, k, cause, io) && AllRemoved(k, del)
    ensures ForeignPath(p, h, k + 1) ==> SamePath(s, DeleteShards(failed, h, k, del), p)
    ensures !ForeignPath(p, h, k) ==> p !in DeleteShards(failed, h, k, del).files
    ensures p == ChunkPath(ShardId(h, k)) && p !in s.files ==>
      (p !in DeleteShards(failed, h, k, del).files <==> LeavesNothing(cause, io))
  {
    LaterShardIsForeign(h, k, k);
    if ForeignPath(p, h, k) {
      DeleteShardsKeepsPath(failed, h, k, del, p);
      assert SamePath(s, mid, p);
      assert p != ChunkPath(ShardId(h, k)) ==> SamePath(mid, failed, p);
    } else {
      var j :| 0 <= j < k && ChunkPath(ShardId(h, j)) == p;
      assert ShardHeld(failed, h, j, shards[j].data);
      DeleteShardsRemoves(failed, h, k, del, j);
    }
  }

  /**
    Roll back restores the chunk index, except for the entry of a failed metadata save, and every
    file that is not one of this file's shards; where no shard file existed before, it restores
    the disk exactly when the failing store left nothing.
   */
  lemma RollbackRestores(s: Store, h: Hash, shards: seq<Shard>, io: nat -> StoreIo, del: nat -> DeleteIo, r: ShardsStored)
    requires ChunkStore.Valid(s) && r == StoreShards(s, h, shards, 0, io) && r.FailedAt?
    requires AllRemoved(|shards|, del)
    ensures r.shard < |shards|
    ensures Undone(s, DeleteShards(r.store, h, r.shard, del), h, |shards|,
                   IndexAfterFailure(s.chunks, h, ChunkFailed(r.shard, r.cause)), LeavesNothing(r.cause, io(r.shard)))
  {
    var mid := FailureOf(s, h, shards, io, r);
    RestoredIndex(s, mid, r.store, h, shards, r.shard, r.cause, io(r.shard), del);
    RestoredFiles(s, mid, r.store, h, shards, r.shard, r.cause, io(r.shard), del);
  }

  lemma RestoredIndex(s: Store, mid: Store, failed: Store, h: Hash, shards: seq<Shard>, k: nat,
                      cause: ChunkStore.Error, io: StoreIo, del: nat -> DeleteIo)
    requires FailureAt(s, mid, failed, h, shards, k, cause, io) && AllRemoved(k, del)
    ensures DeleteShards(failed, h, k, del).chunks ==
            if cause == MetadataFailed then s.chunks[ShardId(h, k) := ChunkPath(ShardId(h, k))] else s.chunks
  {
    var after, own := DeleteShards(failed, h, k, del), ShardId(h, k);
    var expected := if cause == MetadataFailed then s.chunks[own := ChunkPath(own)] else s.chunks;
    forall id
      ensures id in after.chunks <==> id in expected
      ensures id in expected ==> after.chunks[id] == expected[id]
    {
      RollbackEntry(s, mid, failed, h, shards, k, cause, io, del, id);
    }
  }

  lemma RestoredFiles(s: Store, mid: Store, failed: Store, h: Hash, shards: seq<Shard>, k: nat,
                      cause: ChunkStore.Error, io: StoreIo, del: nat -> DeleteIo)
    requires FailureAt(s, mid, failed, h, shards, k, cause, io) && AllRemoved(k, del)
    ensures forall p :: ForeignPath(p, h, |shards|) ==> SamePath(s, DeleteShards(failed, h, k, del), p)
    ensures FreshPaths(s, h, |shards|) ==>
      (DeleteShards(failed, h, k, del).files == s.files <==> LeavesNothing(cause, io))
  {
    var after, own := DeleteShards(failed, h, k, del), ChunkPath(ShardId(h, k));
    forall p | ForeignPath(p, h, |shards|)
      ensures SamePath(s, after, p)
    {
      RollbackPath(s, mid, failed, h, shards, k, cause, io, del, p);
    }
    if FreshPaths(s, h, |shards|) {
      RollbackPath(s, mid, failed, h, shards, k, cause, io, del, own);
      assert own !in s.files;
      forall p | p != own
        ensures SamePath(s, after, p)
      {
        RollbackPath(s, mid, failed, h, shards, k, cause, io, del, p);
        if !ForeignPath(p, h, k + 1) {
          var j :| 0 <= j < k + 1 && ChunkPath(ShardId(h, j)) == p;
          assert p !in s.files && !ForeignPath(p, h, k);
        }
      }
      if LeavesNothing(cause, io) {
        assert SamePath(s, after, own);
        SameFiles(s, after);
      }
    }
  }

  /** `stored` is `s` with every shard newly held. */
  ghost predicate AllStoredFrom(s: Store, stored: Store, h: Hash, shards: seq<Shard>) {
    && ChunkStore.Valid(stored)
    && NewlyHeld(s, stored, h, shards, 0, |shards|)
    && (forall id :: Foreign(id, h, |shards|) ==> Untouched(s, stored, id))
    && (forall p :: ForeignPath(p, h, |shards|) ==> SamePath(s, stored, p))
  }

  lemma UndoneEntry(s: Store, stored: Store, h: Hash, shards: seq<Shard>, del: nat -> DeleteIo, id: ChunkId)
    requires AllStoredFrom(s, stored, h, shards) && AllRemoved(|shards|, del)
    ensures SameEntry(s, DeleteShards(stored, h, |shards|, del), id)
  {
    var n := |shards|;
    if Foreign(id, h, n) {
      assert Untouched(s, stored, id);
      DeleteShardsTouchesOwn(stored, h, n, del, id);
    } else {
      var i :| 0 <= i < n && ShardId(h, i) == id;
      assert ShardId(h, i) !in s.chunks && ShardHeld(stored, h, i, shards[i].data);
      DeleteShardsRemoves(stored, h, n, del, i);
    }
  }

  lemma UndonePath(s: Store, stored: Store, h: Hash, shards: seq<Shard>, del: nat -> DeleteIo, p: Path)
    requires AllStoredFrom(s, stored, h, shards) && AllRemoved(|shards|, del)
    requires ForeignPath(p, h, |shards|) || FreshPaths(s, h, |shards|)
    ensures SamePath(s, DeleteShards(stored, h, |shards|, del), p)
  {
    var n := |shards|;
    if ForeignPath(p, h, n) {
      assert SamePath(s, stored, p);
      DeleteShardsKeepsPath(stored, h, n, del, p);
    } else {
      var i :| 0 <= i < n && ChunkPath(ShardId(h, i)) == p;
      assert ShardHeld(stored, h, i, shards[i].data);
      DeleteShardsRemoves(stored, h, n, del, i);
    }
  }

  lemma StoredIsComplete(s: Store, h: Hash, shards: seq<Shard>, io: nat -> StoreIo, stored: Store)
    requires ChunkStore.Valid(s) && StoreShards(s, h, shards, 0, io) == AllStored(stored)
    ensures AllStoredFrom(s, stored, h, shards)
  {
    StoreShardsKeepsValid(s, h, shards, 0, io);
    StoreShardsHolds(s, h, shards, 0, io);
    PrefixTouchesOwn(s, h, shards, io, stored);
  }

  lemma SameEntriesSameChunks(s: Store, after: Store)
    requires forall id :: SameEntry(s, after, id)
    ensures after.chunks == s.chunks
  {
    forall id
      ensures id in after.chunks <==> id in s.chunks
      ensures id in s.chunks ==> after.chunks[id] == s.chunks[id]
    {
      assert SameEntry(s, after, id);
    }
  }

  /** Deleting every shard of a complete store restores the index and, where paths were fresh, the disk. */
  lemma UndoAll(s: Store, stored: Store, h: Hash, shards: seq<Shard>, del: nat -> DeleteIo)
    requires AllStoredFrom(s, stored, h, shards) && AllRemoved(|shards|, del)
    ensures Undone(s, DeleteShards(stored, h, |shards|, del), h, |shards|, s.chunks, true)
  {
    var after := DeleteShards(stored, h, |shards|, del);
    forall id
      ensures SameEntry(s, after, id)
    {
      UndoneEntry(s, stored, h, shards, del, id);
    }
    SameEntriesSameChunks(s, after);
    forall p | ForeignPath(p, h, |shards|) || FreshPaths(s, h, |shards|)
      ensures SamePath(s, after, p)
    {
      UndonePath(s, stored, h, shards, del, p);
    }
    if FreshPaths(s, h, |shards|) {
      SameFiles(s, after);
    }
  }

  lemma SameFiles(s: Store, after: Store)
    requires forall p :: SamePath(s, after, p)
    ensures after.files == s.files
  {
    forall p
      ensures p in after.files <==> p in s.files
      ensures p in s.files ==> after.files[p] == s.files[p]
    {
      assert SamePath(s, after, p);
    }
  }

  // ----- the whole call

  /** What a failed call leaves on disk under fresh paths. */
  ghost predicate FailureLeavesNothing(e: FileError, plan: Plan) {
    match e
    case ChunkFailed(k, cause) => LeavesNothing(cause, plan.store(k))
    case _ => true
  }

  /** The chunk index after a failed call. */
  ghost function IndexAfterFailure(chunks: Chunks, h: Hash, e: FileError): Chunks {
    match e
    case ChunkFailed(k, MetadataFailed) => chunks[ShardId(h, k) := ChunkPath(ShardId(h, k))]
    case _ => chunks
  }

  lemma StoreNewFileUndone(fs: Files, m: FileMetadata, shards: seq<Shard>, plan: Plan)
    requires ChunkStore.Valid(fs.store) && AllRemoved(|shards|, plan.delete) && m.fileHash !in fs.index
    requires StoreNewFile(fs, m, shards, |shards|, plan).1.Failure?
    ensures var (after, r) := StoreNewFile(fs, m, shards, |shards|, plan);
            && after.index == fs.index
            && Undone(fs.store, after.store, m.fileHash, |shards|,
                      IndexAfterFailure(fs.store.chunks, m.fileHash, r.error), FailureLeavesNothing(r.error, plan))
  {
    var h := m.fileHash;
    var stored := StoreShards(fs.store, h, shards, 0, plan.store);
    match stored
    case FailedAt(_, _, _) => RollbackRestores(fs.store, h, shards, plan.store, plan.delete, stored);
    case AllStored(store) =>
      StoredIsComplete(fs.store, h, shards, plan.store, store);
      UndoAll(fs.store, store, h, shards, plan.delete);
  }

  /**
    A failed StoreFile, with successful removals, leaves the file index and the chunk index as they
    were, except that a failed metadata save inside StoreChunk keeps that one entry. No other
    file on disk changes, and where no shard file existed before, the disk is as it was exactly
    when the failing write left nothing.
   */
  lemma StoreFileIsAllOrNothing(env: Env, fs: Files, name: string, data: Bytes, total: nat, required: int,
                                peers: seq<PeerId>, plan: Plan)
    requires ChunkStore.Valid(fs.store) && AllRemoved(total, plan.delete)
    requires 1 <= required <= total ==> Lawful(env.codec, required, total)
    requires StoreFile(env, fs, name, data, total, required, peers, plan).1.Failure?
    ensures var (after, r) := StoreFile(env, fs, name, data, total, required, peers, plan);
            && after.index == fs.index
            && Undone(fs.store, after.store, env.hash(data), total,
                      IndexAfterFailure(fs.store.chunks, env.hash(data), r.error), FailureLeavesNothing(r.error, plan))
  {
    var h := env.hash(data);
    if data != [] && required <= total && h !in fs.index && required > 0 {
      var shards := Sharded(env.codec, env.hash, data, total, required).value;
      ShardCount(env, data, total, required);
      StoreNewFileUndone(fs, MetadataFor(h, name, data, total, required, shards, peers), shards, plan);
    }
  }

  lemma ShardCount(env: Env, data: Bytes, total: nat, required: nat)
    requires data != [] && 1 <= required <= total && Lawful(env.codec, required, total)
    ensures Sharded(env.codec, env.hash, data, total, required).Success?
    ensures var shards := Sharded(env.codec, env.hash, data, total, required).value;
            && |shards| == total
            && forall i :: 0 <= i < total ==> |shards[i].data| == PerShard(|data|, required)
  {
    var parts, per := Split(data, required), PerShard(|data|, required);
    assert per > 0;
    assert IsCodeword(env.codec.encode(total, parts), parts, total, per);
  }

  // ----- when the chunk index is restored, told from the inputs

  /** Storing shard k, after all shards before it, gets as far as saving the index, and that save fails. */
  ghost predicate StoppedBySave(s: Store, h: Hash, shards: seq<Shard>, io: nat -> StoreIo, k: nat) {
    && k < |shards|
    && StoreShards(s, h, shards[..k], 0, io).AllStored?
    && SaveFails(StoreShards(s, h, shards[..k], 0, io).store, ShardId(h, k), shards[k].data, io(k))
  }

  /** Storing a list is storing a prefix and then the rest. */
  lemma {:induction false} PrefixThenRest(s: Store, h: Hash, shards: seq<Shard>, i: nat, io: nat -> StoreIo,
                                          prefix: seq<Shard>, mid: Store, r: ShardsStored)
    requires i <= |prefix| && prefix <= shards
    requires StoreShards(s, h, prefix, i, io) == AllStored(mid) && StoreShards(s, h, shards, i, io) == r
    ensures StoreShards(mid, h, shards, |prefix|, io) == r
    decreases |prefix| - i
  {
    hide UsedBytes;
    if i < |prefix| {
      assert prefix[i] == shards[i];
      PrefixThenRest(StoreChunk(s, ShardId(h, i), shards[i].data, io(i)).store, h, shards, i + 1, io, prefix, mid, r);
    }
  }

  lemma FailedSaveStops(s: Store, h: Hash, shards: seq<Shard>, io: nat -> StoreIo)
    requires ChunkStore.Valid(s) && StoreShards(s, h, shards, 0, io).FailedAt?
    requires StoreShards(s, h, shards, 0, io).cause == MetadataFailed
    ensures StoppedBySave(s, h, shards, io, StoreShards(s, h, shards, 0, io).shard)
  {
    var r := StoreShards(s, h, shards, 0, io);
    var mid := FailurePoint(s, h, shards, 0, io, r);
    SaveFailsExactly(mid, ShardId(h, r.shard), shards[r.shard].data, io(r.shard));
  }

  lemma StoppedMeansFailedSave(s: Store, h: Hash, shards: seq<Shard>, io: nat -> StoreIo, k: nat)
    requires StoppedBySave(s, h, shards, io, k)
    ensures StoreShards(s, h, shards, 0, io).FailedAt? && StoreShards(s, h, shards, 0, io).cause == MetadataFailed
  {
    var mid := StoreShards(s, h, shards[..k], 0, io).store;
    SaveFailsExactly(mid, ShardId(h, k), shards[k].data, io(k));
    PrefixThenRest(s, h, shards, 0, io, shards[..k], mid, StoreShards(s, h, shards, 0, io));
  }

  lemma StoppedBySaveExactly(s: Store, h: Hash, shards: seq<Shard>, io: nat -> StoreIo, r: ShardsStored)
    requires ChunkStore.Valid(s) && r == StoreShards(s, h, shards, 0, io)
    ensures (r.FailedAt? && r.cause == MetadataFailed) <==> exists k :: StoppedBySave(s, h, shards, io, k)
  {
    if r.FailedAt? && r.cause == MetadataFailed {
      FailedSaveStops(s, h, shards, io);
    }
    if k: nat :| StoppedBySave(s, h, shards, io, k) {
      StoppedMeansFailedSave(s, h, shards, io, k);
    }
  }

  lemma LeftoverIsNew(s: Store, h: Hash, shards: seq<Shard>, io: nat -> StoreIo)
    requires ChunkStore.Valid(s)
    ensures var r := StoreShards(s, h, shards, 0, io);
            r.FailedAt? && r.cause == MetadataFailed ==> ShardId(h, r.shard) !in s.chunks
  {
    var r := StoreShards(s, h, shards, 0, io);
    if r.FailedAt? && r.cause == MetadataFailed {
      var mid := FailureOf(s, h, shards, io, r);
      LaterShardIsForeign(h, r.shard, r.shard);
      assert Untouched(s, mid, ShardId(h, r.shard));
    }
  }

  /**
    A failed StoreFile, with successful removals, restores the chunk index exactly if no shard is
    stopped by its save of the index; in particular if every such save succeeds.
   */
  lemma IndexRestoredExactly(env: Env, fs: Files, name: string, data: Bytes, total: nat, required: int,
                             peers: seq<PeerId>, plan: Plan)
    requires ChunkStore.Valid(fs.store) && AllRemoved(total, plan.delete)
    requires 1 <= required <= total && data != [] && env.hash(data) !in fs.index && Lawful(env.codec, required, total)
    requires StoreFile(env, fs, name, data, total, required, peers, plan).1.Failure?
    ensures var after := StoreFile(env, fs, name, data, total, required, peers, plan).0;
            var shards := Sharded(env.codec, env.hash, data, total, required).value;
            && (after.store.chunks == fs.store.chunks <==>
                !exists k :: StoppedBySave(fs.store, env.hash(data), shards, plan.store, k))
            && ((forall i :: 0 <= i < total ==> plan.store(i).save == SaveOk) ==>
                after.store.chunks == fs.store.chunks)
  {
    var h := env.hash(data);
    var shards := Sharded(env.codec, env.hash, data, total, required).value;
    ShardCount(env, data, total, required);
    StoreFileIsAllOrNothing(env, fs, name, data, total, required, peers, plan);
    StoppedBySaveExactly(fs.store, h, shards, plan.store, StoreShards(fs.store, h, shards, 0, plan.store));
    LeftoverIsNew(fs.store, h, shards, plan.store);
  }

  /** Chunks that existed before the call keep entry and file, whatever fails and whatever it leaves. */
  lemma ExistingChunksUntouched(env: Env, fs: Files, name: string, data: Bytes, total: nat, required: int,
                                peers: seq<PeerId>, plan: Plan, id: ChunkId)
    requires ChunkStore.Valid(fs.store) && id in fs.store.chunks
    requires 1 <= required <= total ==> Lawful(env.codec, required, total)
    ensures var after := StoreFile(env, fs, name, data, total, required, peers, plan).0;
            Untouched(fs.store, after.store, id) && ChunkStore.Valid(after.store)
  {
    var h, s := env.hash(data), fs.store;
    if data != [] && required <= total && h !in fs.index && required > 0 {
      var shards := Sharded(env.codec, env.hash, data, total, required).value;
      ShardCount(env, data, total, required);
      var r := StoreShards(s, h, shards, 0, plan.store);
      var n := StoredCount(r, shards);
      StoreShardsKeepsValid(s, h, shards, 0, plan.store);
      StoreShardsHolds(s, h, shards, 0, plan.store);
      StoreShardsTouchesOwn(s, h, shards, 0, plan.store, id);
      DeleteShardsKeepsValid(r.store, h, n, plan.delete);
      assert Foreign(id, h, n);
      DeleteShardsTouchesOwn(r.store, h, n, plan.delete, id);
    }
  }

  /**
    The entry of shard k that a failed metadata save leaves behind makes every StoreFile of the same
    content with more than k shards fail, as long as it is there. It can be deleted exactly if its
    file is still there, that is, if the failed store did not clean it up.
   */
  lemma LeftoverEntryBlocksStore(env: Env, fs: Files, name: string, data: Bytes, total: nat, required: int,
                                 peers: seq<PeerId>, plan: Plan, k: nat)
    requires ChunkStore.Valid(fs.store) && k < total && ShardId(env.hash(data), k) in fs.store.chunks
    requires 1 <= required <= total ==> Lawful(env.codec, required, total)
    ensures StoreFile(env, fs, name, data, total, required, peers, plan).1.Failure?
    ensures var id := ShardId(env.hash(data), k);
            id !in DeleteChunk(fs.store, id, plan.delete(k)).store.chunks <==>
            ChunkPath(id) in fs.store.files && plan.delete(k).remove
  {
    var h := env.hash(data);
    if data != [] && required <= total && h !in fs.index && required > 0 {
      var shards := Sharded(env.codec, env.hash, data, total, required).value;
      ShardCount(env, data, total, required);
      StoreShardsHolds(fs.store, h, shards, 0, plan.store);
    }
  }
}
