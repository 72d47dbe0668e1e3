/**
  Runs of the file manager: a stored file stays retrievable, used bytes are conserved, the quota
  is kept.
 */
module FileRuns {
  import opened Results
  import opened FiniteSums
  import opened ErasureCode
  import opened Sharding
  import opened ChunkStore
  import opened FileStore
  import opened StoreRollback

  datatype FileEvent =
    | StoreOp(name: string, data: Bytes, total: nat, required: int, peers: seq<PeerId>, plan: Plan)
    | DeleteOp(hash: Hash, plan: Plan)
    | UpdateOp(metadata: FileMetadata, save: SaveOutcome)

  ghost function ApplyOp(env: Env, fs: Files, e: FileEvent): Files {
    match e
    case StoreOp(name, data, total, required, peers, plan) =>
      StoreFile(env, fs, name, data, total, required, peers, plan).0
    case DeleteOp(h, plan) => DeleteFile(fs, h, plan).0
    case UpdateOp(m, save) => UpdateFile(fs, m, save)
  }

  ghost function RunOps(env: Env, fs: Files, events: seq<FileEvent>): Files {
    if events == [] then fs
    else ApplyOp(env, RunOps(env, fs, events[..|events| - 1]), events[|events| - 1])
  }

  /** The code is lawful for the parameters of every file the run stores. */
  ghost predicate LawfulOp(env: Env, e: FileEvent) {
    e.StoreOp? && 1 <= e.required <= e.total ==> Lawful(env.codec, e.required, e.total)
  }

  // ----- a stored file is held

  /** The file's metadata is indexed and every one of its shards is held, as sharding produced it. */
  ghost predicate FileHeld(env: Env, fs: Files, data: Bytes, total: nat, required: nat) {
    var h := env.hash(data);
    && data != [] && 1 <= required <= total && Lawful(env.codec, required, total)
    && ChunkStore.Valid(fs.store)
    && h in fs.index
    && IsMetadataOf(env, fs.index[h], data, total, required)
    && forall i :: 0 <= i < total ==> ShardHeld(fs.store, h, i, ShardBytes(env, data, total, required, i))
  }

  ghost predicate IsMetadataOf(env: Env, m: FileMetadata, data: Bytes, total: nat, required: nat) {
    && m.totalShards == total && m.requiredShards == required && m.originalSize == |data|
    && |m.shardHashes| == total
    && forall i :: 0 <= i < total ==> m.shardHashes[i] == env.hash(ShardBytes(env, data, total, required, i))
  }

  ghost function ShardBytes(env: Env, data: Bytes, total: nat, required: nat, i: nat): Bytes {
    if data == [] || required < 1 then []
    else
      var codeword := env.codec.encode(total, Split(data, required));
      if i < |codeword| then codeword[i] else []
  }

  /** A successful StoreFile leaves the file held. */
  lemma StoreFileHolds(env: Env, fs: Files, name: string, data: Bytes, total: nat, required: nat,
                       peers: seq<PeerId>, plan: Plan)
    requires ChunkStore.Valid(fs.store)
    requires 1 <= required <= total ==> Lawful(env.codec, required, total)
    requires StoreFile(env, fs, name, data, total, required, peers, plan).1.Success?
    ensures FileHeld(env, StoreFile(env, fs, name, data, total, required, peers, plan).0, data, total, required)
    ensures StoreFile(env, fs, name, data, total, required, peers, plan).1 == Success(env.hash(data))
  {
    var h := env.hash(data);
    var shards := Sharded(env.codec, env.hash, data, total, required).value;
    ShardCount(env, data, total, required);
    StoreShardsHolds(fs.store, h, shards, 0, plan.store);
    StoreShardsKeepsValid(fs.store, h, shards, 0, plan.store);
    var after := StoreShards(fs.store, h, shards, 0, plan.store).store;
    forall i | 0 <= i < total
      ensures ShardHeld(after, h, i, ShardBytes(env, data, total, required, i))
    {
      assert ShardHeld(after, h, i, shards[i].data);
    }
  }

  /** What a successful StoreFile records about the file. */
  lemma StoreFileRecords(env: Env, fs: Files, name: string, data: Bytes, total: nat, required: nat,
                         peers: seq<PeerId>, plan: Plan)
    requires 1 <= required <= total ==> Lawful(env.codec, required, total)
    requires StoreFile(env, fs, name, data, total, required, peers, plan).1.Success?
    ensures var h, after := env.hash(data), StoreFile(env, fs, name, data, total, required, peers, plan).0;
            && h !in fs.index && h in after.index && after.index == fs.index[h := after.index[h]]
            && IsMetadataOf(env, after.index[h], data, total, required)
            && after.index[h].fileHash == h && after.index[h].fileName == name && after.index[h].storedPeers == peers
            && after.index[h].fileSize == |data|
  {
    ShardCount(env, data, total, required);
  }

  /** Why a StoreFile fails, in this order, and when it succeeds. */
  lemma StoreFileResultExactly(env: Env, fs: Files, name: string, data: Bytes, total: int, required: int,
                               peers: seq<PeerId>, plan: Plan)
    ensures var h, r := env.hash(data), StoreFile(env, fs, name, data, total, required, peers, plan).1;
            if data == [] then r == Failure(EmptyFile)
            else if required > total then r == Failure(TooManyRequired)
            else if h in fs.index then r == Failure(AlreadyExists)
            else if required <= 0 then r == Failure(ShardingFailed(RequiredNotPositive))
            else
              var stored := StoreShards(fs.store, h, Sharded(env.codec, env.hash, data, total, required).value, 0, plan.store);
              if stored.FailedAt? then r == Failure(ChunkFailed(stored.shard, stored.cause))
              else r == if plan.save == SaveOk then Success(h) else Failure(IndexSaveFailed)
  {
  }

  lemma UntouchedStaysHeld(before: Store, after: Store, h: Hash, i: nat, data: Bytes)
    requires ShardHeld(before, h, i, data) && Untouched(before, after, ShardId(h, i))
    ensures ShardHeld(after, h, i, data)
  {
  }

  /** Deleting another file leaves every shard of this one. */
  lemma DeleteFileTouchesOwn(fs: Files, g: Hash, plan: Plan, h: Hash, i: nat)
    requires ChunkStore.Valid(fs.store) && g != h
    ensures Untouched(fs.store, DeleteFile(fs, g, plan).0.store, ShardId(h, i))
    ensures ChunkStore.Valid(DeleteFile(fs, g, plan).0.store)
  {
    if g in fs.index {
      var n := if fs.index[g].totalShards < 0 then 0 else fs.index[g].totalShards;
      forall j | 0 <= j < n
        ensures ShardId(g, j) != ShardId(h, i)
      {
        ShardIdsAreInjective(g, j, h, i);
      }
      DeleteShardsTouchesOwn(fs.store, g, n, plan.delete, ShardId(h, i));
      DeleteShardsKeepsValid(fs.store, g, n, plan.delete);
    }
  }

  lemma OpTouchesOwn(env: Env, fs: Files, e: FileEvent, h: Hash, i: nat)
    requires ChunkStore.Valid(fs.store) && ShardId(h, i) in fs.store.chunks && LawfulOp(env, e)
    requires e.DeleteOp? ==> e.hash != h
    ensures Untouched(fs.store, ApplyOp(env, fs, e).store, ShardId(h, i))
    ensures ChunkStore.Valid(ApplyOp(env, fs, e).store)
  {
    match e
    case StoreOp(name, data, total, required, peers, plan) =>
      ExistingChunksUntouched(env, fs, name, data, total, required, peers, plan, ShardId(h, i));
    case DeleteOp(g, plan) => DeleteFileTouchesOwn(fs, g, plan, h, i);
    case UpdateOp(_, _) =>
  }

  /** The operation neither deletes the file nor replaces its metadata by something else. */
  ghost predicate Spares(env: Env, e: FileEvent, data: Bytes, total: nat, required: nat) {
    match e
    case StoreOp(_, _, _, _, _, _) => true
    case DeleteOp(h, _) => h != env.hash(data)
    case UpdateOp(m, _) => m.fileHash == env.hash(data) ==> IsMetadataOf(env, m, data, total, required)
  }

  lemma OpKeepsEntry(env: Env, fs: Files, e: FileEvent, data: Bytes, total: nat, required: nat)
    requires env.hash(data) in fs.index && IsMetadataOf(env, fs.index[env.hash(data)], data, total, required)
    requires Spares(env, e, data, total, required)
    ensures env.hash(data) in ApplyOp(env, fs, e).index
    ensures IsMetadataOf(env, ApplyOp(env, fs, e).index[env.hash(data)], data, total, required)
  {
  }

  /**
    Storing any content, deleting any other file and updating any other metadata leave a held
    file held, whatever fails in them.
   */
  lemma OpKeepsFileHeld(env: Env, fs: Files, e: FileEvent, data: Bytes, total: nat, required: nat)
    requires FileHeld(env, fs, data, total, required) && LawfulOp(env, e)
    requires Spares(env, e, data, total, required)
    ensures FileHeld(env, ApplyOp(env, fs, e), data, total, required)
  {
    var h, after := env.hash(data), ApplyOp(env, fs, e);
    OpKeepsEntry(env, fs, e, data, total, required);
    assert ShardHeld(fs.store, h, 0, ShardBytes(env, data, total, required, 0));
    OpTouchesOwn(env, fs, e, h, 0);
    forall i | 0 <= i < total
      ensures ShardHeld(after.store, h, i, ShardBytes(env, data, total, required, i))
    {
      assert ShardHeld(fs.store, h, i, ShardBytes(env, data, total, required, i));
      OpTouchesOwn(env, fs, e, h, i);
      UntouchedStaysHeld(fs.store, after.store, h, i, ShardBytes(env, data, total, required, i));
    }
  }

  /** An operation disturbs a held file exactly if it deletes it or replaces its metadata. */
  lemma OpDisturbsExactly(env: Env, fs: Files, e: FileEvent, data: Bytes, total: nat, required: nat)
    requires FileHeld(env, fs, data, total, required) && LawfulOp(env, e)
    ensures FileHeld(env, ApplyOp(env, fs, e), data, total, required) <==> Spares(env, e, data, total, required)
  {
    if Spares(env, e, data, total, required) {
      OpKeepsFileHeld(env, fs, e, data, total, required);
    }
  }

  /** What StoreFileDistributed does to a file that is stored here: its shards can no longer be read. */
  lemma UpdateHidesShards(env: Env, fs: Files, m: FileMetadata, save: SaveOutcome, read: nat -> bool)
    requires m.shardHashes == []
    ensures RetrieveFile(env, UpdateFile(fs, m, save), m.fileHash, read) == Failure(MetadataOnly)
  {
  }

  lemma {:induction false} RunKeepsFileHeld(env: Env, fs: Files, events: seq<FileEvent>, data: Bytes,
                                            total: nat, required: nat)
    requires FileHeld(env, fs, data, total, required)
    requires forall e :: e in events ==> LawfulOp(env, e) && Spares(env, e, data, total, required)
    ensures FileHeld(env, RunOps(env, fs, events), data, total, required)
  {
    if events != [] {
      RunKeepsFileHeld(env, fs, events[..|events| - 1], data, total, required);
      OpKeepsFileHeld(env, RunOps(env, fs, events[..|events| - 1]), events[|events| - 1], data, total, required);
    }
  }

  // ----- retrieval

  ghost predicate Readable(s: Store, h: Hash, i: nat, read: nat -> bool) {
    RetrieveChunk(s, ShardId(h, i), read(i)).Some?
  }

  /** Exactly the first m shards can be read: the tail is lost, from disk or to read errors. */
  ghost predicate TailLost(s: Store, h: Hash, total: nat, m: nat, read: nat -> bool) {
    m <= total && forall i :: 0 <= i < total ==> (Readable(s, h, i, read) <==> i < m)
  }

  /** The shards that sharding produced, as a list. */
  ghost function ShardList(env: Env, data: Bytes, total: nat, required: nat): (shards: seq<Shard>)
    requires data != [] && 1 <= required <= total && Lawful(env.codec, required, total)
    ensures Sharded(env.codec, env.hash, data, total, required) == Success(shards)
    ensures |shards| == total
    ensures forall i :: 0 <= i < total ==>
      var bytes := ShardBytes(env, data, total, required, i);
      shards[i] == Shard(i + 1, bytes, env.hash(bytes), |bytes|)
  {
    ShardCount(env, data, total, required);
    Sharded(env.codec, env.hash, data, total, required).value
  }

  /** Reading the shards yields the first m of `shards` and nothing else. */
  ghost predicate Retrieves(s: Store, meta: FileMetadata, h: Hash, shards: seq<Shard>, m: nat, read: nat -> bool) {
    && m <= |shards| == |meta.shardHashes|
    && (forall i :: 0 <= i < m ==>
          && RetrieveChunk(s, ShardId(h, i), read(i)) == Some(shards[i].data)
          && shards[i] == Shard(i + 1, shards[i].data, meta.shardHashes[i], |shards[i].data|))
    && (forall i :: m <= i < |shards| ==> !Readable(s, h, i, read))
  }

  lemma {:induction false} CollectedPrefix(s: Store, meta: FileMetadata, h: Hash, shards: seq<Shard>,
                                           m: nat, n: nat, read: nat -> bool)
    requires Retrieves(s, meta, h, shards, m, read) && n <= |shards|
    ensures Collected(s, meta, h, n, read) == shards[..if n < m then n else m]
  {
    if n > 0 {
      CollectedPrefix(s, meta, h, shards, m, n - 1, read);
      if n <= m {
        CollectOne(s, meta, h, n, read, shards[n - 1]);
        PrefixGrows(shards, n);
      } else {
        assert !Readable(s, h, n - 1, read);
      }
    }
  }

  lemma PrefixGrows(shards: seq<Shard>, n: nat)
    requires 1 <= n <= |shards|
    ensures shards[..n] == shards[..n - 1] + [shards[n - 1]]
  {
  }

  lemma CollectOne(s: Store, meta: FileMetadata, h: Hash, n: nat, read: nat -> bool, shard: Shard)
    requires 1 <= n <= |meta.shardHashes| && RetrieveChunk(s, ShardId(h, n - 1), read(n - 1)) == Some(shard.data)
    requires shard == Shard(n, shard.data, meta.shardHashes[n - 1], |shard.data|)
    ensures Collected(s, meta, h, n, read) == Collected(s, meta, h, n - 1, read) + [shard]
  {
  }

  /** With any tail of its shards lost, as long as `required` are left, the file comes back exactly. */
  lemma RetrieveAfterTailLoss(env: Env, fs: Files, data: Bytes, total: nat, required: nat, m: nat, read: nat -> bool)
    requires data != [] && 1 <= required <= total && Lawful(env.codec, required, total)
    requires env.hash(data) in fs.index && IsMetadataOf(env, fs.index[env.hash(data)], data, total, required)
    requires TailLost(fs.store, env.hash(data), total, m, read) && required <= m
    requires forall i :: 0 <= i < m ==>
      ShardHeld(fs.store, env.hash(data), i, ShardBytes(env, data, total, required, i))
    ensures RetrieveFile(env, fs, env.hash(data), read) == Success(data)
  {
    var h, shards := env.hash(data), ShardList(env, data, total, required);
    forall i | 0 <= i < m
      ensures RetrieveChunk(fs.store, ShardId(h, i), read(i)) == Some(shards[i].data)
    {
      assert ShardHeld(fs.store, h, i, ShardBytes(env, data, total, required, i));
      assert Readable(fs.store, h, i, read);
    }
    CollectedPrefix(fs.store, fs.index[h], h, shards, m, total, read);
    PrefixReconstructs(env.codec, env.hash, data, total, required, m);
  }

  /**
    The promise of the store: after a successful StoreFile, any run of further operations that
    spares the file, with any failures in it, and then the loss of any tail of the file's
    shards that leaves `required` of them, RetrieveFile returns exactly the stored bytes.
   */
  lemma StoredFileIsRetrievable(env: Env, fs: Files, store: FileEvent, events: seq<FileEvent>,
                                disk: Files, m: nat, read: nat -> bool)
    requires ChunkStore.Valid(fs.store)
    requires store.StoreOp? && store.required >= 0 && LawfulOp(env, store)
    requires StoreFile(env, fs, store.name, store.data, store.total, store.required, store.peers, store.plan).1.Success?
    requires forall e :: e in events ==> LawfulOp(env, e) && Spares(env, e, store.data, store.total, store.required)
    // `disk` is the state after the run, with shard files of the tail possibly lost
    requires var after := RunOps(env, ApplyOp(env, fs, store), events);
             && disk.index == after.index
             && forall i :: 0 <= i < m ==> Untouched(after.store, disk.store, ShardId(env.hash(store.data), i))
    requires TailLost(disk.store, env.hash(store.data), store.total, m, read) && store.required <= m
    ensures RetrieveFile(env, disk, env.hash(store.data), read) == Success(store.data)
  {
    var data, total, required := store.data, store.total, store.required;
    var after := RunOps(env, ApplyOp(env, fs, store), events);
    StoreFileHolds(env, fs, store.name, data, total, required, store.peers, store.plan);
    RunKeepsFileHeld(env, ApplyOp(env, fs, store), events, data, total, required);
    forall i | 0 <= i < m
      ensures ShardHeld(disk.store, env.hash(data), i, ShardBytes(env, data, total, required, i))
    {
      UntouchedStaysHeld(after.store, disk.store, env.hash(data), i, ShardBytes(env, data, total, required, i));
    }
    RetrieveAfterTailLoss(env, disk, data, total, required, m, read);
  }

  ghost function ReadableShards(s: Store, h: Hash, n: nat, read: nat -> bool): set<nat> {
    set i: nat | i < n && Readable(s, h, i, read)
  }

  lemma {:induction false} CollectedCounts(s: Store, m: FileMetadata, h: Hash, n: nat, read: nat -> bool)
    ensures |Collected(s, m, h, n, read)| == |ReadableShards(s, h, n, read)|
  {
    if n > 0 {
      CollectedCounts(s, m, h, n - 1, read);
      if Readable(s, h, n - 1, read) {
        assert ReadableShards(s, h, n, read) == ReadableShards(s, h, n - 1, read) + {n - 1};
      } else {
        assert ReadableShards(s, h, n, read) == ReadableShards(s, h, n - 1, read);
      }
    }
  }

  /** Why a RetrieveFile fails before it reconstructs anything, told from what is indexed and readable. */
  lemma RetrieveFileFailsExactly(env: Env, fs: Files, h: Hash, read: nat -> bool)
    ensures var r := RetrieveFile(env, fs, h, read);
            if h !in fs.index then r == Failure(FileNotFound)
            else
              var m := fs.index[h];
              var readable := ReadableShards(fs.store, h, if m.totalShards < 0 then 0 else m.totalShards, read);
              if m.shardHashes == [] then r == Failure(MetadataOnly)
              else if exists i :: i in readable && i >= |m.shardHashes| then r == Failure(NoHashForShard)
              else if |readable| < m.requiredShards then r == Failure(TooFewShards)
              else r.Success? || r.error.ReconstructionFailed? || r.error == IntegrityFailed
  {
    if h in fs.index {
      var m := fs.index[h];
      var total := if m.totalShards < 0 then 0 else m.totalShards;
      CollectedCounts(fs.store, m, h, total, read);
      if i :| i in ReadableShards(fs.store, h, total, read) && i >= |m.shardHashes| {
        assert RetrieveChunk(fs.store, ShardId(h, i), read(i)).Some?;
      }
      if ReadsPastHashes(fs.store, m, h, total, read) {
        var i: nat :| |m.shardHashes| <= i < total && RetrieveChunk(fs.store, ShardId(h, i), read(i)).Some?;
        assert i in ReadableShards(fs.store, h, total, read);
      }
    }
  }

  /** Whatever is on disk, bytes are returned only under their own hash. */
  lemma RetrievedBytesHaveTheHash(env: Env, fs: Files, h: Hash, read: nat -> bool)
    ensures RetrieveFile(env, fs, h, read).Success? ==>
      h in fs.index && env.hash(RetrieveFile(env, fs, h, read).value) == h
  {
  }

  // ----- losing a shard that is not in the tail

  lemma ExampleShards(hash: HashFunction)
    ensures var env := Env(SUM_CODE, hash);
            && ShardBytes(env, [1, 2], 3, 2, 0) == [1]
            && ShardBytes(env, [1, 2], 3, 2, 1) == [2]
            && ShardBytes(env, [1, 2], 3, 2, 2) == [3]
  {
    var data: Bytes := [1, 2];
    assert PerShard(2, 2) == 1 && Padded(data, 2) == data;
    assert Slices(data, 1, 1) == Slices(data, 1, 0) + [data[1 * 0..1 * 1]];
    assert Slices(data, 1, 2) == Slices(data, 1, 1) + [data[1 * 1..1 * 2]];
    assert data[0..1] == [1] && data[1..2] == [2];
    assert Split(data, 2) == [[1], [2]];
    assert Plus([1], [2]) == [3];
  }

  lemma ExampleReconstructed(a: string, b: string)
    ensures Reconstructed(SUM_CODE, [Shard(2, [2], a, 1), Shard(3, [3], b, 1)], 3, 2, 2) == Success([2, 3])
  {
    var slots := Placed([Shard(2, [2], a, 1), Shard(3, [3], b, 1)], 3);
    assert slots == [Some([2]), Some([3]), None];
    PresentOfThree(slots);
    var raw: seq<Bytes> := [[2], [3], Plus([2], [3])];
    assert SUM_CODE.reconstruct(2, slots) == Some(raw);
    var two := raw[..2];
    var one := two[..1];
    assert one == [[2]] && two[1] == [3];
    assert Flatten(one) == Flatten(one[..0]) + one[0];
    assert Flatten(two) == [2, 3] && [2, 3][..2] == [2, 3];
  }

  /**
    Required many shards are not always enough: with the first of three shards lost, the other
    two are placed one slot too low and the file is not recovered.
   */
  lemma RetrievalFailsWithoutFirstShard(hash: HashFunction, fs: Files)
    requires FileHeld(Env(SUM_CODE, hash), fs, [1, 2], 3, 2)
    requires hash([1, 2]) != hash([2, 3])
    ensures var read := (i: nat) => i != 0;
            && |Collected(fs.store, fs.index[hash([1, 2])], hash([1, 2]), 3, read)| == 2
            && RetrieveFile(Env(SUM_CODE, hash), fs, hash([1, 2]), read) == Failure(IntegrityFailed)
  {
    var env, h, read := Env(SUM_CODE, hash), hash([1, 2]), (i: nat) => i != 0;
    var hashes := fs.index[h].shardHashes;
    ExampleShards(hash);
    assert ShardHeld(fs.store, h, 1, ShardBytes(env, [1, 2], 3, 2, 1));
    assert ShardHeld(fs.store, h, 2, ShardBytes(env, [1, 2], 3, 2, 2));
    ExampleCollected(fs.store, fs.index[h], h);
    ExampleReconstructed(hashes[1], hashes[2]);
  }

  lemma ExampleCollected(s: Store, m: FileMetadata, h: Hash)
    requires |m.shardHashes| == 3 && ShardHeld(s, h, 1, [2]) && ShardHeld(s, h, 2, [3])
    ensures Collected(s, m, h, 3, (i: nat) => i != 0) ==
            [Shard(2, [2], m.shardHashes[1], 1), Shard(3, [3], m.shardHashes[2], 1)]
  {
    var read := (i: nat) => i != 0;
    assert Collected(s, m, h, 1, read) == Collected(s, m, h, 0, read) == [];
    assert Collected(s, m, h, 2, read) == [Shard(2, [2], m.shardHashes[1], 1)];
  }
}
