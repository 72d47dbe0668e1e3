/**
  The file manager as a state machine over values: storing a file shard by shard with roll back,
  retrieving it, deleting it.
 */
module FileStore {
  import opened Results
  import opened ErasureCode
  import opened Sharding
  import opened ChunkStore

  datatype FileMetadata = FileMetadata(
    fileHash: Hash, fileName: string, fileSize: nat, totalShards: int, requiredShards: int,
    shardHashes: seq<string>, storedPeers: seq<PeerId>, originalSize: nat)

  type FileIndex = map<Hash, FileMetadata>

  datatype Files = Files(store: Store, index: FileIndex, meta: MetaFile<FileIndex>)

  /** The erasure code and the hash function, both parameters. */
  datatype Env = Env(codec: Codec, hash: HashFunction)

  /** The outcome of every input/output step of one operation, by shard. */
  datatype Plan = Plan(store: nat -> StoreIo, delete: nat -> DeleteIo, save: SaveOutcome)

  datatype FileError =
    | EmptyFile
    | TooManyRequired
    | AlreadyExists
    | ShardingFailed(reason: Sharding.Error)
    | ChunkFailed(shard: nat, cause: ChunkStore.Error)
    | IndexSaveFailed
    | FileNotFound
    | MetadataOnly
    | NoHashForShard  // an index out of range: the program panics
    | TooFewShards
    | ReconstructionFailed(reason: Sharding.Error)
    | IntegrityFailed

  // ----- chunk identifiers

  function Digit(d: nat): char
    requires d < 10
  {
    ['0', '1', '2', '3', '4', '5', '6', '7', '8', '9'][d]
  }

  function Decimal(n: nat): (s: string)
    ensures |s| > 0
  {
    if n < 10 then [Digit(n)] else Decimal(n / 10) + [Digit(n % 10)]
  }

  lemma {:induction false} DecimalIsInjective(a: nat, b: nat)
    ensures Decimal(a) == Decimal(b) <==> a == b
  {
    if Decimal(a) == Decimal(b) {
      var s, t := Decimal(a), Decimal(b);
      assert s[|s| - 1] == Digit(a % 10) && t[|t| - 1] == Digit(b % 10);
      assert a % 10 == b % 10;
      if a >= 10 && b >= 10 {
        assert s[..|s| - 1] == Decimal(a / 10) && t[..|t| - 1] == Decimal(b / 10);
        DecimalIsInjective(a / 10, b / 10);
      }
    }
  }

  /** The identifier of shard number i, counted from zero, of a file. */
  function ShardId(h: Hash, i: nat): ChunkId {
    h + "_shard_" + Decimal(i + 1)
  }

  lemma {:induction false} DecimalHasDigits(n: nat)
    ensures '_' !in Decimal(n)
  {
    if n >= 10 {
      DecimalHasDigits(n / 10);
    }
  }

  /** The underscore before the number is the last one, so it says where the hash ends. */
  lemma LengthsTellApart(g: Hash, i: nat, h: Hash, j: nat)
    requires |g| > |h|
    ensures ShardId(g, i) != ShardId(h, j)
  {
    DecimalHasDigits(j + 1);
    var k := |g| + 6;
    assert ShardId(g, i)[k] == '_';
    if k < |ShardId(h, j)| {
      assert ShardId(h, j)[k] in Decimal(j + 1);
    }
  }

  /** Identifiers never collide across files or shards, whatever string stands for the hash. */
  lemma ShardIdsAreInjective(g: Hash, i: nat, h: Hash, j: nat)
    ensures ShardId(g, i) == ShardId(h, j) <==> g == h && i == j
  {
    if ShardId(g, i) == ShardId(h, j) {
      if |g| != |h| {
        LengthsTellApart(if |g| > |h| then g else h, if |g| > |h| then i else j,
                         if |g| > |h| then h else g, if |g| > |h| then j else i);
      }
      assert ShardId(g, i)[..|g|] == g && ShardId(h, j)[..|h|] == h;
      assert ShardId(g, i)[|g| + 7..] == Decimal(i + 1) && ShardId(h, j)[|h| + 7..] == Decimal(j + 1);
      DecimalIsInjective(i + 1, j + 1);
    }
  }

  /** Shards are numbered from one. */
  lemma FirstIds()
    ensures ShardId("ab", 0) == "ab_shard_1" && ShardId("ab", 1) == "ab_shard_2" && ShardId("ab", 11) == "ab_shard_12"
  {
    assert Decimal(12) == Decimal(1) + ['2'];
  }

  // ----- operations

  datatype ShardsStored = AllStored(store: Store) | FailedAt(store: Store, shard: nat, cause: ChunkStore.Error)

  /** Stores shards i, i + 1, ... in order; stops at the first failure. */
  ghost function StoreShards(s: Store, h: Hash, shards: seq<Shard>, i: nat, io: nat -> StoreIo): ShardsStored
    requires i <= |shards|
    decreases |shards| - i
  {
    if i == |shards| then AllStored(s)
    else
      var step := StoreChunk(s, ShardId(h, i), shards[i].data, io(i));
      match step.status
      case Ok => StoreShards(step.store, h, shards, i + 1, io)
      case Err(cause) => FailedAt(step.store, i, cause)
  }

  /** Deletes shards 0, ..., n - 1, ignoring errors. */
  function DeleteShards(s: Store, h: Hash, n: nat, io: nat -> DeleteIo): Store {
    if n == 0 then s
    else DeleteChunk(DeleteShards(s, h, n - 1, io), ShardId(h, n - 1), io(n - 1)).store
  }

  function HashesOf(shards: seq<Shard>): seq<string> {
    seq(|shards|, i requires 0 <= i < |shards| => shards[i].hash)
  }

  function MetadataFor(h: Hash, name: string, data: Bytes, total: int, required: int,
                       shards: seq<Shard>, peers: seq<PeerId>): FileMetadata {
    FileMetadata(h, name, |data|, total, required, HashesOf(shards), peers, |data|)
  }

  /** Stores the shards of a new file, then its metadata; undoes everything on failure. */
  ghost function StoreNewFile(fs: Files, m: FileMetadata, shards: seq<Shard>, total: nat, plan: Plan):
    (Files, Result<Hash, FileError>)
  {
    var h := m.fileHash;
    match StoreShards(fs.store, h, shards, 0, plan.store)
    case FailedAt(store, i, cause) =>
      (fs.(store := DeleteShards(store, h, i, plan.delete)), Failure(ChunkFailed(i, cause)))
    case AllStored(store) =>
      var index := fs.index[h := m];
      var meta := SaveMeta(fs.meta, index, plan.save);
      if plan.save == SaveOk then (Files(store, index, meta), Success(h))
      else (Files(DeleteShards(store, h, total, plan.delete), index - {h}, meta), Failure(IndexSaveFailed))
  }

  ghost function StoreFile(env: Env, fs: Files, name: string, data: Bytes, total: int, required: int,
                           peers: seq<PeerId>, plan: Plan): (Files, Result<Hash, FileError>) {
    if data == [] then (fs, Failure(EmptyFile))
    else if required > total then (fs, Failure(TooManyRequired))
    else
      var h := env.hash(data);
      if h in fs.index then (fs, Failure(AlreadyExists))
      else match Sharded(env.codec, env.hash, data, total, required)
        case Failure(e) => (fs, Failure(ShardingFailed(e)))
        case Success(shards) =>
          StoreNewFile(fs, MetadataFor(h, name, data, total, required, shards, peers), shards, total, plan)
  }

  ghost function DeleteFile(fs: Files, h: Hash, plan: Plan): (Files, Result<(), FileError>) {
    if h !in fs.index then (fs, Failure(FileNotFound))
    else
      var total := fs.index[h].totalShards;
      var index := fs.index - {h};
      (Files(DeleteShards(fs.store, h, if total < 0 then 0 else total, plan.delete), index,
             SaveMeta(fs.meta, index, plan.save)),
       if plan.save == SaveOk then Success(()) else Failure(IndexSaveFailed))
  }

  /** Metadata that comes from elsewhere replaces the entry, whether or not it can be saved. */
  function UpdateFile(fs: Files, m: FileMetadata, save: SaveOutcome): Files {
    var index := fs.index[m.fileHash := m];
    Files(fs.store, index, SaveMeta(fs.meta, index, save))
  }

  /** The shards that can be read, in increasing order, compacted into a list. */
  function Collected(s: Store, m: FileMetadata, h: Hash, n: nat, read: nat -> bool): seq<Shard> {
    if n == 0 then []
    else
      var front := Collected(s, m, h, n - 1, read);
      match RetrieveChunk(s, ShardId(h, n - 1), read(n - 1))
      case None => front
      case Some(data) =>
        front + [Shard(n, data, if n - 1 < |m.shardHashes| then m.shardHashes[n - 1] else "", |data|)]
  }

  /** A shard beyond the list of shard hashes can be read. */
  predicate ReadsPastHashes(s: Store, m: FileMetadata, h: Hash, n: nat, read: nat -> bool) {
    exists i: nat :: |m.shardHashes| <= i < n && RetrieveChunk(s, ShardId(h, i), read(i)).Some?
  }

  function RetrieveFile(env: Env, fs: Files, h: Hash, read: nat -> bool): Result<Bytes, FileError> {
    if h !in fs.index then Failure(FileNotFound)
    else
      var m := fs.index[h];
      var total := if m.totalShards < 0 then 0 else m.totalShards;
      if |m.shardHashes| == 0 then Failure(MetadataOnly)
      else if ReadsPastHashes(fs.store, m, h, total, read) then Failure(NoHashForShard)
      else
        var shards := Collected(fs.store, m, h, total, read);
        if |shards| < m.requiredShards then Failure(TooFewShards)
        else match Reconstructed(env.codec, shards, m.totalShards, m.requiredShards, m.originalSize)
          case Failure(e) => Failure(ReconstructionFailed(e))
          case Success(data) => if env.hash(data) == h then Success(data) else Failure(IntegrityFailed)
  }

  /** Everything in memory is loaded again; an undecodable index is empty. */
  ghost function Restarted(fs: Files): Files {
    Files(Reloaded(fs.store, true), if fs.meta.Saved? then fs.meta.value else map[], fs.meta)
  }

  // ----- what deleting and storing leave alone

  /** The identifier is not one of the first n shards of the file. */
  ghost predicate Foreign(id: ChunkId, h: Hash, n: nat) {
    forall i :: 0 <= i < n ==> ShardId(h, i) != id
  }

  lemma {:induction false} DeleteShardsKeepsValid(s: Store, h: Hash, n: nat, io: nat -> DeleteIo)
    requires ChunkStore.Valid(s)
    ensures ChunkStore.Valid(DeleteShards(s, h, n, io))
    ensures DeleteShards(s, h, n, io).maxBytes == s.maxBytes
  {
    if n > 0 {
      DeleteShardsKeepsValid(s, h, n - 1, io);
    }
  }

  lemma {:induction false} DeleteShardsTouchesOwn(s: Store, h: Hash, n: nat, io: nat -> DeleteIo, id: ChunkId)
    requires ChunkStore.Valid(s) && (Foreign(id, h, n) || id !in s.chunks)
    ensures Untouched(s, DeleteShards(s, h, n, io), id)
  {
    if n > 0 {
      var mid := DeleteShards(s, h, n - 1, io);
      DeleteShardsTouchesOwn(s, h, n - 1, io, id);
      DeleteShardsKeepsValid(s, h, n - 1, io);
      DeleteChunkTouchesOne(mid, ShardId(h, n - 1), io(n - 1));
      assert Untouched(mid, DeleteShards(s, h, n, io), id);
    }
  }

  ghost predicate ForeignPath(p: Path, h: Hash, n: nat) {
    forall i :: 0 <= i < n ==> ChunkPath(ShardId(h, i)) != p
  }

  lemma {:induction false} DeleteShardsKeepsPath(s: Store, h: Hash, n: nat, io: nat -> DeleteIo, p: Path)
    requires ChunkStore.Valid(s) && ForeignPath(p, h, n)
    ensures SamePath(s, DeleteShards(s, h, n, io), p)
  {
    if n > 0 {
      var mid := DeleteShards(s, h, n - 1, io);
      DeleteShardsKeepsPath(s, h, n - 1, io, p);
      DeleteShardsKeepsValid(s, h, n - 1, io);
      DeleteChunkTouchesOne(mid, ShardId(h, n - 1), io(n - 1));
      assert SamePath(mid, DeleteShards(s, h, n, io), p);
    }
  }

  ghost predicate ShardHeld(s: Store, h: Hash, i: nat, data: Bytes) {
    var id := ShardId(h, i);
    && id in s.chunks && s.chunks[id] == ChunkPath(id)
    && ChunkPath(id) in s.files && s.files[ChunkPath(id)] == data
  }

  ghost predicate ShardGone(s: Store, h: Hash, i: nat) {
    ShardId(h, i) !in s.chunks && ChunkPath(ShardId(h, i)) !in s.files
  }

  lemma LaterShardIsForeign(h: Hash, i: nat, n: nat)
    requires n <= i
    ensures Foreign(ShardId(h, i), h, n) && ForeignPath(ChunkPath(ShardId(h, i)), h, n)
  {
    forall j | 0 <= j < n
      ensures ShardId(h, j) != ShardId(h, i) && ChunkPath(ShardId(h, j)) != ChunkPath(ShardId(h, i))
    {
      ShardIdsAreInjective(h, j, h, i);
      PathsAreInjective(ShardId(h, j), ShardId(h, i));
    }
  }

  ghost predicate AllRemoved(n: nat, io: nat -> DeleteIo) {
    forall i :: 0 <= i < n ==> io(i).remove
  }

  /** With successful removals the shards that were there are gone. */
  lemma {:induction false} DeleteShardsRemoves(s: Store, h: Hash, n: nat, io: nat -> DeleteIo, i: nat)
    requires ChunkStore.Valid(s) && AllRemoved(n, io) && i < n
    requires ShardId(h, i) in s.chunks && s.chunks[ShardId(h, i)] in s.files
    ensures ShardGone(DeleteShards(s, h, n, io), h, i)
  {
    var mid := DeleteShards(s, h, n - 1, io);
    DeleteShardsKeepsValid(s, h, n - 1, io);
    if i == n - 1 {
      LaterShardIsForeign(h, i, n - 1);
      DeleteShardsTouchesOwn(s, h, n - 1, io, ShardId(h, i));
      assert Untouched(s, mid, ShardId(h, i));
    } else {
      DeleteShardsRemoves(s, h, n - 1, io, i);
      ShardIdsAreInjective(h, i, h, n - 1);
      DeleteChunkTouchesOne(mid, ShardId(h, n - 1), io(n - 1));
      assert Untouched(mid, DeleteShards(s, h, n, io), ShardId(h, i));
    }
  }

  // ----- what storing a list of shards does

  /** The shards from i up to k, were they all stored: absent before, present after. */
  ghost predicate NewlyHeld(before: Store, after: Store, h: Hash, shards: seq<Shard>, i: nat, k: nat)
    requires k <= |shards|
  {
    forall j :: i <= j < k ==> ShardId(h, j) !in before.chunks && ShardHeld(after, h, j, shards[j].data)
  }

  lemma {:induction false} StoreShardsKeepsValid(s: Store, h: Hash, shards: seq<Shard>, i: nat, io: nat -> StoreIo)
    requires ChunkStore.Valid(s) && i <= |shards|
    ensures ChunkStore.Valid(StoreShards(s, h, shards, i, io).store)
    ensures StoreShards(s, h, shards, i, io).store.maxBytes == s.maxBytes
    ensures StoreShards(s, h, shards, i, io).FailedAt? ==> i <= StoreShards(s, h, shards, i, io).shard < |shards|
    decreases |shards| - i
  {
    if i < |shards| {
      StoreChunkKeepsValid(s, ShardId(h, i), shards[i].data, io(i));
      StoreShardsKeepsValid(StoreChunk(s, ShardId(h, i), shards[i].data, io(i)).store, h, shards, i + 1, io);
    }
  }

  ghost predicate NotBetween(id: ChunkId, h: Hash, i: nat, n: nat) {
    forall j :: i <= j < n ==> ShardId(h, j) != id
  }

  lemma {:induction false} StoreShardsTouchesOwn(s: Store, h: Hash, shards: seq<Shard>, i: nat,
                                                 io: nat -> StoreIo, id: ChunkId)
    requires ChunkStore.Valid(s) && i <= |shards| && (NotBetween(id, h, i, |shards|) || id in s.chunks)
    ensures Untouched(s, StoreShards(s, h, shards, i, io).store, id)
    decreases |shards| - i
  {
    if i < |shards| {
      var step := StoreChunk(s, ShardId(h, i), shards[i].data, io(i));
      StoreChunkTouchesOne(s, ShardId(h, i), shards[i].data, io(i));
      assert Untouched(s, step.store, id);
      StoreChunkKeepsValid(s, ShardId(h, i), shards[i].data, io(i));
      if step.status == Ok {
        StoreShardsTouchesOwn(step.store, h, shards, i + 1, io, id);
      }
    }
  }

  lemma {:induction false} StoreShardsKeepsPath(s: Store, h: Hash, shards: seq<Shard>, i: nat,
                                                io: nat -> StoreIo, p: Path)
    requires i <= |shards| && ForeignPath(p, h, |shards|)
    ensures SamePath(s, StoreShards(s, h, shards, i, io).store, p)
    decreases |shards| - i
  {
    if i < |shards| {
      var step := StoreChunk(s, ShardId(h, i), shards[i].data, io(i));
      StoreChunkTouchesOne(s, ShardId(h, i), shards[i].data, io(i));
      assert SamePath(s, step.store, p);
      if step.status == Ok {
        StoreShardsKeepsPath(step.store, h, shards, i + 1, io, p);
      }
    }
  }

  /** How many shards were stored: up to the failure, or all of them. */
  ghost function StoredCount(r: ShardsStored, shards: seq<Shard>): nat {
    if r.FailedAt? then r.shard else |shards|
  }

  /** Shards that were stored are newly held. */
  lemma {:induction false} StoreShardsHolds(s: Store, h: Hash, shards: seq<Shard>, i: nat, io: nat -> StoreIo)
    requires ChunkStore.Valid(s) && i <= |shards|
    ensures var r := StoreShards(s, h, shards, i, io);
            i <= StoredCount(r, shards) <= |shards| && NewlyHeld(s, r.store, h, shards, i, StoredCount(r, shards))
    decreases |shards| - i
  {
    if i < |shards| {
      var step := StoreChunk(s, ShardId(h, i), shards[i].data, io(i));
      StoreChunkKeepsValid(s, ShardId(h, i), shards[i].data, io(i));
      if step.status == Ok {
        var r := StoreShards(step.store, h, shards, i + 1, io);
        StoreShardsHolds(step.store, h, shards, i + 1, io);
        StoreShardsTouchesOwn(step.store, h, shards, i + 1, io, ShardId(h, i));
        StoreChunkTouchesOne(s, ShardId(h, i), shards[i].data, io(i));
        HoldOneMore(s, step.store, r.store, h, shards, i, StoredCount(r, shards));
      }
    }
  }

  lemma HoldOneMore(s: Store, mid: Store, after: Store, h: Hash, shards: seq<Shard>, i: nat, k: nat)
    requires i < k <= |shards|
    requires ShardId(h, i) !in s.chunks && ShardHeld(mid, h, i, shards[i].data)
    requires Untouched(mid, after, ShardId(h, i))
    requires forall other :: other != ShardId(h, i) ==> Untouched(s, mid, other)
    requires NewlyHeld(mid, after, h, shards, i + 1, k)
    ensures NewlyHeld(s, after, h, shards, i, k)
  {
    forall j | i <= j < k
      ensures ShardId(h, j) !in s.chunks && ShardHeld(after, h, j, shards[j].data)
    {
      if j > i {
        ShardIdsAreInjective(h, i, h, j);
        assert Untouched(s, mid, ShardId(h, j));
      }
    }
  }
}
