/** The file manager over the storage engine, proved against `FileStore`. */
module FileManagement {
  import opened Results
  import opened ErasureCode
  import opened Sharding
  import opened ChunkStore
  import opened FileStore
  import opened StorageEngine

  /** A restart: a new engine and a new file manager over the directory the old ones left. */
  method Reopen(disk: Disk<FileIndex>, env: Env, maxBytes: uint64, ghost before: Files) returns (fm: FileManager)
    requires before.store.files == disk.files && before.store.meta == disk.chunkMeta
    requires before.meta == disk.fileMeta && before.store.maxBytes == maxBytes
    ensures fm.engine.disk == disk && fm.env == env && fm.State() == Restarted(before)
  {
    var engine := new Engine(disk, true);
    engine.maxBytes := maxBytes;
    fm := new FileManager(engine, env, true);
  }

  class FileManager {
    const engine: Engine<FileIndex>
    const env: Env
    var fileIndex: FileIndex

    ghost function State(): Files
      reads this, engine, engine.disk
    {
      Files(engine.State(), fileIndex, engine.disk.fileMeta)
    }

    /** Loads the saved file index; an absent or unreadable one leaves the index empty. */
    constructor (engine: Engine<FileIndex>, env: Env, open: bool)
      ensures this.engine == engine && this.env == env
      ensures fileIndex == if open && engine.disk.fileMeta.Saved? then engine.disk.fileMeta.value else map[]
    {
      this.engine, this.env := engine, env;
      this.fileIndex := if open && engine.disk.fileMeta.Saved? then engine.disk.fileMeta.value else map[];
    }

    method SaveMetadata(io: SaveOutcome) returns (ok: bool)
      modifies engine.disk`fileMeta
      ensures ok <==> io == SaveOk
      ensures engine.disk.fileMeta == SaveMeta(old(engine.disk.fileMeta), fileIndex, io)
    {
      match io
      case SaveOk =>
        engine.disk.fileMeta := Saved(fileIndex);
        ok := true;
      case CreateFails =>
        ok := false;
      case EncodeFails =>
        engine.disk.fileMeta := Corrupt;
        ok := false;
    }

    /** Deletes the first n shards of a file, ignoring errors. */
    method DeleteStoredShards(fileHash: Hash, n: nat, io: nat -> DeleteIo)
      modifies engine`chunks, engine.disk`files, engine.disk`chunkMeta
      ensures engine.State() == DeleteShards(old(engine.State()), fileHash, n, io)
    {
      for i := 0 to n
        invariant engine.State() == DeleteShards(old(engine.State()), fileHash, i, io)
        invariant engine.disk.fileMeta == old(engine.disk.fileMeta)
      {
        var status := engine.DeleteChunk(ShardId(fileHash, i), io(i));
      }
    }

    /** Stores the shards in order; on a failure the shards stored so far are deleted again. */
    method StoreNewShards(fileHash: Hash, shards: seq<Shard>, plan: Plan) returns (failure: Option<FileError>)
      modifies engine`chunks, engine.disk`files, engine.disk`chunkMeta
      ensures var r := StoreShards(old(engine.State()), fileHash, shards, 0, plan.store);
              match r
              case AllStored(store) => failure == None && engine.State() == store
              case FailedAt(store, i, cause) =>
                && failure == Some(ChunkFailed(i, cause))
                && engine.State() == DeleteShards(store, fileHash, i, plan.delete)
    {
      ghost var before := engine.State();
      for i := 0 to |shards|
        invariant StoreShards(before, fileHash, shards, 0, plan.store) ==
                  StoreShards(engine.State(), fileHash, shards, i, plan.store)
        invariant engine.disk.fileMeta == old(engine.disk.fileMeta)
      {
        var status := engine.StoreChunk(ShardId(fileHash, i), shards[i].data, plan.store(i));
        if status.Err? {
          DeleteStoredShards(fileHash, i, plan.delete);
          return Some(ChunkFailed(i, status.error));
        }
      }
      return None;
    }

    method StoreFile(fileName: string, data: Bytes, totalShards: int, requiredShards: int,
                     storagePeers: seq<PeerId>, plan: Plan) returns (r: Result<Hash, FileError>)
      requires totalShards <= 256
      modifies this`fileIndex, engine`chunks, engine.disk
      ensures (State(), r) ==
              FileStore.StoreFile(env, old(State()), fileName, data, totalShards, requiredShards, storagePeers, plan)
    {
      if |data| == 0 {
        return Failure(EmptyFile);
      }
      if requiredShards > totalShards {
        return Failure(TooManyRequired);
      }
      var fileHash := env.hash(data);
      if fileHash in fileIndex {
        return Failure(AlreadyExists);
      }
      var sharded := ShardData(env.codec, env.hash, data, totalShards, requiredShards);
      if sharded.Failure? {
        return Failure(ShardingFailed(sharded.error));
      }
      var metadata := MetadataFor(fileHash, fileName, data, totalShards, requiredShards, sharded.value, storagePeers);
      r := AddFile(metadata, sharded.value, totalShards, plan);
    }

    method AddFile(metadata: FileMetadata, shards: seq<Shard>, totalShards: nat, plan: Plan)
      returns (r: Result<Hash, FileError>)
      requires metadata.fileHash !in fileIndex
      modifies this`fileIndex, engine`chunks, engine.disk
      ensures (State(), r) == StoreNewFile(old(State()), metadata, shards, totalShards, plan)
    {
      var fileHash := metadata.fileHash;
      var failure := StoreNewShards(fileHash, shards, plan);
      if failure.Some? {
        return Failure(failure.value);
      }
      fileIndex := fileIndex[fileHash := metadata];
      var saved := SaveMetadata(plan.save);
      if !saved {
        DeleteStoredShards(fileHash, totalShards, plan.delete);
        fileIndex := fileIndex - {fileHash};
        return Failure(IndexSaveFailed);
      }
      return Success(fileHash);
    }

    /**
      The shards that can be read. With fewer shard hashes than that the loop indexes past their
      list: None stands for the panic.
     */
    method CollectShards(fileHash: Hash, metadata: FileMetadata, total: nat, read: nat -> bool)
      returns (shards: Option<seq<Shard>>)
      ensures shards == if ReadsPastHashes(engine.State(), metadata, fileHash, total, read) then None
                        else Some(Collected(engine.State(), metadata, fileHash, total, read))
    {
      var found: seq<Shard> := [];
      for i := 0 to total
        invariant found == Collected(engine.State(), metadata, fileHash, i, read)
        invariant !ReadsPastHashes(engine.State(), metadata, fileHash, i, read)
      {
        var shardData := engine.RetrieveChunk(ShardId(fileHash, i), read(i));
        if shardData.Some? {
          if i >= |metadata.shardHashes| {
            return None;
          }
          found := found + [Shard(i + 1, shardData.value, metadata.shardHashes[i], |shardData.value|)];
        }
      }
      return Some(found);
    }

    method RetrieveFile(fileHash: Hash, read: nat -> bool) returns (r: Result<Bytes, FileError>)
      requires fileHash in fileIndex ==> fileIndex[fileHash].totalShards <= 256
      ensures r == FileStore.RetrieveFile(env, State(), fileHash, read)
    {
      if fileHash !in fileIndex {
        return Failure(FileNotFound);
      }
      var metadata := fileIndex[fileHash];
      if |metadata.shardHashes| == 0 {
        return Failure(MetadataOnly);
      }
      var total := if metadata.totalShards < 0 then 0 else metadata.totalShards;
      var collected := CollectShards(fileHash, metadata, total, read);
      if collected == None {
        return Failure(NoHashForShard);
      }
      var shards := collected.value;
      if |shards| < metadata.requiredShards {
        return Failure(TooFewShards);
      }
      var data := ReconstructData(env.codec, shards, metadata.totalShards, metadata.requiredShards, metadata.originalSize);
      if data.Failure? {
        return Failure(ReconstructionFailed(data.error));
      }
      if env.hash(data.value) != fileHash {
        return Failure(IntegrityFailed);
      }
      return Success(data.value);
    }

    /** Puts metadata that came from elsewhere into the index; the entry stays if saving fails. */
    method UpdateFileMetadata(metadata: FileMetadata, io: SaveOutcome) returns (ok: bool)
      modifies this`fileIndex, engine.disk`fileMeta
      ensures State() == UpdateFile(old(State()), metadata, io)
      ensures ok <==> io == SaveOk
    {
      fileIndex := fileIndex[metadata.fileHash := metadata];
      ok := SaveMetadata(io);
    }

    method DeleteFile(fileHash: Hash, plan: Plan) returns (r: Result<(), FileError>)
      modifies this`fileIndex, engine`chunks, engine.disk
      ensures (State(), r) == FileStore.DeleteFile(old(State()), fileHash, plan)
    {
      if fileHash !in fileIndex {
        return Failure(FileNotFound);
      }
      var total := fileIndex[fileHash].totalShards;
      DeleteStoredShards(fileHash, if total < 0 then 0 else total, plan.delete);
      fileIndex := fileIndex - {fileHash};
      var saved := SaveMetadata(plan.save);
      return if saved then Success(()) else Failure(IndexSaveFailed);
    }
  }
}
