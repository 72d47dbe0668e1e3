/** The storage engine: its fields, its disk, and its methods, proved against `ChunkStore`. */
module StorageEngine {
  import opened Results
  import opened FiniteSums
  import opened ChunkStore

  /** The storage directory. `T` is what the file manager keeps in its own metadata file. */
  class Disk<T> {
    var files: map<Path, Bytes>
    var chunkMeta: MetaFile<Chunks>
    var fileMeta: MetaFile<T>

    constructor ()
      ensures files == map[] && chunkMeta == Missing && fileMeta == Missing
    {
      files, chunkMeta, fileMeta := map[], Missing, Missing;
    }
  }

  class Engine<T> {
    const disk: Disk<T>
    var chunks: Chunks
    var maxBytes: uint64

    ghost function State(): Store
      reads this, disk
    {
      Store(chunks, disk.files, disk.chunkMeta, maxBytes)
    }

    /** `open` is false when an existing metadata file cannot be opened. */
    constructor (disk: Disk<T>, open: bool)
      ensures this.disk == disk && maxBytes == 10 * 1024 * 1024 * 1024
      ensures chunks == LoadedChunks(disk.files, disk.chunkMeta, open)
    {
      this.disk := disk;
      this.chunks := map[];
      this.maxBytes := 10 * 1024 * 1024 * 1024;
      new;
      LoadMetadata(open);
    }

    /** Decodes the index and drops every entry whose file is missing. */
    method LoadMetadata(open: bool)
      requires chunks == map[]
      modifies this`chunks
      ensures chunks == LoadedChunks(disk.files, disk.chunkMeta, open)
    {
      if !open || !disk.chunkMeta.Saved? {
        return;
      }
      chunks := disk.chunkMeta.value;
      var remaining := chunks.Keys;
      while remaining != {}
        invariant remaining <= chunks.Keys <= disk.chunkMeta.value.Keys
        invariant forall id :: id in chunks ==> chunks[id] == disk.chunkMeta.value[id]
        invariant forall id :: id in disk.chunkMeta.value && id !in remaining ==>
          (id in chunks <==> disk.chunkMeta.value[id] in disk.files)
        decreases |remaining|
      {
        var id :| id in remaining;
        remaining := remaining - {id};
        if chunks[id] !in disk.files {
          chunks := chunks - {id};
        }
      }
    }

    /** The sizes of all indexed chunk files, wrapping around at every addition. */
    method CalculateUsedBytes() returns (totalBytes: nat)
      ensures totalBytes == UsedBytes(State())
    {
      ghost var sizes, all := Sizes(State()), TotalBytes(State());
      ghost var exact: nat := 0;
      totalBytes := 0;
      var remaining := chunks.Keys;
      while remaining != {}
        invariant remaining <= chunks.Keys
        invariant all == exact + Sum(remaining, sizes)
        invariant totalBytes == U64(exact)
        decreases |remaining|
      {
        var id :| id in remaining;
        var size := Stat(chunks[id]);
        SumRemove(remaining, sizes, id);
        totalBytes, exact := Plus64(totalBytes, size, exact);
        remaining := remaining - {id};
      }
    }

    /** Unsigned addition: `exact` is the sum that `total` stands for. */
    method Plus64(total: nat, size: nat, ghost exact: nat) returns (sum: nat, ghost exactSum: nat)
      requires total == U64(exact)
      ensures sum == U64(total + size) == U64(exactSum) && exactSum == exact + size
    {
      U64Plus(exact, size);
      sum, exactSum := U64(total + size), exact + size;
    }

    /** The size of a file; a file that is missing counts nothing. */
    method Stat(path: Path) returns (size: nat)
      ensures size == SizeAt(disk.files, path)
    {
      size := if path in disk.files then |disk.files[path]| else 0;
    }

    method SaveMetadata(io: SaveOutcome) returns (ok: bool)
      modifies disk`chunkMeta
      ensures ok <==> io == SaveOk
      ensures disk.chunkMeta == SaveMeta(old(disk.chunkMeta), chunks, io)
    {
      match io
      case SaveOk =>
        disk.chunkMeta := Saved(chunks);
        ok := true;
      case CreateFails =>
        ok := false;
      case EncodeFails =>
        disk.chunkMeta := Corrupt;
        ok := false;
    }

    method StoreChunk(chunkId: ChunkId, data: Bytes, io: StoreIo) returns (status: Status)
      modifies this`chunks, disk`files, disk`chunkMeta
      ensures State() == ChunkStore.StoreChunk(old(State()), chunkId, data, io).store
      ensures status == ChunkStore.StoreChunk(old(State()), chunkId, data, io).status
    {
      if chunkId in chunks {
        return Err(DuplicateChunk);
      }
      var usedBytes := CalculateUsedBytes();
      var newUsedBytes := U64(usedBytes + |data|);
      if newUsedBytes > maxBytes {
        return Err(QuotaExceeded);
      }
      var chunkPath := ChunkPath(chunkId);
      if !io.mkdir {
        return Err(MkdirFailed);
      }
      match io.write {
        case WriteFails(left) =>
          if left.Some? {
            disk.files := disk.files[chunkPath := left.value];
          }
          return Err(WriteFailed);
        case WriteOk =>
          disk.files := disk.files[chunkPath := data];
      }
      chunks := chunks[chunkId := chunkPath];
      var saved := SaveMetadata(io.save);
      if !saved {
        if io.cleanup {
          disk.files := disk.files - {chunkPath};
        }
        return Err(MetadataFailed);
      }
      return Ok;
    }

    method RetrieveChunk(chunkId: ChunkId, read: bool) returns (data: Option<Bytes>)
      ensures data == ChunkStore.RetrieveChunk(State(), chunkId, read)
    {
      if chunkId !in chunks || chunks[chunkId] !in disk.files || !read {
        return None;
      }
      return Some(disk.files[chunks[chunkId]]);
    }

    method DeleteChunk(chunkId: ChunkId, io: DeleteIo) returns (status: Status)
      modifies this`chunks, disk`files, disk`chunkMeta
      ensures State() == ChunkStore.DeleteChunk(old(State()), chunkId, io).store
      ensures status == ChunkStore.DeleteChunk(old(State()), chunkId, io).status
    {
      if chunkId !in chunks {
        return Err(ChunkNotFound);
      }
      var chunkPath := chunks[chunkId];
      if chunkPath !in disk.files || !io.remove {
        return Err(RemoveFailed);
      }
      disk.files := disk.files - {chunkPath};
      chunks := chunks - {chunkId};
      var saved := SaveMetadata(io.save);
      return if saved then Ok else Err(MetadataFailed);
    }

    /** Removes the plain files that are neither the metadata file nor named in the index. */
    method Cleanup(remove: Path -> bool)
      modifies disk`files
      ensures disk.files == CleanedFiles(old(State()), remove)
    {
      ghost var before := State();
      var remaining := disk.files.Keys;
      while remaining != {}
        invariant remaining <= disk.files.Keys <= before.files.Keys
        invariant forall p :: p in disk.files ==> disk.files[p] == before.files[p]
        invariant forall p :: p in before.files && p !in remaining ==>
          (p in disk.files <==> !(IsOrphan(before, p) && remove(p)))
        decreases |remaining|
      {
        var filename :| filename in remaining;
        remaining := remaining - {filename};
        if IsPlain(filename) && filename != METADATA_NAME {
          var found := NamedInIndex(filename);
          if !found && remove(filename) {
            disk.files := disk.files - {filename};
          }
        }
      }
    }

    method NamedInIndex(filename: Path) returns (found: bool)
      ensures found <==> IsIndexed(State(), filename)
    {
      var ids := chunks.Keys;
      while ids != {}
        invariant ids <= chunks.Keys
        invariant forall id :: id in chunks && id !in ids ==> Base(chunks[id]) != filename
        decreases |ids|
      {
        var id :| id in ids;
        if Base(chunks[id]) == filename {
          return true;
        }
        ids := ids - {id};
      }
      return false;
    }
  }
}
