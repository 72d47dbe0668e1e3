/**
  The storage engine as a state machine over values: the chunk index in memory, the files on
  disk, and the metadata file. Every input/output result is an input of the operation.
 */
module ChunkStore {
  import opened Results
  import opened FiniteSums

  type ChunkId = string
  type Path = string
  type Chunks = map<ChunkId, Path>

  /** A gob file: absent, undecodable, or holding what was last encoded. */
  datatype MetaFile<+T> = Missing | Corrupt | Saved(value: T)

  /** Creating the file truncates it, so a later encoding failure leaves it undecodable. */
  datatype SaveOutcome = SaveOk | CreateFails | EncodeFails

  /** A failed write may leave a partial file behind. */
  datatype WriteOutcome = WriteOk | WriteFails(left: Option<Bytes>)

  datatype StoreIo = StoreIo(mkdir: bool, write: WriteOutcome, save: SaveOutcome, cleanup: bool)

  datatype DeleteIo = DeleteIo(remove: bool, save: SaveOutcome)

  datatype Error =
    | DuplicateChunk
    | QuotaExceeded
    | MkdirFailed
    | WriteFailed
    | MetadataFailed
    | ChunkNotFound
    | RemoveFailed

  datatype Status = Ok | Err(error: Error)

  datatype Store = Store(chunks: Chunks, files: map<Path, Bytes>, meta: MetaFile<Chunks>, maxBytes: uint64)

  /** The new state, the status, and the outcome of saving the index if that was reached. */
  datatype Step = Step(store: Store, status: Status, save: Option<SaveOutcome>)

  const TWO_TO_THE_64: nat := 0x1_0000_0000_0000_0000

  /** The value an unsigned 64-bit variable holds. */
  function U64(n: nat): (u: nat)
    ensures n < TWO_TO_THE_64 ==> u == n
  {
    n % 0x1_0000_0000_0000_0000
  }

  lemma U64Plus(sum: nat, n: nat)
    ensures U64(U64(sum) + n) == U64(sum + n)
  {
  }

  function ChunkPath(id: ChunkId): Path {
    id + ".chunk"
  }

  lemma PathsAreInjective(a: ChunkId, b: ChunkId)
    ensures ChunkPath(a) == ChunkPath(b) <==> a == b
  {
    if ChunkPath(a) == ChunkPath(b) {
      assert ChunkPath(a)[..|a|] == a && ChunkPath(b)[..|b|] == b;
    }
  }

  /** No chunk file takes the place of a metadata file. */
  lemma ChunkFilesAreApart(id: ChunkId)
    ensures ChunkPath(id) != "metadata.gob" && ChunkPath(id) != "file_metadata.gob"
  {
    var p := ChunkPath(id);
    assert p[|p| - 1] == 'k';
  }

  // ----- used bytes

  function SizeAt(files: map<Path, Bytes>, p: Path): nat {
    if p in files then |files[p]| else 0
  }

  ghost function Sizes(s: Store): ChunkId -> nat {
    id => if id in s.chunks then SizeAt(s.files, s.chunks[id]) else 0
  }

  /** The bytes of all indexed chunks. */
  ghost function TotalBytes(s: Store): nat {
    Sum(s.chunks.Keys, Sizes(s))
  }

  /** What the program computes: the total in unsigned 64-bit arithmetic. */
  ghost function UsedBytes(s: Store): nat {
    U64(TotalBytes(s))
  }

  // ----- operations

  function SaveMeta<T>(old_: MetaFile<T>, value: T, io: SaveOutcome): MetaFile<T> {
    match io
    case SaveOk => Saved(value)
    case CreateFails => old_
    case EncodeFails => Corrupt
  }

  ghost function StoreChunk(s: Store, id: ChunkId, data: Bytes, io: StoreIo): Step {
    var path := ChunkPath(id);
    if id in s.chunks then Step(s, Err(DuplicateChunk), None)
    else if U64(UsedBytes(s) + |data|) > s.maxBytes then Step(s, Err(QuotaExceeded), None)
    else if !io.mkdir then Step(s, Err(MkdirFailed), None)
    else match io.write
      case WriteFails(None) => Step(s, Err(WriteFailed), None)
      case WriteFails(Some(partial)) => Step(s.(files := s.files[path := partial]), Err(WriteFailed), None)
      case WriteOk =>
        var chunks := s.chunks[id := path];
        var files := s.files[path := data];
        var meta := SaveMeta(s.meta, chunks, io.save);
        if io.save == SaveOk then Step(Store(chunks, files, meta, s.maxBytes), Ok, Some(io.save))
        else
          Step(Store(chunks, if io.cleanup then files - {path} else files, meta, s.maxBytes),
               Err(MetadataFailed), Some(io.save))
  }

  /** Removing a file that is not there fails, so an entry without a file cannot be deleted. */
  function DeleteChunk(s: Store, id: ChunkId, io: DeleteIo): Step {
    if id !in s.chunks then Step(s, Err(ChunkNotFound), None)
    else if s.chunks[id] !in s.files || !io.remove then Step(s, Err(RemoveFailed), None)
    else
      var chunks := s.chunks - {id};
      var meta := SaveMeta(s.meta, chunks, io.save);
      Step(Store(chunks, s.files - {s.chunks[id]}, meta, s.maxBytes),
           if io.save == SaveOk then Ok else Err(MetadataFailed), Some(io.save))
  }

  function RetrieveChunk(s: Store, id: ChunkId, read: bool): Option<Bytes> {
    if id in s.chunks && s.chunks[id] in s.files && read then Some(s.files[s.chunks[id]]) else None
  }

  /** The index after a restart: the decoded one without the entries whose file is missing. */
  function LoadedChunks(files: map<Path, Bytes>, meta: MetaFile<Chunks>, open: bool): Chunks {
    match meta
    case Saved(chunks) => if open then map id | id in chunks && chunks[id] in files :: chunks[id] else map[]
    case _ => map[]
  }

  // ----- the invariant

  ghost predicate PathsRight(chunks: Chunks) {
    forall id :: id in chunks ==> chunks[id] == ChunkPath(id)
  }

  ghost predicate Valid(s: Store) {
    PathsRight(s.chunks) && (s.meta.Saved? ==> PathsRight(s.meta.value))
  }

  lemma StoreChunkKeepsValid(s: Store, id: ChunkId, data: Bytes, io: StoreIo)
    requires Valid(s)
    ensures Valid(StoreChunk(s, id, data, io).store)
  {
  }

  ghost predicate SamePath(before: Store, after: Store, p: Path) {
    && (p in after.files <==> p in before.files)
    && (p in before.files ==> after.files[p] == before.files[p])
  }

  ghost predicate SameEntry(before: Store, after: Store, id: ChunkId) {
    && (id in after.chunks <==> id in before.chunks)
    && (id in before.chunks ==> after.chunks[id] == before.chunks[id])
  }

  /** The chunk keeps its index entry and its file. */
  ghost predicate Untouched(before: Store, after: Store, id: ChunkId) {
    SameEntry(before, after, id) && SamePath(before, after, ChunkPath(id))
  }

  lemma StoreChunkTouchesOne(s: Store, id: ChunkId, data: Bytes, io: StoreIo)
    ensures var after := StoreChunk(s, id, data, io).store;
            && (forall p :: p != ChunkPath(id) ==> SamePath(s, after, p))
            && (forall other :: other != id ==> Untouched(s, after, other))
            && (id in s.chunks ==> Untouched(s, after, id))
  {
    var after := StoreChunk(s, id, data, io).store;
    forall other | other != id
      ensures Untouched(s, after, other)
    {
      PathsAreInjective(id, other);
    }
  }

  lemma DeleteChunkTouchesOne(s: Store, id: ChunkId, io: DeleteIo)
    requires Valid(s)
    ensures var after := DeleteChunk(s, id, io).store;
            && (forall p :: p != ChunkPath(id) ==> SamePath(s, after, p))
            && (forall other :: other != id ==> Untouched(s, after, other))
            && (id !in s.chunks ==> Untouched(s, after, id))
  {
    var after := DeleteChunk(s, id, io).store;
    forall other | other != id
      ensures Untouched(s, after, other)
    {
      PathsAreInjective(id, other);
    }
  }

  /** What the failing store leaves on disk: nothing, unless a write was cut short or not cleaned up. */
  ghost predicate LeavesNothing(cause: Error, io: StoreIo) {
    match cause
    case WriteFailed => io.write == WriteFails(None)
    case MetadataFailed => io.cleanup
    case _ => true
  }

  /**
    The effect of a failed store: nothing but the chunk's own entry and file can change. A failed
    metadata save leaves the entry behind; a file is left exactly if `LeavesNothing` is false.
   */
  ghost predicate FailedStore(before: Store, after: Store, id: ChunkId, cause: Error, io: StoreIo) {
    && (forall other :: other != id ==> Untouched(before, after, other))
    && (forall p :: p != ChunkPath(id) ==> SamePath(before, after, p))
    && (if cause == MetadataFailed
        then id !in before.chunks && id in after.chunks && after.chunks[id] == ChunkPath(id)
        else SameEntry(before, after, id))
    && (ChunkPath(id) !in before.files ==> (ChunkPath(id) !in after.files <==> LeavesNothing(cause, io)))
  }

  lemma StoreChunkFailure(s: Store, id: ChunkId, data: Bytes, io: StoreIo)
    requires StoreChunk(s, id, data, io).status.Err?
    ensures FailedStore(s, StoreChunk(s, id, data, io).store, id, StoreChunk(s, id, data, io).status.error, io)
  {
    StoreChunkTouchesOne(s, id, data, io);
  }

  /** The call gets as far as saving the index, and the save fails. */
  ghost predicate SaveFails(s: Store, id: ChunkId, data: Bytes, io: StoreIo) {
    && id !in s.chunks && U64(UsedBytes(s) + |data|) <= s.maxBytes
    && io.mkdir && io.write == WriteOk && io.save != SaveOk
  }

  lemma SaveFailsExactly(s: Store, id: ChunkId, data: Bytes, io: StoreIo)
    ensures StoreChunk(s, id, data, io).status == Err(MetadataFailed) <==> SaveFails(s, id, data, io)
  {
  }

  /**
    The status tells the cause: in this order the chunk exists already, the 64-bit sum exceeds the
    quota, the directory or the file cannot be written, the index cannot be saved.
   */
  lemma StoreChunkStatusExactly(s: Store, id: ChunkId, data: Bytes, io: StoreIo)
    ensures var status := StoreChunk(s, id, data, io).status;
            var fits := id !in s.chunks && U64(UsedBytes(s) + |data|) <= s.maxBytes;
            && (status == Err(DuplicateChunk) <==> id in s.chunks)
            && (status == Err(QuotaExceeded) <==> id !in s.chunks && !fits)
            && (status == Err(MkdirFailed) <==> fits && !io.mkdir)
            && (status == Err(WriteFailed) <==> fits && io.mkdir && io.write.WriteFails?)
            && (status == Err(MetadataFailed) <==> fits && io.mkdir && io.write == WriteOk && io.save != SaveOk)
            && (status == Ok <==> fits && io.mkdir && io.write == WriteOk && io.save == SaveOk)
  {
  }

  /** A stored chunk can be read; a failed write leaves what was written of it, or what was there. */
  lemma StoreChunkLeaves(s: Store, id: ChunkId, data: Bytes, io: StoreIo)
    ensures var step := StoreChunk(s, id, data, io);
            var now := if ChunkPath(id) in step.store.files then Some(step.store.files[ChunkPath(id)]) else None;
            var was := if ChunkPath(id) in s.files then Some(s.files[ChunkPath(id)]) else None;
            && (step.status == Ok ==> RetrieveChunk(step.store, id, true) == Some(data))
            && (step.status == Err(WriteFailed) ==> now == if io.write.left.Some? then io.write.left else was)
            && (step.status == Err(MetadataFailed) ==> now == if io.cleanup then None else Some(data))
            && (step.status.Err? && step.status.error != WriteFailed && step.status.error != MetadataFailed ==>
                step.store == s)
  {
  }

  /** Deleting fails for a chunk that is not indexed or whose file cannot be removed; else the chunk is gone. */
  lemma DeleteChunkExactly(s: Store, id: ChunkId, io: DeleteIo)
    ensures var step := DeleteChunk(s, id, io);
            && (step.status == Err(ChunkNotFound) <==> id !in s.chunks)
            && (step.status == Err(RemoveFailed) <==> id in s.chunks && !(s.chunks[id] in s.files && io.remove))
            && (step.status == Err(ChunkNotFound) || step.status == Err(RemoveFailed) ==> step.store == s)
            && (id in s.chunks && s.chunks[id] in s.files && io.remove ==>
                && (step.status == Ok <==> io.save == SaveOk)
                && id !in step.store.chunks && s.chunks[id] !in step.store.files)
  {
  }

  // ----- conservation of bytes

  /** A sum that leaves the 64-bit range comes out below either term. */
  lemma Wraps(total: nat, n: nat)
    requires total < TWO_TO_THE_64 && n < TWO_TO_THE_64
    ensures U64(U64(total) + n) == if total + n < TWO_TO_THE_64 then total + n else total + n - TWO_TO_THE_64
  {
  }

  /** Storing a chunk adds exactly its size. */
  lemma StoreChunkAddsSize(s: Store, id: ChunkId, data: Bytes, io: StoreIo)
    requires Valid(s) && StoreChunk(s, id, data, io).status == Ok
    ensures TotalBytes(StoreChunk(s, id, data, io).store) == TotalBytes(s) + |data|
  {
    var after := StoreChunk(s, id, data, io).store;
    forall k | k in s.chunks
      ensures Sizes(after)(k) == Sizes(s)(k)
    {
      PathsAreInjective(id, k);
    }
    SumSame(s.chunks.Keys, Sizes(after), Sizes(s));
    SumInsert(s.chunks.Keys, Sizes(after), id);
    assert after.chunks.Keys == s.chunks.Keys + {id};
  }

  /** Deleting a chunk frees exactly its size. */
  lemma DeleteChunkFreesSize(s: Store, id: ChunkId, io: DeleteIo)
    requires Valid(s) && id in s.chunks && s.chunks[id] in s.files && io.remove
    ensures TotalBytes(DeleteChunk(s, id, io).store) == TotalBytes(s) - |s.files[s.chunks[id]]|
  {
    var after := DeleteChunk(s, id, io).store;
    forall k | k in after.chunks
      ensures Sizes(after)(k) == Sizes(s)(k)
    {
      PathsAreInjective(id, k);
    }
    SumSame(after.chunks.Keys, Sizes(after), Sizes(s));
    SumRemove(s.chunks.Keys, Sizes(s), id);
    assert after.chunks.Keys == s.chunks.Keys - {id};
  }

  /**
    The quota check adds in 64 bits, so it is right exactly while the sum does not wrap around: then
    a chunk is refused for the quota exactly if it does not fit, and a stored one keeps the quota.
   */
  lemma StoreChunkWithinQuota(s: Store, id: ChunkId, data: Bytes, io: StoreIo)
    requires Valid(s) && TotalBytes(s) <= s.maxBytes && |data| < TWO_TO_THE_64
    ensures var sum, step := TotalBytes(s) + |data|, StoreChunk(s, id, data, io);
            && (id !in s.chunks ==>
                ((step.status == Err(QuotaExceeded) <==> sum > s.maxBytes) <==> sum < TWO_TO_THE_64))
            && (step.status == Ok ==> (TotalBytes(step.store) <= s.maxBytes <==> sum < TWO_TO_THE_64))
  {
    Wraps(TotalBytes(s), |data|);
    if StoreChunk(s, id, data, io).status == Ok {
      StoreChunkAddsSize(s, id, data, io);
    }
  }

  // ----- restart

  /** After loading, every indexed chunk has a file, whatever was on disk. */
  lemma LoadedChunksHaveFiles(files: map<Path, Bytes>, meta: MetaFile<Chunks>, open: bool)
    ensures forall id :: id in LoadedChunks(files, meta, open) ==> LoadedChunks(files, meta, open)[id] in files
  {
  }

  /** What is loaded: the readable record without the entries whose file is missing, else nothing. */
  lemma LoadedExactly(files: map<Path, Bytes>, meta: MetaFile<Chunks>, open: bool, id: ChunkId)
    ensures var loaded := LoadedChunks(files, meta, open);
            && (id in loaded <==> open && meta.Saved? && id in meta.value && meta.value[id] in files)
            && (id in loaded ==> loaded[id] == meta.value[id])
  {
  }

  datatype ChunkEvent =
    | StoreEvent(id: ChunkId, data: Bytes, storeIo: StoreIo)
    | DeleteEvent(id: ChunkId, deleteIo: DeleteIo)

  ghost function ApplyEvent(s: Store, e: ChunkEvent): Step {
    match e
    case StoreEvent(id, data, io) => StoreChunk(s, id, data, io)
    case DeleteEvent(id, io) => DeleteChunk(s, id, io)
  }

  /** A run of chunk operations; `save` is the outcome of the last save that was attempted. */
  ghost function RunEvents(s: Store, saved: SaveOutcome, events: seq<ChunkEvent>): (Store, SaveOutcome) {
    if events == [] then (s, saved)
    else
      var before := RunEvents(s, saved, events[..|events| - 1]);
      var step := ApplyEvent(before.0, events[|events| - 1]);
      (step.store, match step.save case Some(outcome) => outcome case None => before.1)
  }

  ghost predicate SavedInStep(s: Store, saved: SaveOutcome) {
    saved == SaveOk ==> s.meta == Saved(s.chunks)
  }

  lemma EventKeepsSaved(s: Store, saved: SaveOutcome, e: ChunkEvent)
    requires SavedInStep(s, saved)
    ensures var step := ApplyEvent(s, e);
            SavedInStep(step.store, match step.save case Some(outcome) => outcome case None => saved)
  {
  }

  /**
    Whenever the last attempted save succeeded, the metadata file holds the index. A run may start
    anywhere: `saved` is SaveOk only if the metadata file holds the index already.
   */
  lemma {:induction false} LastSaveHoldsIndex(s: Store, saved: SaveOutcome, events: seq<ChunkEvent>)
    requires SavedInStep(s, saved)
    ensures var (after, save) := RunEvents(s, saved, events);
            SavedInStep(after, save)
  {
    if events != [] {
      var (before, save) := RunEvents(s, saved, events[..|events| - 1]);
      LastSaveHoldsIndex(s, saved, events[..|events| - 1]);
      EventKeepsSaved(before, save, events[|events| - 1]);
    }
  }

  /** Whether the event gets to write the metadata file: a save that can create it. */
  ghost predicate TouchesRecord(s: Store, e: ChunkEvent) {
    var save := ApplyEvent(s, e).save;
    save.Some? && save != Some(CreateFails)
  }

  ghost predicate LeavesRecord(s: Store, saved: SaveOutcome, events: seq<ChunkEvent>) {
    events == [] ||
    var front, last := events[..|events| - 1], events[|events| - 1];
    LeavesRecord(s, saved, front) && !TouchesRecord(RunEvents(s, saved, front).0, last)
  }

  /** Saves that cannot create the metadata file leave it as it was, however many there are. */
  lemma {:induction false} RecordStays(s: Store, saved: SaveOutcome, events: seq<ChunkEvent>)
    requires LeavesRecord(s, saved, events)
    ensures RunEvents(s, saved, events).0.meta == s.meta
  {
    if events != [] {
      RecordStays(s, saved, events[..|events| - 1]);
    }
  }

  /**
    The metadata file over every run: it is the index as of the last save that could create it, if
    that save succeeded; it does not decode if that save failed.
   */
  lemma RecordIsLastWritten(s: Store, saved: SaveOutcome, e: ChunkEvent, later: seq<ChunkEvent>)
    requires var step := ApplyEvent(s, e);
             TouchesRecord(s, e) && LeavesRecord(step.store, saved, later)
    ensures var step := ApplyEvent(s, e);
            var meta := RunEvents(step.store, saved, later).0.meta;
            && (step.save == Some(SaveOk) ==> meta == Saved(step.store.chunks))
            && (step.save == Some(EncodeFails) ==> meta == Corrupt)
  {
    RecordStays(ApplyEvent(s, e).store, saved, later);
  }

  /** The store after a restart: the files stay, the index is loaded again. */
  ghost function Reloaded(s: Store, open: bool): Store {
    s.(chunks := LoadedChunks(s.files, s.meta, open))
  }

  ghost function FilesPresent(chunks: Chunks, files: map<Path, Bytes>): Chunks {
    map id | id in chunks && chunks[id] in files :: chunks[id]
  }

  /**
    Restart recovery, from any state: after a run whose last attempted save succeeded, with any mix
    of failures before it, a restart recovers exactly the entries whose file exists, and so the
    whole index exactly if every indexed file exists. Nothing need be known of the metadata file
    at the start, unless the run attempts no save.
   */
  lemma RestartRecovers(s: Store, saved: SaveOutcome, events: seq<ChunkEvent>)
    requires SavedInStep(s, saved)
    ensures var (after, save) := RunEvents(s, saved, events);
            save == SaveOk ==>
              && Reloaded(after, true).chunks == FilesPresent(after.chunks, after.files)
              && (Reloaded(after, true).chunks == after.chunks <==>
                  forall id :: id in after.chunks ==> after.chunks[id] in after.files)
  {
    var (after, save) := RunEvents(s, saved, events);
    LastSaveHoldsIndex(s, saved, events);
    if save == SaveOk && Reloaded(after, true).chunks == after.chunks {
      forall id | id in after.chunks
        ensures after.chunks[id] in after.files
      {
        assert id in Reloaded(after, true).chunks;
      }
    }
  }

  // ----- cleanup

  /** The last component of a path. */
  function Base(p: Path): (b: Path)
    ensures '/' !in b
    ensures '/' !in p ==> b == p
    ensures |b| <= |p| && b == p[|p| - |b|..] && (|b| < |p| ==> p[|p| - |b| - 1] == '/')
  {
    if p == [] then []
    else if p[|p| - 1] == '/' then []
    else Base(p[..|p| - 1]) + [p[|p| - 1]]
  }

  /** A directory entry that is a file rather than a directory. */
  predicate IsPlain(p: Path) {
    '/' !in p
  }

  ghost predicate IsIndexed(s: Store, name: Path) {
    exists id :: id in s.chunks && Base(s.chunks[id]) == name
  }

  const METADATA_NAME: Path := "metadata.gob"

  ghost predicate IsOrphan(s: Store, p: Path) {
    IsPlain(p) && p != METADATA_NAME && !IsIndexed(s, p)
  }

  ghost function CleanedFiles(s: Store, remove: Path -> bool): map<Path, Bytes> {
    map p | p in s.files && !(IsOrphan(s, p) && remove(p)) :: s.files[p]
  }

  /**
    Exactly these files go: in the directory itself, removable, not the metadata file, and not named
    like the file of any indexed chunk. Everything else stays as it is.
   */
  lemma CleanupExactly(s: Store, remove: Path -> bool, p: Path)
    requires p in s.files
    ensures var after := CleanedFiles(s, remove);
            && (p !in after <==>
                && '/' !in p && remove(p) && p != "metadata.gob"
                && forall id :: id in s.chunks ==> Base(s.chunks[id]) != p)
            && (p in after ==> after[p] == s.files[p])
  {
  }

  /**
    Cleanup never removes the file of an indexed chunk; with successful removals every plain file
    left is the metadata file or carries the name of an indexed chunk file.
   */
  lemma CleanupRemovesOrphansOnly(s: Store, remove: Path -> bool)
    requires Valid(s)
    ensures forall id :: id in s.chunks && s.chunks[id] in s.files ==>
      && s.chunks[id] in CleanedFiles(s, remove)
      && CleanedFiles(s, remove)[s.chunks[id]] == s.files[s.chunks[id]]
    ensures (forall p :: remove(p)) ==>
      forall p :: p in CleanedFiles(s, remove) && IsPlain(p) ==> p == METADATA_NAME || IsIndexed(s, p)
    ensures (forall p :: remove(p)) && (forall id :: id in s.chunks ==> '/' !in id) ==>
      forall p :: p in CleanedFiles(s, remove) && IsPlain(p) ==>
        p == METADATA_NAME || exists id :: id in s.chunks && s.chunks[id] == p
  {
    forall id | id in s.chunks && s.chunks[id] in s.files
      ensures s.chunks[id] in CleanedFiles(s, remove)
    {
      if IsPlain(s.chunks[id]) {
        assert Base(s.chunks[id]) == s.chunks[id];
      }
    }
  }
}
