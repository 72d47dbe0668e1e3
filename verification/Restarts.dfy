/**
  Runs of the file manager with restarts in between: what is saved, what a restart brings back,
  and that a stored file survives.
 */
module Restarts {
  import opened Results
  import opened ErasureCode
  import opened Sharding
  import opened ChunkStore
  import opened FileStore
  import opened StoreRollback
  import opened FileRuns

  // ----- the chunk operations of one call

  ghost function StoreEvents(s: Store, h: Hash, shards: seq<Shard>, i: nat, io: nat -> StoreIo): seq<ChunkEvent>
    requires i <= |shards|
    decreases |shards| - i
  {
    if i == |shards| then []
    else
      var step := StoreChunk(s, ShardId(h, i), shards[i].data, io(i));
      [StoreEvent(ShardId(h, i), shards[i].data, io(i))]
      + (if step.status == Ok then StoreEvents(step.store, h, shards, i + 1, io) else [])
  }

  ghost function DeleteEvents(h: Hash, n: nat, io: nat -> DeleteIo): seq<ChunkEvent> {
    if n == 0 then [] else DeleteEvents(h, n - 1, io) + [DeleteEvent(ShardId(h, n - 1), io(n - 1))]
  }

  ghost function NewFileEvents(fs: Files, h: Hash, shards: seq<Shard>, plan: Plan): seq<ChunkEvent> {
    StoreEvents(fs.store, h, shards, 0, plan.store)
    + (match StoreShards(fs.store, h, shards, 0, plan.store)
       case FailedAt(_, k, _) => DeleteEvents(h, k, plan.delete)
       case AllStored(_) => if plan.save == SaveOk then [] else DeleteEvents(h, |shards|, plan.delete))
  }

  /** The shards a StoreFile gets as far as storing. */
  ghost function ShardsToStore(env: Env, fs: Files, data: Bytes, total: int, required: int): Option<seq<Shard>> {
    if data == [] || required > total || env.hash(data) in fs.index then None
    else match Sharded(env.codec, env.hash, data, total, required)
      case Failure(_) => None
      case Success(shards) => Some(shards)
  }

  ghost function EventsOf(env: Env, fs: Files, e: FileEvent): seq<ChunkEvent> {
    match e
    case StoreOp(_, data, total, required, _, plan) =>
      (match ShardsToStore(env, fs, data, total, required)
       case None => []
       case Some(shards) => NewFileEvents(fs, env.hash(data), shards, plan))
    case DeleteOp(h, plan) =>
      if h !in fs.index then []
      else DeleteEvents(h, if fs.index[h].totalShards < 0 then 0 else fs.index[h].totalShards, plan.delete)
    case UpdateOp(_, _) => []
  }

  lemma {:induction false} RunAppend(s: Store, saved: SaveOutcome, a: seq<ChunkEvent>, b: seq<ChunkEvent>)
    ensures RunEvents(s, saved, a + b) ==
            var (mid, save) := RunEvents(s, saved, a);
            RunEvents(mid, save, b)
  {
    if b == [] {
      assert a + b == a;
    } else {
      assert (a + b)[..|a + b| - 1] == a + b[..|b| - 1];
      RunAppend(s, saved, a, b[..|b| - 1]);
    }
  }

  lemma RunOne(s: Store, saved: SaveOutcome, e: ChunkEvent)
    ensures RunEvents(s, saved, [e]).0 == ApplyEvent(s, e).store
  {
    assert [e][..0] == [];
  }

  lemma {:induction false} RunStores(s: Store, saved: SaveOutcome, h: Hash, shards: seq<Shard>, i: nat, io: nat -> StoreIo)
    requires i <= |shards|
    ensures RunEvents(s, saved, StoreEvents(s, h, shards, i, io)).0 == StoreShards(s, h, shards, i, io).store
    decreases |shards| - i
  {
    if i < |shards| {
      var first := StoreEvent(ShardId(h, i), shards[i].data, io(i));
      var (mid, save) := RunEvents(s, saved, [first]);
      RunOne(s, saved, first);
      var rest := if ApplyEvent(s, first).status == Ok then StoreEvents(mid, h, shards, i + 1, io) else [];
      RunAppend(s, saved, [first], rest);
      if ApplyEvent(s, first).status == Ok {
        RunStores(mid, save, h, shards, i + 1, io);
      }
    }
  }

  lemma {:induction false} RunDeletes(s: Store, saved: SaveOutcome, h: Hash, n: nat, io: nat -> DeleteIo)
    ensures RunEvents(s, saved, DeleteEvents(h, n, io)).0 == DeleteShards(s, h, n, io)
  {
    if n > 0 {
      RunDeletes(s, saved, h, n - 1, io);
      var events := DeleteEvents(h, n, io);
      assert events[..|events| - 1] == DeleteEvents(h, n - 1, io);
    }
  }

  lemma RunNewFile(fs: Files, m: FileMetadata, shards: seq<Shard>, plan: Plan, saved: SaveOutcome)
    ensures RunEvents(fs.store, saved, NewFileEvents(fs, m.fileHash, shards, plan)).0 ==
            StoreNewFile(fs, m, shards, |shards|, plan).0.store
  {
    var h := m.fileHash;
    var stores := StoreEvents(fs.store, h, shards, 0, plan.store);
    var (mid, save) := RunEvents(fs.store, saved, stores);
    RunStores(fs.store, saved, h, shards, 0, plan.store);
    match StoreShards(fs.store, h, shards, 0, plan.store)
    case FailedAt(_, k, _) =>
      RunAppend(fs.store, saved, stores, DeleteEvents(h, k, plan.delete));
      RunDeletes(mid, save, h, k, plan.delete);
    case AllStored(_) =>
      RunAppend(fs.store, saved, stores, DeleteEvents(h, |shards|, plan.delete));
      RunDeletes(mid, save, h, |shards|, plan.delete);
      assert stores + [] == stores;
  }

  /** These are the chunk operations of the call: run one by one they end in the same store. */
  lemma CallIsItsEvents(env: Env, fs: Files, e: FileEvent, saved: SaveOutcome)
    requires LawfulOp(env, e)
    ensures RunEvents(fs.store, saved, EventsOf(env, fs, e)).0 == ApplyOp(env, fs, e).store
  {
    match e
    case StoreOp(name, data, total, required, peers, plan) =>
      if ShardsToStore(env, fs, data, total, required).Some? {
        var shards := ShardsToStore(env, fs, data, total, required).value;
        ShardCount(env, data, total, required);
        RunNewFile(fs, MetadataFor(env.hash(data), name, data, total, required, shards, peers), shards, plan, saved);
      }
    case DeleteOp(h, plan) =>
      if h in fs.index {
        RunDeletes(fs.store, saved, h, if fs.index[h].totalShards < 0 then 0 else fs.index[h].totalShards, plan.delete);
      }
    case UpdateOp(_, _) =>
  }

  // ----- which chunk operations spare a file

  ghost predicate SparesShards(e: ChunkEvent, h: Hash, n: nat) {
    e.DeleteEvent? ==> Foreign(e.id, h, n)
  }

  lemma {:induction false} StoreEventsSpare(s: Store, h: Hash, shards: seq<Shard>, i: nat, io: nat -> StoreIo)
    requires i <= |shards|
    ensures forall x :: x in StoreEvents(s, h, shards, i, io) ==> x.StoreEvent?
    decreases |shards| - i
  {
    if i < |shards| {
      var step := StoreChunk(s, ShardId(h, i), shards[i].data, io(i));
      if step.status == Ok {
        StoreEventsSpare(step.store, h, shards, i + 1, io);
      }
    }
  }

  lemma {:induction false} DeleteEventsSpare(g: Hash, k: nat, io: nat -> DeleteIo, h: Hash, n: nat)
    requires g != h
    ensures forall x :: x in DeleteEvents(g, k, io) ==> SparesShards(x, h, n)
  {
    if k > 0 {
      DeleteEventsSpare(g, k - 1, io, h, n);
      forall i | 0 <= i < n
        ensures ShardId(h, i) != ShardId(g, k - 1)
      {
        ShardIdsAreInjective(h, i, g, k - 1);
      }
    }
  }

  /** A call that spares an indexed file deletes none of its chunks, not even in a roll back. */
  lemma EventsSpare(env: Env, fs: Files, e: FileEvent, data: Bytes, total: nat, required: nat)
    requires env.hash(data) in fs.index && Spares(env, e, data, total, required)
    ensures forall x :: x in EventsOf(env, fs, e) ==> SparesShards(x, env.hash(data), total)
  {
    var h := env.hash(data);
    match e
    case StoreOp(_, bytes, n, k, _, plan) =>
      if ShardsToStore(env, fs, bytes, n, k).Some? {
        var g, shards := env.hash(bytes), ShardsToStore(env, fs, bytes, n, k).value;
        StoreEventsSpare(fs.store, g, shards, 0, plan.store);
        match StoreShards(fs.store, g, shards, 0, plan.store)
        case FailedAt(_, at, _) => DeleteEventsSpare(g, at, plan.delete, h, total);
        case AllStored(_) => DeleteEventsSpare(g, |shards|, plan.delete, h, total);
      }
    case DeleteOp(g, plan) =>
      if g in fs.index {
        DeleteEventsSpare(g, if fs.index[g].totalShards < 0 then 0 else fs.index[g].totalShards, plan.delete, h, total);
      }
    case UpdateOp(_, _) =>
  }

  /** The file's shards are indexed, and on record if the metadata file decodes. */
  ghost predicate ShardsKept(s: Store, h: Hash, n: nat) {
    && s.meta != Missing
    && forall i :: 0 <= i < n ==>
         ShardId(h, i) in s.chunks && (s.meta.Saved? ==> ShardId(h, i) in s.meta.value)
  }

  lemma EventKeepsShards(s: Store, e: ChunkEvent, h: Hash, n: nat)
    requires ShardsKept(s, h, n) && SparesShards(e, h, n)
    ensures ShardsKept(ApplyEvent(s, e).store, h, n)
  {
  }

  /** No failed save takes a shard off the record: it leaves the old record, or none that decodes. */
  lemma {:induction false} RunKeepsShards(s: Store, saved: SaveOutcome, events: seq<ChunkEvent>, h: Hash, n: nat)
    requires ShardsKept(s, h, n) && forall x :: x in events ==> SparesShards(x, h, n)
    ensures ShardsKept(RunEvents(s, saved, events).0, h, n)
  {
    if events != [] {
      var front, last := events[..|events| - 1], events[|events| - 1];
      assert last in events;
      RunKeepsShards(s, saved, front, h, n);
      EventKeepsShards(RunEvents(s, saved, front).0, last, h, n);
    }
  }

  // ----- the node: calls and restarts

  datatype NodeEvent = Call(event: FileEvent) | Restart

  ghost function ApplyNode(env: Env, fs: Files, e: NodeEvent): Files {
    match e
    case Call(call) => ApplyOp(env, fs, call)
    case Restart => Restarted(fs)
  }

  ghost function RunNode(env: Env, fs: Files, events: seq<NodeEvent>): Files {
    if events == [] then fs
    else ApplyNode(env, RunNode(env, fs, events[..|events| - 1]), events[|events| - 1])
  }

  /** Both metadata files can be decoded. */
  ghost predicate Decodes(fs: Files) {
    fs.store.meta.Saved? && fs.meta.Saved?
  }

  /** Every restart of the run finds both metadata files decodable. */
  ghost predicate RestartsDecode(env: Env, fs: Files, events: seq<NodeEvent>) {
    forall k :: 0 <= k < |events| && events[k].Restart? ==> Decodes(RunNode(env, fs, events[..k]))
  }

  // ----- what each call leaves on record

  /**
    Deleting takes the file off the record exactly if the metadata file could be written or the file
    was not on it. The call succeeds exactly if the file was indexed and the index saved.
   */
  lemma DeleteFileRecord(fs: Files, h: Hash, plan: Plan)
    ensures var (after, r) := DeleteFile(fs, h, plan);
            && (r.Success? <==> h in fs.index && plan.save == SaveOk)
            && (r == Failure(FileNotFound) <==> h !in fs.index)
            && (r == Failure(IndexSaveFailed) <==> h in fs.index && plan.save != SaveOk)
            && (h !in fs.index ==> after == fs)
            && (h in fs.index ==>
                && after.index == fs.index - {h}
                && (h !in Restarted(after).index <==> plan.save != CreateFails || h !in Restarted(fs).index)
                && (plan.save == SaveOk ==> Restarted(after).index == fs.index - {h})
                && (plan.save == CreateFails ==> after.meta == fs.meta)
                && (plan.save == EncodeFails ==> after.meta == Corrupt))
  {
  }

  /** The same for an update: what a restart finds is the new index, nothing, or the old record. */
  lemma UpdateFileRecord(fs: Files, m: FileMetadata, save: SaveOutcome)
    ensures var after := UpdateFile(fs, m, save);
            && after.index == fs.index[m.fileHash := m] && after.store == fs.store
            && (save == SaveOk ==> Restarted(after).index == fs.index[m.fileHash := m])
            && (save == CreateFails ==> after.meta == fs.meta)
            && (save == EncodeFails ==> after.meta == Corrupt)
  {
  }

  /** The same for a store: only a call that has stored every shard gets to write the record. */
  lemma StoreFileRecord(env: Env, fs: Files, e: FileEvent)
    requires e.StoreOp?
    ensures var (after, r) := StoreFile(env, fs, e.name, e.data, e.total, e.required, e.peers, e.plan);
            && (r.Success? ==> Restarted(after).index == after.index && r.value in Restarted(after).index)
            && (r == Failure(IndexSaveFailed) ==>
                && after.index == fs.index - {env.hash(e.data)} && e.plan.save != SaveOk
                && after.meta == if e.plan.save == CreateFails then fs.meta else Corrupt)
            && (r.Failure? && r.error != IndexSaveFailed ==> after.meta == fs.meta && after.index == fs.index)
  {
  }

  // ----- a stored file survives

  ghost predicate FileOnRecord(env: Env, meta: MetaFile<FileIndex>, data: Bytes, total: nat, required: nat) {
    meta.Saved? && env.hash(data) in meta.value && IsMetadataOf(env, meta.value[env.hash(data)], data, total, required)
  }

  ghost predicate ChunksOnRecord(env: Env, meta: MetaFile<Chunks>, data: Bytes, total: nat) {
    meta.Saved? && forall i :: 0 <= i < total ==> ShardId(env.hash(data), i) in meta.value
  }

  /** A restart keeps a held file exactly if the two metadata files list all of it. */
  lemma RestartKeepsExactly(env: Env, fs: Files, data: Bytes, total: nat, required: nat)
    requires FileHeld(env, fs, data, total, required)
    ensures FileHeld(env, Restarted(fs), data, total, required) <==>
            ChunksOnRecord(env, fs.store.meta, data, total) && FileOnRecord(env, fs.meta, data, total, required)
  {
    var h, after := env.hash(data), Restarted(fs);
    if ChunksOnRecord(env, fs.store.meta, data, total) && FileOnRecord(env, fs.meta, data, total, required) {
      forall i | 0 <= i < total
        ensures ShardHeld(after.store, h, i, ShardBytes(env, data, total, required, i))
      {
        assert ShardHeld(fs.store, h, i, ShardBytes(env, data, total, required, i));
      }
    }
    if FileHeld(env, after, data, total, required) {
      assert ShardHeld(after.store, h, 0, ShardBytes(env, data, total, required, 0));
      forall i | 0 <= i < total
        ensures ShardId(h, i) in fs.store.meta.value
      {
        assert ShardHeld(after.store, h, i, ShardBytes(env, data, total, required, i));
      }
    }
  }

  /** The file is held, and each metadata file lists it or cannot be decoded. */
  ghost predicate Kept(env: Env, fs: Files, data: Bytes, total: nat, required: nat) {
    && FileHeld(env, fs, data, total, required)
    && ShardsKept(fs.store, env.hash(data), total)
    && fs.meta != Missing
    && (fs.meta.Saved? ==> FileOnRecord(env, fs.meta, data, total, required))
  }

  /** Whatever fails in it, a call that spares a kept file keeps it. */
  lemma CallKeeps(env: Env, fs: Files, e: FileEvent, data: Bytes, total: nat, required: nat)
    requires Kept(env, fs, data, total, required)
    requires LawfulOp(env, e) && Spares(env, e, data, total, required)
    ensures Kept(env, ApplyOp(env, fs, e), data, total, required)
  {
    OpKeepsFileHeld(env, fs, e, data, total, required);
    EventsSpare(env, fs, e, data, total, required);
    CallIsItsEvents(env, fs, e, CreateFails);
    RunKeepsShards(fs.store, CreateFails, EventsOf(env, fs, e), env.hash(data), total);
    SavedIndex(env, fs, e);
  }

  /** The file index on record after a call is the old record, the new index, or nothing that decodes. */
  lemma SavedIndex(env: Env, fs: Files, e: FileEvent)
    ensures var after := ApplyOp(env, fs, e);
            after.meta == fs.meta || after.meta == Corrupt || after.meta == Saved(after.index)
  {
  }

  /** A restart keeps a kept file exactly if both metadata files decode. */
  lemma KeptSurvivesExactly(env: Env, fs: Files, data: Bytes, total: nat, required: nat)
    requires Kept(env, fs, data, total, required)
    ensures FileHeld(env, Restarted(fs), data, total, required) <==> Decodes(fs)
    ensures Decodes(fs) ==> Kept(env, Restarted(fs), data, total, required)
  {
    RestartKeepsExactly(env, fs, data, total, required);
    if Decodes(fs) {
      forall i | 0 <= i < total
        ensures ShardId(env.hash(data), i) in Restarted(fs).store.chunks
      {
        assert ShardHeld(fs.store, env.hash(data), i, ShardBytes(env, data, total, required, i));
      }
    }
  }

  lemma {:induction false} RunKeeps(env: Env, fs: Files, events: seq<NodeEvent>, data: Bytes, total: nat, required: nat)
    requires Kept(env, fs, data, total, required) && RestartsDecode(env, fs, events)
    requires forall e :: e in events && e.Call? ==> LawfulOp(env, e.event) && Spares(env, e.event, data, total, required)
    ensures Kept(env, RunNode(env, fs, events), data, total, required)
  {
    if events != [] {
      var k := |events| - 1;
      forall j | 0 <= j < k && events[..k][j].Restart?
        ensures Decodes(RunNode(env, fs, events[..k][..j]))
      {
        assert events[..k][..j] == events[..j];
      }
      RunKeeps(env, fs, events[..k], data, total, required);
      var before := RunNode(env, fs, events[..k]);
      match events[k]
      case Call(e) =>
        assert events[k] in events;
        CallKeeps(env, before, e, data, total, required);
      case Restart => KeptSurvivesExactly(env, before, data, total, required);
    }
  }

  lemma {:induction false} StoredIsSaved(s: Store, h: Hash, shards: seq<Shard>, i: nat, io: nat -> StoreIo)
    requires i < |shards| && StoreShards(s, h, shards, i, io).AllStored?
    ensures var after := StoreShards(s, h, shards, i, io).store;
            after.meta == Saved(after.chunks)
    decreases |shards| - i
  {
    if i + 1 < |shards| {
      StoredIsSaved(StoreChunk(s, ShardId(h, i), shards[i].data, io(i)).store, h, shards, i + 1, io);
    }
  }

  /** A StoreFile that succeeds has saved both indexes, whatever was on record before. */
  lemma StoreFileKeeps(env: Env, fs: Files, e: FileEvent)
    requires ChunkStore.Valid(fs.store) && e.StoreOp? && e.required >= 0 && LawfulOp(env, e)
    requires StoreFile(env, fs, e.name, e.data, e.total, e.required, e.peers, e.plan).1.Success?
    ensures Kept(env, ApplyOp(env, fs, e), e.data, e.total, e.required)
  {
    var after := ApplyOp(env, fs, e);
    StoreFileHolds(env, fs, e.name, e.data, e.total, e.required, e.peers, e.plan);
    ShardCount(env, e.data, e.total, e.required);
    StoredIsSaved(fs.store, env.hash(e.data), Sharded(env.codec, env.hash, e.data, e.total, e.required).value, 0, e.plan.store);
    forall i | 0 <= i < e.total
      ensures ShardId(env.hash(e.data), i) in after.store.chunks
    {
      assert ShardHeld(after.store, env.hash(e.data), i, ShardBytes(env, e.data, e.total, e.required, i));
    }
  }

  // ----- retrieval after a restart

  /**
    What is left of `before` on disk: both metadata files, and of the file exactly the first m
    shards, as far as they can be read.
   */
  ghost predicate Survives(before: Files, disk: Files, h: Hash, total: nat, m: nat, read: nat -> bool) {
    && disk.meta == before.meta && disk.store.meta == before.store.meta && m <= total
    && (forall i :: 0 <= i < m ==> SamePath(before.store, disk.store, ChunkPath(ShardId(h, i))))
    && (forall i :: 0 <= i < total ==> (ChunkPath(ShardId(h, i)) in disk.store.files && read(i) <==> i < m))
  }

  lemma ShardComesBack(env: Env, fs: Files, disk: Files, data: Bytes, total: nat, required: nat, m: nat,
                       read: nat -> bool, i: nat)
    requires Kept(env, fs, data, total, required) && Decodes(fs) && i < total
    requires Survives(fs, disk, env.hash(data), total, m, read)
    ensures Readable(Restarted(disk).store, env.hash(data), i, read) <==> i < m
    ensures i < m ==> ShardHeld(Restarted(disk).store, env.hash(data), i, ShardBytes(env, data, total, required, i))
  {
    var h := env.hash(data);
    assert ShardHeld(fs.store, h, i, ShardBytes(env, data, total, required, i));
    if i < m {
      assert SamePath(fs.store, disk.store, ChunkPath(ShardId(h, i)));
    }
  }

  lemma {:induction false} CollectNothing(s: Store, m: FileMetadata, h: Hash, n: nat, read: nat -> bool)
    requires s.chunks == map[]
    ensures Collected(s, m, h, n, read) == []
  {
    if n > 0 {
      CollectNothing(s, m, h, n - 1, read);
    }
  }

  /** After a restart the file comes back exactly if both metadata files decode. */
  lemma RestartRetrievesExactly(env: Env, fs: Files, disk: Files, data: Bytes, total: nat, required: nat, m: nat,
                                read: nat -> bool)
    requires Kept(env, fs, data, total, required)
    requires Survives(fs, disk, env.hash(data), total, m, read) && required <= m
    ensures RetrieveFile(env, Restarted(disk), env.hash(data), read) == Success(data) <==> Decodes(fs)
  {
    var h := env.hash(data);
    if Decodes(fs) {
      forall i | 0 <= i < total
        ensures Readable(Restarted(disk).store, h, i, read) <==> i < m
        ensures i < m ==> ShardHeld(Restarted(disk).store, h, i, ShardBytes(env, data, total, required, i))
      {
        ShardComesBack(env, fs, disk, data, total, required, m, read, i);
      }
      RetrieveAfterTailLoss(env, Restarted(disk), data, total, required, m, read);
    } else if fs.meta.Saved? {
      CollectNothing(Restarted(disk).store, fs.meta.value[h], h, total, read);
    }
  }

  /**
    The promise of the store across restarts: after a successful StoreFile, any run of further
    operations that spare the file, with any failures in them and any number of restarts that
    find both metadata files decodable, then the loss of any tail of its shards that leaves
    `required` of them, and a last restart, RetrieveFile returns the stored bytes exactly if
    both metadata files decode this time too. A save that fails when it opens its file does no
    harm; one that fails later leaves a file that does not decode until the next save.
   */
  lemma StoredFileSurvivesRestarts(env: Env, fs: Files, store: FileEvent, events: seq<NodeEvent>,
                                   disk: Files, m: nat, read: nat -> bool)
    requires ChunkStore.Valid(fs.store)
    requires store.StoreOp? && store.required >= 0 && LawfulOp(env, store)
    requires StoreFile(env, fs, store.name, store.data, store.total, store.required, store.peers, store.plan).1.Success?
    requires forall e :: e in events && e.Call? ==>
      LawfulOp(env, e.event) && Spares(env, e.event, store.data, store.total, store.required)
    requires RestartsDecode(env, ApplyOp(env, fs, store), events)
    requires var end := RunNode(env, ApplyOp(env, fs, store), events);
             Survives(end, disk, env.hash(store.data), store.total, m, read) && store.required <= m
    ensures RetrieveFile(env, Restarted(disk), env.hash(store.data), read) == Success(store.data) <==>
            Decodes(RunNode(env, ApplyOp(env, fs, store), events))
  {
    var start := ApplyOp(env, fs, store);
    StoreFileKeeps(env, fs, store);
    RunKeeps(env, start, events, store.data, store.total, store.required);
    RestartRetrievesExactly(env, RunNode(env, start, events), disk, store.data, store.total, store.required, m, read);
  }
}
