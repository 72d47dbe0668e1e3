/**
  The lock operations of the node's code paths, with loop counts as parameters, and the proof
  that each of them respects the lock hierarchy. Every nested acquisition of the modelled
  mutexes occurs in one of these routines.
 */
module LockRoutines {
  import opened LockOrder

  datatype Routine =
    | PerformValidationSelection(scoreReads: nat, members: nat)
    | ActivateCommittee
    | ReadCommittee
    | HandleNodeInfo
    | UpdateNetworkView
    | ReadNetworkView
    | PerformReputationUpdate(updates: nat)
    | RecordInteraction
    | ReadReputation
    | SelectStoragePeers
    | StoreFileDistributed(announced: bool)
    | CleanupOperations
    | GetStorageStats
    | GetFileStats
    | ChangeStoredFile(chunks: nat)
    | RetrieveFile(chunks: nat)
    | ReadFileIndex
    | CleanupFiles(chunks: nat)
    | CleanupEngine
    | ReadEngine

  ghost function Repeat(body: seq<Op>, n: nat): seq<Op> {
    if n == 0 then [] else body + Repeat(body, n - 1)
  }

  ghost function Locked(l: Lock, m: Mode, body: seq<Op>): seq<Op> {
    [Acquire(l, m)] + body + [Release(l)]
  }

  /** The lock operations of one execution, in program order. */
  ghost function Trace(r: Routine): seq<Op> {
    match r
    case PerformValidationSelection(scoreReads, members) =>
      Locked(ValidatorManagerMu, Write,
             Locked(ReputationMu, Read, []) + Locked(NetworkViewMu, Read, [])
             + Repeat(Locked(ReputationMu, Read, []), scoreReads)
             + Repeat(Locked(NetworkViewMu, Write, []), members))
    case ActivateCommittee => Locked(ValidatorManagerMu, Write, [])
    case ReadCommittee => Locked(ValidatorManagerMu, Read, [])
    case HandleNodeInfo => Locked(NetworkViewMu, Write, Locked(ReputationMu, Write, []))
    case UpdateNetworkView => Locked(NetworkViewMu, Write, [])
    case ReadNetworkView => Locked(NetworkViewMu, Read, [])
    case PerformReputationUpdate(updates) =>
      Locked(NetworkViewMu, Read, Repeat(Locked(ReputationMu, Write, []), updates))
    case RecordInteraction => Locked(ReputationMu, Write, []) + Locked(NetworkViewMu, Write, [])
    case ReadReputation => Locked(ReputationMu, Read, [])
    case SelectStoragePeers => Locked(NetworkViewMu, Read, Locked(ReputationMu, Read, []))
    case StoreFileDistributed(announced) =>
      Locked(NetworkViewMu, Read, Locked(ReputationMu, Read, []))
      + Locked(StorageOpsMu, Write, [])
      + Locked(NetworkViewMu, Read, [])
      + Locked(FileManagerMu, Read, [])
      + (if announced then Locked(NetworkViewMu, Write, []) else [])
      + Locked(FileManagerMu, Write, [])
    case CleanupOperations => Locked(StorageOpsMu, Write, [])
    case GetStorageStats =>
      Locked(StorageOpsMu, Read, Locked(FileManagerMu, Read, Locked(EngineMu, Read, [])))
    case GetFileStats =>
      Locked(FileManagerMu, Read, Locked(EngineMu, Read, []))
    case ChangeStoredFile(chunks) =>
      Locked(FileManagerMu, Write, Repeat(Locked(EngineMu, Write, []), chunks))
    case RetrieveFile(chunks) =>
      Locked(FileManagerMu, Read, []) + Repeat(Locked(EngineMu, Read, []), chunks)
    case ReadFileIndex => Locked(FileManagerMu, Read, [])
    case CleanupFiles(chunks) =>
      Locked(EngineMu, Write, [])
      + Locked(FileManagerMu, Read, Repeat(Locked(EngineMu, Read, []), chunks))
    case CleanupEngine => Locked(EngineMu, Write, [])
    case ReadEngine => Locked(EngineMu, Read, [])
  }

  /** Operation k acquires `inner` while `outer` is held. */
  ghost predicate NestsAt(ops: seq<Op>, k: nat, outer: Lock, inner: Lock) {
    && k < |ops| && ops[k].Acquire? && ops[k].lock == inner
    && exists j :: 0 <= j < k && ops[j].Acquire? && ops[j].lock == outer
                   && forall i :: j < i < k ==> ops[i] != Release(outer)
  }

  lemma NestsAfter(ops: seq<Op>, j: nat, k: nat, outer: Lock, inner: Lock)
    requires j < k < |ops| && ops[j].Acquire? && ops[j].lock == outer && ops[k].Acquire? && ops[k].lock == inner
    requires forall i :: j < i < k ==> ops[i] != Release(outer)
    ensures NestsAt(ops, k, outer, inner)
  {
  }

  /** Each nesting of the hierarchy does occur, so that deadlock freedom is about something. */
  lemma NestingsOccur()
    ensures NestsAt(Trace(PerformValidationSelection(0, 0)), 1, ValidatorManagerMu, ReputationMu)
    ensures NestsAt(Trace(PerformValidationSelection(0, 0)), 3, ValidatorManagerMu, NetworkViewMu)
    ensures NestsAt(Trace(HandleNodeInfo), 1, NetworkViewMu, ReputationMu)
    ensures NestsAt(Trace(SelectStoragePeers), 1, NetworkViewMu, ReputationMu)
  {
    var selection := Trace(PerformValidationSelection(0, 0));
    NestsAfter(selection, 0, 1, ValidatorManagerMu, ReputationMu);
    NestsAfter(selection, 0, 3, ValidatorManagerMu, NetworkViewMu);
    NestsAfter(Trace(HandleNodeInfo), 0, 1, NetworkViewMu, ReputationMu);
    NestsAfter(Trace(SelectStoragePeers), 0, 1, NetworkViewMu, ReputationMu);
  }

  lemma StorageNestingsOccur()
    ensures NestsAt(Trace(GetStorageStats), 1, StorageOpsMu, FileManagerMu)
    ensures NestsAt(Trace(GetStorageStats), 2, FileManagerMu, EngineMu)
    ensures NestsAt(Trace(GetFileStats), 1, FileManagerMu, EngineMu)
  {
    NestsAfter(Trace(GetStorageStats), 0, 1, StorageOpsMu, FileManagerMu);
    NestsAfter(Trace(GetStorageStats), 1, 2, FileManagerMu, EngineMu);
    NestsAfter(Trace(GetFileStats), 0, 1, FileManagerMu, EngineMu);
  }

  /** Loops take their locks once per round under the lock held around them. */
  lemma LoopNestingsOccur(n: nat)
    requires n >= 1
    ensures NestsAt(Trace(PerformReputationUpdate(n)), 1, NetworkViewMu, ReputationMu)
    ensures NestsAt(Trace(ChangeStoredFile(n)), 1, FileManagerMu, EngineMu)
    ensures NestsAt(Trace(CleanupFiles(n)), 3, FileManagerMu, EngineMu)
  {
    NestsAfter(Trace(PerformReputationUpdate(n)), 0, 1, NetworkViewMu, ReputationMu);
    NestsAfter(Trace(ChangeStoredFile(n)), 0, 1, FileManagerMu, EngineMu);
    NestsAfter(Trace(CleanupFiles(n)), 2, 3, FileManagerMu, EngineMu);
  }

  // ----- composing ordered pieces

  /** `ops` can be executed with `held` held, and leaves exactly `held` held. */
  ghost predicate Balanced(ops: seq<Op>, held: map<Lock, Mode>) {
    forall rest :: Ordered(rest, held) ==> Ordered(ops + rest, held)
  }

  lemma BalancedEmpty(held: map<Lock, Mode>)
    ensures Balanced([], held)
  {
    forall rest | Ordered(rest, held)
      ensures Ordered([] + rest, held)
    {
      assert [] + rest == rest;
    }
  }

  lemma BalancedAppend(a: seq<Op>, b: seq<Op>, held: map<Lock, Mode>)
    requires Balanced(a, held) && Balanced(b, held)
    ensures Balanced(a + b, held)
  {
    forall rest | Ordered(rest, held)
      ensures Ordered(a + b + rest, held)
    {
      assert Ordered(b + rest, held) && Ordered(a + (b + rest), held);
      assert a + b + rest == a + (b + rest);
    }
  }

  lemma {:induction false} BalancedRepeat(body: seq<Op>, n: nat, held: map<Lock, Mode>)
    requires Balanced(body, held)
    ensures Balanced(Repeat(body, n), held)
  {
    if n == 0 {
      BalancedEmpty(held);
    } else {
      BalancedRepeat(body, n - 1, held);
      BalancedAppend(body, Repeat(body, n - 1), held);
    }
  }

  /** Locking above everything held keeps a balanced body balanced. */
  lemma BalancedLocked(l: Lock, m: Mode, body: seq<Op>, held: map<Lock, Mode>)
    requires Below(held, l) && Balanced(body, held[l := m])
    ensures Balanced(Locked(l, m, body), held)
  {
    forall rest | Ordered(rest, held)
      ensures Ordered(Locked(l, m, body) + rest, held)
    {
      var tail, inner := [Release(l)] + rest, held[l := m];
      assert l !in held;
      assert inner - {l} == held && tail[1..] == rest;
      assert Ordered(tail, inner);
      assert Ordered(body + tail, inner);
      var ops := Locked(l, m, body) + rest;
      assert ops[0] == Acquire(l, m) && ops[1..] == body + tail;
    }
  }

  lemma BalancedPair(l: Lock, m: Mode, held: map<Lock, Mode>)
    requires Below(held, l)
    ensures Balanced(Locked(l, m, []), held)
  {
    BalancedEmpty(held[l := m]);
    BalancedLocked(l, m, [], held);
  }

  /** Every routine respects the hierarchy, whatever its loop counts. */
  lemma RoutineIsBalanced(r: Routine)
    ensures Balanced(Trace(r), map[])
  {
    match r
    case PerformValidationSelection(scoreReads, members) =>
      var held := map[ValidatorManagerMu := Write];
      var score, view, tag := Locked(ReputationMu, Read, []), Locked(NetworkViewMu, Read, []), Locked(NetworkViewMu, Write, []);
      BalancedPair(ReputationMu, Read, held);
      BalancedPair(NetworkViewMu, Read, held);
      BalancedPair(NetworkViewMu, Write, held);
      BalancedRepeat(score, scoreReads, held);
      BalancedRepeat(tag, members, held);
      BalancedAppend(score, view, held);
      BalancedAppend(score + view, Repeat(score, scoreReads), held);
      BalancedAppend(score + view + Repeat(score, scoreReads), Repeat(tag, members), held);
      BalancedLocked(ValidatorManagerMu, Write, score + view + Repeat(score, scoreReads) + Repeat(tag, members), map[]);
    case HandleNodeInfo =>
      BalancedPair(ReputationMu, Write, map[NetworkViewMu := Write]);
      BalancedLocked(NetworkViewMu, Write, Locked(ReputationMu, Write, []), map[]);
    case PerformReputationUpdate(updates) =>
      BalancedPair(ReputationMu, Write, map[NetworkViewMu := Read]);
      BalancedRepeat(Locked(ReputationMu, Write, []), updates, map[NetworkViewMu := Read]);
      BalancedLocked(NetworkViewMu, Read, Repeat(Locked(ReputationMu, Write, []), updates), map[]);
    case RecordInteraction =>
      BalancedPair(ReputationMu, Write, map[]);
      BalancedPair(NetworkViewMu, Write, map[]);
      BalancedAppend(Locked(ReputationMu, Write, []), Locked(NetworkViewMu, Write, []), map[]);
    case SelectStoragePeers =>
      SelectionIsBalanced();
    case StoreFileDistributed(announced) =>
      DistributionIsBalanced(announced);
    case GetStorageStats =>
      var ops, files := map[StorageOpsMu := Read], map[StorageOpsMu := Read, FileManagerMu := Read];
      assert files == ops[FileManagerMu := Read];
      BalancedPair(EngineMu, Read, files);
      BalancedLocked(FileManagerMu, Read, Locked(EngineMu, Read, []), ops);
      BalancedLocked(StorageOpsMu, Read, Locked(FileManagerMu, Read, Locked(EngineMu, Read, [])), map[]);
    case GetFileStats =>
      BalancedPair(EngineMu, Read, map[FileManagerMu := Read]);
      BalancedLocked(FileManagerMu, Read, Locked(EngineMu, Read, []), map[]);
    case ChangeStoredFile(chunks) =>
      BalancedPair(EngineMu, Write, map[FileManagerMu := Write]);
      BalancedRepeat(Locked(EngineMu, Write, []), chunks, map[FileManagerMu := Write]);
      BalancedLocked(FileManagerMu, Write, Repeat(Locked(EngineMu, Write, []), chunks), map[]);
    case RetrieveFile(chunks) =>
      BalancedPair(FileManagerMu, Read, map[]);
      BalancedPair(EngineMu, Read, map[]);
      BalancedRepeat(Locked(EngineMu, Read, []), chunks, map[]);
      BalancedAppend(Locked(FileManagerMu, Read, []), Repeat(Locked(EngineMu, Read, []), chunks), map[]);
    case CleanupFiles(chunks) =>
      BalancedPair(EngineMu, Write, map[]);
      BalancedPair(EngineMu, Read, map[FileManagerMu := Read]);
      BalancedRepeat(Locked(EngineMu, Read, []), chunks, map[FileManagerMu := Read]);
      BalancedLocked(FileManagerMu, Read, Repeat(Locked(EngineMu, Read, []), chunks), map[]);
      BalancedAppend(Locked(EngineMu, Write, []),
                     Locked(FileManagerMu, Read, Repeat(Locked(EngineMu, Read, []), chunks)), map[]);
    case _ =>
      SinglesAreBalanced();
  }

  lemma SinglesAreBalanced()
    ensures forall l, m :: Balanced(Locked(l, m, []), map[])
  {
    forall l, m
      ensures Balanced(Locked(l, m, []), map[])
    {
      BalancedPair(l, m, map[]);
    }
  }

  lemma SelectionIsBalanced()
    ensures Balanced(Trace(SelectStoragePeers), map[])
  {
    BalancedPair(ReputationMu, Read, map[NetworkViewMu := Read]);
    BalancedLocked(NetworkViewMu, Read, Locked(ReputationMu, Read, []), map[]);
  }

  lemma DistributionIsBalanced(announced: bool)
    ensures Balanced(Trace(StoreFileDistributed(announced)), map[])
  {
    var announcement := if announced then Locked(NetworkViewMu, Write, []) else [];
    BalancedEmpty(map[]);
    SelectionIsBalanced();
    SinglesAreBalanced();
    var ops := Trace(SelectStoragePeers);
    BalancedAppend(ops, Locked(StorageOpsMu, Write, []), map[]);
    ops := ops + Locked(StorageOpsMu, Write, []);
    BalancedAppend(ops, Locked(NetworkViewMu, Read, []), map[]);
    ops := ops + Locked(NetworkViewMu, Read, []);
    BalancedAppend(ops, Locked(FileManagerMu, Read, []), map[]);
    ops := ops + Locked(FileManagerMu, Read, []);
    BalancedAppend(ops, announcement, map[]);
    ops := ops + announcement;
    BalancedAppend(ops, Locked(FileManagerMu, Write, []), map[]);
  }

  // ----- goroutines

  /** A goroutine executes any finite list of routines one after the other. */
  ghost function Program(routines: seq<Routine>): seq<Op> {
    if routines == [] then [] else Trace(routines[0]) + Program(routines[1..])
  }

  ghost function Start(goroutines: seq<seq<Routine>>): (threads: seq<Thread>)
    ensures |threads| == |goroutines|
    ensures forall t :: 0 <= t < |threads| ==> threads[t] == Thread(Program(goroutines[t]), map[])
  {
    seq(|goroutines|, t requires 0 <= t < |goroutines| => Thread(Program(goroutines[t]), map[]))
  }

  lemma {:induction false} ProgramIsOrdered(routines: seq<Routine>)
    ensures Ordered(Program(routines), map[])
  {
    if routines != [] {
      ProgramIsOrdered(routines[1..]);
      RoutineIsBalanced(routines[0]);
    }
  }

  /** Any number of goroutines running any routines never deadlock, at any point of any run. */
  lemma NodeNeverDeadlocks(goroutines: seq<seq<Routine>>, states: seq<seq<Thread>>, i: nat)
    requires Run(states) && states[0] == Start(goroutines) && i < |states|
    ensures Exclusive(states[i])
    ensures Finished(states[i]) || exists t: nat :: EnabledDespiteWriters(states[i], t)
  {
    forall t | 0 <= t < |states[0]|
      ensures Ordered(states[0][t].rest, states[0][t].held)
    {
      ProgramIsOrdered(goroutines[t]);
    }
    NoDeadlock(states, i);
  }
}
