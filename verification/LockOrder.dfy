/**
  Deadlock freedom of the node's read-write mutexes, for any number of goroutines.

  A goroutine is the list of its remaining lock operations and the locks it holds. Mutexes are
  Go's RWMutex: a writer excludes everybody, a reader is also held back by a waiting writer.
 */
module LockOrder {

  datatype Lock = ValidatorManagerMu | NetworkViewMu | ReputationMu | StorageOpsMu | FileManagerMu | EngineMu

  datatype Mode = Read | Write

  datatype Op = Acquire(lock: Lock, mode: Mode) | Release(lock: Lock)

  datatype Thread = Thread(rest: seq<Op>, held: map<Lock, Mode>)

  /** Position in the hierarchy; nested acquisitions go strictly upwards. */
  function Rank(l: Lock): nat {
    match l
    case ValidatorManagerMu => 0
    case NetworkViewMu => 1
    case ReputationMu => 2
    case StorageOpsMu => 3
    case FileManagerMu => 4
    case EngineMu => 5
  }

  // ----- respecting the hierarchy

  ghost predicate Below(held: map<Lock, Mode>, l: Lock) {
    forall h :: h in held ==> Rank(h) < Rank(l)
  }

  /**
    From `held`, the operations acquire only above what is held (in particular never a lock
    twice), release only what is held, and end with nothing held.
   */
  ghost predicate Ordered(ops: seq<Op>, held: map<Lock, Mode>) {
    if ops == [] then held == map[]
    else match ops[0]
      case Acquire(l, m) => Below(held, l) && Ordered(ops[1..], held[l := m])
      case Release(l) => l in held && Ordered(ops[1..], held - {l})
  }

  // ----- steps

  ghost predicate HeldBy(threads: seq<Thread>, t: nat, l: Lock) {
    t < |threads| && l in threads[t].held
  }

  ghost predicate Wants(threads: seq<Thread>, t: nat, l: Lock, m: Mode) {
    t < |threads| && threads[t].rest != [] && threads[t].rest[0] == Acquire(l, m)
  }

  /** The mutex admits thread t: the rule that must hold for exclusion. */
  ghost predicate Admits(threads: seq<Thread>, l: Lock, m: Mode) {
    match m
    case Write => forall u :: 0 <= u < |threads| ==> !HeldBy(threads, u, l)
    case Read => forall u :: 0 <= u < |threads| && HeldBy(threads, u, l) ==> threads[u].held[l] == Read
  }

  ghost predicate Enabled(threads: seq<Thread>, t: nat) {
    && t < |threads| && threads[t].rest != []
    && match threads[t].rest[0]
       case Acquire(l, m) => Admits(threads, l, m)
       case Release(l) => true
  }

  /** Enabled even when every thread about to write-lock counts as a waiting writer. */
  ghost predicate EnabledDespiteWriters(threads: seq<Thread>, t: nat) {
    && Enabled(threads, t)
    && forall l, u: nat :: Wants(threads, t, l, Read) ==> !Wants(threads, u, l, Write)
  }

  ghost function Advance(t: Thread): Thread
    requires t.rest != []
  {
    match t.rest[0]
    case Acquire(l, m) => Thread(t.rest[1..], t.held[l := m])
    case Release(l) => Thread(t.rest[1..], t.held - {l})
  }

  ghost predicate Step(before: seq<Thread>, after: seq<Thread>) {
    exists t: nat :: Enabled(before, t) && after == before[t := Advance(before[t])]
  }

  ghost predicate Run(states: seq<seq<Thread>>) {
    states != [] && forall i :: 0 <= i < |states| - 1 ==> Step(states[i], states[i + 1])
  }

  // ----- what every step keeps

  ghost predicate AllOrdered(threads: seq<Thread>) {
    forall t :: 0 <= t < |threads| ==> Ordered(threads[t].rest, threads[t].held)
  }

  /** A write-locked mutex is held by nobody else. */
  ghost predicate Exclusive(threads: seq<Thread>) {
    forall t: nat, u: nat, l :: HeldBy(threads, t, l) && HeldBy(threads, u, l) && threads[t].held[l] == Write ==> t == u
  }

  lemma StepKeepsInvariant(before: seq<Thread>, after: seq<Thread>)
    requires AllOrdered(before) && Exclusive(before) && Step(before, after)
    ensures AllOrdered(after) && Exclusive(after) && |after| == |before|
  {
    var t: nat :| Enabled(before, t) && after == before[t := Advance(before[t])];
    assert Ordered(before[t].rest, before[t].held);
    forall u: nat, v: nat, l | HeldBy(after, u, l) && HeldBy(after, v, l) && after[u].held[l] == Write
      ensures u == v
    {
      assert u != t ==> HeldBy(before, u, l);
      assert v != t ==> HeldBy(before, v, l);
      match before[t].rest[0] {
        case Release(_) =>
          assert HeldBy(before, u, l) && HeldBy(before, v, l) && before[u].held[l] == Write;
        case Acquire(k, m) =>
          if k != l {
            assert HeldBy(before, u, l) && HeldBy(before, v, l) && before[u].held[l] == Write;
          }
      }
    }
  }

  // ----- some thread can always step

  /** A holder of a lock that `t` waits for wants a higher lock, or can release. */
  lemma {:induction false} Progress(threads: seq<Thread>, t: nat) returns (u: nat)
    requires AllOrdered(threads) && t < |threads| && threads[t].rest != []
    ensures EnabledDespiteWriters(threads, u)
    decreases match threads[t].rest[0] case Acquire(l, _) => 6 - Rank(l) case Release(_) => 0
  {
    match threads[t].rest[0]
    case Release(_) =>
      u := t;
    case Acquire(l, m) =>
      if h: nat :| HeldBy(threads, h, l) {
        u := HolderProgress(threads, h, l);
      } else if w: nat :| Wants(threads, w, l, Write) {
        u := w;
      } else {
        u := t;
      }
  }

  lemma {:induction false} HolderProgress(threads: seq<Thread>, h: nat, l: Lock) returns (u: nat)
    requires AllOrdered(threads) && HeldBy(threads, h, l)
    ensures EnabledDespiteWriters(threads, u)
    decreases 6 - Rank(l), 0
  {
    assert Ordered(threads[h].rest, threads[h].held);
    u := Progress(threads, h);
  }

  // ----- runs

  ghost predicate Idle(threads: seq<Thread>) {
    forall t :: 0 <= t < |threads| ==> threads[t].held == map[]
  }

  ghost predicate Finished(threads: seq<Thread>) {
    forall t :: 0 <= t < |threads| ==> threads[t].rest == [] && threads[t].held == map[]
  }

  ghost function Remaining(threads: seq<Thread>): nat {
    if threads == [] then 0 else |threads[0].rest| + Remaining(threads[1..])
  }

  lemma {:induction false} RunKeepsInvariant(states: seq<seq<Thread>>, i: nat)
    requires Run(states) && i < |states|
    requires AllOrdered(states[0]) && Idle(states[0])
    ensures AllOrdered(states[i]) && Exclusive(states[i])
  {
    if i == 0 {
      assert forall u: nat, l :: !HeldBy(states[0], u, l);
    } else {
      RunKeepsInvariant(states, i - 1);
      assert Step(states[i - 1], states[i - 1 + 1]);
      StepKeepsInvariant(states[i - 1], states[i]);
    }
  }

  /**
    No reachable state is a deadlock: unless every goroutine has finished, some goroutine can
    step, even if every goroutine about to write-lock already counts as a waiting writer.
   */
  lemma NoDeadlock(states: seq<seq<Thread>>, i: nat)
    requires Run(states) && i < |states|
    requires AllOrdered(states[0]) && Idle(states[0])
    ensures Exclusive(states[i])
    ensures Finished(states[i]) || exists t: nat :: EnabledDespiteWriters(states[i], t)
  {
    RunKeepsInvariant(states, i);
    var threads := states[i];
    if exists t: nat :: t < |threads| && threads[t].rest != [] {
      var t: nat :| t < |threads| && threads[t].rest != [];
      var u := Progress(threads, t);
    } else {
      forall t | 0 <= t < |threads|
        ensures threads[t].rest == [] && threads[t].held == map[]
      {
        assert Ordered(threads[t].rest, threads[t].held);
      }
    }
  }

  lemma {:induction false} RemainingUpdate(threads: seq<Thread>, t: nat, v: Thread)
    requires t < |threads|
    ensures Remaining(threads[t := v]) == Remaining(threads) - |threads[t].rest| + |v.rest|
  {
    if t == 0 {
      assert threads[0 := v][1..] == threads[1..];
    } else {
      RemainingUpdate(threads[1..], t - 1, v);
      assert threads[t := v][1..] == threads[1..][t - 1 := v];
    }
  }

  /** Every step uses up one operation, so every run ends, and it can only end finished. */
  lemma {:induction false} RunsAreBounded(states: seq<seq<Thread>>)
    requires Run(states)
    ensures Remaining(states[|states| - 1]) + |states| - 1 == Remaining(states[0])
    decreases |states|
  {
    if |states| > 1 {
      var n := |states| - 2;
      var shorter := states[..n + 1];
      forall i | 0 <= i < |shorter| - 1
        ensures Step(shorter[i], shorter[i + 1])
      {
        assert Step(states[i], states[i + 1]);
      }
      RunsAreBounded(shorter);
      assert Step(states[n], states[n + 1]);
      var t: nat :| Enabled(states[n], t) && states[n + 1] == states[n][t := Advance(states[n][t])];
      RemainingUpdate(states[n], t, Advance(states[n][t]));
    }
  }
}
