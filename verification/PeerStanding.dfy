/**
  What the node knows about its peers: entry, reliability and score, over every run of
  interactions, node announcements, connections, periodic updates and sweeps. Times are
  integers, in seconds.
 */
module PeerStanding {
  import opened Results
  import opened PeerRanking

  /** What a peer says about itself; `gateway` is whether one of its tags marks a gateway. */
  datatype FarmerInfo = FarmerInfo(storageCapacity: uint64, usedStorage: uint64, isActive: bool, gateway: bool)

  datatype PeerInfo = PeerInfo(info: Option<FarmerInfo>, lastSeen: int, reliability: real, distance: int)

  const STALE_AFTER := 10 * 60

  // ----- storage suitability

  /** Unsigned 64-bit subtraction wraps around. */
  function Minus64(a: uint64, b: uint64): uint64 {
    var d: int := a as int - b as int;
    if d < 0 then d + 0x1_0000_0000_0000_0000 else d
  }

  const MIN_FREE: int := 100 * 1024 * 1024

  /** An announced peer needs free space, a merely connected one some reliability. */
  predicate Suitable(p: PeerInfo) {
    match p.info
    case Some(info) => info.isActive && Minus64(info.storageCapacity, info.usedStorage) > MIN_FREE
    case None => p.reliability >= 0.3
  }

  /**
    Suitability is meant to require more than 100 MiB of free space. It does so exactly unless an
    active peer reports more use than capacity by less than 2^64 - 100 MiB: the subtraction
    wraps around and the over-full peer passes.
   */
  lemma SuitableMeansFreeSpaceExactly(info: FarmerInfo, p: PeerInfo)
    requires p.info == Some(info)
    ensures (Suitable(p) <==> info.isActive && info.storageCapacity - info.usedStorage > 104_857_600) <==>
            !(info.isActive && 0 < info.usedStorage - info.storageCapacity < 0x1_0000_0000_0000_0000 - 104_857_600)
  {
  }

  /** A peer that never announced itself is suitable from a reliability of three tenths on. */
  lemma SuitableUnannounced(p: PeerInfo)
    requires p.info == None
    ensures Suitable(p) <==> 10.0 * p.reliability >= 3.0
  {
  }

  /** An active peer without any capacity that reports one used byte passes. */
  lemma OverfullPeerPasses(lastSeen: int, reliability: real)
    ensures Suitable(PeerInfo(Some(FarmerInfo(0, 1, true, false)), lastSeen, reliability, 1))
  {
  }

  // ----- events

  datatype Standing = Standing(peers: map<PeerId, PeerInfo>, reputation: map<PeerId, real>)

  datatype PeerEvent =
    | Interaction(peer: PeerId, good: bool)
    | NodeInfo(peer: PeerId, info: FarmerInfo, now: int)
    | StaleSweep(now: int)
    // a peer connects, seen by the network notifier (0.02) or by discovery (0.1)
    | Connected(peer: PeerId, now: int, reward: real)
    | Disconnected(peer: PeerId)
    | PeriodicUpdate(now: int)

  /** Reliability after one interaction. */
  function Moved(reliability: real, good: bool): real {
    if good then (if 1.0 < reliability + 0.05 then 1.0 else reliability + 0.05)
    else (if 0.0 > reliability - 0.1 then 0.0 else reliability - 0.1)
  }

  function StalePeers(peers: map<PeerId, PeerInfo>, now: int): set<PeerId> {
    set p | p in peers && peers[p].lastSeen < now - STALE_AFTER
  }

  /** The periodic change of a peer's score: decay when unseen for long, a boost when active and reliable. */
  function PeriodicChange(p: PeerInfo, now: int): Option<real> {
    if p.lastSeen < now - 2 * 60 * 60 then Some(-0.1)
    else if p.lastSeen < now - 30 * 60 then Some(-0.05)
    else if now - p.lastSeen < 10 * 60 && p.reliability > 0.8 then Some(0.02)
    else None
  }

  /** The scores after the change of one peer, if it is due. */
  function UpdatedIfDue(reputation: map<PeerId, real>, p: PeerId, info: PeerInfo, now: int): map<PeerId, real> {
    match PeriodicChange(info, now)
    case Some(change) => Updated(reputation, p, change)
    case None => reputation
  }

  predicate IsDue(peers: map<PeerId, PeerInfo>, now: int, p: PeerId) {
    p in peers && PeriodicChange(peers[p], now).Some?
  }

  /** The scores after the changes of all peers in `done`. */
  function PeriodicallyUpdated(reputation: map<PeerId, real>, peers: map<PeerId, PeerInfo>, now: int, done: set<PeerId>):
    map<PeerId, real>
  {
    map p | p in reputation.Keys + (peers.Keys * done) && (p in reputation || IsDue(peers, now, p)) ::
      if p in done && IsDue(peers, now, p) then UpdatedIfDue(reputation, p, peers[p], now)[p] else reputation[p]
  }

  function ApplyEvent(s: Standing, e: PeerEvent): Standing {
    match e
    case Interaction(p, good) =>
      Standing(if p in s.peers then s.peers[p := s.peers[p].(reliability := Moved(s.peers[p].reliability, good))]
               else s.peers,
               Updated(s.reputation, p, if good then 0.05 else -0.1))
    case NodeInfo(p, info, now) =>
      Standing(s.peers[p := if p in s.peers then s.peers[p].(info := Some(info), lastSeen := now)
                            else PeerInfo(Some(info), now, 1.0, 1)],
               Updated(s.reputation, p, 0.1))
    case StaleSweep(now) =>
      Standing(s.peers - StalePeers(s.peers, now), s.reputation - StalePeers(s.peers, now))
    case Connected(p, now, reward) =>
      Standing(if p in s.peers then s.peers else s.peers[p := PeerInfo(None, now, 1.0, 1)],
               Updated(s.reputation, p, reward))
    case Disconnected(p) => s.(reputation := Updated(s.reputation, p, -0.01))
    case PeriodicUpdate(now) =>
      s.(reputation := PeriodicallyUpdated(s.reputation, s.peers, now, s.peers.Keys))
  }

  function RunPeerEvents(s: Standing, events: seq<PeerEvent>): Standing {
    if events == [] then s else ApplyEvent(RunPeerEvents(s, events[..|events| - 1]), events[|events| - 1])
  }

  // ----- what every run keeps

  ghost predicate InRange(s: Standing) {
    ScoresInRange(s.reputation) && forall p :: p in s.peers ==> 0.0 <= s.peers[p].reliability <= 1.0
  }

  lemma EventKeepsInRange(s: Standing, e: PeerEvent)
    requires InRange(s)
    ensures InRange(ApplyEvent(s, e))
  {
  }

  /** Scores and reliabilities stay within [0, 1]. */
  lemma {:induction false} RunKeepsInRange(s: Standing, events: seq<PeerEvent>)
    requires InRange(s)
    ensures InRange(RunPeerEvents(s, events))
  {
    if events != [] {
      RunKeepsInRange(s, events[..|events| - 1]);
      EventKeepsInRange(RunPeerEvents(s, events[..|events| - 1]), events[|events| - 1]);
    }
  }

  ghost function ScoreBefore(s: Standing, p: PeerId): real {
    if p in s.reputation then s.reputation[p] else 0.0
  }

  /** How much each event moves the score of the peer it is about. */
  lemma EventMovesScore(s: Standing, e: PeerEvent)
    requires InRange(s)
    ensures var after := ApplyEvent(s, e).reputation;
            match e
            case Interaction(p, good) => p in after && MovedBy(ScoreBefore(s, p), after[p], if good then 0.05 else -0.1)
            case NodeInfo(p, _, _) => p in after && MovedBy(ScoreBefore(s, p), after[p], 0.1)
            case Connected(p, _, reward) => p in after && MovedBy(ScoreBefore(s, p), after[p], reward)
            case Disconnected(p) => p in after && MovedBy(ScoreBefore(s, p), after[p], -0.01)
            case StaleSweep(_) => true
            case PeriodicUpdate(_) => true
  {
  }

  /** An event about one peer leaves everybody else's score and entry alone. */
  lemma EventTouchesOne(s: Standing, e: PeerEvent, q: PeerId)
    requires !e.StaleSweep? && !e.PeriodicUpdate? && q != e.peer
    ensures var after := ApplyEvent(s, e);
            && (q in after.reputation <==> q in s.reputation) && (q in after.peers <==> q in s.peers)
            && (q in s.reputation ==> after.reputation[q] == s.reputation[q])
            && (q in s.peers ==> after.peers[q] == s.peers[q])
  {
  }

  /**
    The periodic update by the time a peer was last seen: more than two hours ago it loses a tenth,
    more than half an hour ago a twentieth, less than ten minutes ago it gains 0.02 if it is
    reliable; all others, and peers without entry, keep their score.
   */
  lemma PeriodicUpdateMovesScores(s: Standing, now: int, p: PeerId)
    requires InRange(s)
    ensures var after := ApplyEvent(s, PeriodicUpdate(now));
            && after.peers == s.peers
            && (p in s.peers ==>
                var unseen := now - s.peers[p].lastSeen;
                && (unseen > 7200 ==> p in after.reputation && MovedBy(ScoreBefore(s, p), after.reputation[p], -0.1))
                && (1800 < unseen <= 7200 ==> p in after.reputation && MovedBy(ScoreBefore(s, p), after.reputation[p], -0.05))
                && (unseen < 600 && s.peers[p].reliability > 0.8 ==>
                    p in after.reputation && MovedBy(ScoreBefore(s, p), after.reputation[p], 0.02)))
            && (p !in s.peers || 600 <= now - s.peers[p].lastSeen <= 1800
                || (now - s.peers[p].lastSeen < 600 && s.peers[p].reliability <= 0.8) ==>
                (p in after.reputation <==> p in s.reputation)
                && (p in s.reputation ==> after.reputation[p] == s.reputation[p]))
  {
  }

  /** A sweep forgets exactly the peers not seen for more than ten minutes, entry and score. */
  lemma SweepForgetsExactly(s: Standing, now: int, p: PeerId)
    ensures var after := ApplyEvent(s, StaleSweep(now));
            && (p in after.peers <==> p in s.peers && now - s.peers[p].lastSeen <= 600)
            && (p in after.reputation <==>
                p in s.reputation && (p in s.peers ==> now - s.peers[p].lastSeen <= 600))
            && (p in after.peers ==> after.peers[p] == s.peers[p])
            && (p in after.reputation ==> after.reputation[p] == s.reputation[p])
  {
  }

  /** An announcement brings information and time up to date; a connection only makes a peer known. */
  lemma IntroductionsRecord(s: Standing, p: PeerId, info: FarmerInfo, now: int, reward: real)
    ensures var told := ApplyEvent(s, NodeInfo(p, info, now)).peers;
            var met := ApplyEvent(s, Connected(p, now, reward)).peers;
            && p in told && told[p].info == Some(info) && told[p].lastSeen == now
            && (p in s.peers ==> told[p].reliability == s.peers[p].reliability && told[p].distance == s.peers[p].distance)
            && (p in s.peers ==> met == s.peers)
            && (p !in s.peers ==> p in met && met[p].info == None && met[p].lastSeen == now && met[p].reliability == 1.0)
            && ApplyEvent(s, Disconnected(p)).peers == s.peers
  {
  }

  /** One interaction moves the reliability of one known peer, in its own direction, and nothing else. */
  lemma InteractionMovesOne(s: Standing, p: PeerId, good: bool)
    requires InRange(s)
    ensures var after := ApplyEvent(s, Interaction(p, good));
            && after.peers.Keys == s.peers.Keys
            && (forall q :: q in s.peers && q != p ==> after.peers[q] == s.peers[q])
            && (forall q :: q in s.reputation && q != p ==> q in after.reputation && after.reputation[q] == s.reputation[q])
            && (p in s.peers ==>
                && after.peers[p].(reliability := s.peers[p].reliability) == s.peers[p]
                && (if good then after.peers[p].reliability >= s.peers[p].reliability
                    else after.peers[p].reliability <= s.peers[p].reliability)
                && (after.peers[p].reliability == s.peers[p].reliability <==>
                    s.peers[p].reliability == if good then 1.0 else 0.0))
  {
  }

  /** No sweep of the run finds the peer stale. */
  ghost predicate NeverStale(s: Standing, events: seq<PeerEvent>, p: PeerId) {
    events == [] ||
    var front, last := events[..|events| - 1], events[|events| - 1];
    && NeverStale(s, front, p)
    && (last.StaleSweep? ==> p !in StalePeers(RunPeerEvents(s, front).peers, last.now))
  }

  /** Reliability after the interactions with one peer, in order. */
  function Replayed(reliability: real, events: seq<PeerEvent>, p: PeerId): real {
    if events == [] then reliability
    else
      var before, last := Replayed(reliability, events[..|events| - 1], p), events[|events| - 1];
      if last.Interaction? && last.peer == p then Moved(before, last.good) else before
  }

  /**
    Over every run the reliability of a known peer is decided by the interactions with it alone:
    node announcements and whatever happens to other peers change nothing.
   */
  lemma {:induction false} ReliabilityIsItsInteractions(s: Standing, events: seq<PeerEvent>, p: PeerId)
    requires p in s.peers && NeverStale(s, events, p)
    ensures p in RunPeerEvents(s, events).peers
    ensures RunPeerEvents(s, events).peers[p].reliability == Replayed(s.peers[p].reliability, events, p)
  {
    if events != [] {
      ReliabilityIsItsInteractions(s, events[..|events| - 1], p);
    }
  }

  /** Events of a run that starts at time `seen`: no announcement from before, no sweep ten minutes after. */
  ghost predicate Within(events: seq<PeerEvent>, seen: int) {
    && (forall e :: e in events && e.NodeInfo? ==> e.now >= seen)
    && (forall e :: e in events && e.StaleSweep? ==> e.now <= seen + STALE_AFTER)
  }

  /** A peer seen at some time is not swept within the ten minutes that follow, whatever else happens. */
  lemma {:induction false} SeenPeerStays(s: Standing, events: seq<PeerEvent>, p: PeerId, seen: int)
    requires p in s.peers && s.peers[p].lastSeen >= seen && Within(events, seen)
    ensures NeverStale(s, events, p)
    ensures p in RunPeerEvents(s, events).peers && RunPeerEvents(s, events).peers[p].lastSeen >= seen
  {
    if events != [] {
      var last := events[|events| - 1];
      assert last in events;
      SeenPeerStays(s, events[..|events| - 1], p, seen);
    }
  }

  // ----- coming back

  /** The event makes an unknown peer known. */
  predicate Introduces(e: PeerEvent, p: PeerId) {
    (e.NodeInfo? || e.Connected?) && e.peer == p
  }

  lemma {:induction false} StaysUnknown(s: Standing, events: seq<PeerEvent>, p: PeerId)
    requires p !in s.peers && forall e :: e in events ==> !Introduces(e, p)
    ensures p !in RunPeerEvents(s, events).peers
  {
    if events != [] {
      assert events[|events| - 1] in events;
      StaysUnknown(s, events[..|events| - 1], p);
    }
  }

  lemma {:induction false} RunAppend(s: Standing, a: seq<PeerEvent>, b: seq<PeerEvent>)
    ensures RunPeerEvents(s, a + b) == RunPeerEvents(RunPeerEvents(s, a), b)
  {
    if b == [] {
      assert a + b == a;
    } else {
      assert (a + b)[..|a + b| - 1] == a + b[..|b| - 1];
      RunAppend(s, a, b[..|b| - 1]);
    }
  }

  /**
    Being swept wipes the slate: however unreliable a peer was, once a sweep has found it stale,
    its next announcement or connection makes it fully reliable again, whatever happened in
    between, and from then on only the interactions after its return count.
   */
  lemma SweepResetsReliability(s: Standing, p: PeerId, now: int, between: seq<PeerEvent>, back: PeerEvent,
                               later: seq<PeerEvent>)
    requires p in StalePeers(s.peers, now)
    requires (forall e :: e in between ==> !Introduces(e, p)) && Introduces(back, p)
    ensures var returned := RunPeerEvents(s, [StaleSweep(now)] + between + [back]);
            && p in returned.peers && returned.peers[p].reliability == 1.0
            && (NeverStale(returned, later, p) ==>
                var end := RunPeerEvents(s, [StaleSweep(now)] + between + [back] + later);
                p in end.peers && end.peers[p].reliability == Replayed(1.0, later, p))
  {
    var swept, gone := ApplyEvent(s, StaleSweep(now)), [StaleSweep(now)];
    assert gone[..0] == [] && RunPeerEvents(s, gone) == swept;
    StaysUnknown(swept, between, p);
    RunAppend(s, gone, between);
    var run := gone + between + [back];
    assert run[..|run| - 1] == gone + between;
    RunAppend(s, run, later);
    if NeverStale(RunPeerEvents(s, run), later, p) {
      ReliabilityIsItsInteractions(RunPeerEvents(s, run), later, p);
    }
  }

  // ----- failures

  function FailuresInARow(reliability: real, n: nat): real {
    if n == 0 then reliability else Moved(FailuresInARow(reliability, n - 1), false)
  }

  /** Failures wear a peer down in equal steps. */
  lemma {:induction false} FailuresWearDown(reliability: real, n: nat)
    requires 0.0 <= reliability <= 1.0
    ensures FailuresInARow(reliability, n) ==
            if reliability < n as real * 0.1 then 0.0 else reliability - n as real * 0.1
  {
    if n > 0 {
      FailuresWearDown(reliability, n - 1);
      assert n as real == (n - 1) as real + 1.0;
    }
  }

  function SuccessesInARow(reliability: real, n: nat): real {
    if n == 0 then reliability else Moved(SuccessesInARow(reliability, n - 1), true)
  }

  /** Successes build a peer up in steps half as large. */
  lemma {:induction false} SuccessesBuildUp(reliability: real, n: nat)
    requires 0.0 <= reliability <= 1.0
    ensures SuccessesInARow(reliability, n) ==
            if reliability + n as real * 0.05 > 1.0 then 1.0 else reliability + n as real * 0.05
  {
    if n > 0 {
      SuccessesBuildUp(reliability, n - 1);
      assert n as real == (n - 1) as real + 1.0;
    }
  }

  /** A fully reliable peer that never announced itself stays suitable for exactly seven failures in a row. */
  lemma SevenFailures(lastSeen: int, distance: int, n: nat)
    ensures Suitable(PeerInfo(None, lastSeen, FailuresInARow(1.0, n), distance)) <==> n <= 7
  {
    FailuresWearDown(1.0, n);
  }
}
