/**
  The gossiped file index: for every file hash the list of peers that hold it.

  The lists stand for sets. This module says what each kind of message does to the lists, and
  proves that every run of messages does to the sets what the messages mean.
 */
module FileIndex {
  import opened Results
  import opened Sequences

  type Index = map<Hash, seq<PeerId>>

  datatype Location = Location(hash: Hash, peers: seq<PeerId>)

  function PeersOf(index: Index, h: Hash): seq<PeerId> {
    if h in index then index[h] else []
  }

  // ----- the list operations

  /** `existing`, then every peer of `incoming` that is not already in the list. */
  function Merge(existing: seq<PeerId>, incoming: seq<PeerId>): seq<PeerId>
    decreases |incoming|
  {
    if incoming == [] then existing
    else Merge(if incoming[0] in existing then existing else existing + [incoming[0]], incoming[1..])
  }

  function Without(peers: seq<PeerId>, gone: set<PeerId>): seq<PeerId> {
    if peers == [] then []
    else
      var front := Without(peers[..|peers| - 1], gone);
      if peers[|peers| - 1] in gone then front else front + [peers[|peers| - 1]]
  }

  lemma {:induction false} MergeKeeps(existing: seq<PeerId>, incoming: seq<PeerId>)
    ensures forall p :: p in Merge(existing, incoming) <==> p in existing || p in incoming
    ensures Distinct(existing) ==> Distinct(Merge(existing, incoming))
    decreases |incoming|
  {
    if incoming != [] {
      MergeKeeps(if incoming[0] in existing then existing else existing + [incoming[0]], incoming[1..]);
    }
  }

  lemma {:induction false} MergeAppend(existing: seq<PeerId>, incoming: seq<PeerId>, p: PeerId)
    ensures Merge(existing, incoming + [p]) ==
            var merged := Merge(existing, incoming);
            if p in merged then merged else merged + [p]
    decreases |incoming|
  {
    if incoming == [] {
      assert incoming + [p] == [p] && [p][1..] == [];
    } else {
      MergeAppend(if incoming[0] in existing then existing else existing + [incoming[0]], incoming[1..], p);
      assert (incoming + [p])[1..] == incoming[1..] + [p];
    }
  }

  lemma {:induction false} WithoutKeeps(peers: seq<PeerId>, gone: set<PeerId>)
    ensures forall p :: p in Without(peers, gone) <==> p in peers && p !in gone
    ensures Distinct(peers) ==> Distinct(Without(peers, gone))
  {
    if peers != [] {
      WithoutKeeps(peers[..|peers| - 1], gone);
    }
  }

  lemma {:induction false} WithoutTwice(peers: seq<PeerId>, a: set<PeerId>, b: set<PeerId>)
    ensures Without(Without(peers, a), b) == Without(peers, a + b)
  {
    if peers != [] {
      var n := |peers| - 1;
      WithoutTwice(peers[..n], a, b);
      var front := Without(peers[..n], a);
      assert (front + [peers[n]])[..|front|] == front;
    }
  }

  // ----- what each message does to the index

  datatype Event =
    | Announce(locations: seq<Location>)
    | QueryResponse(response: Index)
    | Delete(hash: Hash, peer: PeerId)
    | Sweep(gone: set<PeerId>)
    // this node announces a file: the list is replaced
    | Overwrite(hash: Hash, peers: seq<PeerId>)
    // at start-up this node enters itself for its local files, without looking for itself
    | Adopt(hashes: seq<Hash>, peer: PeerId)

  function Announced(index: Index, locations: seq<Location>): Index
    decreases |locations|
  {
    if locations == [] then index
    else
      var l := locations[0];
      Announced(index[l.hash := Merge(PeersOf(index, l.hash), l.peers)], locations[1..])
  }

  function Queried(index: Index, response: Index): Index {
    map h | h in index.Keys + response.Keys :: Merge(PeersOf(index, h), PeersOf(response, h))
  }

  function Removed(index: Index, h: Hash, p: PeerId): Index {
    if h !in index then index
    else
      var updated := Without(index[h], {p});
      if updated == [] then index - {h} else index[h := updated]
  }

  /** The sweep keeps hashes whose list becomes empty. */
  function Swept(index: Index, gone: set<PeerId>): Index {
    map h | h in index :: Without(index[h], gone)
  }

  function Adopted(index: Index, hashes: seq<Hash>, p: PeerId): Index {
    if hashes == [] then index
    else
      var front, last := Adopted(index, hashes[..|hashes| - 1], p), hashes[|hashes| - 1];
      front[last := PeersOf(front, last) + [p]]
  }

  function Apply(index: Index, e: Event): Index {
    match e
    case Announce(locations) => Announced(index, locations)
    case QueryResponse(response) => Queried(index, response)
    case Delete(h, p) => Removed(index, h, p)
    case Sweep(gone) => Swept(index, gone)
    case Overwrite(h, peers) => index[h := peers]
    case Adopt(hashes, p) => Adopted(index, hashes, p)
  }

  function ApplyAll(index: Index, events: seq<Event>): Index {
    if events == [] then index
    else Apply(ApplyAll(index, events[..|events| - 1]), events[|events| - 1])
  }

  // ----- the sets behind the lists

  ghost function Holders(index: Index, h: Hash): set<PeerId> {
    set p | p in PeersOf(index, h)
  }

  ghost predicate DuplicateFree(index: Index) {
    forall h :: h in index ==> Distinct(index[h])
  }

  /** The peers a message claims for a file. */
  ghost predicate Claims(e: Event, h: Hash, p: PeerId) {
    match e
    case Announce(locations) => exists l :: l in locations && l.hash == h && p in l.peers
    case QueryResponse(response) => p in PeersOf(response, h)
    case Delete(_, _) => false
    case Sweep(_) => false
    case Overwrite(h', peers) => h == h' && p in peers
    case Adopt(hashes, p') => h in hashes && p == p'
  }

  /** The peers a message withdraws from a file. An overwriting announcement withdraws all others. */
  ghost predicate Withdraws(e: Event, h: Hash, p: PeerId) {
    match e
    case Announce(_) => false
    case QueryResponse(_) => false
    case Delete(h', p') => h == h' && p == p'
    case Sweep(gone) => p in gone
    case Overwrite(h', peers) => h == h' && p !in peers
    case Adopt(_, _) => false
  }

  /** Membership after a run, by the meaning of its messages alone. */
  ghost predicate Holds(before: set<PeerId>, events: seq<Event>, h: Hash, p: PeerId) {
    if events == [] then p in before
    else
      var n := |events| - 1;
      Claims(events[n], h, p) || (Holds(before, events[..n], h, p) && !Withdraws(events[n], h, p))
  }

  lemma {:induction false} AnnouncedHolders(index: Index, locations: seq<Location>, h: Hash, p: PeerId)
    ensures p in Holders(Announced(index, locations), h) <==>
            p in Holders(index, h) || Claims(Announce(locations), h, p)
    decreases |locations|
  {
    if locations != [] {
      var l, rest := locations[0], locations[1..];
      var next := index[l.hash := Merge(PeersOf(index, l.hash), l.peers)];
      MergeKeeps(PeersOf(index, l.hash), l.peers);
      AnnouncedHolders(next, rest, h, p);
      assert p in Holders(next, h) <==> p in Holders(index, h) || (l.hash == h && p in l.peers);
      assert forall k :: k in locations <==> k == l || k in rest;
    }
  }

  lemma {:induction false} AnnouncedDuplicateFree(index: Index, locations: seq<Location>)
    requires DuplicateFree(index)
    ensures DuplicateFree(Announced(index, locations))
    decreases |locations|
  {
    if locations != [] {
      MergeKeeps(PeersOf(index, locations[0].hash), locations[0].peers);
      AnnouncedDuplicateFree(index[locations[0].hash := Merge(PeersOf(index, locations[0].hash), locations[0].peers)],
                             locations[1..]);
    }
  }

  lemma ApplyHolders(index: Index, e: Event, h: Hash, p: PeerId)
    ensures p in Holders(Apply(index, e), h) <==>
            Claims(e, h, p) || (p in Holders(index, h) && !Withdraws(e, h, p))
  {
    match e
    case Announce(locations) => AnnouncedHolders(index, locations, h, p);
    case QueryResponse(response) => MergeKeeps(PeersOf(index, h), PeersOf(response, h));
    case Delete(h', p') => WithoutKeeps(PeersOf(index, h'), {p'});
    case Sweep(gone) => WithoutKeeps(PeersOf(index, h), gone);
    case Overwrite(_, _) =>
    case Adopt(hashes, p') => AdoptedHolders(index, hashes, p', h, p);
  }

  lemma {:induction false} AdoptedHolders(index: Index, hashes: seq<Hash>, p': PeerId, h: Hash, p: PeerId)
    ensures p in Holders(Adopted(index, hashes, p'), h) <==>
            p in Holders(index, h) || Claims(Adopt(hashes, p'), h, p)
  {
    if hashes != [] {
      var n := |hashes| - 1;
      AdoptedHolders(index, hashes[..n], p', h, p);
      assert h in hashes <==> h in hashes[..n] || h == hashes[n];
    }
  }

  lemma {:induction false} AdoptedLists(index: Index, hashes: seq<Hash>, p: PeerId, h: Hash)
    requires Distinct(hashes)
    ensures PeersOf(Adopted(index, hashes, p), h) == PeersOf(index, h) + (if h in hashes then [p] else [])
    ensures h in Adopted(index, hashes, p) <==> h in index || h in hashes
  {
    if hashes != [] {
      var n := |hashes| - 1;
      AdoptedLists(index, hashes[..n], p, h);
      assert h in hashes <==> h in hashes[..n] || h == hashes[n];
    }
  }

  /**
    When an event keeps lists free of duplicates: merges and withdrawals always; an overwrite if
    its own list has none; adoption if the node is in none of the lists yet.
   */
  ghost predicate KeepsDistinct(index: Index, e: Event) {
    match e
    case Overwrite(_, peers) => Distinct(peers)
    case Adopt(hashes, p) => forall h :: h in hashes ==> p !in PeersOf(index, h)
    case _ => true
  }

  /** The local files of a node are the keys of its index, so no hash is adopted twice. */
  ghost predicate WellFormed(e: Event) {
    e.Adopt? ==> Distinct(e.hashes)
  }

  lemma AdoptDuplicateFreeExactly(index: Index, hashes: seq<Hash>, p: PeerId)
    requires DuplicateFree(index) && Distinct(hashes)
    ensures DuplicateFree(Adopted(index, hashes, p)) <==> KeepsDistinct(index, Adopt(hashes, p))
  {
    var after := Adopted(index, hashes, p);
    forall h
      ensures h in after ==> (Distinct(after[h]) <==> h in hashes ==> p !in PeersOf(index, h))
      ensures h in hashes ==> h in after
    {
      AdoptedLists(index, hashes, p, h);
      var peers := PeersOf(index, h);
      assert Distinct(peers);
      assert (peers + [p])[|peers|] == p;
      if p in peers {
        var i := PositionOf(peers, p);
        assert (peers + [p])[i] == p;
      }
    }
  }

  /** An event introduces no duplicate into a duplicate-free index exactly under this condition. */
  lemma ApplyDuplicateFreeExactly(index: Index, e: Event)
    requires DuplicateFree(index) && WellFormed(e)
    ensures DuplicateFree(Apply(index, e)) <==> KeepsDistinct(index, e)
  {
    match e
    case Overwrite(h, peers) =>
      assert Apply(index, e)[h] == peers;
    case Adopt(hashes, p) => AdoptDuplicateFreeExactly(index, hashes, p);
    case _ => MessageDuplicateFree(index, e);
  }

  /** No message introduces a duplicate into a duplicate-free index. */
  lemma MessageDuplicateFree(index: Index, e: Event)
    requires DuplicateFree(index) && !e.Overwrite? && !e.Adopt?
    ensures DuplicateFree(Apply(index, e))
  {
    var after := Apply(index, e);
    match e
    case Announce(locations) => AnnouncedDuplicateFree(index, locations);
    case QueryResponse(response) =>
      forall h | h in after
        ensures Distinct(after[h])
      {
        MergeKeeps(PeersOf(index, h), PeersOf(response, h));
      }
    case Delete(h, p) => WithoutKeeps(PeersOf(index, h), {p});
    case Sweep(gone) =>
      forall h | h in after
        ensures Distinct(after[h])
      {
        WithoutKeeps(index[h], gone);
      }
  }

  /** Merging keeps the list as it was and appends: the order in which peers were learned stays. */
  lemma {:induction false} MergeAppends(existing: seq<PeerId>, incoming: seq<PeerId>)
    ensures existing <= Merge(existing, incoming)
    decreases |incoming|
  {
    if incoming != [] {
      MergeAppends(if incoming[0] in existing then existing else existing + [incoming[0]], incoming[1..]);
    }
  }

  lemma {:induction false} AnnouncedKeys(index: Index, locations: seq<Location>, h: Hash)
    ensures h in Announced(index, locations) <==> h in index || exists l :: l in locations && l.hash == h
    decreases |locations|
  {
    if locations != [] {
      var l := locations[0];
      AnnouncedKeys(index[l.hash := Merge(PeersOf(index, l.hash), l.peers)], locations[1..], h);
      assert forall k :: k in locations <==> k == l || k in locations[1..];
    }
  }

  lemma {:induction false} AdoptedKeys(index: Index, hashes: seq<Hash>, p: PeerId, h: Hash)
    ensures h in Adopted(index, hashes, p) <==> h in index || h in hashes
  {
    if hashes != [] {
      var n := |hashes| - 1;
      AdoptedKeys(index, hashes[..n], p, h);
      assert h in hashes <==> h in hashes[..n] || h == hashes[n];
    }
  }

  /**
    Which files are listed after each event. A list that a delete message empties goes away with
    its file; one that a sweep empties stays.
   */
  lemma ListedFilesExactly(index: Index, e: Event, h: Hash)
    ensures h in Apply(index, e) <==>
            match e
            case Announce(locations) => h in index || exists l :: l in locations && l.hash == h
            case QueryResponse(response) => h in index || h in response
            case Delete(g, p) => h in index && (g == h ==> exists q :: q in index[h] && q != p)
            case Sweep(_) => h in index
            case Overwrite(g, _) => h in index || h == g
            case Adopt(hashes, _) => h in index || h in hashes
  {
    match e
    case Announce(locations) => AnnouncedKeys(index, locations, h);
    case QueryResponse(_) =>
    case Delete(g, p) =>
      WithoutKeeps(PeersOf(index, g), {p});
      if h in index && g == h && Without(index[h], {p}) != [] {
        assert Without(index[h], {p})[0] in Without(index[h], {p});
      }
    case Sweep(_) =>
    case Overwrite(_, _) =>
    case Adopt(hashes, p) => AdoptedKeys(index, hashes, p, h);
  }

  /** The list-valued index refines a map from hashes to sets, over every run of events. */
  lemma {:induction false} RunRefinesSets(index: Index, events: seq<Event>, h: Hash, p: PeerId)
    ensures p in Holders(ApplyAll(index, events), h) <==> Holds(Holders(index, h), events, h, p)
  {
    if events != [] {
      var n := |events| - 1;
      RunRefinesSets(index, events[..n], h, p);
      ApplyHolders(ApplyAll(index, events[..n]), events[n], h, p);
    }
  }

  /** The lists have no duplicate at any point of the run. */
  ghost predicate CleanThroughout(index: Index, events: seq<Event>) {
    DuplicateFree(ApplyAll(index, events)) && (events == [] || CleanThroughout(index, events[..|events| - 1]))
  }

  ghost predicate KeepsDistinctThroughout(index: Index, events: seq<Event>) {
    events == [] ||
    var front := events[..|events| - 1];
    KeepsDistinctThroughout(index, front) && KeepsDistinct(ApplyAll(index, front), events[|events| - 1])
  }

  /** A run stays free of duplicates throughout exactly if each of its events keeps them out. */
  lemma {:induction false} RunDuplicateFreeExactly(index: Index, events: seq<Event>)
    requires DuplicateFree(index) && forall e :: e in events ==> WellFormed(e)
    ensures CleanThroughout(index, events) <==> KeepsDistinctThroughout(index, events)
  {
    if events != [] {
      var front := events[..|events| - 1];
      RunDuplicateFreeExactly(index, front);
      if CleanThroughout(index, front) {
        ApplyDuplicateFreeExactly(ApplyAll(index, front), events[|events| - 1]);
      }
    }
  }

  /** Announcing a file forgets exactly the holders learned before that are not in the announced list. */
  lemma OverwriteForgetsExactly(index: Index, h: Hash, peers: seq<PeerId>, g: Hash, p: PeerId)
    requires p in Holders(index, g)
    ensures p !in Holders(Apply(index, Overwrite(h, peers)), g) <==> g == h && p !in peers
  {
    ApplyHolders(index, Overwrite(h, peers), g, p);
  }

  // ----- order and repetition

  ghost predicate OnlyMerges(events: seq<Event>) {
    forall e :: e in events ==> e.Announce? || e.QueryResponse?
  }

  lemma {:induction false} MergesAccumulate(before: set<PeerId>, events: seq<Event>, h: Hash, p: PeerId)
    requires OnlyMerges(events)
    ensures Holds(before, events, h, p) <==> p in before || exists e :: e in events && Claims(e, h, p)
  {
    if events != [] {
      var n := |events| - 1;
      MergesAccumulate(before, events[..n], h, p);
      assert forall e :: e in events <==> e in events[..n] || e == events[n];
    }
  }

  /** Two orders, or repetitions, of the same announcements and merges end in the same sets. */
  lemma MergesConverge(index: Index, a: seq<Event>, b: seq<Event>, h: Hash)
    requires OnlyMerges(a) && OnlyMerges(b)
    requires forall e :: e in a <==> e in b
    ensures Holders(ApplyAll(index, a), h) == Holders(ApplyAll(index, b), h)
  {
    forall p
      ensures p in Holders(ApplyAll(index, a), h) <==> p in Holders(ApplyAll(index, b), h)
    {
      RunRefinesSets(index, a, h, p);
      RunRefinesSets(index, b, h, p);
      MergesAccumulate(Holders(index, h), a, h, p);
      MergesAccumulate(Holders(index, h), b, h, p);
    }
  }

  ghost predicate SameSets(a: Index, b: Index) {
    forall h :: Holders(a, h) == Holders(b, h)
  }

  /**
    With withdrawals in the run the order matters: a merge and a withdrawal lead to the same
    sets in both orders exactly when the merge claims nothing that the withdrawal withdraws.
   */
  lemma WithdrawalCommutes(index: Index, merge: Event, withdrawal: Event)
    requires merge.Announce? || merge.QueryResponse?
    requires withdrawal.Delete? || withdrawal.Sweep?
    ensures SameSets(Apply(Apply(index, merge), withdrawal), Apply(Apply(index, withdrawal), merge)) <==>
            forall h, p :: Claims(merge, h, p) ==> !Withdraws(withdrawal, h, p)
  {
    var ab, ba := Apply(Apply(index, merge), withdrawal), Apply(Apply(index, withdrawal), merge);
    forall h, p
      ensures p in Holders(ab, h) <==>
              (Claims(merge, h, p) || p in Holders(index, h)) && !Withdraws(withdrawal, h, p)
      ensures p in Holders(ba, h) <==>
              Claims(merge, h, p) || (p in Holders(index, h) && !Withdraws(withdrawal, h, p))
    {
      ApplyHolders(index, merge, h, p);
      ApplyHolders(Apply(index, merge), withdrawal, h, p);
      ApplyHolders(index, withdrawal, h, p);
      ApplyHolders(Apply(index, withdrawal), merge, h, p);
    }
    if SameSets(ab, ba) {
      forall h, p | Claims(merge, h, p)
        ensures !Withdraws(withdrawal, h, p)
      {
        assert Holders(ab, h) == Holders(ba, h);
        assert p in Holders(ba, h);
      }
    }
    if forall h, p :: Claims(merge, h, p) ==> !Withdraws(withdrawal, h, p) {
      forall h
        ensures Holders(ab, h) == Holders(ba, h)
      {
        assert forall p :: p in Holders(ab, h) <==> p in Holders(ba, h);
      }
    }
  }

  /** A sweep leaves no removed peer in any list, and everybody else where they were. */
  lemma SweepIsComplete(index: Index, gone: set<PeerId>)
    ensures Swept(index, gone).Keys == index.Keys
    ensures forall h :: Holders(Swept(index, gone), h) == Holders(index, h) - gone
  {
    forall h
      ensures Holders(Swept(index, gone), h) == Holders(index, h) - gone
    {
      WithoutKeeps(PeersOf(index, h), gone);
    }
  }
}
