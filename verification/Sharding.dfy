/**
  Sharding and reconstruction: split, pad and join are concrete, the code behind them is any
  lawful one. `ReconstructData` places shards by their position in the list it is given.
 */
module Sharding {
  import opened Results
  import opened ErasureCode

  type HashFunction = Bytes -> string

  datatype Shard = Shard(index: int, data: Bytes, hash: string, size: nat)

  datatype Error =
    | EmptyData
    | RequiredExceedsTotal
    | RequiredNotPositive
    | NoShards
    | InsufficientShards
    | ReconstructFailed
    | JoinFailed

  // ----- splitting and joining

  /** Bytes per shard: the size divided by the number of data shards, rounded up. */
  function PerShard(size: nat, k: nat): (p: nat)
    requires k >= 1
    ensures size <= p * k < size + k
  {
    (size + k - 1) / k
  }

  function Padded(data: Bytes, k: nat): (p: Bytes)
    requires k >= 1
    ensures |p| == PerShard(|data|, k) * k && data <= p
  {
    data + seq(PerShard(|data|, k) * k - |data|, _ => 0)
  }

  /** The first n slices of length `per`. */
  function Slices(data: Bytes, per: nat, n: nat): (s: seq<Bytes>)
    requires per * n <= |data|
    ensures |s| == n && EqualLengths(s, per)
  {
    if n == 0 then []
    else
      SliceBounds(per, n);
      Slices(data, per, n - 1) + [data[per * (n - 1)..per * n]]
  }

  lemma SliceBounds(per: nat, n: nat)
    requires n >= 1
    ensures per * n == per * (n - 1) + per
  {
  }

  function Split(data: Bytes, k: nat): (s: seq<Bytes>)
    requires k >= 1
    ensures |s| == k && EqualLengths(s, PerShard(|data|, k))
  {
    Slices(Padded(data, k), PerShard(|data|, k), k)
  }

  function Flatten(shards: seq<Bytes>): Bytes {
    if shards == [] then [] else Flatten(shards[..|shards| - 1]) + shards[|shards| - 1]
  }

  /** Joining fails when the first k shards hold fewer bytes than asked for. */
  function Join(shards: seq<Bytes>, k: nat, outputSize: nat): Option<Bytes> {
    if |shards| < k || |Flatten(shards[..k])| < outputSize then None
    else Some(Flatten(shards[..k])[..outputSize])
  }

  lemma {:induction false} FlattenSlices(data: Bytes, per: nat, n: nat)
    requires per * n <= |data|
    ensures Flatten(Slices(data, per, n)) == data[..per * n]
  {
    if n > 0 {
      SliceBounds(per, n);
      FlattenSlices(data, per, n - 1);
      FlattenAppend(Slices(data, per, n - 1), data[per * (n - 1)..per * n]);
      SliceAppend(data, per * (n - 1), per * n);
    }
  }

  lemma FlattenAppend(shards: seq<Bytes>, last: Bytes)
    ensures Flatten(shards + [last]) == Flatten(shards) + last
  {
    assert (shards + [last])[..|shards|] == shards;
  }

  lemma SliceAppend(data: Bytes, a: nat, b: nat)
    requires a <= b <= |data|
    ensures data[..a] + data[a..b] == data[..b]
  {
  }

  /** Splitting with padding and joining at the original size are inverse. */
  lemma JoinInvertsSplit(data: Bytes, k: nat, codeword: seq<Bytes>)
    requires k >= 1 && |codeword| >= k && codeword[..k] == Split(data, k)
    ensures Join(codeword, k, |data|) == Some(data)
  {
    var padded := Padded(data, k);
    FlattenSlices(padded, PerShard(|data|, k), k);
    assert padded[..|padded|] == padded;
  }

  // ----- sharding

  function Wrapped(hash: HashFunction, shards: seq<Bytes>): (r: seq<Shard>)
    ensures |r| == |shards|
    ensures forall i :: 0 <= i < |r| ==> r[i] == Shard(i + 1, shards[i], hash(shards[i]), |shards[i]|)
  {
    seq(|shards|, i requires 0 <= i < |shards| => Shard(i + 1, shards[i], hash(shards[i]), |shards[i]|))
  }

  function Sharded(codec: Codec, hash: HashFunction, data: Bytes, total: int, required: int):
    Result<seq<Shard>, Error>
  {
    if data == [] then Failure(EmptyData)
    else if required > total then Failure(RequiredExceedsTotal)
    else if required <= 0 then Failure(RequiredNotPositive)
    else Success(Wrapped(hash, codec.encode(total, Split(data, required))))
  }

  /** What is refused, in this order; everything else is sharded. */
  lemma ShardedExactly(codec: Codec, hash: HashFunction, data: Bytes, total: int, required: int)
    ensures var r := Sharded(codec, hash, data, total, required);
            && (r == Failure(EmptyData) <==> data == [])
            && (r == Failure(RequiredExceedsTotal) <==> data != [] && required > total)
            && (r == Failure(RequiredNotPositive) <==> data != [] && required <= total && required <= 0)
            && (r.Success? <==> data != [] && 1 <= required <= total)
  {
  }

  method ShardData(codec: Codec, hash: HashFunction, data: Bytes, total: int, required: int)
    returns (r: Result<seq<Shard>, Error>)
    requires total <= 256
    ensures r == Sharded(codec, hash, data, total, required)
  {
    if |data| == 0 {
      return Failure(EmptyData);
    }
    if required > total {
      return Failure(RequiredExceedsTotal);
    }
    if required <= 0 {
      return Failure(RequiredNotPositive);
    }
    var shards := codec.encode(total, Split(data, required));
    var out := new Shard[|shards|](_ => Shard(0, [], "", 0));
    for i := 0 to |shards|
      invariant out[..i] == Wrapped(hash, shards)[..i]
    {
      out[i] := Shard(i + 1, shards[i], hash(shards[i]), |shards[i]|);
    }
    assert out[..] == out[..|shards|] == Wrapped(hash, shards);
    return Success(out[..]);
  }

  // ----- reconstruction

  /** Slot i receives the i-th shard of the list, whatever that shard's index is. */
  function Placed(shards: seq<Shard>, total: nat): (slots: seq<Option<Bytes>>)
    ensures |slots| == total
    ensures forall i :: 0 <= i < total ==>
      slots[i] == if i < |shards| && |shards[i].data| > 0 then Some(shards[i].data) else None
  {
    seq(total, i requires 0 <= i < total =>
      if i < |shards| && |shards[i].data| > 0 then Some(shards[i].data) else None)
  }

  function Reconstructed(codec: Codec, shards: seq<Shard>, total: int, required: int, outputSize: nat):
    Result<Bytes, Error>
  {
    if shards == [] then Failure(NoShards)
    else if required > total then Failure(RequiredExceedsTotal)
    else if required <= 0 then Failure(RequiredNotPositive)
    else if Present(Placed(shards, total)) < required then Failure(InsufficientShards)
    else match codec.reconstruct(required, Placed(shards, total))
      case None => Failure(ReconstructFailed)
      case Some(raw) =>
        match Join(raw, required, outputSize)
        case None => Failure(JoinFailed)
        case Some(output) => Success(output)
  }

  /** A shard without data counts as missing wherever it is placed. */
  ghost predicate HasData(shard: Shard) {
    |shard.data| > 0
  }

  /** The positions among the first `total` that hold a shard with data. */
  ghost function PositionsWithData(shards: seq<Shard>, total: nat): set<nat> {
    set i: nat | i < total && i < |shards| && HasData(shards[i])
  }

  lemma {:induction false} PresentCounts(slots: seq<Option<Bytes>>)
    ensures Present(slots) == |set i: nat | i < |slots| && slots[i].Some?|
  {
    if slots != [] {
      var n := |slots| - 1;
      var front := slots[..n];
      PresentCounts(front);
      var all, before := (set i: nat | i < |slots| && slots[i].Some?), (set i: nat | i < |front| && front[i].Some?);
      assert all == if slots[n].Some? then before + {n} else before;
    }
  }

  /** What reconstruction refuses before it asks the code, in this order. */
  lemma ReconstructedRefusesExactly(codec: Codec, shards: seq<Shard>, total: int, required: int, outputSize: nat)
    ensures var r := Reconstructed(codec, shards, total, required, outputSize);
            && (r == Failure(NoShards) <==> shards == [])
            && (r == Failure(RequiredExceedsTotal) <==> shards != [] && required > total)
            && (r == Failure(RequiredNotPositive) <==> shards != [] && required <= total && required <= 0)
            && (r == Failure(InsufficientShards) <==>
                shards != [] && 1 <= required <= total && |PositionsWithData(shards, total)| < required)
  {
    if shards != [] && 1 <= required <= total {
      var slots := Placed(shards, total);
      PresentCounts(slots);
      assert PositionsWithData(shards, total) == set i: nat | i < |slots| && slots[i].Some?;
    }
  }

  method ReconstructData(codec: Codec, shards: seq<Shard>, total: int, required: int, outputSize: nat)
    returns (r: Result<Bytes, Error>)
    requires total <= 256
    ensures r == Reconstructed(codec, shards, total, required, outputSize)
  {
    if |shards| == 0 {
      return Failure(NoShards);
    }
    if required > total {
      return Failure(RequiredExceedsTotal);
    }
    if required <= 0 {
      return Failure(RequiredNotPositive);
    }
    ghost var slots := Placed(shards, total);
    var raw := new Option<Bytes>[total](_ => None);
    var present := 0;
    for i := 0 to total
      invariant raw[..i] == slots[..i]
      invariant present == Present(slots[..i])
    {
      if i < |shards| && |shards[i].data| > 0 {
        raw[i] := Some(shards[i].data);
        present := present + 1;
      } else {
        raw[i] := None;
      }
      assert slots[..i + 1][..i] == slots[..i];
    }
    assert raw[..] == raw[..total] == slots[..total] == slots;
    if present < required {
      return Failure(InsufficientShards);
    }
    var reconstructed := codec.reconstruct(required, raw[..]);
    if reconstructed == None {
      return Failure(ReconstructFailed);
    }
    var output := Join(reconstructed.value, required, outputSize);
    if output == None {
      return Failure(JoinFailed);
    }
    return Success(output.value);
  }

  // ----- position against index

  /** A list as the callers build it: some of the shards 1, ..., total, in increasing order. */
  ghost predicate Compacted(shards: seq<Shard>, total: nat) {
    && (forall i :: 0 <= i < |shards| ==> 1 <= shards[i].index <= total)
    && (forall i, j :: 0 <= i < j < |shards| ==> shards[i].index < shards[j].index)
  }

  /** Every shard with data stands at the position of its index. */
  ghost predicate InOwnSlots(shards: seq<Shard>) {
    forall i :: 0 <= i < |shards| && HasData(shards[i]) ==> shards[i].index == i + 1
  }

  function DataOfIndex(shards: seq<Shard>, index: int): Option<Bytes> {
    if shards == [] then None
    else
      var last := shards[|shards| - 1];
      if last.index == index then (if |last.data| > 0 then Some(last.data) else None)
      else DataOfIndex(shards[..|shards| - 1], index)
  }

  /** Slot i receives the shard whose index is i + 1. */
  ghost function PlacedByIndex(shards: seq<Shard>, total: nat): (slots: seq<Option<Bytes>>)
    ensures |slots| == total
    ensures forall i :: 0 <= i < total ==> slots[i] == DataOfIndex(shards, i + 1)
  {
    seq(total, i requires 0 <= i < total => DataOfIndex(shards, i + 1))
  }

  lemma {:induction false} DataOfIndexFinds(shards: seq<Shard>, j: nat)
    requires j < |shards|
    requires forall i :: j < i < |shards| ==> shards[i].index != shards[j].index
    ensures DataOfIndex(shards, shards[j].index) == if HasData(shards[j]) then Some(shards[j].data) else None
  {
    if j < |shards| - 1 {
      DataOfIndexFinds(shards[..|shards| - 1], j);
    }
  }

  lemma {:induction false} DataOfIndexMisses(shards: seq<Shard>, index: int)
    requires forall i :: 0 <= i < |shards| ==> shards[i].index != index || !HasData(shards[i])
    ensures DataOfIndex(shards, index) == None
  {
    if shards != [] {
      DataOfIndexMisses(shards[..|shards| - 1], index);
    }
  }

  /** Increasing indices from 1 on are at least their positions, and grow at least as fast. */
  lemma {:induction false} IndexGrows(shards: seq<Shard>, total: nat, i: nat, j: nat)
    requires Compacted(shards, total) && i <= j < |shards|
    ensures shards[j].index - shards[i].index >= j - i
    ensures shards[i].index >= i + 1
    decreases i + j
  {
    if i < j {
      IndexGrows(shards, total, i, j - 1);
    } else if i > 0 {
      IndexGrows(shards, total, 0, i - 1);
    }
  }

  /**
    A shard with data behind its own position leaves its slot to a shard that is displaced too, and
    so on to the end of the list, where a slot stays empty.
   */
  lemma {:induction false} DisplacedShard(shards: seq<Shard>, total: nat, i: nat)
    requires Compacted(shards, total) && i < |shards| && HasData(shards[i]) && shards[i].index != i + 1
    ensures Placed(shards, total) != PlacedByIndex(shards, total)
    decreases |shards| - i
  {
    IndexGrows(shards, total, i, i);
    var p := shards[i].index - 1;
    DataOfIndexFinds(shards, i);
    assert PlacedByIndex(shards, total)[p] == Some(shards[i].data);
    if p < |shards| && HasData(shards[p]) {
      IndexGrows(shards, total, i, p);
      DisplacedShard(shards, total, p);
    } else {
      assert Placed(shards, total)[p] == None;
    }
  }

  /** Placement by position is placement by index exactly when every shard with data is in its own slot. */
  lemma PlacementAgreesExactly(shards: seq<Shard>, total: nat)
    requires Compacted(shards, total)
    ensures Placed(shards, total) == PlacedByIndex(shards, total) <==> InOwnSlots(shards)
  {
    if InOwnSlots(shards) {
      forall i | 0 <= i < total
        ensures Placed(shards, total)[i] == PlacedByIndex(shards, total)[i]
      {
        if i < |shards| && HasData(shards[i]) {
          DataOfIndexFinds(shards, i);
        } else {
          DataOfIndexMisses(shards, i + 1);
        }
      }
    } else {
      var i :| 0 <= i < |shards| && HasData(shards[i]) && shards[i].index != i + 1;
      DisplacedShard(shards, total, i);
    }
  }

  // ----- reconstruction from a prefix

  lemma {:induction false} PresentPrefix(slots: seq<Option<Bytes>>, m: nat)
    requires m <= |slots|
    requires forall i :: 0 <= i < |slots| ==> (slots[i].Some? <==> i < m)
    ensures Present(slots) == m
  {
    if slots != [] {
      PresentPrefix(slots[..|slots| - 1], if m == |slots| then m - 1 else m);
    }
  }

  /** Any prefix with at least `required` shards of a sharded file reconstructs the file. */
  lemma PrefixReconstructs(codec: Codec, hash: HashFunction, data: Bytes, total: nat, required: nat, m: nat)
    requires data != [] && 1 <= required <= total && Lawful(codec, required, total)
    requires required <= m <= total
    ensures Sharded(codec, hash, data, total, required).Success?
    ensures var shards := Sharded(codec, hash, data, total, required).value;
            && |shards| == total
            && Reconstructed(codec, shards[..m], total, required, |data|) == Success(data)
  {
    var parts, per := Split(data, required), PerShard(|data|, required);
    assert per > 0;
    var codeword := codec.encode(total, parts);
    assert IsCodeword(codeword, parts, total, per);
    var shards := Wrapped(hash, codeword);
    var slots := Placed(shards[..m], total);
    PresentPrefix(slots, m);
    assert SlotsOf(slots, codeword);
    assert codec.reconstruct(required, slots) == Some(codeword);
    JoinInvertsSplit(data, required, codeword);
  }
}
