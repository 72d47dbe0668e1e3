/**
  The contract of the erasure code, and one code that meets it.

  The program takes its Reed-Solomon code from a library. Here a code is a pair of functions;
  the one law the file store relies on is that any k shards of a codeword, in their own slots,
  determine the codeword.
 */
module ErasureCode {
  import opened Results

  datatype Codec = Codec(
    // total number of shards, data shards -> all shards
    encode: (nat, seq<Bytes>) -> seq<Bytes>,
    // number of data shards, slots -> all shards
    reconstruct: (nat, seq<Option<Bytes>>) -> Option<seq<Bytes>>)

  ghost predicate EqualLengths(shards: seq<Bytes>, length: nat) {
    forall i :: 0 <= i < |shards| ==> |shards[i]| == length
  }

  function Present(slots: seq<Option<Bytes>>): (n: nat)
    ensures n <= |slots|
  {
    if slots == [] then 0
    else Present(slots[..|slots| - 1]) + (if slots[|slots| - 1].Some? then 1 else 0)
  }

  /** Some of the shards of `codeword`, each in its own slot. */
  ghost predicate SlotsOf(slots: seq<Option<Bytes>>, codeword: seq<Bytes>) {
    && |slots| == |codeword|
    && forall i :: 0 <= i < |slots| && slots[i].Some? ==> slots[i].value == codeword[i]
  }

  ghost predicate IsCodeword(codeword: seq<Bytes>, data: seq<Bytes>, total: nat, length: nat) {
    |codeword| == total && |data| <= total && codeword[..|data|] == data && EqualLengths(codeword, length)
  }

  /** The law, for k data shards out of n. */
  ghost predicate Lawful(codec: Codec, k: nat, n: nat) {
    forall data: seq<Bytes>, length: nat ::
      |data| == k && length > 0 && EqualLengths(data, length) ==>
        var codeword := codec.encode(n, data);
        && IsCodeword(codeword, data, n, length)
        && forall slots :: SlotsOf(slots, codeword) && Present(slots) >= k ==>
             codec.reconstruct(k, slots) == Some(codeword)
  }

  // ----- one lawful code: two data shards and their byte sums modulo 256

  function Plus(a: Bytes, b: Bytes): Bytes {
    seq(|a|, j requires 0 <= j < |a| => AddByte(a[j], if j < |b| then b[j] else 0))
  }

  function Minus(a: Bytes, b: Bytes): Bytes {
    seq(|a|, j requires 0 <= j < |a| => SubtractByte(a[j], if j < |b| then b[j] else 0))
  }

  function AddByte(a: byte, b: byte): byte {
    var s: int := a as int + b as int;
    s % 256
  }

  function SubtractByte(a: byte, b: byte): byte {
    var s: int := a as int - b as int;
    s % 256
  }

  function EncodeSum(n: nat, data: seq<Bytes>): seq<Bytes> {
    if |data| == 2 then data + [Plus(data[0], data[1])] else data
  }

  function ReconstructSum(k: nat, slots: seq<Option<Bytes>>): Option<seq<Bytes>> {
    if |slots| != 3 then None
    else match (slots[0], slots[1], slots[2])
      case (Some(a), Some(b), _) => Some([a, b, Plus(a, b)])
      case (None, Some(b), Some(p)) => Some([Minus(p, b), b, p])
      case (Some(a), None, Some(p)) => Some([a, Minus(p, a), p])
      case _ => None
  }

  const SUM_CODE: Codec := Codec((n, data) => EncodeSum(n, data), (k, slots) => ReconstructSum(k, slots))

  lemma MinusInvertsPlus(a: Bytes, b: Bytes)
    requires |a| == |b|
    ensures Minus(Plus(a, b), b) == a && Minus(Plus(a, b), a) == b
  {
  }

  lemma PresentOfThree(slots: seq<Option<Bytes>>)
    requires |slots| == 3
    ensures Present(slots) == (if slots[0].Some? then 1 else 0) + (if slots[1].Some? then 1 else 0)
                              + (if slots[2].Some? then 1 else 0)
  {
    var one, two := slots[..1], slots[..2];
    assert one[..0] == [] && two[..1] == one;
    assert Present(one) == if slots[0].Some? then 1 else 0;
    assert Present(two) == Present(one) + if slots[1].Some? then 1 else 0;
  }

  /** The law can be met: the sum code meets it for two shards out of three. */
  lemma SumCodeIsLawful()
    ensures Lawful(SUM_CODE, 2, 3)
  {
    forall data: seq<Bytes>, length: nat | |data| == 2 && length > 0 && EqualLengths(data, length)
      ensures var codeword := SUM_CODE.encode(3, data);
              && IsCodeword(codeword, data, 3, length)
              && forall slots :: SlotsOf(slots, codeword) && Present(slots) >= 2 ==>
                   SUM_CODE.reconstruct(2, slots) == Some(codeword)
    {
      var codeword := SUM_CODE.encode(3, data);
      assert codeword == [data[0], data[1], Plus(data[0], data[1])];
      MinusInvertsPlus(data[0], data[1]);
      forall slots | SlotsOf(slots, codeword) && Present(slots) >= 2
        ensures SUM_CODE.reconstruct(2, slots) == Some(codeword)
      {
        PresentOfThree(slots);
      }
    }
  }
}
