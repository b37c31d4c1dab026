/** The Bloom filter of pkg/filter: a fixed array of BitSize bytes, each 0 or not,
    and a list of seeds; an element's indices are the hash of its bytes under each
    seed. The hash is murmur3's 64-bit hash with a seed, which is not part of this
    model: it is a function given to the filter, with values that index the array. */
module BloomFilter {

  /** `1 << 10 << 10`. */
  const BitSize: nat := 0x10_0000

  /** Go's byte. */
  type Byte = b: int | 0 <= b < 256

  /** Go's uint32. */
  type U32 = x: int | 0 <= x < 0x1_0000_0000

  /** Every index lies inside the bit array. */
  predicate InBounds(idxs: seq<int>, size: nat)
  {
    forall k :: 0 <= k < |idxs| ==> 0 <= idxs[k] < size
  }

  /** Every index holds a non-zero byte: what `Contains` answers. */
  predicate AllSet(bits: seq<Byte>, idxs: seq<int>)
    requires InBounds(idxs, |bits|)
  {
    forall k :: 0 <= k < |idxs| ==> bits[idxs[k]] != 0
  }

  /** The array after `Put` has visited the indices in order: every zero among
      them becomes 1. */
  function SetBits(bits: seq<Byte>, idxs: seq<int>): (r: seq<Byte>)
    requires InBounds(idxs, |bits|)
    ensures |r| == |bits|
  {
    if |idxs| == 0 then bits
    else
      var r := SetBits(bits, idxs[..|idxs| - 1]);
      var j := idxs[|idxs| - 1];
      if r[j] == 0 then r[j := 1] else r
  }

  /** The array after `Delete` has visited the indices in order: each is cleared,
      and the walk stops at the first index already 0. */
  function ClearBits(bits: seq<Byte>, idxs: seq<int>): (r: seq<Byte>)
    requires InBounds(idxs, |bits|)
    ensures |r| == |bits|
    decreases |idxs|
  {
    if |idxs| == 0 || bits[idxs[0]] == 0 then bits
    else ClearBits(bits[idxs[0] := 0], idxs[1..])
  }

  /** `Put` byte by byte: an index of the element that held 0 now holds 1, every
      other byte is as it was. */
  lemma {:induction false} SetBitsExactly(bits: seq<Byte>, idxs: seq<int>, i: int)
    requires InBounds(idxs, |bits|) && 0 <= i < |bits|
    ensures SetBits(bits, idxs)[i] == if i in idxs && bits[i] == 0 then 1 else bits[i]
  {
    if |idxs| > 0 {
      var front := idxs[..|idxs| - 1];
      SetBitsExactly(bits, front, i);
      assert idxs == front + [idxs[|idxs| - 1]];
    }
  }

  /** After `Put`, every index of the element holds a non-zero byte. */
  lemma PutThenContains(bits: seq<Byte>, idxs: seq<int>)
    requires InBounds(idxs, |bits|)
    ensures AllSet(SetBits(bits, idxs), idxs)
  {
    forall k | 0 <= k < |idxs|
      ensures SetBits(bits, idxs)[idxs[k]] != 0
    {
      SetBitsExactly(bits, idxs, idxs[k]);
    }
  }

  /** `Put` only raises bytes, and only at the element's indices: other bytes and
      bytes already non-zero are left alone. */
  lemma PutOnlyRaises(bits: seq<Byte>, idxs: seq<int>, i: int)
    requires InBounds(idxs, |bits|) && 0 <= i < |bits|
    ensures i !in idxs ==> SetBits(bits, idxs)[i] == bits[i]
    ensures bits[i] != 0 ==> SetBits(bits, idxs)[i] == bits[i]
    ensures SetBits(bits, idxs)[i] != 0 || bits[i] == 0
  {
    SetBitsExactly(bits, idxs, i);
  }

  /** Putting the same element twice is putting it once. */
  lemma PutIdempotent(bits: seq<Byte>, idxs: seq<int>)
    requires InBounds(idxs, |bits|)
    ensures SetBits(SetBits(bits, idxs), idxs) == SetBits(bits, idxs)
  {
    var once := SetBits(bits, idxs);
    forall i | 0 <= i < |bits|
      ensures SetBits(once, idxs)[i] == once[i]
    {
      SetBitsExactly(bits, idxs, i);
      SetBitsExactly(once, idxs, i);
    }
  }

  /** `Delete` only clears bytes, and only at the element's indices. */
  lemma {:induction false} DeleteOnlyClears(bits: seq<Byte>, idxs: seq<int>, i: int)
    requires InBounds(idxs, |bits|) && 0 <= i < |bits|
    ensures i !in idxs ==> ClearBits(bits, idxs)[i] == bits[i]
    ensures ClearBits(bits, idxs)[i] == bits[i] || ClearBits(bits, idxs)[i] == 0
    decreases |idxs|
  {
    if |idxs| > 0 && bits[idxs[0]] != 0 {
      DeleteOnlyClears(bits[idxs[0] := 0], idxs[1..], i);
      assert i !in idxs ==> i !in idxs[1..] && i != idxs[0];
    }
  }

  /** A byte that is 0 before `Delete` is 0 after it. */
  lemma {:induction false} ClearKeepsZero(bits: seq<Byte>, idxs: seq<int>, i: int)
    requires InBounds(idxs, |bits|) && 0 <= i < |bits| && bits[i] == 0
    ensures ClearBits(bits, idxs)[i] == 0
    decreases |idxs|
  {
    if |idxs| > 0 && bits[idxs[0]] != 0 {
      ClearKeepsZero(bits[idxs[0] := 0], idxs[1..], i);
    }
  }

  /** After `Delete` of an element, with at least one seed, `Contains` of it is
      false: the first index is 0 whether the walk cleared it or stopped at it. */
  lemma DeleteThenAbsent(bits: seq<Byte>, idxs: seq<int>)
    requires InBounds(idxs, |bits|) && |idxs| > 0
    ensures !AllSet(ClearBits(bits, idxs), idxs)
  {
    var j := idxs[0];
    if bits[j] != 0 {
      ClearKeepsZero(bits[j := 0], idxs[1..], j);
    }
    assert ClearBits(bits, idxs)[idxs[0]] == 0;
  }

  class BloomFilter64 {
    const bitArr: array<Byte>
    const seeds: seq<U32>
    /** murmur3.Sum64WithSeed. */
    const hash: (seq<Byte>, U32) -> int

    /** The array has BitSize bytes and every hash value indexes it. */
    ghost predicate Valid()
    {
      bitArr.Length == BitSize && forall d, s :: 0 <= hash(d, s) < BitSize
    }

    /** The indices of an element, one per seed, in seed order. */
    function Indices(data: seq<Byte>): (idxs: seq<int>)
      requires Valid()
      ensures |idxs| == |seeds| && InBounds(idxs, BitSize)
      ensures forall k :: 0 <= k < |seeds| ==> idxs[k] == hash(data, seeds[k])
    {
      seq(|seeds|, k requires 0 <= k < |seeds| => hash(data, seeds[k]))
    }

    /** `NewBloomFilter64`: an all-zero array and the seeds as given. */
    constructor (seeds: seq<U32>, hash: (seq<Byte>, U32) -> int)
      requires forall d, s :: 0 <= hash(d, s) < BitSize
      ensures Valid() && fresh(bitArr)
      ensures this.seeds == seeds && this.hash == hash
      ensures forall i :: 0 <= i < BitSize ==> bitArr[i] == 0
    {
      this.seeds := seeds;
      this.hash := hash;
      bitArr := new Byte[BitSize](_ => 0);
    }

    /** `Contains`: true iff each index of the element holds a non-zero byte. */
    method Contains(data: seq<Byte>) returns (found: bool)
      requires Valid()
      ensures found <==> AllSet(bitArr[..], Indices(data))
      ensures found <==> forall k :: 0 <= k < |seeds| ==> bitArr[hash(data, seeds[k])] != 0
    {
      ghost var idxs := Indices(data);
      for k := 0 to |seeds|
        invariant AllSet(bitArr[..], idxs[..k])
      {
        var idx := hash(data, seeds[k]);
        if bitArr[idx] == 0 {
          assert bitArr[..][idxs[k]] == 0;
          return false;
        }
      }
      assert idxs[..|seeds|] == idxs;
      return true;
    }

    /** `Put`: visits the element's indices in seed order, writing 1 where it finds 0. */
    method Put(data: seq<Byte>)
      requires Valid()
      modifies bitArr
      ensures bitArr[..] == SetBits(old(bitArr[..]), Indices(data))
    {
      ghost var idxs := Indices(data);
      for k := 0 to |seeds|
        invariant bitArr[..] == SetBits(old(bitArr[..]), idxs[..k])
      {
        assert idxs[..k + 1][..k] == idxs[..k];
        var idx := hash(data, seeds[k]);
        if bitArr[idx] == 0 {
          bitArr[idx] := 1;
        }
      }
      assert idxs[..|seeds|] == idxs;
    }

    /** `Delete`: visits the element's indices in seed order, clearing each, and
        returns at the first one already 0. */
    method Delete(data: seq<Byte>)
      requires Valid()
      modifies bitArr
      ensures bitArr[..] == ClearBits(old(bitArr[..]), Indices(data))
    {
      ghost var idxs := Indices(data);
      for k := 0 to |seeds|
        invariant ClearBits(bitArr[..], idxs[k..]) == ClearBits(old(bitArr[..]), idxs)
      {
        var idx := hash(data, seeds[k]);
        if bitArr[idx] == 0 {
          return;
        }
        bitArr[idx] := 0;
        assert idxs[k..][1..] == idxs[k + 1..];
      }
    }
  }
}
