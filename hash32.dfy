/** MurmurHash3 x86_32 under the fixed seed 0x1234abcd (`sum32`), and the
    digest byte picker `hashFunc` of the consistent-hash package.

    The functions below are the reference definition of the hash, block by
    block; `Sum32` is the imperative code (address loop, `h1*4 + h1`, the
    fall-through tail switch) proved equal to it. */
module Murmur32 {

  // The constants C321 = 0xcc9e2d51 and C322 = 0x1b873593 are written as literals
  // where they are multiplied: the solver multiplies by a literal far more cheaply
  // than by a named constant.
  const Seed: bv32 := 0x1234abcd

  type Bytes = seq<bv8>

  /** The 32-bit word that four bytes hold in little-endian order, which is what a
      `*(*uint32)` load reads on x86. */
  function Word(b0: bv8, b1: bv8, b2: bv8, b3: bv8): bv32
  {
    (b0 as bv32) | ((b1 as bv32) << 8) | ((b2 as bv32) << 16) | ((b3 as bv32) << 24)
  }

  // Every multiplication of the algorithm is a step function of its own: the
  // solver then matches the imperative code against these definitions step by
  // step, where two multiplications in one expression would be compared bit by bit.

  /** `bits.RotateLeft32(x, 15)` and `bits.RotateLeft32(x, 13)`. */
  function Rotl15(x: bv32): bv32 { (x << 15) | (x >> 17) }
  function Rotl13(x: bv32): bv32 { (x << 13) | (x >> 19) }

  function MulC1(k: bv32): bv32 { k * 0xcc9e2d51 }
  function MulC2(k: bv32): bv32 { k * 0x1b873593 }
  function Times5(h: bv32): bv32 { h * 5 }

  /** The scrambling of one key word: multiply by C321, rotate left 15, multiply by C322. */
  function MixK(k: bv32): bv32
  {
    MulC2(Rotl15(MulC1(k)))
  }

  /** Folding one scrambled block into the running hash. */
  function MixH(h: bv32, k: bv32): bv32
  {
    Times5(Rotl13(h ^ k)) + 0xe6546b64
  }

  /** The j-th complete 4-byte block of data. */
  function BlockWord(data: Bytes, j: nat): bv32
    requires 4 * j + 4 <= |data|
  {
    Word(data[4 * j], data[4 * j + 1], data[4 * j + 2], data[4 * j + 3])
  }

  /** The running hash after the first j complete blocks, starting from Seed. */
  function Blocks(data: Bytes, j: nat): bv32
    requires 4 * j <= |data|
  {
    if j == 0 then Seed else MixH(Blocks(data, j - 1), MixK(BlockWord(data, j - 1)))
  }

  /** The 1 to 3 trailing bytes as a little-endian word, missing bytes read as zero. */
  function TailWord(t: Bytes): bv32
    requires 0 < |t| < 4
  {
    if |t| == 1 then Word(t[0], 0, 0, 0)
    else if |t| == 2 then Word(t[0], t[1], 0, 0)
    else Word(t[0], t[1], t[2], 0)
  }

  /** Xoring a scrambled tail word into the running hash. */
  function MixIn(h: bv32, k: bv32): bv32 { h ^ k }

  /** A non-empty tail is scrambled once and xored in; an empty tail leaves h alone. */
  function MixTail(h: bv32, t: Bytes): bv32
    requires |t| < 4
  {
    if |t| == 0 then h else MixIn(h, MixK(TailWord(t)))
  }

  /** The five steps of the avalanche finaliser fmix32. */
  function XorShift16(h: bv32): bv32 { h ^ (h >> 16) }
  function XorShift13(h: bv32): bv32 { h ^ (h >> 13) }
  function MulFirst(h: bv32): bv32 { h * 0x85ebca6b }
  function MulSecond(h: bv32): bv32 { h * 0xc2b2ae35 }

  /** The avalanche finaliser fmix32. */
  function Fmix(h: bv32): bv32
  {
    XorShift16(MulSecond(XorShift13(MulFirst(XorShift16(h)))))
  }

  /** `uint32(len(data))`: the length truncated to 32 bits. */
  function LenWord(n: nat): bv32
  {
    (n % 0x1_0000_0000) as bv32
  }

  /** MurmurHash3_x86_32(data, Seed). */
  function Hash(data: Bytes): bv32
  {
    var n := |data| / 4;
    Fmix(MixTail(Blocks(data, n), data[4 * n..]) ^ LenWord(|data|))
  }

  /** The source's `sum32`: an address walk over the complete blocks, then a
      fall-through switch on the tail length, then the finaliser. Each phase is
      a method of its own below, so that the solver meets one phase at a time. */
  method Sum32(data: Bytes) returns (h1: bv32)
    ensures h1 == Hash(data)
  {
    h1 := Seed;
    var nblocks := |data| / 4;
    var p := 0;
    var p1 := 4 * nblocks;
    ghost var j := 0;
    while p < p1
      invariant p == 4 * j && 0 <= j <= nblocks
      invariant h1 == Blocks(data, j)
    {
      var k1 := Word(data[p], data[p + 1], data[p + 2], data[p + 3]);
      BlocksNext(data, j, p);
      h1 := MixBlock(h1, k1);
      p, j := p + 4, j + 1;
    }
    assert j == nblocks;
    ghost var blocks := h1;
    var tail := data[nblocks * 4..];
    h1 := MixTailSwitch(h1, tail);
    ghost var beforeLen := h1;
    h1 := Finalize(h1, LenWord(|data|));
    HashIs(data, j, blocks, tail, beforeLen);
  }

  /** Hash, unfolded at the phase boundaries of `sum32`. */
  lemma HashIs(data: Bytes, n: nat, blocks: bv32, tail: Bytes, h: bv32)
    requires n == |data| / 4 && blocks == Blocks(data, n) && tail == data[n * 4..]
    requires |tail| < 4 && h == MixTail(blocks, tail)
    ensures Hash(data) == Fmix(h ^ LenWord(|data|))
  {
    assert 4 * n == n * 4;
  }

  /** One more complete block at byte offset p folds into the running hash. */
  lemma BlocksNext(data: Bytes, j: nat, p: nat)
    requires p == 4 * j && p + 4 <= |data|
    ensures Blocks(data, j + 1)
         == MixH(Blocks(data, j), MixK(Word(data[p], data[p + 1], data[p + 2], data[p + 3])))
  {
    var w := BlockWord(data, j);
    assert w == Word(data[p], data[p + 1], data[p + 2], data[p + 3]);
    assert Blocks(data, j + 1) == MixH(Blocks(data, j), MixK(w));
  }

  /** One iteration of the block loop of `sum32`. */
  method MixBlock(h: bv32, k: bv32) returns (h1: bv32)
    ensures h1 == MixH(h, MixK(k))
  {
    var k1 := ScrambleK(k);
    h1 := h;
    h1 := h1 ^ k1;
    h1 := Rotl13(h1);
    ghost var h2 := h1;
    h1 := h1 * 4 + h1 + 0xe6546b64;
    Times5Is(h2);
    MixHIs(h, k1);
  }

  /** `k1 *= C321; k1 = bits.RotateLeft32(k1, 15); k1 *= C322`, which `sum32`
      applies to every block and to the tail. */
  method ScrambleK(k: bv32) returns (k1: bv32)
    ensures k1 == MixK(k)
  {
    k1 := k;
    k1 := k1 * 0xcc9e2d51;
    MulC1Is(k);
    k1 := Rotl15(k1);
    ghost var k3 := k1;
    k1 := k1 * 0x1b873593;
    MulC2Is(k3);
    MixKIs(k);
  }

  /** The fall-through switch of `sum32` on the tail length: the tail bytes are
      xored into k1 (`TailKey`), and a non-empty tail is then scrambled and mixed in. */
  method MixTailSwitch(h: bv32, tail: Bytes) returns (h1: bv32)
    requires |tail| < 4
    ensures h1 == MixTail(h, tail)
  {
    h1 := h;
    var k1 := TailKey(tail);
    // `len(tail) & 3` is `len(tail)` itself, as the tail is shorter than 4.
    var r := |tail| % 4;
    assert r == |tail|;
    if r == 3 || r == 2 || r == 1 {
      k1 := ScrambleK(k1);
      h1 := h1 ^ k1;
      MixInIs(h, k1);
      MixTailIs(h, tail);
    } else {
      MixTailEmpty(h, tail);
    }
  }

  /** The cases 3, 2 and 1 of the switch up to `k1 ^= uint32(tail[0])`. */
  method TailKey(tail: Bytes) returns (k1: bv32)
    requires |tail| < 4
    ensures 0 < |tail| ==> k1 == TailWord(tail)
  {
    k1 := 0;
    var r := |tail| % 4;
    assert r == |tail|;
    if r == 3 {
      k1 := k1 ^ ((tail[2] as bv32) << 16);
    }
    if r == 3 || r == 2 {
      k1 := k1 ^ ((tail[1] as bv32) << 8);
    }
    if r == 3 || r == 2 || r == 1 {
      k1 := k1 ^ (tail[0] as bv32);
      TailIsWord(tail);
    }
  }

  lemma MixTailIs(h: bv32, t: Bytes)
    requires 0 < |t| < 4
    ensures MixTail(h, t) == MixIn(h, MixK(TailWord(t)))
  {
  }

  lemma MixTailEmpty(h: bv32, t: Bytes)
    requires |t| == 0
    ensures MixTail(h, t) == h
  {
  }

  /** The length mix-in and the fmix32 steps that end `sum32`. */
  method Finalize(h: bv32, lenWord: bv32) returns (h1: bv32)
    ensures h1 == Fmix(h ^ lenWord)
  {
    h1 := h;
    h1 := h1 ^ lenWord;
    ghost var h0 := h1;
    h1 := h1 ^ (h1 >> 16);
    XorShift16Is(h0);
    ghost var h2 := h1;
    h1 := h1 * 0x85ebca6b;
    MulFirstIs(h2);
    ghost var h3 := h1;
    h1 := h1 ^ (h1 >> 13);
    XorShift13Is(h3);
    ghost var h4 := h1;
    h1 := h1 * 0xc2b2ae35;
    MulSecondIs(h4);
    ghost var h5 := h1;
    h1 := h1 ^ (h1 >> 16);
    XorShift16Is(h5);
  }

  // The unfoldings below are applied to the caller's own variables, so that the
  // solver finds each multiplication of the code in the definitions as it stands.

  lemma MixKIs(k: bv32) ensures MixK(k) == MulC2(Rotl15(MulC1(k))) {}
  lemma MixHIs(h: bv32, k: bv32) ensures MixH(h, k) == Times5(Rotl13(h ^ k)) + 0xe6546b64 {}
  lemma MixInIs(h: bv32, k: bv32) ensures MixIn(h, k) == h ^ k {}
  lemma MulC1Is(k: bv32) ensures MulC1(k) == k * 0xcc9e2d51 {}
  lemma MulC2Is(k: bv32) ensures MulC2(k) == k * 0x1b873593 {}
  lemma XorShift16Is(h: bv32) ensures XorShift16(h) == h ^ (h >> 16) {}
  lemma XorShift13Is(h: bv32) ensures XorShift13(h) == h ^ (h >> 13) {}
  lemma MulFirstIs(h: bv32) ensures MulFirst(h) == h * 0x85ebca6b {}
  lemma MulSecondIs(h: bv32) ensures MulSecond(h) == h * 0xc2b2ae35 {}

  /** `h1*4 + h1`, as the source writes it, is `h1*5` modulo 2^32. */
  lemma Times5Is(h: bv32)
    ensures Times5(h) == h * 4 + h
  {
    assert h * 4 + h == h * 5;
  }

  /** The tail word in the form the fall-through switch computes it. */
  lemma TailIsWord(t: Bytes)
    requires 0 < |t| < 4
    ensures TailWord(t) == (if |t| == 3 then
        ((0 ^ ((t[2] as bv32) << 16)) ^ ((t[1] as bv32) << 8)) ^ (t[0] as bv32)
      else if |t| == 2 then (0 ^ ((t[1] as bv32) << 8)) ^ (t[0] as bv32)
      else 0 ^ (t[0] as bv32))
  {
    if |t| == 3 {
      TailXorIsWord(t[0], t[1], t[2]);
      assert TailWord(t) == Word(t[0], t[1], t[2], 0);
    } else if |t| == 2 {
      TailXorIsWord(t[0], t[1], 0);
      assert TailWord(t) == Word(t[0], t[1], 0, 0);
    } else {
      TailXorIsWord(t[0], 0, 0);
      assert TailWord(t) == Word(t[0], 0, 0, 0);
    }
  }

  /** With xor, as the switch assembles them, the non-overlapping tail bytes give
      the same word as with or. */
  lemma TailXorIsWord(b0: bv8, b1: bv8, b2: bv8)
    ensures ((0 ^ ((b2 as bv32) << 16)) ^ ((b1 as bv32) << 8)) ^ (b0 as bv32) == Word(b0, b1, b2, 0)
    ensures b2 == 0 ==> (0 ^ ((b1 as bv32) << 8)) ^ (b0 as bv32) == Word(b0, b1, 0, 0)
    ensures b1 == 0 && b2 == 0 ==> 0 ^ (b0 as bv32) == Word(b0, 0, 0, 0)
  {
  }

  /** The empty input hashes to fmix32(Seed ^ 0): no block, no tail, length 0. */
  lemma HashEmpty()
    ensures Hash([]) == Fmix(Seed ^ 0)
  {
    var empty: Bytes := [];
    assert empty[0 * 4..] == [];
    MixTailEmpty(Seed, []);
    HashIs(empty, 0, Seed, [], Seed);
    assert LenWord(0) == 0;
  }

  /** The block pass reads only the complete blocks it covers. */
  lemma {:induction false} BlocksPrefix(data: Bytes, ext: Bytes, j: nat)
    requires 4 * j <= |data|
    ensures Blocks(data + ext, j) == Blocks(data, j)
  {
    if j > 0 {
      BlocksPrefix(data, ext, j - 1);
      assert BlockWord(data + ext, j - 1) == BlockWord(data, j - 1);
    }
  }

  /** Appending one more complete block folds exactly that block into the running hash. */
  lemma BlocksAppend(data: Bytes, b: Bytes)
    requires |data| % 4 == 0 && |b| == 4
    ensures Blocks(data + b, |data| / 4 + 1)
         == MixH(Blocks(data, |data| / 4), MixK(Word(b[0], b[1], b[2], b[3])))
  {
    var n := |data| / 4;
    BlocksPrefix(data, b, n);
    assert BlockWord(data + b, n) == Word(b[0], b[1], b[2], b[3]);
  }

  /** The inverses of the finaliser's steps: 0xa5cb9243 and 0x7ed1b41d are the
      multiplicative inverses of the two odd constants modulo 2^32. */
  function UnXorShift13(h: bv32): bv32 { h ^ (h >> 13) ^ (h >> 26) }
  function UnMulFirst(h: bv32): bv32 { h * 0xa5cb9243 }
  function UnMulSecond(h: bv32): bv32 { h * 0x7ed1b41d }

  /** The inverse of the finaliser, its steps undone in reverse order. */
  function Unfmix(h: bv32): bv32
  {
    XorShift16(UnMulFirst(UnXorShift13(UnMulSecond(XorShift16(h)))))
  }

  // Each step inverse is first stated on the bare bit-vector expressions, where the
  // solver decides it directly, and then lifted to the named steps.

  lemma XorShift16Involution(x: bv32)
    ensures XorShift16(XorShift16(x)) == x
  {
    XorShift16Bits(x);
    assert XorShift16(x) == x ^ (x >> 16);
    assert XorShift16(XorShift16(x)) == (x ^ (x >> 16)) ^ ((x ^ (x >> 16)) >> 16);
  }

  lemma XorShift16Bits(x: bv32)
    ensures (x ^ (x >> 16)) ^ ((x ^ (x >> 16)) >> 16) == x
  {
  }

  lemma XorShift13RoundTrip(x: bv32)
    ensures UnXorShift13(XorShift13(x)) == x
  {
    XorShift13Bits(x);
    assert XorShift13(x) == x ^ (x >> 13);
    assert UnXorShift13(XorShift13(x))
        == (x ^ (x >> 13)) ^ ((x ^ (x >> 13)) >> 13) ^ ((x ^ (x >> 13)) >> 26);
  }

  lemma XorShift13Bits(x: bv32)
    ensures (x ^ (x >> 13)) ^ ((x ^ (x >> 13)) >> 13) ^ ((x ^ (x >> 13)) >> 26) == x
  {
  }

  lemma MulFirstRoundTrip(x: bv32)
    ensures UnMulFirst(MulFirst(x)) == x
  {
    MulFirstBits(x);
    assert MulFirst(x) == x * 0x85ebca6b;
    assert UnMulFirst(x * 0x85ebca6b) == (x * 0x85ebca6b) * 0xa5cb9243;
  }

  lemma MulFirstBits(x: bv32)
    ensures (x * 0x85ebca6b) * 0xa5cb9243 == x
  {
  }

  lemma MulSecondRoundTrip(x: bv32)
    ensures UnMulSecond(MulSecond(x)) == x
  {
    MulSecondBits(x);
    assert MulSecond(x) == x * 0xc2b2ae35;
    assert UnMulSecond(x * 0xc2b2ae35) == (x * 0xc2b2ae35) * 0x7ed1b41d;
  }

  lemma MulSecondBits(x: bv32)
    ensures (x * 0xc2b2ae35) * 0x7ed1b41d == x
  {
  }

  /** fmix32 is a permutation of the 32-bit words: the finaliser loses no information. */
  lemma FmixRoundTrip(h: bv32)
    ensures Unfmix(Fmix(h)) == h
  {
    var h1 := XorShift16(h);
    var h2 := MulFirst(h1);
    var h3 := XorShift13(h2);
    var h4 := MulSecond(h3);
    XorShift16Involution(h4);
    MulSecondRoundTrip(h3);
    XorShift13RoundTrip(h2);
    MulFirstRoundTrip(h1);
    XorShift16Involution(h);
  }

  /** Two inputs whose pre-finalisation states differ never collide in the finaliser. */
  lemma FmixInjective(a: bv32, b: bv32)
    ensures Fmix(a) == Fmix(b) <==> a == b
  {
    FmixRoundTrip(a);
    FmixRoundTrip(b);
  }

  /** The source's `hashFunc`, as written: bytes 4n, 4n+1 and 4n+2 of the digest
      go to bits 0-23, but the top byte is read from index 3+n, not 3+4n. */
  function HashFunc(digest: Bytes, nTime: int): (r: bv32)
    requires 0 <= nTime && 3 + nTime < |digest| && 2 + 4 * nTime < |digest|
    ensures (r & 0xFF) as bv8 == digest[4 * nTime]
    ensures ((r >> 8) & 0xFF) as bv8 == digest[1 + 4 * nTime]
    ensures ((r >> 16) & 0xFF) as bv8 == digest[2 + 4 * nTime]
    ensures (r >> 24) as bv8 == digest[3 + nTime]
  {
    ((digest[3 + nTime] as bv32) << 24) | ((digest[2 + nTime * 4] as bv32) << 16)
      | ((digest[1 + nTime * 4] as bv32) << 8) | (digest[0 + nTime * 4] as bv32)
  }

  /** The intended picker: the nTime-th little-endian 4-byte word of the digest. */
  function DigestWord(digest: Bytes, nTime: nat): (r: bv32)
    requires 4 * nTime + 4 <= |digest|
    ensures (r & 0xFF) as bv8 == digest[4 * nTime]
    ensures ((r >> 8) & 0xFF) as bv8 == digest[4 * nTime + 1]
    ensures ((r >> 16) & 0xFF) as bv8 == digest[4 * nTime + 2]
    ensures (r >> 24) as bv8 == digest[4 * nTime + 3]
  {
    Word(digest[4 * nTime], digest[4 * nTime + 1], digest[4 * nTime + 2], digest[4 * nTime + 3])
  }

  /** Both pickers agree on the first word ... */
  lemma HashFuncFirstWord(digest: Bytes)
    requires |digest| >= 4
    ensures HashFunc(digest, 0) == DigestWord(digest, 0)
  {
  }

  /** ... and disagree from the second word on: on the digest 0, 1, ..., 15 the
      as-written picker puts byte 4 in bits 24-31 where byte 7 belongs. */
  lemma HashFuncSecondWordDiffers()
    ensures var d: Bytes := [0, 1, 2, 3, 4, 5, 6, 7, 8, 9, 10, 11, 12, 13, 14, 15];
      HashFunc(d, 1) == 0x04060504 && DigestWord(d, 1) == 0x07060504
  {
  }
}
