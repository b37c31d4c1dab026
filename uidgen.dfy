/** The snowflake identifiers of pkg/uidgen: a process-wide sequence counter that
    runs through 0..999, and a 64-bit layout of the milliseconds since the epoch,
    the machine number and the sequence value. The clock reading is a parameter. */
module UidGen {
  import opened GoInt

  /** 2008-08-08 08:00:00 in Unix milliseconds. */
  const StartEpoch: int := 1218182400000
  const MachineNum: int := 16
  /** The sequence counter wraps when it reaches this value. */
  const SequenceSize: int := 1000

  /** The value the counter yields from state s: it is reset first at 1000. */
  function Num(s: int): (num: int)
    ensures 0 <= s <= SequenceSize ==> 0 <= num < SequenceSize
    ensures num == s || (s == SequenceSize && num == 0)
  {
    if s == SequenceSize then 0 else s
  }

  /** `time.Now().UnixNano()/1000000`: milliseconds, rounded toward zero. */
  function Millis(unixNano: Int64): (millis: int)
    ensures 0 <= unixNano ==> millis == unixNano / 1000000
    ensures unixNano < 0 ==> millis == -(-(unixNano as int) / 1000000)
  {
    TruncDiv(unixNano, 1000000)
  }

  /** `uint64(millis) - StartEpoch` in uint64: the difference modulo 2^64. */
  function Elapsed(millis: int): bv64
  {
    ((millis - StartEpoch) % TWO_64) as bv64
  }

  /** The bit layout: elapsed milliseconds from bit 22 up, the machine number in
      bits 10 to 21, the sequence value in bits 0 to 9. */
  function Pack(elapsed: bv64, num: bv64): bv64
  {
    (elapsed << 22) | (16 << 10) | num
  }

  lemma PackIs(elapsed: bv64, num: bv64)
    ensures (elapsed << 22) | (16 << 10) | num == Pack(elapsed, num)
  {
  }

  /** The identifier for a clock reading in milliseconds and a sequence value. */
  function Compose(millis: int, num: nat): bv64
    requires num < SequenceSize
  {
    Pack(Elapsed(millis), num as bv64)
  }

  /** The fields can be read back: the low 10 bits are the sequence value, the next
      12 the machine number, and the rest the elapsed milliseconds shifted left by
      22, losing their top 22 bits. */
  lemma PackFields(elapsed: bv64, num: bv64)
    requires num < 1024
    ensures Pack(elapsed, num) & 0x3ff == num
    ensures (Pack(elapsed, num) >> 10) & 0xfff == 16
    ensures Pack(elapsed, num) & 0xffff_ffff_ffc0_0000 == elapsed << 22
  {
    assert (elapsed << 22) & 0x3f_ffff == 0;
    assert num & 0xffff_ffff_ffff_fc00 == 0;
  }

  /** The fields of an identifier, in terms of the clock and the sequence value. */
  lemma ComposeFields(millis: int, num: nat)
    requires num < SequenceSize
    ensures Compose(millis, num) & 0x3ff == num as bv64
    ensures (Compose(millis, num) >> 10) & 0xfff == MachineNum as bv64
    ensures Compose(millis, num) & 0xffff_ffff_ffc0_0000 == Elapsed(millis) << 22
  {
    SmallValue(num);
    PackFields(Elapsed(millis), num as bv64);
  }

  lemma SmallValue(num: nat)
    requires num < SequenceSize
    ensures num as bv64 < 1024
  {
  }

  /** Identifiers laid out in the same millisecond with different sequence values
      differ. */
  lemma PackInjective(elapsed: bv64, a: bv64, b: bv64)
    requires a < 1024 && b < 1024 && a != b
    ensures Pack(elapsed, a) != Pack(elapsed, b)
  {
    PackFields(elapsed, a);
    PackFields(elapsed, b);
  }

  /** The sequence values of k calls from counter state s. */
  function Run(s: int, k: nat): (nums: seq<int>)
    ensures |nums| == k
    decreases k
  {
    if k == 0 then [] else [Num(s)] + Run(Num(s) + 1, k - 1)
  }

  /** From state j, the k calls up to the wrap yield j, j + 1, ..., 999; from a
      fresh counter (j = 0), the first 1000 calls yield 0..999 in order. */
  lemma {:induction false} RunUpToWrap(j: nat, k: nat)
    requires j + k == SequenceSize
    ensures forall i :: 0 <= i < k ==> Run(j, k)[i] == j + i
    decreases k
  {
    if k > 0 {
      RunUpToWrap(j + 1, k - 1);
      var rest := Run(j + 1, k - 1);
      assert Run(j, k) == [j] + rest;
      forall i | 1 <= i < k
        ensures Run(j, k)[i] == j + i
      {
        assert rest[i - 1] == j + 1 + (i - 1);
      }
    }
  }

  /** The calls after the first 1000 start over from 0. */
  lemma ThousandCycle(k: nat)
    ensures Run(0, SequenceSize + k) == Run(0, SequenceSize) + Run(0, k)
  {
    RunSplit(0, SequenceSize, k);
    RunState(0, SequenceSize);
    WrapRestarts(k);
  }

  /** A counter at 1000 behaves as a fresh one. */
  lemma WrapRestarts(k: nat)
    ensures Run(SequenceSize, k) == Run(0, k)
  {
    if k > 0 {
      assert Run(SequenceSize, k) == [0] + Run(1, k - 1);
    }
  }

  /** The counter state after k calls from s. */
  function After(s: int, k: nat): int
    decreases k
  {
    if k == 0 then s else After(Num(s) + 1, k - 1)
  }

  lemma {:induction false} RunSplit(s: int, a: nat, b: nat)
    ensures Run(s, a + b) == Run(s, a) + Run(After(s, a), b)
    decreases a
  {
    if a > 0 {
      RunSplit(Num(s) + 1, a - 1, b);
      assert Run(s, a + b) == [Num(s)] + Run(Num(s) + 1, a - 1 + b);
    }
  }

  /** After the 1000 calls from a fresh counter, the counter holds 1000. */
  lemma {:induction false} RunState(j: nat, k: nat)
    requires j <= SequenceSize && k == SequenceSize - j
    ensures After(j, k) == SequenceSize
    decreases k
  {
    if k > 0 {
      RunState(j + 1, k - 1);
    }
  }

  /** The process-wide counter `Sequence`. */
  class IdGenerator {
    var sequence: int

    ghost predicate Valid()
      reads this
    {
      0 <= sequence <= SequenceSize
    }

    /** The counter as the program starts: 0. */
    constructor ()
      ensures sequence == 0 && Valid()
    {
      sequence := 0;
    }

    /** `SnowFlake`: resets the counter at 1000, takes its value and increments
        it, then lays out the identifier. */
    method SnowFlake(unixNano: Int64) returns (id: bv64)
      requires Valid()
      modifies this
      ensures Valid()
      ensures sequence == Num(old(sequence)) + 1
      ensures id == Compose(Millis(unixNano), Num(old(sequence)))
    {
      if sequence == SequenceSize {
        sequence := 0;
      }
      var num := sequence;
      sequence := sequence + 1;
      var millis := TruncDiv(unixNano, 1000000);
      var elapsed, n := Elapsed(millis), num as bv64;
      id := (elapsed << 22) | (16 << 10) | n;
      PackIs(elapsed, n);
    }
  }
}
