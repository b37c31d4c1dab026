/** The rate limiters of pkg/limiter: a token bucket and a leaky bucket, each a
    small state machine over Go int64 fields. The clock reading `now` is a
    parameter: it is `time.Now().Nanosecond()`, the nanosecond within the current
    second, so it lies in [0, 10^9) and falls back to 0 each second. */
module Limiter {
  import opened GoInt

  const NANOS_PER_SECOND: int := 1_000_000_000

  /** What `time.Now().Nanosecond()` can return. */
  type Nanos = x: int | 0 <= x < NANOS_PER_SECOND

  /** `nil`, or `PoolFullErr`. */
  datatype Outcome = Ok | PoolFull

  /** `(now - last) / int64(rate)` in int64: the whole periods of `rate`
      nanoseconds since `last`, rounded toward zero. */
  function Periods(now: Nanos, last: Int64, rate: Int64): (p: Int64)
    requires rate > 0
    ensures 0 <= last <= now ==> 0 <= p && p * rate <= now - last < (p + 1) * rate
    ensures 0 <= now < last < NANOS_PER_SECOND ==> p <= 0 && (p - 1) * rate < now - last <= p * rate
  {
    TruncDiv(Wrap64(now - last), rate)
  }

  /** A reading after the second rolled over, and so smaller than the last one,
      counts zero or a negative number of periods, down to almost a second's worth:
      the bucket drains instead of filling. */
  lemma NoPeriodsAcrossSecond(now: Nanos, last: Nanos, rate: Int64)
    requires rate > 0 && now < last
    ensures Periods(now, last, rate) <= 0
    ensures -NANOS_PER_SECOND < Periods(now, last, rate) * rate
  {
  }

  /** A bucket last tried at 900000000 ns into a second and tried again at
      100000000 ns into the next counts -8000000 periods of 100 ns, so an empty
      bucket refuses; a refusal keeps `lastTry`, so refusals go on until the
      reading passes it again. */
  lemma AcrossSecondRefuses()
    ensures Periods(100_000_000, 900_000_000, 100) == -8_000_000
    ensures TokensLeft(0, Periods(100_000_000, 900_000_000, 100)) < 0
  {
    assert Periods(100_000_000, 900_000_000, 100) == -8_000_000;
  }

  // ---------------------------------------------------------------------------
  // Token bucket

  /** The tokens left after a `Try` of the token bucket: the refill, minus the
      token taken, in int64. */
  function TokensLeft(size: Int64, fill: Int64): (r: Int64)
    ensures InInt64(size + fill) && InInt64(size + fill - 1) ==> r == size + fill - 1
  {
    Wrap64(Wrap64(size + fill) - 1)
  }

  /** The tokens left as evidently intended: the refill is capped at the bucket's
      limit before the token is taken. */
  function CappedTokensLeft(size: Int64, fill: Int64, limit: Int64): (r: Int64)
    ensures InInt64(size + fill - 1) && size + fill <= limit ==> r == size + fill - 1
    ensures InInt64(size + fill) && size + fill > limit > -TWO_63 ==> r == limit - 1
  {
    var tokens := Wrap64(size + fill);
    Wrap64((if tokens > limit then limit else tokens) - 1)
  }

  /** Refilling the bucket and taking a token do not overflow int64. */
  predicate NoWrap(size: Int64, fill: Int64)
  {
    InInt64(size + fill) && InInt64(size + fill - 1)
  }

  /** With the cap, a successful `Try` leaves fewer tokens than the limit. */
  lemma CappedBelowLimit(size: Int64, fill: Int64, limit: Int64)
    requires NoWrap(size, fill) && limit > -TWO_63
    ensures CappedTokensLeft(size, fill, limit) < limit
  {
  }

  /** As written, the limit is never consulted: a bucket of limit 1000 that refills
      one token every 100 ns, tried 999999900 ns after its last try, is left
      holding 9999998 tokens. */
  lemma TokensExceedLimit()
    ensures TokensLeft(0, Periods(999_999_900, 0, 100)) == 9_999_998
    ensures CappedTokensLeft(0, Periods(999_999_900, 0, 100), 1000) == 999
  {
    assert Periods(999_999_900, 0, 100) == 9_999_999;
  }

  class TokenBucket {
    var lastTry: Int64
    const limit: Int64
    var size: Int64
    const rate: Int64

    /** `NewTokenBucket`: an empty bucket whose last try is now. */
    constructor (lm: Int64, r: Int64, now: Nanos)
      requires r > 0
      ensures lastTry == now && limit == lm && size == 0 && rate == r
    {
      lastTry, limit, size, rate := now, lm, 0, r;
    }

    /** `Try`: refuses when the refilled bucket holds no token; otherwise takes
        one and records the time. */
    method Try(now: Nanos) returns (err: Outcome)
      requires rate > 0
      modifies this
      ensures err == PoolFull <==> TokensLeft(old(size), Periods(now, old(lastTry), rate)) < 0
      ensures err == PoolFull ==> size == old(size) && lastTry == old(lastTry)
      ensures err == Ok ==> size == TokensLeft(old(size), Periods(now, old(lastTry), rate)) && lastTry == now
      ensures err == Ok ==> size >= 0
    {
      var fillPieces := TruncDiv(Wrap64(now - lastTry), rate);
      if Wrap64(Wrap64(size + fillPieces) - 1) < 0 {
        return PoolFull;
      }
      size := Wrap64(Wrap64(size + fillPieces) - 1);
      lastTry := now;
      err := Ok;
    }

    /** `Try` with the refill capped at the limit, as evidently intended. */
    method TryCapped(now: Nanos) returns (err: Outcome)
      requires rate > 0
      modifies this
      ensures err == PoolFull <==> CappedTokensLeft(old(size), Periods(now, old(lastTry), rate), limit) < 0
      ensures err == PoolFull ==> size == old(size) && lastTry == old(lastTry)
      ensures err == Ok ==> size == CappedTokensLeft(old(size), Periods(now, old(lastTry), rate), limit)
      ensures err == Ok ==> lastTry == now && 0 <= size
      ensures err == Ok && limit > -TWO_63 && NoWrap(old(size), Periods(now, old(lastTry), rate)) ==>
        size < limit
    {
      var fillPieces := TruncDiv(Wrap64(now - lastTry), rate);
      var left := CappedTokensLeft(size, fillPieces, limit);
      if left < 0 {
        return PoolFull;
      }
      if NoWrap(size, fillPieces) && limit > -TWO_63 {
        CappedBelowLimit(size, fillPieces, limit);
      }
      size := left;
      lastTry := now;
      err := Ok;
    }
  }

  /** A bucket created now refuses a `Try` at the same instant. */
  lemma SameInstantRefused(now: Nanos, rate: Int64)
    requires rate > 0
    ensures TokensLeft(0, Periods(now, now, rate)) < 0
  {
    assert Periods(now, now, rate) == 0;
  }

  // ---------------------------------------------------------------------------
  // Leaky bucket

  /** The load of the leaky bucket once the periods since its last leak have
      drained out of it, in int64. */
  function Drained(size: Int64, pieces: Int64): (d: Int64)
    ensures InInt64(size - pieces) ==> d == size - pieces
  {
    Wrap64(size - pieces)
  }

  /** `limit - (size - pieces) < 1`: the drained bucket has no room left. Away
      from int64 overflow, that is a drained load of at least the limit. */
  predicate LeakyFull(size: Int64, limit: Int64, pieces: Int64): (full: bool)
    ensures InInt64(size - pieces) && InInt64(limit - (size - pieces)) ==>
      (full <==> size - pieces >= limit)
  {
    Wrap64(limit - Drained(size, pieces)) < 1
  }

  /** Away from int64 overflow, an accepted request leaves the load within the limit. */
  lemma LeakyWithinLimit(size: Int64, limit: Int64, pieces: Int64)
    requires -TWO_63 / 4 <= size < TWO_63 / 4 && -TWO_63 / 4 <= limit < TWO_63 / 4
    requires -TWO_63 / 4 <= pieces < TWO_63 / 4
    requires !LeakyFull(size, limit, pieces)
    ensures Wrap64(Drained(size, pieces) + 1) <= limit
    ensures Wrap64(Drained(size, pieces) + 1) == size - pieces + 1
  {
    assert Drained(size, pieces) == size - pieces;
    assert Wrap64(limit - (size - pieces)) == limit - (size - pieces);
  }

  /** A leaky bucket holding handlers of type H. */
  class LeakyBucket<H> {
    var size: Int64
    const limit: Int64
    var lastLeaky: Int64
    const rate: Int64
    var reqs: seq<H>

    /** The struct literal: the fields as given. */
    constructor (size: Int64, limit: Int64, lastLeaky: Int64, rate: Int64, reqs: seq<H>)
      ensures this.size == size && this.limit == limit && this.lastLeaky == lastLeaky
      ensures this.rate == rate && this.reqs == reqs
    {
      this.size, this.limit, this.lastLeaky, this.rate, this.reqs := size, limit, lastLeaky, rate, reqs;
    }

    /** `Try`: refuses when the drained bucket has no room; otherwise adds one to
        the load, queues the request's handler at the tail and records the time. */
    method Try(now: Nanos, handler: H) returns (err: Outcome)
      requires rate > 0
      modifies this
      ensures err == PoolFull <==> LeakyFull(old(size), limit, Periods(now, old(lastLeaky), rate))
      ensures err == PoolFull ==> size == old(size) && lastLeaky == old(lastLeaky) && reqs == old(reqs)
      ensures err == Ok ==> size == Wrap64(Drained(old(size), Periods(now, old(lastLeaky), rate)) + 1)
      ensures err == Ok ==> lastLeaky == now && reqs == old(reqs) + [handler]
    {
      var pieces := TruncDiv(Wrap64(now - lastLeaky), rate);
      if Wrap64(limit - Wrap64(size - pieces)) < 1 {
        return PoolFull;
      }
      size := Wrap64(Wrap64(size - pieces) + 1);
      reqs := reqs + [handler];
      lastLeaky := now;
      err := Ok;
    }

    /** One tick of `Serve`: takes the oldest handler off the queue. An empty queue
        is a Go runtime panic. */
    method Dequeue() returns (handler: H)
      requires |reqs| > 0
      modifies this
      ensures handler == old(reqs)[0] && reqs == old(reqs)[1..]
      ensures size == old(size) && lastLeaky == old(lastLeaky)
    {
      handler := reqs[0];
      reqs := reqs[1..];
    }
  }
}
