/** Go integer semantics that differ from Dafny's unbounded, Euclidean ones:
    the two's-complement wrap-around of int64 and the truncating division of
    Go's `/` operator. */
module GoInt {

  const TWO_63: int := 0x8000_0000_0000_0000
  const TWO_64: int := 0x1_0000_0000_0000_0000

  /** Go's int64. */
  type Int64 = x: int | -TWO_63 <= x < TWO_63

  predicate InInt64(x: int) { -TWO_63 <= x < TWO_63 }

  /** The int64 that a Go addition or subtraction yields for the mathematical value x. */
  function Wrap64(x: int): (r: Int64)
    ensures (r - x) % TWO_64 == 0
    ensures InInt64(x) ==> r == x
  {
    var m := x % TWO_64;
    if m >= TWO_63 then m - TWO_64 else m
  }

  /** Go's `a / b` on integers: the quotient rounded toward zero, so that the
      remainder `a - q * b` has the sign of a and is smaller than b in magnitude. */
  function TruncDiv(a: int, b: int): (q: int)
    requires b > 0
    ensures a >= 0 ==> 0 <= q && 0 <= a - q * b < b
    ensures a < 0 ==> q <= 0 && -b < a - q * b <= 0
    ensures a >= 0 ==> q <= a
    ensures a < 0 ==> a <= q
  {
    if a >= 0 then
      NatDiv(a, b);
      a / b
    else
      NatDiv(-a, b);
      -((-a) / b)
  }

  /** Euclidean division of a natural number, stated without `%`. */
  lemma NatDiv(n: int, b: int)
    requires n >= 0 && b > 0
    ensures n / b >= 0 && 0 <= n - (n / b) * b < b
    ensures n / b <= n
  {
    var q, r := n / b, n % b;
    assert n == q * b + r && 0 <= r < b;
    if q < 0 {
      assert q * b <= -b by { NegTimesPos(q, b); }
      assert false;
    }
    assert q <= q * b by { PosTimesPos(q, b); }
  }

  lemma PosTimesPos(q: int, b: int)
    requires q >= 0 && b >= 1
    ensures q <= q * b
  {
    assert q * b == q * (b - 1) + q;
    assert q * (b - 1) >= 0;
  }

  lemma NegTimesPos(q: int, b: int)
    requires q <= -1 && b > 0
    ensures q * b <= -b
    decreases -q
  {
    assert q * b == (q + 1) * b - b;
    if q < -1 {
      NegTimesPos(q + 1, b);
    }
  }
}
