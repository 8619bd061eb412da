/**
 The 64-bit signed integer arithmetic the clock is written in: the range of
 `sf::Int64` (and of the Windows `LARGE_INTEGER` counter values), the
 two's-complement wrap of an overflowing product, and C++ integer division,
 which truncates toward zero where Dafny's `/` is Euclidean.
 */
module FixedWidth {

  const Int64Min: int := -0x8000_0000_0000_0000
  const Int64Max: int := 0x7FFF_FFFF_FFFF_FFFF
  const TwoTo64: int := 0x1_0000_0000_0000_0000

  /** True iff x is representable as a signed 64-bit integer. */
  predicate InInt64(x: int) {
    Int64Min <= x <= Int64Max
  }

  /** The signed 64-bit value an out-of-range result wraps to: the unique
      representable value congruent to x modulo 2^64. */
  function Wrap(x: int): (r: int)
    ensures InInt64(r)
    ensures (x - r) % TwoTo64 == 0
    ensures InInt64(x) ==> r == x
  {
    (x - Int64Min) % TwoTo64 + Int64Min
  }

  /** C++ `n / d` for a positive divisor: the quotient rounded toward zero.
      For n >= 0 it is the largest q with q * d <= n; for n < 0 it is the
      negation of the quotient of -n. */
  function TruncDiv(n: int, d: int): (q: int)
    requires 0 < d
    ensures 0 <= n ==> 0 <= q <= n && q * d <= n < (q + 1) * d
    ensures n < 0 ==> n <= q <= 0 && (-q) * d <= -n < (-q + 1) * d
  {
    if 0 <= n then EuclideanBounds(n, d); n / d
    else EuclideanBounds(-n, d); -((-n) / d)
  }

  /** Dafny's division of a non-negative number by a positive one brackets
      the dividend between two consecutive multiples of the divisor. */
  lemma EuclideanBounds(n: int, d: int)
    requires 0 <= n && 0 < d
    ensures 0 <= n / d <= n
    ensures (n / d) * d <= n < (n / d + 1) * d
  {
    var q, r := n / d, n % d;
    assert n == q * d + r && 0 <= r < d;
    assert (q + 1) * d == q * d + d;
    if q < 0 {
      MulMonotone(q + 1, 0, d);
      assert false;
    }
    MulMonotone(1, d, q);
  }

  /** A number bracketed between q * d and (q + 1) * d has quotient q. */
  lemma DivUnique(n: int, d: int, q: int)
    requires 0 < d
    requires q * d <= n < (q + 1) * d
    ensures n / d == q
  {
    var k := n / d;
    assert n == k * d + n % d;
    assert (q + 1) * d == q * d + d;
    assert (k + 1) * d == k * d + d;
    if k < q {
      MulMonotone(k + 1, q, d);
      assert false;
    } else if k > q {
      MulMonotone(q + 1, k, d);
      assert false;
    }
  }

  lemma MulMonotone(a: int, b: int, d: int)
    requires a <= b && 0 <= d
    ensures a * d <= b * d
  {
    assert b * d - a * d == (b - a) * d;
  }
}
