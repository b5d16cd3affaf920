/** Go's fixed-width integer arithmetic, written out over Dafny's unbounded `int`. */
module GoInts {

  const MinInt64: int := -0x8000_0000_0000_0000
  const MaxInt64: int := 0x7FFF_FFFF_FFFF_FFFF
  const TwoTo64: int := 0x1_0000_0000_0000_0000

  /** The values a Go `int` / `int64` can hold (the repository is built for 64-bit targets). */
  predicate IsInt64(x: int)
  {
    MinInt64 <= x <= MaxInt64
  }

  function Abs(x: int): nat
  {
    if x < 0 then -x else x
  }

  /** Two's-complement wrap-around of an exact result into `int64`, as Go's
      `+`, `-` and `*` do silently on overflow. */
  function Wrap64(x: int): (r: int)
    ensures IsInt64(r)
    ensures (x - r) % TwoTo64 == 0
    ensures IsInt64(x) ==> r == x
  {
    (x - MinInt64) % TwoTo64 + MinInt64
  }

  /** Go's integer `/`: the quotient truncated toward zero (Dafny's own `/` is Euclidean). */
  function Quot(a: int, b: int): (q: int)
    requires b != 0
    ensures Abs(a - q * b) < Abs(b)
    ensures a - q * b == 0 || (a - q * b < 0 <==> a < 0)
  {
    if a >= 0 && b > 0 then a / b
    else if a >= 0 then -(a / -b)
    else if b > 0 then -((-a) / b)
    else (-a) / (-b)
  }

  /** The Euclidean quotient and Go's quotient agree on non-negative dividends
      and positive divisors, the only case the callers of `Quot` rely on. */
  lemma QuotOfNonNegative(a: int, b: int)
    requires a >= 0 && b > 0
    ensures Quot(a, b) == a / b
  {
  }

  /** Truncating toward zero halves a negative odd number up, not down:
      the two quotients part ways as soon as the dividend is negative. */
  lemma QuotRoundsTowardZero()
    ensures Quot(-3, 2) == -1 && -3 / 2 == -2
  {
  }
}
