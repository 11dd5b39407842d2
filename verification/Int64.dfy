/** Go's 64-bit signed integers. */
module Int64 {
  const MAX_INT64: int := 0x7FFF_FFFF_FFFF_FFFF
  const MIN_INT64: int := -MAX_INT64 - 1

  predicate InRange(x: int) { MIN_INT64 <= x <= MAX_INT64 }

  /** Two's-complement wrap-around. */
  function Wrap(x: int): (r: int)
    ensures InRange(r)
    ensures InRange(x) ==> r == x
    ensures (x - r) % 0x1_0000_0000_0000_0000 == 0
  {
    (x - MIN_INT64) % (MAX_INT64 - MIN_INT64 + 1) + MIN_INT64
  }

  /** Division that truncates toward zero. */
  function Quotient(x: int, d: int): (q: int)
    requires d > 0
    ensures if x >= 0 then 0 <= x - q * d < d else -d < x - q * d <= 0
  {
    if x >= 0 then x / d else -((-x) / d)
  }
}
