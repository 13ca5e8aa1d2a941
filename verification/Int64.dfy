/** Go's int64 and time.Duration, whose arithmetic wraps around. */
module Int64 {
  const MAX_INT64 := 0x7fff_ffff_ffff_ffff
  const TWO_63 := 0x8000_0000_0000_0000
  const TWO_64 := 0x1_0000_0000_0000_0000

  predicate Fits(x: int)
  {
    -TWO_63 <= x <= MAX_INT64
  }

  function Wrap(x: int): (r: int)
    ensures Fits(r) && (r - x) % TWO_64 == 0
    ensures Fits(x) ==> r == x
  {
    (x + TWO_63) % TWO_64 - TWO_63
  }

  function Max(a: int, b: int): int
  {
    if a > b then a else b
  }
}
