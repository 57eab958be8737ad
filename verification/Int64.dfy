/** Go's 64-bit signed integers: two's complement, wrapping silently. */
module Int64 {
  const TWO_64 := 0x1_0000_0000_0000_0000
  const MAX := 0x7FFF_FFFF_FFFF_FFFF
  const MIN := -0x8000_0000_0000_0000

  predicate Fits(x: int) {
    MIN <= x <= MAX
  }

  function Wrap(x: int): (r: int)
    ensures Fits(r) && (Fits(x) ==> r == x) && (r - x) % TWO_64 == 0
  {
    (x - MIN) % TWO_64 + MIN
  }

  lemma WrapAdd(x: int, y: int)
    ensures Wrap(Wrap(x) + y) == Wrap(x + y)
  {
  }
}
