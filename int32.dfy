/** The C# `int` type: 32-bit two's-complement integers. */
module Int32 {

  const MIN: int := -0x8000_0000
  const MAX: int := 0x7FFF_FFFF
  const MODULUS: int := 0x1_0000_0000

  type int32 = x: int | -0x8000_0000 <= x <= 0x7FFF_FFFF

  /** An `int` that can never be negative, such as the result of `Count()`. */
  type nat32 = x: int | 0 <= x <= 0x7FFF_FFFF

  predicate InRange(x: int) {
    MIN <= x <= MAX
  }

  /** The value unchecked C# arithmetic stores when the exact result is `x`:
      the one 32-bit integer congruent to `x` modulo 2^32. */
  function Wrap(x: int): (r: int32)
    ensures (x - r) % MODULUS == 0
    ensures InRange(x) ==> r == x
  {
    var q := (x - MIN) / MODULUS;
    assert x - MIN == q * MODULUS + (x - MIN) % MODULUS;
    (x - MIN) % MODULUS + MIN
  }
}
