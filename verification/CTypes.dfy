/** C's number types, as ranges of the integers. */
module CTypes {
  const WORD: int := 0x1_0000_0000

  /** unsigned char. */
  type byte = x: int | 0 <= x < 256

  /** unsigned int. */
  type uint32 = x: int | 0 <= x < 0x1_0000_0000

  /** The larger and the smaller of two values, as BASE_MATH_MAX and BASE_MATH_MIN pick them. */
  function Max(a: int, b: int): int {
    if a >= b then a else b
  }

  function Min(a: int, b: int): int {
    if a <= b then a else b
  }

  function Pow2(k: nat): (p: nat)
    ensures 0 < p
  {
    if k == 0 then 1 else 2 * Pow2(k - 1)
  }
}
