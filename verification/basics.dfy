/** Types, numbers and small functions that most of the modelled files use. */
module Basics {

  type byte = x: int | 0 <= x < 256

  /** The number of values of an unsigned 16-bit integer. */
  const HALF_WORD: nat := 0x1_0000

  function Min(a: int, b: int): int {
    if a <= b then a else b
  }

  function Max(a: int, b: int): int {
    if a >= b then a else b
  }
}
