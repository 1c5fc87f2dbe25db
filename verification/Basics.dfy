/**
 What several modules share.
 */
module Basics {
  type byte = x: int | 0 <= x < 256

  datatype Option<+T> = None | Some(value: T)

  function Min(a: int, b: int): int {
    if a < b then a else b
  }

  function Max(a: int, b: int): int {
    if a > b then a else b
  }

  // ---------------------------------------------------------------- the bytes of a 16-bit word

  function High(c: bv16): bv8 {
    (c >> 8) as bv8
  }

  function Low(c: bv16): bv8 {
    (c & 0xFF) as bv8
  }

  /** The high byte counts 256 times, the low byte once. */
  lemma WordInBytes(w: bv16)
    ensures ((High(w) as bv16) << 8) | (Low(w) as bv16) == w
  {
  }

  /** A named form of the operator, for lemmas that take it apart. */
  function Xor(a: bv16, b: bv16): bv16 {
    a ^ b
  }
}
