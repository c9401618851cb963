/** Bytes as the C code moves them, and std::min over sizes. */
module Bytes {

  /** One `char` of the buffers, taken as an unsigned byte. */
  newtype byte = x: int | 0 <= x < 256

  /** std::min. */
  function Min(a: int, b: int): (m: int)
    ensures m <= a && m <= b
    ensures m == a || m == b
  {
    if b < a then b else a
  }
}
