/** Bytes, as the hash function and the text encodings see them. */
module Octets {

  /** An unsigned 8-bit value. */
  type byte = x: int | 0 <= x < 0x100
}
