/** Octets as they appear on the wire. */
module Bytes {

  /** One byte, 0 through 255. */
  type byte = x: int | 0 <= x < 256
}
