/** Bytes as the values 0 to 255. */
module Bytes {
  type byte = x: int | 0 <= x < 0x100
}
