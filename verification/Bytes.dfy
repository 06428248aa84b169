/** Bytes as numbers, for everything that does no bit arithmetic. */
module Bytes {
  type Byte = b: int | 0 <= b < 0x100
}
