/** Bytes, read as unsigned. */
module Bytes {
  type Byte = b: int | 0 <= b < 256
}
