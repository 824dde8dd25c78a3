/** Characters and bytes: numbers modulo 256. */
module Bytes {
  type Byte = x: int | 0 <= x < 256
}
