/** Bytes as the Go code handles them: values 0..255. */
module Bytes {
  type Byte = x: int | 0 <= x < 256
}
