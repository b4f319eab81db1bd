/** Bytes as the Go code handles them: the elements of a `[]byte`. */
module Bytes {
  type byte = x: int | 0 <= x < 256
}
