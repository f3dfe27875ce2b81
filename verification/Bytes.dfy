/** Bytes, as the values of Go's uint8. */
module Bytes {
  type Byte = x: nat | x < 256
}
