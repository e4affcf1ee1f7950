/** Bytes, as strings are made of in UTF-8. */
module Bytes {
  type Byte = b: nat | b < 256
}
