/** uint8_t. */
module Bytes {
  type Byte = n: nat | n < 256
}
