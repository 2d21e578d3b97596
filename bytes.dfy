/** The octet type shared by the network parameters and the block-file reader. */
module Bytes {
  type byte = b: int | 0 <= b < 256
}
