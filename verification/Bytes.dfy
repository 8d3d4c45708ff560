/** The eight-bit values the codecs and packets are made of. */
module Bytes {
  type Byte = b: int | 0 <= b < 0x100
}
