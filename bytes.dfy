/** Octets, the unit of Python's `bytes`. */
module Bytes {

  type Byte = b: int | 0 <= b < 256
}
