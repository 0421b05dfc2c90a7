/** Small shared value types: an optional value and an octet. */
module Wrappers {

  /** A value that may be absent (Python's `None`). */
  datatype Option<+T> = None | Some(value: T)
}

module Bytes {

  /** One octet, as Python's `bytes` elements are: an integer in 0..255. */
  type Byte = x: int | 0 <= x < 256
}
