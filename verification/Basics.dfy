/** What several modules need: optional values, bytes, and the width of unsigned numbers. */
module Basics {

  datatype Option<+T> = None | Some(value: T)

  type Byte = b: int | 0 <= b < 256

  const UINT_SIZE: nat := 0x1_0000_0000
}
