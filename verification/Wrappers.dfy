/** Shared value types: optional values and the machine types the source uses. */
module Wrappers {
  datatype Option<+T> = None | Some(value: T)

  newtype Byte = b: int | 0 <= b < 256

  /** The source's `u64`. */
  type U64 = n: nat | n < 0x1_0000_0000_0000_0000

  /** The source's `u32`. */
  type U32 = n: nat | n < 0x1_0000_0000

  function Min(a: int, b: int): int {
    if a <= b then a else b
  }
}
