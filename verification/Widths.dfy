/** Machine integers as subsets of the mathematical ones. */
module Widths {
  const U16: nat := 0x1_0000
  const U32: nat := 0x1_0000_0000
  const U40: nat := 0x100_0000_0000
  const U63: nat := 0x8000_0000_0000_0000
  const U64: nat := 0x1_0000_0000_0000_0000

  type uint8 = x: nat | x < 256
  type uint16 = x: nat | x < U16
  type uint32 = x: nat | x < U32
  type uint64 = x: nat | x < U64
  /** A 40-bit node address. */
  type Address = a: nat | a < U40
  type int16 = x: int | -32768 <= x < 32768
  type int32 = x: int | -0x8000_0000 <= x < 0x8000_0000
}
