/** Ranges of the C types and sizes of the fixed buffers. */
module Limits {
  const U32 := 0x1_0000_0000
  const U64 := 0x1_0000_0000_0000_0000

  const OUTPUT_MAX := 4096
  const USERNAME_MAX := 32
}
