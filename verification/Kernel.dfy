/** Types shared by the kernel's modules. */
module Kernel {
  const PAGE_SIZE: nat := 4096
  const WORD: nat := 0x1_0000_0000

  /** The outcome of an operation that may stop the machine: a failed assert() or abort() never returns. */
  datatype Outcome<+T> = Returns(value: T) | Halts

  datatype Option<+T> = None | Some(value: T)

  // 32-bit unsigned arithmetic, which wraps.

  type u32 = n: nat | n < WORD

  function Add32(a: u32, b: u32): u32 {
    if a + b < WORD then a + b else a + b - WORD
  }

  function Sub32(a: u32, b: u32): u32 {
    if b <= a then a - b else a - b + WORD
  }
}
