/**
 The machine words of the kernel: unsigned 64-bit integers whose addition and
 subtraction wrap, and the outcome of an operation that may reach `PANIC`,
 which never returns.
 */
module Machine {

  const TWO_TO_64 := 0x1_0000_0000_0000_0000

  type u64 = x: int | 0 <= x < TWO_TO_64

  const PAGE_SIZE := 4096

  function Add64(a: u64, b: u64): u64 {
    if a + b < TWO_TO_64 then a + b else a + b - TWO_TO_64
  }

  function Sub64(a: u64, b: u64): u64 {
    if a >= b then a - b else a - b + TWO_TO_64
  }

  /** The result of a kernel routine; `Halt` stands for `PANIC`. */
  datatype Outcome<+T> = Done(value: T) | Halt
}
