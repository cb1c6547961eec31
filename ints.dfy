/** Fixed-width integers of the viewer and the few conversions between them
    that the modelled code performs. */
module Ints {
  const TWO_32: int := 0x1_0000_0000

  newtype u32 = x: int | 0 <= x < 0x1_0000_0000
  newtype i32 = x: int | -0x8000_0000 <= x < 0x8000_0000
  /** `usize` on a 64-bit target. */
  newtype usize = x: int | 0 <= x < 0x1_0000_0000_0000_0000

  /** Rust's bitwise complement `!x` on an `i32`: in two's complement every
      bit flipped is the value `-x - 1`, which never leaves the `i32` range. */
  function BitNot(x: i32): (r: i32)
    ensures r == -1 <==> x == 0
    ensures (x < 0) != (r < 0)
  {
    (-(x as int) - 1) as i32
  }

  /** Rust's `n as i32` for a `usize`: keeps the low 32 bits and reads them
      as a two's-complement number. */
  function UsizeAsI32(n: usize): (r: i32)
    ensures (r as int - n as int) % TWO_32 == 0
    ensures n < 0x8000_0000 ==> r as int == n as int
  {
    var low := n as int % TWO_32;
    if low < 0x8000_0000 then low as i32 else (low - TWO_32) as i32
  }

  /** Rust's `x as usize` for an `i32`: sign-extends to 64 bits, which is
      the one `usize` congruent to `x` modulo 2^64. */
  function I32AsUsize(x: i32): (r: usize)
    ensures (r as int - x as int) % 0x1_0000_0000_0000_0000 == 0
  {
    (x as int % 0x1_0000_0000_0000_0000) as usize
  }
}
