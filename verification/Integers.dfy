/** Casts to narrower signed integers, which keep the low bits. */
module Integers {

  type i16 = x: int | -0x8000 <= x < 0x8000
  type i32 = x: int | -0x8000_0000 <= x < 0x8000_0000

  type i64 = x: int | -0x8000_0000_0000_0000 <= x < 0x8000_0000_0000_0000

  function WrapI64(n: int): (w: i64)
    ensures -0x8000_0000_0000_0000 <= n < 0x8000_0000_0000_0000 ==> w == n
  {
    (n + 0x8000_0000_0000_0000) % 0x1_0000_0000_0000_0000 - 0x8000_0000_0000_0000
  }

  function WrapI32(n: int): (w: i32)
    ensures -0x8000_0000 <= n < 0x8000_0000 ==> w == n
  {
    (n + 0x8000_0000) % 0x1_0000_0000 - 0x8000_0000
  }

  function WrapI16(n: int): (w: i16)
    ensures -0x8000 <= n < 0x8000 ==> w == n
  {
    (n + 0x8000) % 0x1_0000 - 0x8000
  }
}
