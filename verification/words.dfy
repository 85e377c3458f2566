/** Machine-word helpers shared by the rendering code and the decoder: the
    source works on `u8` and `u32` values, which wrap modulo their width. */
module Words {

  const U8Limit: int := 0x100
  const U32Limit: int := 0x1_0000_0000

  /** An unsigned 8-bit value used as a number (character codes). */
  type U8 = x: int | 0 <= x < U8Limit

  /** An unsigned 32-bit value used as a number (counters, cursor positions). */
  type U32 = x: int | 0 <= x < U32Limit

  /** A natural number reduced to a `u32`, as C's unsigned arithmetic does. */
  function Wrap32(n: nat): U32 {
    n % 0x1_0000_0000
  }

  /** `++x` on a `u32`: wraps from 0xFFFF_FFFF back to 0. */
  function Inc32(x: U32): U32 {
    if x == U32Limit - 1 then 0 else x + 1
  }
}
