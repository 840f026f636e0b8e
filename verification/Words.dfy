/** Fixed-width machine integers, as subsets of `int`. */
module Words {

  type u8 = x: int | 0 <= x < 0x100
  type u16 = x: int | 0 <= x < 0x1_0000
  type u32 = x: int | 0 <= x < 0x1_0000_0000
  type i32 = x: int | -0x8000_0000 <= x < 0x8000_0000

  const U32_MAX: u32 := 0xFFFF_FFFF

  /** `u32::saturating_add`. */
  function SaturatingAdd(a: u32, b: u32): u32 {
    if a + b <= U32_MAX then a + b else U32_MAX
  }

  /** `x as i32`: reinterpretation of the 32 bits. */
  function AsI32(x: u32): i32 {
    if x < 0x8000_0000 then x else x - 0x1_0000_0000
  }

  /** `x as u32` of a signed value. */
  function AsU32(x: i32): u32 {
    if x >= 0 then x else x + 0x1_0000_0000
  }

  /** `x as u16`: the low 16 bits. */
  function LowU16(x: u32): u16 {
    x % 0x1_0000
  }

  /** `i32` subtraction as the release build performs it (two's complement wrap). */
  function WrappingSub(a: i32, b: i32): i32 {
    var d := a - b;
    if d < -0x8000_0000 then d + 0x1_0000_0000
    else if d >= 0x8000_0000 then d - 0x1_0000_0000
    else d
  }

  /** `i32::unsigned_abs`. */
  function UnsignedAbs(x: i32): u32 {
    if x < 0 then 0 - (x as int) else x
  }

  function Min(a: int, b: int): int { if a <= b then a else b }

  function Max(a: int, b: int): int { if a <= b then b else a }
}
