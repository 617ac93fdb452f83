/**
 * Fixed-width integers of the source, written out over Dafny's unbounded `int`:
 * the ranges of `i32`, `u8`, `u16` and `u32`, the `as` casts that matter,
 * `f32::round() as u32`, and the wrapping `u8` addition of a release build.
 */
module Ints {

  const I32_MIN: int := -0x8000_0000
  const I32_MAX: int := 0x7FFF_FFFF
  const U32_LIMIT: int := 0x1_0000_0000

  type I32 = x: int | -0x8000_0000 <= x <= 0x7FFF_FFFF
  type U8 = x: int | 0 <= x < 0x100
  type U16 = x: int | 0 <= x < 0x1_0000
  type U32 = x: int | 0 <= x < 0x1_0000_0000

  predicate IsI32(v: int) {
    I32_MIN <= v <= I32_MAX
  }

  function Min(a: int, b: int): int {
    if a <= b then a else b
  }

  function Max(a: int, b: int): int {
    if a >= b then a else b
  }

  /** `v as u32` for an `i32` value: the two's-complement bit pattern read unsigned. */
  function AsU32(v: I32): (r: U32)
    ensures 0 <= v ==> r == v
    ensures v < 0 ==> r > I32_MAX
  {
    if v < 0 then v + U32_LIMIT else v
  }

  /** `a + b` on two `u8` values in a release build: the sum wraps modulo 256. */
  function WrappingAddU8(a: U8, b: U8): (r: U8)
    ensures a + b < 0x100 ==> r == a + b
    ensures a + b >= 0x100 ==> r == a + b - 0x100
  {
    (a + b) % 0x100
  }

  /**
   * `x.round() as u32` for an `f32` value: round half away from zero, then the
   * saturating float-to-integer cast (negative values become 0).
   */
  function RoundToU32(x: real): (r: U32)
    ensures x < 0.0 ==> r == 0
    ensures 0.0 <= x && x + 0.5 < 0x1_0000_0000 as real ==> r as real <= x + 0.5 < r as real + 1.0
    ensures x + 0.5 >= 0x1_0000_0000 as real ==> r == U32_LIMIT - 1
  {
    if x < 0.0 then 0
    else
      var f := (x + 0.5).Floor;
      if f >= U32_LIMIT then U32_LIMIT - 1 else f
  }

  /** `(a as f32 / b as f32).ceil() as usize`, computed exactly. */
  function CeilDiv(a: nat, b: nat): (r: nat)
    requires b > 0
    ensures r * b >= a
    ensures r > 0 ==> (r - 1) * b < a
  {
    (a + b - 1) / b
  }
}
