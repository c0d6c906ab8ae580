/**
 * The fixed-width unsigned integers of the Rust source (`u32`, `u64`) and the
 * saturating operations it uses on them. Dafny integers are unbounded, so the
 * widths and the saturation are written out here.
 */
module BoundedInts {

  const TWO_TO_THE_32: int := 0x1_0000_0000
  const TWO_TO_THE_64: int := 0x1_0000_0000_0000_0000

  type uint32 = x: int | 0 <= x < TWO_TO_THE_32
  type uint64 = x: int | 0 <= x < TWO_TO_THE_64

  const UINT32_MAX: uint32 := TWO_TO_THE_32 - 1
  const UINT64_MAX: uint64 := TWO_TO_THE_64 - 1

  /** `u64::saturating_add`: the sum, clamped to the largest u64. */
  function SaturatingAdd(a: uint64, b: uint64): (r: uint64)
    ensures r >= a && r >= b
    ensures a + b <= UINT64_MAX ==> r == a + b
    ensures a + b > UINT64_MAX ==> r == UINT64_MAX
  {
    if a + b <= UINT64_MAX then a + b else UINT64_MAX
  }

  /** `u64::saturating_sub`: the difference, clamped at zero. */
  function SaturatingSub(a: uint64, b: uint64): (r: uint64)
    ensures r <= a
    ensures b <= a ==> r == a - b
    ensures a < b ==> r == 0
  {
    if b <= a then a - b else 0
  }

  /** `u64::saturating_mul`: the product, clamped to the largest u64. */
  function SaturatingMul(a: uint64, b: uint64): (r: uint64)
    ensures a * b <= UINT64_MAX ==> r == a * b
    ensures a * b > UINT64_MAX ==> r == UINT64_MAX
  {
    if a * b <= UINT64_MAX then a * b else UINT64_MAX
  }
}
