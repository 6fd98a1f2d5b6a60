/** Fixed-width unsigned integers and the saturating operations on them. */
module Integers {
  const U32_MAX: nat := 0xFFFF_FFFF
  const U64_MAX: nat := 0xFFFF_FFFF_FFFF_FFFF

  type U32 = x: int | 0 <= x <= 0xFFFF_FFFF

  function SaturatingSub(a: nat, b: nat): nat {
    if a >= b then a - b else 0
  }

  function SaturatingAddU32(a: nat, b: nat): nat {
    if a + b <= U32_MAX then a + b else U32_MAX
  }

  function SaturatingMulU64(a: nat, b: nat): nat {
    if a * b <= U64_MAX then a * b else U64_MAX
  }
}
