/** 64-bit words, saturation and powers of two. */
module Arithmetic {
  const U64_MAX: nat := 0xFFFF_FFFF_FFFF_FFFF

  type u64 = n: int | 0 <= n <= U64_MAX

  function Saturated(n: nat): u64 {
    if n <= U64_MAX then n else U64_MAX
  }

  function SatMul(a: nat, b: nat): u64 { Saturated(a * b) }
  function SatAdd(a: nat, b: nat): u64 { Saturated(a + b) }

  function AtLeastOne(n: int): (r: nat)
    ensures r >= 1
  {
    if n < 1 then 1 else n
  }

  function Pow2(n: nat): nat {
    if n == 0 then 1 else 2 * Pow2(n - 1)
  }
}
