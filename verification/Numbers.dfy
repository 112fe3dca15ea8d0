// Machine integers. Arithmetic is on unbounded `int`; a value stored back into a `U64` must be
// shown to fit, so every saturation of the original is written out.
module Numbers {

  const U64_MAX: int := 0xFFFF_FFFF_FFFF_FFFF
  const TWO_64: nat := 0x1_0000_0000_0000_0000

  type Byte = x: int | 0 <= x < 256 witness 0
  type U64 = x: int | 0 <= x <= 0xFFFF_FFFF_FFFF_FFFF witness 0
  type U128 = x: int | 0 <= x <= 0xFFFF_FFFF_FFFF_FFFF_FFFF_FFFF_FFFF_FFFF witness 0
  type I32 = x: int | -0x8000_0000 <= x <= 0x7FFF_FFFF witness 0

  type PolicyId = I32
  type ScopeHash = U64
  type QueryId = U64
  type WalBytes = U64
  type EpochMillis = U64

  function Min(a: int, b: int): int {
    if a <= b then a else b
  }

  function Max(a: int, b: int): int {
    if a <= b then b else a
  }

  // The part of `a` above `b`, zero when there is none.
  function Excess(a: int, b: int): int {
    if a <= b then 0 else a - b
  }

  function SaturatingAdd(a: U64, b: U64): U64 {
    Min(a + b, U64_MAX)
  }

  function SaturatingSub(a: U64, b: U64): U64 {
    Excess(a, b)
  }

  // `u64::try_from(x)` with the failure mapped to `u64::MAX`.
  function SaturateToU64(x: U128): U64 {
    Min(x, U64_MAX)
  }

  lemma MulMono(a: nat, b: nat, c: nat)
    requires a <= b
    ensures a * c <= b * c
  {
  }

  lemma MulMonoRight(c: nat, a: int, b: int)
    requires a <= b
    ensures c * a <= c * b
  {
  }

  // A product of two 64-bit values always fits the 128-bit intermediate.
  lemma ProductFits(a: U64, b: U64)
    ensures 0 <= a * b <= 0xFFFF_FFFF_FFFF_FFFE_0000_0000_0000_0001
  {
    MulMono(a, U64_MAX, b);
  }
}
