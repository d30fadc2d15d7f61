/** Machine integers.  The release profile of the workspace leaves overflow checks off,
    so `u64` sums and differences wrap modulo 2^64 and `as` casts reinterpret. */
module Words {

  const U64_BOUND: nat := 0x1_0000_0000_0000_0000
  const I64_BOUND: int := 0x8000_0000_0000_0000
  const U32_BOUND: nat := 0x1_0000_0000

  type u64 = x: int | 0 <= x < U64_BOUND
  type i64 = x: int | -I64_BOUND <= x < I64_BOUND

  function WrapAdd(a: u64, b: u64): u64 {
    if a + b < U64_BOUND then a + b else a + b - U64_BOUND
  }

  function WrapSub(a: u64, b: u64): u64 {
    if b <= a then a - b else a - b + U64_BOUND
  }

  /** The cast `x as u64` of a signed 64-bit value. */
  function AsU64(x: i64): u64 {
    if x < 0 then x + U64_BOUND else x
  }

  /** All three are arithmetic modulo 2^64. */
  lemma WrappingIsModular(a: u64, b: u64, x: i64)
    ensures WrapAdd(a, b) == (a + b) % U64_BOUND
    ensures WrapSub(a, b) == (a - b) % U64_BOUND
    ensures AsU64(x) == x % U64_BOUND
  {
  }
}
