/**
  The fixed-width unsigned integers the vault arithmetic uses (`u8`, `u128` and the
  256-bit `U256`), each as the natural numbers below its bound, together with the
  checked `U256` operations: each returns `None` where the machine operation would
  wrap, divide by zero or truncate.
 */
module Uint {
  import opened Options

  const U8_MAX: nat := 0xFF
  const U128_MAX: nat := 0xFFFF_FFFF_FFFF_FFFF_FFFF_FFFF_FFFF_FFFF
  const U256_MAX: nat := 0xFFFF_FFFF_FFFF_FFFF_FFFF_FFFF_FFFF_FFFF_FFFF_FFFF_FFFF_FFFF_FFFF_FFFF_FFFF_FFFF

  type U8 = n: nat | n <= 0xFF
  type U128 = n: nat | n <= 0xFFFF_FFFF_FFFF_FFFF_FFFF_FFFF_FFFF_FFFF
  type U256 = n: nat | n <= 0xFFFF_FFFF_FFFF_FFFF_FFFF_FFFF_FFFF_FFFF_FFFF_FFFF_FFFF_FFFF_FFFF_FFFF_FFFF_FFFF

  /** `U256::from(u128)`: widening keeps the value. */
  function FromU128(x: U128): (n: U256) {
    x
  }

  /** `U256::checked_mul`: the exact product, or `None` when it needs more than 256 bits. */
  function CheckedMul(a: U256, b: U256): (r: Option<U256>) {
    if a * b <= U256_MAX then Some(a * b) else None
  }

  /** `U256::checked_div`: the quotient rounded down, or `None` for a zero divisor. */
  function CheckedDiv(a: U256, b: U256): (r: Option<U256>)
    ensures r.None? <==> b == 0
    ensures r.Some? ==> r.value * b <= a < (r.value + 1) * b
  {
    if b == 0 then None else Some(a / b)
  }

  /** `TryInto::<u128>::try_into(U256)`, as an option. It undoes the widening: a
      result widens back to `n`, and it fails only on values that no `u128` widens
      to (it never returns the low 128 bits). */
  function TryIntoU128(n: U256): (r: Option<U128>)
    ensures r.Some? ==> FromU128(r.value) == n
    ensures r.None? ==> forall v: U128 :: FromU128(v) != n
  {
    if n <= U128_MAX then Some(n) else None
  }
}
