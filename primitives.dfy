/** The vault-asset primitives: the balance type, the overflow-safe ratio
    `balance_mul_div`, the per-vault metadata record and the share-id generator. */
module Primitives {
  import opened Options
  import opened Uint

  /** Balances are `u128`. */
  type Balance = U128

  /** `balance_mul_div(x, y, z)`: `x * y / z` computed in 256 bits, one checked
      step at a time (widen, multiply, divide, narrow back to a balance). */
  function BalanceMulDiv(x: Balance, y: Balance, z: Balance): (r: Option<Balance>)
    ensures z == 0 ==> r.None?
    ensures r.Some? ==> r.value * z <= x * y < (r.value + 1) * z
  {
    CheckedMul(FromU128(x), FromU128(y))
      .AndThen((n: U256) => CheckedDiv(n, FromU128(z)))
      .AndThen((n: U256) => TryIntoU128(n))
  }

  /** The metadata about a vault asset: its decimals and two penalty ratios.
      Nothing orders the two ratios. */
  datatype Metadata = Metadata(decimal: U8, max_penalty_ratio: Balance, min_penalty_ratio: Balance)

  /** The derived `Default` of `Metadata`: every field takes its type's default,
      zero. The record does not order its penalty ratios, but its default does. */
  function DefaultMetadata(): (m: Metadata)
    ensures m.min_penalty_ratio <= m.max_penalty_ratio
  {
    Metadata(0, 0, 0)
  }

  /** `VaultAssetGenerator::generate`, the map from an underlying asset's id to
      the id of its share asset. Only its signature is known, so a generator is
      any function on currency ids. */
  datatype VaultAssetGenerator<!CurrencyId> = VaultAssetGenerator(generate: CurrencyId -> CurrencyId)
}
