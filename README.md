# Vault-asset primitives of the Zenlink DEX module

This project models `zenlink-vault-assets/src/primitives.rs`, the arithmetic and
record types that the vault assets (ERC-4626 style tokenized vaults) are built on:

- `Balance`, a `u128`;
- `balance_mul_div(x, y, z)`, the overflow-safe ratio: the three balances are
  widened to `U256`, multiplied with `checked_mul`, divided with `checked_div`, and
  narrowed back to `u128` with `try_into`, each step chained with `Option::and_then`,
  so that the function returns `None` instead of wrapping, panicking or truncating;
- `Metadata`, a vault asset's decimals and its minimum and maximum penalty ratios,
  with its derived `Default`;
- `VaultAssetGenerator::generate`, the map from an underlying asset id to its share
  asset id, of which only the signature exists.

Files:

- `option.dfy` (`Options`): Rust's `Option` and `and_then`.
- `uint.dfy` (`Uint`): `u8`, `u128` and `U256` as bounded naturals, and the checked
  `U256` steps `FromU128`, `CheckedMul`, `CheckedDiv`, `TryIntoU128`, each returning
  `None` where the machine operation would fail.
- `primitives.dfy` (`Primitives`): `Balance`, `BalanceMulDiv` written as the same
  four-step chain as the source, `Metadata`, `DefaultMetadata` and the generator.
- `primitives_proofs.dfy` (`PrimitivesProofs`): what `BalanceMulDiv` computes.

The central facts are: the 256-bit multiply can never overflow, because
`(2^128 - 1)^2 < 2^256`, so that `None` branch is dead; the result is `Some(r)` exactly
when `z != 0` and `r * z <= x * y < (r + 1) * z` (the exact floor, stated without
division); and it is `None` exactly when `z == 0` or `x * y >= 2^128 * z`.

The generator is a datatype that holds a total function on currency ids. Beyond
that, no property of it (injectivity in particular) is assumed. The `PartialEq`/`Eq`
derives of `Metadata` are Dafny's datatype equality.

Two things a reader of a vault might expect are not in the code:

- Nothing in the code orders the two penalty ratios. `Metadata` is a bare struct, so
  it admits a minimum above the maximum (`PenaltyOrderNotEnforced`). Its derived
  `Default` is all zeros, and so it does respect the order (`DefaultMetadata`).
- The trait declares only a signature, so nothing makes `generate` injective
  (`GeneratorMayCollide`).

## Model

| member | source | states |
|---|---|---|
| Uint.FromU128 | zenlink-vault-assets/src/primitives.rs:7-9 | no contract of its own: `NarrowUndoesWiden` and `TryIntoU128` show that narrowing undoes the widening |
| Uint.CheckedMul | zenlink-vault-assets/src/primitives.rs:8 | no contract of its own: `MulNeverOverflows` shows that on widened balances it always gives the exact product |
| Uint.CheckedDiv | zenlink-vault-assets/src/primitives.rs:9 | `None` exactly for a zero divisor; otherwise a quotient `q` with `q * b <= a < (q + 1) * b`, the floor |
| Uint.TryIntoU128 | zenlink-vault-assets/src/primitives.rs:10 | a result widens back to the input, and the narrowing fails only on values that no `u128` widens to, so it never truncates |
| Primitives.BalanceMulDiv | zenlink-vault-assets/src/primitives.rs:6-11 | a zero divisor gives `None`, and a result `r` satisfies `r * z <= x * y < (r + 1) * z`; the converse is `MulDivIsFloor` and `MulDivNoneIff` |
| Primitives.DefaultMetadata | zenlink-vault-assets/src/primitives.rs:14-19 | the derived default metadata has its minimum penalty ratio at most its maximum |
| PrimitivesProofs.NarrowUndoesWiden | zenlink-vault-assets/src/primitives.rs:7-10 | narrowing a widened balance gives the same balance back |
| PrimitivesProofs.MulNeverOverflows | zenlink-vault-assets/src/primitives.rs:7-8 | the checked multiply of two widened balances always succeeds with the exact product, so its `None` branch is dead |
| PrimitivesProofs.MulDivCharacterised | zenlink-vault-assets/src/primitives.rs:6-11 | the result is `Some` if and only if `z != 0` and `x * y / z <= 2^128 - 1`, and then it equals `x * y / z` |
| PrimitivesProofs.MulDivIsFloor | zenlink-vault-assets/src/primitives.rs:7-10 | the result is `Some(r)` if and only if `z != 0` and `r * z <= x * y < (r + 1) * z` |
| PrimitivesProofs.MulDivNoneIff | zenlink-vault-assets/src/primitives.rs:6-11 | the result is `None` if and only if `z == 0` or `x * y >= 2^128 * z` |
| PrimitivesProofs.DivisionByZero | zenlink-vault-assets/src/primitives.rs:9 | a zero divisor gives `None` for every `x` and `y` |
| PrimitivesProofs.NarrowingRejects | zenlink-vault-assets/src/primitives.rs:10 | when `z != 0` but the floor exceeds `2^128 - 1`, the result is `None`, not a truncated value |
| PrimitivesProofs.MaxTimesMaxOverOne | zenlink-vault-assets/src/primitives.rs:10 | `balance_mul_div(MAX, MAX, 1)` is `None` |
| PrimitivesProofs.Symmetric | zenlink-vault-assets/src/primitives.rs:7-8 | swapping the first two arguments does not change the result |
| PrimitivesProofs.DivideBySelf | zenlink-vault-assets/src/primitives.rs:7-10 | `balance_mul_div(x, y, y) == Some(x)` for every non-zero `y` |
| PrimitivesProofs.OneOverOne | zenlink-vault-assets/src/primitives.rs:7-10 | `balance_mul_div(x, 1, 1) == Some(x)` |
| PrimitivesProofs.RatioAtMostOne | zenlink-vault-assets/src/primitives.rs:7-10 | when `z != 0` and `y <= z`, the result is `Some(r)` with `r <= x`: a ratio of at most one never inflates the amount |
| PrimitivesProofs.PenaltyOrderNotEnforced | zenlink-vault-assets/src/primitives.rs:15-19 | some metadata value has a minimum penalty ratio above its maximum: the record enforces no ordering |
| PrimitivesProofs.GeneratorMayCollide | zenlink-vault-assets/src/primitives.rs:21-23 | for any two distinct asset ids of any id type, some generator gives them the same share id: the signature promises no injectivity |

## Left out

- `zenlink-vault-assets/src/vault_asset.rs`: the `VaultAsset` trait (`asset`, `total_assets`, `convert_to_shares`, `convert_to_assets`, the `max_*`, `preview_*`, `deposit`, `mint`, `withdraw` and `redeem` operations) has signatures and doc comments only. Its conversion formulas, rounding directions and ledger effects are not fixed by any code, so they are not modelled.
- Vault accounting in the sense of ERC-4626 (the standard `vault_asset.rs:3-4` cites): the code implements no conversion formula, no rounding direction and no agreement between a preview and its operation, so none is modelled.
- VaultAssetGenerator.generate is modelled as a pure total function, so it is assumed deterministic and free of panics. An implementation whose result depends on chain storage is not captured.
- Ledger effects (balance moves, share mint and burn, total-asset reads) go through external pallets whose code is not part of this model.
- Penalty-ratio semantics: no code applies `min_penalty_ratio` or `max_penalty_ratio`, so only the fields are modelled.
- The SCALE `Encode`/`Decode`/`TypeInfo` and the `Clone`/`Debug` derives of `Metadata`: library-generated code, not part of this model.
- `runtime/src/zenlink.rs`: runtime configuration (XCM settings, location and origin converters, the asset transactor, `AccountId32Converter`) with no computation of its own.
