/** What `balance_mul_div` computes: the exact floor of `x * y / z` whenever that
    is a balance, and `None` exactly when `z` is zero or the floor needs more than
    128 bits. The 256-bit product itself never overflows. */
module PrimitivesProofs {
  import opened Options
  import opened Uint
  import opened Primitives

  /** Narrowing a widened balance gives the balance back. */
  lemma NarrowUndoesWiden(x: Balance)
    ensures TryIntoU128(FromU128(x)) == Some(x)
  {
  }

  /** Multiplying by a natural number keeps an order. */
  lemma MulMonotone(a: nat, b: nat, c: nat)
    requires a <= b
    ensures a * c <= b * c
  {
  }

  /** The floor of `n / d` is the one `q` with `q * d <= n < (q + 1) * d`. */
  lemma FloorDivUnique(n: nat, d: nat, q: nat)
    requires d > 0
    ensures q == n / d <==> q * d <= n < (q + 1) * d
  {
    var f := n / d;
    assert f * d <= n < (f + 1) * d;
    if q * d <= n < (q + 1) * d {
      if q < f {
        MulMonotone(q + 1, f, d);
      } else if f < q {
        MulMonotone(f + 1, q, d);
      }
    }
  }

  /** The checked multiply of two widened balances always succeeds, with the
      exact product: `(2^128 - 1)^2 < 2^256`, so that branch of the chain is dead. */
  lemma MulNeverOverflows(x: Balance, y: Balance)
    ensures CheckedMul(FromU128(x), FromU128(y)).Some?
    ensures CheckedMul(FromU128(x), FromU128(y)).value == x * y
  {
    MulMonotone(x, U128_MAX, y);
    MulMonotone(y, U128_MAX, U128_MAX);
    assert U128_MAX * U128_MAX <= U256_MAX;
  }

  /** Full characterisation against Dafny's floor division: a result exists
      exactly when `z != 0` and the floor of `x * y / z` fits a balance, and then
      it is that floor. */
  lemma MulDivCharacterised(x: Balance, y: Balance, z: Balance)
    ensures BalanceMulDiv(x, y, z).Some? <==> z != 0 && x * y / z <= U128_MAX
    ensures BalanceMulDiv(x, y, z).Some? ==> BalanceMulDiv(x, y, z).value == x * y / z
  {
    MulNeverOverflows(x, y);
  }

  /** The result is `r` exactly when `z != 0` and `r` is the floor of `x * y / z`,
      stated without division: `r * z <= x * y < (r + 1) * z`. */
  lemma MulDivIsFloor(x: Balance, y: Balance, z: Balance, r: Balance)
    ensures BalanceMulDiv(x, y, z) == Some(r) <==> z != 0 && r * z <= x * y < (r + 1) * z
  {
    MulDivCharacterised(x, y, z);
    if z != 0 {
      FloorDivUnique(x * y, z, r);
    }
  }

  /** The result is `None` exactly when `z` is zero or `x * y` reaches
      `2^128 * z`, the first product whose floor no longer fits a balance. */
  lemma MulDivNoneIff(x: Balance, y: Balance, z: Balance)
    ensures BalanceMulDiv(x, y, z) == None <==> z == 0 || x * y >= (U128_MAX + 1) * z
  {
    MulDivCharacterised(x, y, z);
    if z != 0 {
      var q := x * y / z;
      FloorDivUnique(x * y, z, q);
      if q <= U128_MAX {
        MulMonotone(q + 1, U128_MAX + 1, z);
      } else {
        MulMonotone(U128_MAX + 1, q, z);
      }
    }
  }

  /** Dividing by zero never yields a value. */
  lemma DivisionByZero(x: Balance, y: Balance)
    ensures BalanceMulDiv(x, y, 0) == None
  {
  }

  /** A floor too large for 128 bits gives `None`, not a truncated balance. */
  lemma NarrowingRejects(x: Balance, y: Balance, z: Balance)
    requires z != 0 && x * y / z > U128_MAX
    ensures BalanceMulDiv(x, y, z) == None
  {
    MulDivCharacterised(x, y, z);
  }

  /** The largest balance squared, divided by one, does not fit. */
  lemma MaxTimesMaxOverOne()
    ensures BalanceMulDiv(U128_MAX, U128_MAX, 1) == None
  {
    NarrowingRejects(U128_MAX, U128_MAX, 1);
  }

  /** The first two arguments can be swapped. */
  lemma Symmetric(x: Balance, y: Balance, z: Balance)
    ensures BalanceMulDiv(x, y, z) == BalanceMulDiv(y, x, z)
  {
    MulDivCharacterised(x, y, z);
    MulDivCharacterised(y, x, z);
    assert x * y == y * x;
  }

  /** Multiplying and dividing by the same non-zero balance gives `x` back. */
  lemma DivideBySelf(x: Balance, y: Balance)
    requires y != 0
    ensures BalanceMulDiv(x, y, y) == Some(x)
  {
    MulDivIsFloor(x, y, y, x);
  }

  /** A ratio of one over one gives `x` back. */
  lemma OneOverOne(x: Balance)
    ensures BalanceMulDiv(x, 1, 1) == Some(x)
  {
    DivideBySelf(x, 1);
  }

  /** A ratio `y / z` of at most one always yields a value, and it never exceeds `x`. */
  lemma RatioAtMostOne(x: Balance, y: Balance, z: Balance)
    requires z != 0 && y <= z
    ensures BalanceMulDiv(x, y, z).Some?
    ensures BalanceMulDiv(x, y, z).value <= x
  {
    MulDivCharacterised(x, y, z);
    var q := x * y / z;
    FloorDivUnique(x * y, z, q);
    MulMonotone(y, z, x);
    if q > x {
      MulMonotone(x + 1, q, z);
    }
  }

  /** The metadata record admits a minimum penalty ratio above the maximum:
      no ordering between the two is enforced. */
  lemma PenaltyOrderNotEnforced()
    ensures exists m: Metadata :: m.min_penalty_ratio > m.max_penalty_ratio
  {
    var m := Metadata(0, 0, 1);
    assert m.min_penalty_ratio > m.max_penalty_ratio;
  }

  /** The signature of a generator does not make it injective: for any two
      distinct asset ids, some generator gives them the same share id. */
  lemma GeneratorMayCollide<C>(a: C, b: C)
    requires a != b
    ensures exists g: VaultAssetGenerator<C> :: g.generate(a) == g.generate(b)
  {
    var g := VaultAssetGenerator((c: C) => a);
    assert g.generate(a) == g.generate(b);
  }
}
