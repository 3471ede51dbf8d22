/** utils/common/uniswapUtils.ts: liquidity minted by a pool, claims on its reserves, and the quantity
    that rebalances two assets. */
module UniswapV2 {
  import opened Rounding
  import opened FixedPoint

  const MINIMUM_LIQUIDITY: int := 1000

  // ----- Integer square root -----

  ghost predicate IsFloorSqrt(z: int, value: int)
  {
    0 <= z && z * z <= value < (z + 1) * (z + 1)
  }

  /** The floor of the square root, by counting up. */
  ghost function FloorSqrt(value: int): (z: int)
    requires 0 <= value
    ensures IsFloorSqrt(z, value)
    decreases value
  {
    if value == 0 then 0
    else
      var z := FloorSqrt(value - 1);
      if (z + 1) * (z + 1) <= value then z + 1 else z
  }

  lemma FloorSqrtUnique(y: int, z: int, value: int)
    requires IsFloorSqrt(y, value) && IsFloorSqrt(z, value)
    ensures y == z
  {
  }

  /** A Newton step from any positive guess never lands below the floor of the root. */
  lemma NewtonStepNotBelow(value: int, x: int)
    requires 0 < x && 0 <= value
    ensures var y := (value / x + x) / 2; value < (y + 1) * (y + 1)
  {
    var q := value / x;
    FloorBounds(value, x);
    assert (q + 1) * x == q * x + x;
    MeanNotBelow(q + 1, x, (q + x) / 2 + 1);
  }

  /** The arithmetic mean is not below the geometric one. */
  lemma MeanNotBelow(a: int, b: int, m: int)
    requires 0 <= a && 0 <= b && a + b <= 2 * m
    ensures a * b <= m * m
  {
  }

  /** `sqrt`, by Newton's iteration from above. A negative value answers one. */
  method Sqrt(value: int) returns (z: int)
    ensures 0 <= value ==> z == FloorSqrt(value) && IsFloorSqrt(z, value)
    ensures value < 0 ==> z == 1
  {
    z := value;
    if value > 3 {
      var x := value / 2 + 1;
      HalfNotBelow(value);
      while x < z
        invariant 0 < x && 0 < z
        invariant value < (x + 1) * (x + 1)
        invariant value < (z + 1) * (z + 1)
        invariant x == (value / z + z) / 2 || (x < z && z == value)
        decreases z
      {
        z := x;
        NewtonStepNotBelow(value, x);
        NewtonStepPositive(value, x);
        x := (value / x + x) / 2;
      }
      // The step did not descend, so value / z reaches z.
      FloorBounds(value, z);
      MulLe(z, value / z, z);
    } else if value != 0 {
      z := 1;
    }
    if 0 <= value { FloorSqrtUnique(z, FloorSqrt(value), value); }
  }

  lemma HalfNotBelow(value: int)
    requires 3 < value
    ensures value < (value / 2 + 2) * (value / 2 + 2)
    ensures value < (value + 1) * (value + 1)
    ensures value / 2 + 1 < value
  {
  }

  lemma NewtonStepPositive(value: int, z: int)
    requires 3 < value && 0 < z
    ensures 0 < (value / z + z) / 2
  {
  }

  // ----- Liquidity -----

  /** A pool: total liquidity tokens, the burnt minimum included, and the two reserves. */
  datatype Pool = Pool(supply: int, reserve0: int, reserve1: int) {
    function K(): int { reserve0 * reserve1 }
  }

  /** The liquidity that both amounts pay for. */
  function ProRataLiquidity(pool: Pool, amount0: int, amount1: int): int
    requires pool.reserve0 != 0 && pool.reserve1 != 0
  {
    Min(TruncDiv(amount0 * pool.supply, pool.reserve0), TruncDiv(amount1 * pool.supply, pool.reserve1))
  }

  /** It is the largest liquidity that neither amount falls short of. */
  lemma ProRataIsLargest(pool: Pool, amount0: int, amount1: int, liquidity: int)
    requires 0 < pool.supply && 0 < pool.reserve0 && 0 < pool.reserve1 && 0 <= amount0 && 0 <= amount1
    ensures liquidity <= ProRataLiquidity(pool, amount0, amount1)
            <==> && liquidity * pool.reserve0 <= amount0 * pool.supply
                 && liquidity * pool.reserve1 <= amount1 * pool.supply
  {
    MulLe(0, amount0, pool.supply);
    MulLe(0, amount1, pool.supply);
    BracketGreatest(amount0 * pool.supply, pool.reserve0, TruncDiv(amount0 * pool.supply, pool.reserve0), liquidity);
    BracketGreatest(amount1 * pool.supply, pool.reserve1, TruncDiv(amount1 * pool.supply, pool.reserve1), liquidity);
  }

  /** `calculateLPTokensIssued`. An empty reserve under a non-zero supply divides by zero. */
  method LPTokensIssued(pool: Pool, amount0: int, amount1: int) returns (liquidity: int)
    requires pool.supply != 0 ==> pool.reserve0 != 0 && pool.reserve1 != 0
    ensures pool.supply == 0 && 0 <= amount0 * amount1 ==> liquidity + MINIMUM_LIQUIDITY == FloorSqrt(amount0 * amount1)
    ensures pool.supply != 0 ==> liquidity == ProRataLiquidity(pool, amount0, amount1)
  {
    if pool.supply == 0 {
      var root := Sqrt(amount0 * amount1);
      liquidity := root - MINIMUM_LIQUIDITY;
    } else {
      liquidity := Min(TruncDiv(amount0 * pool.supply, pool.reserve0), TruncDiv(amount1 * pool.supply, pool.reserve1));
    }
  }

  // ----- Claims on the reserves -----

  /** `calculateTokensInReserve`: one holder's share of both reserves. */
  function TokensInReserve(pool: Pool, lpBalance: int): (int, int)
    requires pool.supply != 0
  {
    (PreciseMul(PreciseDiv(pool.reserve0, pool.supply), lpBalance),
     PreciseMul(PreciseDiv(pool.reserve1, pool.supply), lpBalance))
  }

  /** Any list of holders whose balances fit in the supply claims at most each reserve. */
  lemma ClaimsWithinReserves(pool: Pool, balances: seq<int>)
    requires 0 < pool.supply && 0 <= pool.reserve0 && 0 <= pool.reserve1
    requires forall i :: 0 <= i < |balances| ==> 0 <= balances[i]
    requires Sum(balances) <= pool.supply
    ensures Sum(seq(|balances|, i requires 0 <= i < |balances| => TokensInReserve(pool, balances[i]).0))
            <= pool.reserve0
    ensures Sum(seq(|balances|, i requires 0 <= i < |balances| => TokensInReserve(pool, balances[i]).1))
            <= pool.reserve1
  {
    PortionsWithinTotal(pool.reserve0, pool.supply, balances);
    PortionsWithinTotal(pool.reserve1, pool.supply, balances);
    assert Portions(PreciseDiv(pool.reserve0, pool.supply), balances)
        == seq(|balances|, i requires 0 <= i < |balances| => TokensInReserve(pool, balances[i]).0);
    assert Portions(PreciseDiv(pool.reserve1, pool.supply), balances)
        == seq(|balances|, i requires 0 <= i < |balances| => TokensInReserve(pool, balances[i]).1);
  }

  /** And each holder gets its share of both, but for the two truncations. */
  lemma ClaimIsFair(pool: Pool, lpBalance: int)
    requires 0 < pool.supply && 0 <= pool.reserve0 && 0 <= pool.reserve1 && 0 <= lpBalance
    ensures var (amount0, amount1) := TokensInReserve(pool, lpBalance);
            && pool.reserve0 * lpBalance * PRECISE_UNIT < ((amount0 + 1) * PRECISE_UNIT + lpBalance) * pool.supply
            && pool.reserve1 * lpBalance * PRECISE_UNIT < ((amount1 + 1) * PRECISE_UNIT + lpBalance) * pool.supply
  {
    PortionIsFair(pool.reserve0, pool.supply, lpBalance);
    PortionIsFair(pool.reserve1, pool.supply, lpBalance);
  }

  // ----- Rebalancing -----

  datatype Asset = One | Two

  /** How far asset one is ahead after the sale, both sides valued in asset one at the given price.
      Selling asset one moves its quantity across; selling asset two buys what its quantity is worth. */
  function Imbalance(one: int, two: int, price: int, sold: Asset, quantity: int): int
    requires price != 0
  {
    if sold.One? then (one - quantity) - (PreciseDiv(two, price) + quantity)
    else (one + PreciseDiv(quantity, price)) - PreciseDiv(two - quantity, price)
  }

  /** `calculateRebalanceQuantity`, balances already including the extra amounts. */
  method RebalanceQuantity(sellTokenQuantity: int, one: int, two: int, price: int) returns (quantity: int, sold: Asset)
    requires price != 0
    ensures sold == (if PreciseDiv(two, price) < one then One else Two)
    ensures sellTokenQuantity > 0 ==> quantity == sellTokenQuantity
    ensures sellTokenQuantity <= 0 && 0 <= one && 0 <= two && 0 < price ==>
              0 <= quantity <= (if sold.One? then one else two)
    ensures sellTokenQuantity <= 0 && 0 <= one && 0 <= two && 0 < price && sold.One? ==>
              0 <= Imbalance(one, two, price, sold, quantity) <= 1
    ensures sellTokenQuantity <= 0 && 0 <= one && 0 <= two && 0 < price && sold.Two? ==>
              var d := -Imbalance(one, two, price, sold, quantity); -1 <= d && (d - 3) * price < 2 * PRECISE_UNIT
  {
    var valueTwo := PreciseDiv(two, price);
    if one > valueTwo {
      quantity := TruncDiv(one - valueTwo, 2);
      sold := One;
    } else {
      quantity := PreciseMul(TruncDiv(valueTwo - one, 2), price);
      sold := Two;
      if 0 <= one && 0 <= two && 0 < price { SellingTwoBalances(one, two, price); }
    }
    if sellTokenQuantity > 0 {
      quantity := sellTokenQuantity;
    }
  }

  lemma SellingTwoBalances(one: int, two: int, price: int)
    requires 0 < price && 0 <= two && 0 <= one <= PreciseDiv(two, price)
    ensures var quantity := PreciseMul(TruncDiv(PreciseDiv(two, price) - one, 2), price);
            && 0 <= quantity <= two
            && var d := -Imbalance(one, two, price, Two, quantity); -1 <= d && (d - 3) * price < 2 * PRECISE_UNIT
  {
    var value := PreciseDiv(two, price);
    var half := TruncDiv(value - one, 2);
    var quantity := PreciseMul(half, price);
    MulLe(half, value, price);
    assert quantity <= two;
    var bought, left := PreciseDiv(quantity, price), PreciseDiv(two - quantity, price);
    SplitQuotients(value, bought, left, price, two * PRECISE_UNIT, quantity * PRECISE_UNIT);
    MulThenDivLoses(half, price);
    ImbalanceMargin(left - one - bought, half - bought - 1, price);
  }

  lemma ImbalanceMargin(d: int, loss: int, price: int)
    requires 0 < price && d - 3 <= 2 * loss && loss * price < PRECISE_UNIT
    ensures (d - 3) * price < 2 * PRECISE_UNIT
  {
    MulLe(d - 3, 2 * loss, price);
    assert 2 * loss * price == 2 * (loss * price);
  }

  /** Truncating two parts of a dividend loses at most one against truncating the whole. */
  lemma SplitQuotients(whole: int, a: int, b: int, d: int, n: int, m: int)
    requires 0 < d
    requires whole * d <= n < whole * d + d
    requires a * d <= m < a * d + d
    requires b * d <= n - m < b * d + d
    ensures whole - 1 <= a + b <= whole
  {
    assert (a + b) * d == a * d + b * d;
    CancelLt(a + b, whole + 1, d);
    CancelLt(whole, a + b + 2, d);
  }
}
