/** external/contracts/uniswap/v2/UniswapV2Pair.sol, whose mints utils/common/uniswapUtils.ts predicts, as
    a state machine, and what every run of it keeps. */
module UniswapPair {
  import opened Options
  import opened Rounding
  import opened FixedPoint
  import opened UniswapV2

  // ----- The pair as a state machine -----

  /** The pool and, while the protocol fee is on, the product of the reserves at the last mint or burn. */
  datatype PairState = PairState(pool: Pool, kLast: int)

  /** Amounts are what the pair's balances exceed its reserves by: what was sent to it, donations
      included. `feeOn` says whether the factory names a fee receiver. */
  datatype Action =
    | Mint(amount0: int, amount1: int, feeOn: bool)
    | Burn(liquidity: int, extra0: int, extra1: int, feeOn: bool)
    | Swap(in0: int, in1: int, out0: int, out1: int)
    | Sync(extra0: int, extra1: int)

  /** Unsigned arguments. */
  predicate ActionValid(a: Action)
  {
    match a
    case Mint(amount0, amount1, _) => 0 <= amount0 && 0 <= amount1
    case Burn(liquidity, extra0, extra1, _) => 0 <= liquidity && 0 <= extra0 && 0 <= extra1
    case Swap(in0, in1, out0, out1) => 0 <= in0 && 0 <= in1 && 0 <= out0 && 0 <= out1
    case Sync(extra0, extra1) => 0 <= extra0 && 0 <= extra1
  }

  /** A live pool: the first mint locks the minimum liquidity for good. */
  predicate Live(s: Pool)
  {
    MINIMUM_LIQUIDITY <= s.supply && 0 < s.reserve0 && 0 < s.reserve1
  }

  /** Nothing minted yet, whatever has been donated, or a live pool. */
  predicate WellFormed(s: PairState)
  {
    || (s.pool.supply == 0 && s.kLast == 0 && 0 <= s.pool.reserve0 && 0 <= s.pool.reserve1)
    || (Live(s.pool) && 0 <= s.kLast)
  }

  /** `_mintFee`: liquidity for a sixth of the growth in the root of the product. */
  ghost function ProtocolFee(s: PairState, feeOn: bool): (fee: int)
    requires WellFormed(s)
    ensures 0 <= fee
  {
    ProductNonNegative(s.pool.reserve0, s.pool.reserve1);
    if !feeOn || s.kLast == 0 then 0
    else
      var rootK, rootKLast := FloorSqrt(s.pool.K()), FloorSqrt(s.kLast);
      if rootK <= rootKLast then 0 else SixthOfGrowth(s.pool.supply, rootK, rootKLast)
  }

  function SixthOfGrowth(supply: int, rootK: int, rootKLast: int): (fee: int)
    requires 0 <= supply && 0 <= rootKLast < rootK
    ensures 0 <= fee && fee * (5 * rootK + rootKLast) <= supply * (rootK - rootKLast)
                        < (fee + 1) * (5 * rootK + rootKLast)
  {
    ProductNonNegative(supply, rootK - rootKLast);
    TruncDiv(supply * (rootK - rootKLast), 5 * rootK + rootKLast)
  }

  lemma ProductNonNegative(a: int, b: int)
    requires 0 <= a && 0 <= b
    ensures 0 <= a * b
  {
  }

  /** The pool once the protocol has been paid. */
  ghost function WithFee(s: PairState, feeOn: bool): Pool
    requires WellFormed(s)
  {
    s.pool.(supply := s.pool.supply + ProtocolFee(s, feeOn))
  }

  /** What a mint or burn remembers. */
  function Remember(pool: Pool, feeOn: bool): PairState
  {
    PairState(pool, if feeOn then pool.K() else 0)
  }

  ghost function AfterMint(s: PairState, a: Action): Option<PairState>
    requires WellFormed(s) && ActionValid(a) && a.Mint?
  {
    var pool := WithFee(s, a.feeOn);
    ProductNonNegative(a.amount0, a.amount1);
    var liquidity := if pool.supply == 0 then FloorSqrt(a.amount0 * a.amount1) - MINIMUM_LIQUIDITY
                     else ProRataLiquidity(pool, a.amount0, a.amount1);
    var locked := if pool.supply == 0 then MINIMUM_LIQUIDITY else 0;
    if liquidity <= 0 then None
    else
      var supply := pool.supply + locked + liquidity;
      Some(Remember(Pool(supply, pool.reserve0 + a.amount0, pool.reserve1 + a.amount1), a.feeOn))
  }

  /** Nobody holds the locked minimum, so no more than the rest can be sent to the pair. */
  ghost function AfterBurn(s: PairState, a: Action): Option<PairState>
    requires WellFormed(s) && ActionValid(a) && a.Burn?
  {
    if s.pool.supply - MINIMUM_LIQUIDITY < a.liquidity then None
    else
      var supply := WithFee(s, a.feeOn).supply;
      var balance0, balance1 := s.pool.reserve0 + a.extra0, s.pool.reserve1 + a.extra1;
      var amount0, amount1 := TruncDiv(a.liquidity * balance0, supply), TruncDiv(a.liquidity * balance1, supply);
      if amount0 <= 0 || amount1 <= 0 then None
      else Some(Remember(Pool(supply - a.liquidity, balance0 - amount0, balance1 - amount1), a.feeOn))
  }

  /** The product check of `swap`, which charges three thousandths on what comes in. */
  predicate KeepsK(s: Pool, in0: int, in1: int, out0: int, out1: int)
  {
    var balance0, balance1 := s.reserve0 - out0 + in0, s.reserve1 - out1 + in1;
    s.reserve0 * s.reserve1 * 1_000_000 <= (balance0 * 1000 - in0 * 3) * (balance1 * 1000 - in1 * 3)
  }

  function AfterSwap(s: PairState, in0: int, in1: int, out0: int, out1: int): Option<PairState>
  {
    if (out0 == 0 && out1 == 0) || s.pool.reserve0 <= out0 || s.pool.reserve1 <= out1 || (in0 == 0 && in1 == 0)
       || !KeepsK(s.pool, in0, in1, out0, out1) then None
    else Some(PairState(Pool(s.pool.supply, s.pool.reserve0 - out0 + in0, s.pool.reserve1 - out1 + in1), s.kLast))
  }

  ghost function Next(s: PairState, a: Action): Option<PairState>
    requires WellFormed(s) && ActionValid(a)
  {
    match a
    case Mint(_, _, _) => AfterMint(s, a)
    case Burn(_, _, _, _) => AfterBurn(s, a)
    case Swap(in0, in1, out0, out1) => AfterSwap(s, in0, in1, out0, out1)
    case Sync(extra0, extra1) =>
      Some(PairState(Pool(s.pool.supply, s.pool.reserve0 + extra0, s.pool.reserve1 + extra1), s.kLast))
  }

  /** `UniswapV2Pair`. Each method answers whether it went through; a revert changes nothing. */
  class Pair {
    var supply: int
    var reserve0: int
    var reserve1: int
    var kLast: int

    ghost predicate Valid()
      reads this
    {
      WellFormed(State())
    }

    ghost function State(): PairState
      reads this
    {
      PairState(Pool(supply, reserve0, reserve1), kLast)
    }

    constructor ()
      ensures Valid() && State() == PairState(Pool(0, 0, 0), 0)
    {
      supply, reserve0, reserve1, kLast := 0, 0, 0, 0;
    }

    /** `_mintFee`: pays the protocol, and forgets the last product when the fee is off. */
    method MintFee(feeOn: bool)
      requires Valid()
      modifies this`supply, this`kLast
      ensures supply == WithFee(old(State()), feeOn).supply
      ensures kLast == if feeOn then old(kLast) else 0
    {
      if feeOn {
        if kLast != 0 {
          ProductNonNegative(reserve0, reserve1);
          var rootK := Sqrt(reserve0 * reserve1);
          var rootKLast := Sqrt(kLast);
          if rootK > rootKLast {
            var liquidity := SixthOfGrowth(supply, rootK, rootKLast);
            if liquidity > 0 {
              supply := supply + liquidity;
            }
          }
        }
      } else if kLast != 0 {
        kLast := 0;
      }
    }

    method MintTo(amount0: int, amount1: int, feeOn: bool) returns (ok: bool, liquidity: int)
      requires Valid() && 0 <= amount0 && 0 <= amount1
      modifies this
      ensures Valid()
      ensures var r := Next(old(State()), Mint(amount0, amount1, feeOn));
              ok == r.Some? && State() == (if ok then r.value else old(State()))
      ensures ok ==> 0 < liquidity
      ensures ok ==> supply == WithFee(old(State()), feeOn).supply + liquidity
                               + (if old(supply) == 0 then MINIMUM_LIQUIDITY else 0)
    {
      var savedSupply, savedKLast := supply, kLast;
      MintFee(feeOn);
      ProductNonNegative(amount0, amount1);
      liquidity := LPTokensIssued(Pool(supply, reserve0, reserve1), amount0, amount1);
      ok := 0 < liquidity;
      if !ok {
        supply, kLast := savedSupply, savedKLast;
        return;
      }
      MintKeepsWellFormed(old(State()), Mint(amount0, amount1, feeOn));
      if supply == 0 {
        supply := MINIMUM_LIQUIDITY;
      }
      supply := supply + liquidity;
      reserve0, reserve1 := reserve0 + amount0, reserve1 + amount1;
      if feeOn {
        kLast := reserve0 * reserve1;
      }
    }

    method BurnFrom(liquidity: int, extra0: int, extra1: int, feeOn: bool)
      returns (ok: bool, amount0: int, amount1: int)
      requires Valid() && 0 <= liquidity && 0 <= extra0 && 0 <= extra1
      modifies this
      ensures Valid()
      ensures var r := Next(old(State()), Burn(liquidity, extra0, extra1, feeOn));
              ok == r.Some? && State() == (if ok then r.value else old(State()))
      ensures ok ==> reserve0 == old(reserve0) + extra0 - amount0 && reserve1 == old(reserve1) + extra1 - amount1
    {
      amount0, amount1 := 0, 0;
      ok := liquidity <= supply - MINIMUM_LIQUIDITY;
      if !ok {
        return;
      }
      var savedSupply, savedKLast := supply, kLast;
      MintFee(feeOn);
      var balance0, balance1 := reserve0 + extra0, reserve1 + extra1;
      amount0, amount1 := TruncDiv(liquidity * balance0, supply), TruncDiv(liquidity * balance1, supply);
      ok := 0 < amount0 && 0 < amount1;
      if !ok {
        supply, kLast := savedSupply, savedKLast;
        return;
      }
      BurnKeepsWellFormed(old(State()), Burn(liquidity, extra0, extra1, feeOn));
      supply := supply - liquidity;
      reserve0, reserve1 := balance0 - amount0, balance1 - amount1;
      if feeOn {
        kLast := reserve0 * reserve1;
      }
    }

    method SwapFor(in0: int, in1: int, out0: int, out1: int) returns (ok: bool)
      requires Valid() && 0 <= in0 && 0 <= in1 && 0 <= out0 && 0 <= out1
      modifies this`reserve0, this`reserve1
      ensures Valid()
      ensures var r := Next(old(State()), Swap(in0, in1, out0, out1));
              ok == r.Some? && State() == (if ok then r.value else old(State()))
    {
      ok := (out0 > 0 || out1 > 0) && out0 < reserve0 && out1 < reserve1 && (in0 > 0 || in1 > 0)
            && KeepsK(Pool(supply, reserve0, reserve1), in0, in1, out0, out1);
      if ok {
        reserve0, reserve1 := reserve0 - out0 + in0, reserve1 - out1 + in1;
      }
    }

    /** `sync`: donations become reserves. */
    method SyncReserves(extra0: int, extra1: int)
      requires Valid() && 0 <= extra0 && 0 <= extra1
      modifies this`reserve0, this`reserve1
      ensures Valid() && Some(State()) == Next(old(State()), Sync(extra0, extra1))
      ensures reserve0 == old(reserve0) + extra0 && reserve1 == old(reserve1) + extra1
    {
      reserve0, reserve1 := reserve0 + extra0, reserve1 + extra1;
    }
  }

  lemma MintKeepsWellFormed(s: PairState, a: Action)
    requires WellFormed(s) && ActionValid(a) && a.Mint?
    ensures AfterMint(s, a).Some? ==> WellFormed(AfterMint(s, a).value)
  {
    var r := AfterMint(s, a);
    if r.Some? {
      if s.pool.supply == 0 { FirstMintNeedsBoth(r.value.pool.supply, a.amount0, a.amount1); }
      ProductNonNegative(r.value.pool.reserve0, r.value.pool.reserve1);
    }
  }

  lemma BurnKeepsWellFormed(s: PairState, a: Action)
    requires WellFormed(s) && ActionValid(a) && a.Burn?
    ensures AfterBurn(s, a).Some? ==> Live(s.pool) && WellFormed(AfterBurn(s, a).value)
  {
    var r := AfterBurn(s, a);
    if r.Some? {
      var supply := WithFee(s, a.feeOn).supply;
      ShareBelowReserve(a.liquidity, supply, s.pool.reserve0 + a.extra0);
      ShareBelowReserve(a.liquidity, supply, s.pool.reserve1 + a.extra1);
      ProductNonNegative(r.value.pool.reserve0, r.value.pool.reserve1);
    }
  }

  lemma FirstMintNeedsBoth(root: int, amount0: int, amount1: int)
    requires MINIMUM_LIQUIDITY < root && 0 <= amount0 && 0 <= amount1 && IsFloorSqrt(root, amount0 * amount1)
    ensures 0 < amount0 && 0 < amount1
  {
  }

  lemma ShareBelowReserve(liquidity: int, supply: int, reserve: int)
    requires 0 <= liquidity < supply && 0 < reserve
    ensures 0 <= TruncDiv(liquidity * reserve, supply) < reserve
  {
    assert 0 <= liquidity * reserve;
    MulLt(liquidity, supply, reserve);
    CancelLt(TruncDiv(liquidity * reserve, supply), reserve, supply);
  }

  // ----- The protocol fee -----

  /** The fee is the largest liquidity whose share of the pool is at most a sixth of the growth in the
      root of the product. */
  lemma FeeIsLargestSixth(supply: int, rootK: int, rootKLast: int, fee: int)
    requires 0 <= supply && 0 <= rootKLast < rootK
    ensures fee <= SixthOfGrowth(supply, rootK, rootKLast)
            <==> fee * (6 * rootK) <= (supply + fee) * (rootK - rootKLast)
  {
    var d := 5 * rootK + rootKLast;
    BracketGreatest(supply * (rootK - rootKLast), d, SixthOfGrowth(supply, rootK, rootKLast), fee);
    assert fee * d == fee * (6 * rootK) - fee * (rootK - rootKLast);
    assert (supply + fee) * (rootK - rootKLast) == supply * (rootK - rootKLast) + fee * (rootK - rootKLast);
  }

  /** And it never eats into what holders had: the root of the product, per share, stays at least what it
      was at the last mint or burn. */
  lemma FeeLeavesLastShare(supply: int, rootK: int, rootKLast: int)
    requires 0 <= supply && 0 <= rootKLast < rootK
    ensures rootKLast * (supply + SixthOfGrowth(supply, rootK, rootKLast)) <= rootK * supply
  {
    var fee := SixthOfGrowth(supply, rootK, rootKLast);
    MulLe(rootKLast, 5 * rootK + rootKLast, fee);
    assert rootKLast * (supply + fee) == rootKLast * supply + fee * rootKLast;
    assert supply * (rootK - rootKLast) == rootK * supply - rootKLast * supply;
  }

  /** Supply within the last root stays within the root after the fee. */
  lemma FeeStaysWithinRoot(supply: int, rootK: int, rootKLast: int)
    requires 0 <= supply <= rootKLast < rootK
    ensures supply + SixthOfGrowth(supply, rootK, rootKLast) <= rootK
  {
    var fee, d := SixthOfGrowth(supply, rootK, rootKLast), 5 * rootK + rootKLast;
    FeeAddsAtMost(supply, fee, rootK, rootKLast);
    MulLe(supply, rootKLast, 6 * rootK);
    SixfoldBelow(rootK, rootKLast);
    CancelLe(supply + fee, rootK, d);
  }

  lemma FeeAddsAtMost(supply: int, fee: int, rootK: int, rootKLast: int)
    requires fee * (5 * rootK + rootKLast) <= supply * (rootK - rootKLast)
    ensures (supply + fee) * (5 * rootK + rootKLast) <= supply * (6 * rootK)
  {
    var d := 5 * rootK + rootKLast;
    assert (supply + fee) * d == supply * d + fee * d;
    assert supply * (6 * rootK) == supply * (d + (rootK - rootKLast)) == supply * d + supply * (rootK - rootKLast);
  }

  lemma SixfoldBelow(rootK: int, rootKLast: int)
    requires 0 <= rootKLast < rootK
    ensures rootKLast * (6 * rootK) <= rootK * (5 * rootK + rootKLast)
  {
    MulLe(0, rootK - rootKLast, 5 * rootK);
    assert rootK * (5 * rootK + rootKLast) - rootKLast * (6 * rootK) == (rootK - rootKLast) * (5 * rootK);
  }

  lemma RootBounds(n: int, value: int)
    requires 0 <= n && 0 <= value
    ensures n <= FloorSqrt(value) <==> n * n <= value
  {
    var z := FloorSqrt(value);
    if n <= z { MulLe(n, z, n); MulLe(n, z, z); } else { MulLe(z + 1, n, z + 1); MulLe(z + 1, n, n); }
  }

  // ----- What every run keeps -----

  /** Supply never exceeds the geometric mean of the reserves. */
  predicate Bounded(s: Pool)
  {
    s.supply * s.supply <= s.K()
  }

  /** Nor, while the protocol fee is on, that of the last mint or burn, since which the product of the
      reserves has not fallen. */
  predicate Sound(s: PairState)
  {
    WellFormed(s) && Bounded(s.pool) && (s.kLast != 0 ==> s.pool.supply * s.pool.supply <= s.kLast <= s.pool.K())
  }

  /** Paying the protocol keeps the supply within the geometric mean. */
  lemma FeeKeepsBounded(s: PairState, feeOn: bool)
    requires Sound(s)
    ensures Bounded(WithFee(s, feeOn))
  {
    ProductNonNegative(s.pool.reserve0, s.pool.reserve1);
    if ProtocolFee(s, feeOn) != 0 {
      var rootK, rootKLast := FloorSqrt(s.pool.K()), FloorSqrt(s.kLast);
      RootBounds(s.pool.supply, s.kLast);
      FeeStaysWithinRoot(s.pool.supply, rootK, rootKLast);
      RootBounds(s.pool.supply + ProtocolFee(s, feeOn), s.pool.K());
    }
  }

  /** Neither reserve, per liquidity token, is lower after than before. */
  predicate SharesKept(s: Pool, s': Pool)
  {
    s.reserve0 * s'.supply <= s'.reserve0 * s.supply && s.reserve1 * s'.supply <= s'.reserve1 * s.supply
  }

  /** The product of the reserves, per squared liquidity, is not lower after than before. */
  predicate ProductKept(s: Pool, s': Pool)
  {
    s.K() * (s'.supply * s'.supply) <= s'.K() * (s.supply * s.supply)
  }

  lemma SharesGiveProduct(s: Pool, s': Pool)
    requires 0 <= s.supply && 0 <= s.reserve1 && 0 <= s'.supply && 0 <= s'.reserve0 && SharesKept(s, s')
    ensures ProductKept(s, s')
  {
  }

  lemma ProductKeepsBounded(s: Pool, s': Pool)
    requires Live(s) && Bounded(s) && 0 <= s'.K() && ProductKept(s, s')
    ensures Bounded(s')
  {
  }

  /** The liquidity that an action pays to the protocol. */
  ghost function FeeOf(s: PairState, a: Action): int
    requires WellFormed(s)
  {
    match a
    case Mint(_, _, feeOn) => ProtocolFee(s, feeOn)
    case Burn(_, _, _, feeOn) => ProtocolFee(s, feeOn)
    case Swap(_, _, _, _) => 0
    case Sync(_, _) => 0
  }

  /** The pool that an action starts from, once the protocol has been paid. */
  ghost function Diluted(s: PairState, a: Action): Pool
    requires WellFormed(s)
  {
    s.pool.(supply := s.pool.supply + FeeOf(s, a))
  }

  /** One action on a live pool: it stays live, its product per share does not fall once the protocol
      has been paid, and unless it is a swap neither reserve per share falls. */
  lemma ActionKeeps(s: PairState, a: Action)
    requires Live(s.pool) && WellFormed(s) && ActionValid(a)
    ensures Next(s, a).Some? ==>
              var s' := Next(s, a).value;
              && WellFormed(s') && Live(s'.pool)
              && ProductKept(Diluted(s, a), s'.pool) && (!a.Swap? ==> SharesKept(Diluted(s, a), s'.pool))
  {
    if Next(s, a).Some? {
      var t, s' := Diluted(s, a), Next(s, a).value;
      match a {
        case Mint(_, _, _) => MintKeepsShares(s, a);
        case Burn(_, _, _, _) => BurnKeepsShares(s, a);
        case Swap(in0, in1, out0, out1) =>
          FeeOnlyAdds(s'.pool.reserve0, s'.pool.reserve1, in0, in1);
          MulLe(t.K(), s'.pool.K(), t.supply * t.supply) by { MulLe(0, t.supply, t.supply); }
        case Sync(extra0, extra1) =>
          MulLe(t.reserve0, t.reserve0 + extra0, t.supply);
          MulLe(t.reserve1, t.reserve1 + extra1, t.supply);
          SharesGiveProduct(t, s'.pool);
      }
    }
  }

  lemma MintKeepsShares(s: PairState, a: Action)
    requires Live(s.pool) && WellFormed(s) && ActionValid(a) && a.Mint?
    ensures AfterMint(s, a).Some? ==>
              var s' := AfterMint(s, a).value;
              && WellFormed(s') && Live(s'.pool)
              && SharesKept(Diluted(s, a), s'.pool) && ProductKept(Diluted(s, a), s'.pool)
  {
    if AfterMint(s, a).Some? {
      var t, s' := Diluted(s, a), AfterMint(s, a).value;
      MintKeepsWellFormed(s, a);
      MintKeepsShare(a.amount0, t.supply, t.reserve0, s'.pool.supply - t.supply);
      MintKeepsShare(a.amount1, t.supply, t.reserve1, s'.pool.supply - t.supply);
      SharesGiveProduct(t, s'.pool);
    }
  }

  lemma BurnKeepsShares(s: PairState, a: Action)
    requires Live(s.pool) && WellFormed(s) && ActionValid(a) && a.Burn?
    ensures AfterBurn(s, a).Some? ==>
              var s' := AfterBurn(s, a).value;
              && WellFormed(s') && Live(s'.pool)
              && SharesKept(Diluted(s, a), s'.pool) && ProductKept(Diluted(s, a), s'.pool)
  {
    if AfterBurn(s, a).Some? {
      var t, s' := Diluted(s, a), AfterBurn(s, a).value;
      BurnKeepsWellFormed(s, a);
      BurnKeepsShare(a.liquidity, t.supply, t.reserve0, a.extra0);
      BurnKeepsShare(a.liquidity, t.supply, t.reserve1, a.extra1);
      SharesGiveProduct(t, s'.pool);
    }
  }

  lemma MintKeepsShare(amount: int, supply: int, reserve: int, minted: int)
    requires 0 <= amount && 0 < supply && 0 < reserve
    requires minted <= TruncDiv(amount * supply, reserve)
    ensures reserve * (supply + minted) <= (reserve + amount) * supply
  {
  }

  lemma BurnKeepsShare(liquidity: int, supply: int, reserve: int, extra: int)
    requires 0 <= liquidity < supply && 0 < reserve && 0 <= extra
    ensures var out := TruncDiv(liquidity * (reserve + extra), supply);
            0 <= out < reserve + extra && reserve * (supply - liquidity) <= (reserve + extra - out) * supply
  {
    ShareBelowReserve(liquidity, supply, reserve + extra);
    MulLe(reserve, reserve + extra, supply - liquidity);
    assert (reserve + extra) * (supply - liquidity) == (reserve + extra) * supply - liquidity * (reserve + extra);
  }

  /** What remains of the balances after the fee is at most the balances themselves. */
  lemma FeeOnlyAdds(balance0: int, balance1: int, in0: int, in1: int)
    requires 0 <= in0 <= balance0 && 0 <= in1 <= balance1
    ensures (balance0 * 1000 - in0 * 3) * (balance1 * 1000 - in1 * 3) <= balance0 * balance1 * 1_000_000
  {
  }

  /** One action, from any sound state, keeps the supply within both geometric means. */
  lemma ActionKeepsSound(s: PairState, a: Action)
    requires Sound(s) && ActionValid(a)
    ensures Next(s, a).Some? ==> Sound(Next(s, a).value)
  {
    if Next(s, a).Some? {
      if Live(s.pool) {
        var s' := Next(s, a).value;
        ActionKeeps(s, a);
        if a.Mint? || a.Burn? { FeeKeepsBounded(s, a.feeOn); }
        ProductNonNegative(s'.pool.reserve0, s'.pool.reserve1);
        ProductKeepsBounded(Diluted(s, a), s'.pool);
        if a.Swap? || a.Sync? { SameSupplyKeepsProduct(s.pool, s'.pool); }
      } else {
        UnmintedKeepsSound(s, a);
      }
    }
  }

  lemma SameSupplyKeepsProduct(s: Pool, s': Pool)
    requires 0 < s.supply == s'.supply && ProductKept(s, s')
    ensures s.K() <= s'.K()
  {
    MulLt(0, s.supply, s.supply);
    CancelLe(s.K(), s'.K(), s.supply * s.supply);
  }

  lemma UnmintedKeepsSound(s: PairState, a: Action)
    requires WellFormed(s) && s.pool.supply == 0 && ActionValid(a)
    ensures Next(s, a).Some? ==> Sound(Next(s, a).value)
  {
    if Next(s, a).Some? {
      var s' := Next(s, a).value;
      if a.Mint? {
        MintKeepsWellFormed(s, a);
        MulLe(a.amount0, s'.pool.reserve0, a.amount1);
        MulLe(a.amount1, s'.pool.reserve1, s'.pool.reserve0);
      } else {
        ProductNonNegative(s'.pool.reserve0, s'.pool.reserve1);
      }
    }
  }

  // ----- Whole runs -----

  /** A run: the states it passes through, joined by actions. */
  ghost predicate IsRun(states: seq<PairState>, actions: seq<Action>)
  {
    && |states| == |actions| + 1
    && forall i :: 0 <= i < |actions| ==> Follows(states[i], actions[i], states[i + 1])
  }

  ghost predicate Follows(s: PairState, a: Action, s': PairState)
  {
    WellFormed(s) && ActionValid(a) && Next(s, a) == Some(s')
  }

  /** Every run from a pair without liquidity, mints, burns, swaps and donations in any order and the
      protocol fee switched on and off at will, keeps the supply within the geometric mean of the
      reserves, and of those at the last mint or burn while the fee is on. */
  lemma {:induction false} RunStaysBounded(states: seq<PairState>, actions: seq<Action>, i: nat)
    requires IsRun(states, actions) && WellFormed(states[0]) && states[0].pool.supply == 0
    requires i < |states|
    ensures Sound(states[i])
    decreases i
  {
    if i == 0 {
      ProductNonNegative(states[0].pool.reserve0, states[0].pool.reserve1);
    } else {
      RunStaysBounded(states, actions, i - 1);
      assert Follows(states[i - 1], actions[i - 1], states[i]);
      ActionKeepsSound(states[i - 1], actions[i - 1]);
    }
  }

  lemma ProductKeptTransitive(s: Pool, t: Pool, u: Pool)
    requires 0 < t.supply && ProductKept(s, t) && ProductKept(t, u)
    ensures ProductKept(s, u)
  {
  }

  lemma SharesKeptTransitive(s: Pool, t: Pool, u: Pool)
    requires 0 <= s.supply && 0 < t.supply && 0 <= u.supply && SharesKept(s, t) && SharesKept(t, u)
    ensures SharesKept(s, u)
  {
  }

  /** No action between the two moments pays the protocol. */
  ghost predicate NoFeeBetween(states: seq<PairState>, actions: seq<Action>, i: nat, j: nat)
    requires IsRun(states, actions) && i <= j < |states|
  {
    forall k :: i <= k < j ==> Follows(states[k], actions[k], states[k + 1]) && FeeOf(states[k], actions[k]) == 0
  }

  /** Between any two moments of a live run at which the protocol is not paid, the product of the
      reserves per squared share does not fall; if no swap lies between them, neither does either
      reserve per share. */
  lemma {:induction false} RunKeepsShares(states: seq<PairState>, actions: seq<Action>, i: nat, j: nat)
    requires IsRun(states, actions) && i <= j < |states| && WellFormed(states[i]) && Live(states[i].pool)
    requires NoFeeBetween(states, actions, i, j)
    ensures WellFormed(states[j]) && Live(states[j].pool) && ProductKept(states[i].pool, states[j].pool)
    ensures (forall k :: i <= k < j ==> !actions[k].Swap?) ==> SharesKept(states[i].pool, states[j].pool)
    decreases j
  {
    if i < j {
      RunKeepsShares(states, actions, i, j - 1);
      assert Follows(states[j - 1], actions[j - 1], states[j]);
      ActionKeeps(states[j - 1], actions[j - 1]);
      assert Diluted(states[j - 1], actions[j - 1]) == states[j - 1].pool;
      ProductKeptTransitive(states[i].pool, states[j - 1].pool, states[j].pool);
      if forall k :: i <= k < j ==> !actions[k].Swap? {
        SharesKeptTransitive(states[i].pool, states[j - 1].pool, states[j].pool);
      }
    }
  }

  // ----- Across payments to the protocol -----

  /** The root of the product remembered from the last mint or burn. */
  ghost function LastRoot(s: PairState): (r: int)
    requires 0 <= s.kLast
    ensures 0 <= r
  {
    FloorSqrt(s.kLast)
  }

  /** One action, the protocol paid or not: the product of the reserves per squared share is afterwards at
      least the squared root remembered before. */
  lemma ActionKeepsLastRoot(s: PairState, a: Action)
    requires Sound(s) && 0 < s.kLast && Live(s.pool) && ActionValid(a)
    ensures Next(s, a).Some? ==>
              var s' := Next(s, a).value; var r := LastRoot(s);
              r * r * (s'.pool.supply * s'.pool.supply) <= s'.pool.K() * (s.pool.supply * s.pool.supply)
  {
    if Next(s, a).Some? {
      ActionKeeps(s, a);
      DilutedKeepsLastRoot(s, a);
      RootThroughProduct(LastRoot(s), s.pool.supply, Diluted(s, a), Next(s, a).value.pool);
    }
  }

  /** Paying the protocol leaves every share the root it had at the last mint or burn. */
  lemma DilutedKeepsLastRoot(s: PairState, a: Action)
    requires Sound(s) && 0 < s.kLast && Live(s.pool)
    ensures var r, t := LastRoot(s), Diluted(s, a);
            r * r * (t.supply * t.supply) <= t.K() * (s.pool.supply * s.pool.supply)
  {
    var r, k, t := LastRoot(s), FloorSqrt(s.pool.K()), Diluted(s, a);
    RootBounds(r, s.pool.K());
    assert r * t.supply <= k * s.pool.supply by {
      if FeeOf(s, a) != 0 { FeeLeavesLastShare(s.pool.supply, k, r); } else { MulLe(r, k, s.pool.supply); }
    }
    SquaredShares(r, t.supply, k, s.pool.supply, s.pool.K());
  }

  lemma SquaredShares(r: int, supply': int, k: int, supply: int, product: int)
    requires 0 <= r && 0 <= supply' && 0 <= k && 0 <= supply && r * supply' <= k * supply && k * k <= product
    ensures r * r * (supply' * supply') <= product * (supply * supply)
  {
    var a, b := r * supply', k * supply;
    MulLe(0, r, supply');
    MulLe(a, b, a);
    MulLe(a, b, b);
    MulLe(0, supply, supply);
    MulLe(k * k, product, supply * supply);
    assert a * a == r * r * (supply' * supply') && b * b == k * k * (supply * supply);
  }

  lemma RootThroughProduct(r: int, supply: int, t: Pool, s': Pool)
    requires 0 < t.supply && ProductKept(t, s') && r * r * (t.supply * t.supply) <= t.K() * (supply * supply)
    ensures r * r * (s'.supply * s'.supply) <= s'.K() * (supply * supply)
  {
    var n, n', m := t.supply * t.supply, s'.supply * s'.supply, supply * supply;
    MulLt(0, t.supply, t.supply);
    Square(s'.supply);
    Square(supply);
    MulLe(r * r * n, t.K() * m, n');
    MulLe(t.K() * n', s'.K() * n, m);
    assert r * r * n * n' == r * r * n' * n && t.K() * m * n' == t.K() * n' * m && s'.K() * n * m == s'.K() * m * n;
    CancelLe(r * r * n', s'.K() * m, n);
  }

  lemma Square(x: int)
    ensures 0 <= x * x
  {
  }

  predicate OnlySwaps(actions: seq<Action>, i: nat, j: nat)
    requires i <= j <= |actions|
  {
    forall k :: i <= k < j ==> actions[k].Swap? || actions[k].Sync?
  }

  /** Swaps and donations change neither the supply nor what is remembered. */
  lemma {:induction false} SwapsRemember(states: seq<PairState>, actions: seq<Action>, i: nat, j: nat)
    requires IsRun(states, actions) && i <= j < |states| && OnlySwaps(actions, i, j)
    requires Sound(states[i]) && Live(states[i].pool)
    ensures Sound(states[j]) && Live(states[j].pool)
    ensures states[j].kLast == states[i].kLast && states[j].pool.supply == states[i].pool.supply
    decreases j
  {
    if i < j {
      SwapsRemember(states, actions, i, j - 1);
      assert Follows(states[j - 1], actions[j - 1], states[j]);
      ActionKeepsSound(states[j - 1], actions[j - 1]);
      ActionKeeps(states[j - 1], actions[j - 1]);
    }
  }

  /** From one mint or burn through any swaps and donations to the next one, which may pay the protocol:
      the product per squared share is at least the squared root that the first remembered. */
  lemma ConsecutiveEventsKeepRoot(states: seq<PairState>, actions: seq<Action>, i: nat, j: nat)
    requires IsRun(states, actions) && i < j < |states| && OnlySwaps(actions, i, j - 1)
    requires Sound(states[i]) && Live(states[i].pool) && 0 < states[i].kLast
    ensures var s, s' := states[i].pool, states[j].pool; var r := LastRoot(states[i]);
            r * r * (s'.supply * s'.supply) <= s'.K() * (s.supply * s.supply)
  {
    SwapsRemember(states, actions, i, j - 1);
    assert Follows(states[j - 1], actions[j - 1], states[j]);
    ActionKeepsLastRoot(states[j - 1], actions[j - 1]);
  }

  /** So a mint or burn that remembers again loses less than one of the root per share. */
  lemma EventKeepsRoot(s: PairState, a: Action)
    requires Sound(s) && 0 < s.kLast && Live(s.pool) && ActionValid(a) && (a.Mint? || a.Burn?) && a.feeOn
    ensures Next(s, a).Some? ==>
              var s' := Next(s, a).value;
              Sound(s') && LastRoot(s) * s'.pool.supply < (LastRoot(s') + 1) * s.pool.supply
  {
    if Next(s, a).Some? {
      var s' := Next(s, a).value;
      ActionKeepsSound(s, a);
      ActionKeepsLastRoot(s, a);
      var r, r' := LastRoot(s), LastRoot(s') + 1;
      assert s'.kLast == s'.pool.K() < r' * r';
      BelowRoot(r, s'.pool.supply, r', s.pool.supply, s'.pool.K());
    }
  }

  lemma BelowRoot(r: int, supply': int, r': int, supply: int, product: int)
    requires 0 <= r' && 0 < supply && r * r * (supply' * supply') <= product * (supply * supply) && product < r' * r'
    ensures r * supply' < r' * supply
  {
    var a, b := r * supply', r' * supply;
    MulLt(0, supply, supply);
    MulLt(product, r' * r', supply * supply);
    assert a * a == r * r * (supply' * supply') && b * b == r' * r' * (supply * supply);
    if b <= a {
      MulLe(0, r', supply);
      MulLe(b, a, b);
      MulLe(b, a, a);
    }
  }

  predicate FeeAlwaysOn(actions: seq<Action>, i: nat, j: nat)
    requires i <= j <= |actions|
  {
    forall k :: i <= k < j ==> actions[k].Swap? || actions[k].Sync? || actions[k].feeOn
  }

  /** The mints and burns between two moments. */
  function Events(actions: seq<Action>, i: nat, j: nat): (n: nat)
    requires i <= j <= |actions|
    decreases j
  {
    if i == j then 0
    else Events(actions, i, j - 1) + (if actions[j - 1].Mint? || actions[j - 1].Burn? then 1 else 0)
  }

  /** The remembered root per share has fallen by at most `n` parts of the locked minimum. */
  ghost predicate RootShareKept(s: PairState, s': PairState, n: int)
    requires 0 <= s.kLast && 0 <= s'.kLast
  {
    MINIMUM_LIQUIDITY * (LastRoot(s) * s'.pool.supply - LastRoot(s') * s.pool.supply)
    <= n * (s.pool.supply * s'.pool.supply)
  }

  /** Over whole runs with the protocol fee on, payments included: between any two moments the remembered
      root per share falls by at most one part of the locked minimum for each mint or burn. */
  lemma {:induction false} RunKeepsRootShare(states: seq<PairState>, actions: seq<Action>, i: nat, j: nat)
    requires IsRun(states, actions) && i <= j < |states| && FeeAlwaysOn(actions, i, j)
    requires Sound(states[i]) && 0 < states[i].kLast && Live(states[i].pool)
    ensures Sound(states[j]) && 0 < states[j].kLast && Live(states[j].pool)
    ensures RootShareKept(states[i], states[j], Events(actions, i, j))
    decreases j
  {
    if i < j {
      RunKeepsRootShare(states, actions, i, j - 1);
      assert Follows(states[j - 1], actions[j - 1], states[j]);
      RootShareExtends(states[i], states[j - 1], actions[j - 1], Events(actions, i, j - 1));
    }
  }

  lemma RootShareExtends(s: PairState, t: PairState, a: Action, n: int)
    requires 0 <= s.kLast && 0 < s.pool.supply && Sound(t) && 0 < t.kLast && Live(t.pool) && RootShareKept(s, t, n)
    requires ActionValid(a) && (a.Swap? || a.Sync? || a.feeOn)
    ensures Next(t, a).Some? ==>
              var s' := Next(t, a).value;
              && Sound(s') && 0 < s'.kLast && Live(s'.pool)
              && RootShareKept(s, s', n + (if a.Mint? || a.Burn? then 1 else 0))
  {
    if Next(t, a).Some? {
      var s' := Next(t, a).value;
      ActionKeepsSound(t, a);
      ActionKeeps(t, a);
      if a.Mint? || a.Burn? {
        EventKeepsRoot(t, a);
        MulLt(0, s'.pool.reserve0, s'.pool.reserve1);
        EventLoss(t.pool.supply, LastRoot(t), s'.pool.supply, LastRoot(s'), MINIMUM_LIQUIDITY);
        RootShareStep(s.pool.supply, LastRoot(s), t.pool.supply, LastRoot(t), s'.pool.supply, LastRoot(s'), n,
                      MINIMUM_LIQUIDITY);
      }
    }
  }

  lemma EventLoss(s1: int, r1: int, s2: int, r2: int, w: int)
    requires 0 < s1 && 0 < w <= s2 && r1 * s2 < (r2 + 1) * s1
    ensures w * (r1 * s2 - r2 * s1) <= s1 * s2
  {
    assert (r2 + 1) * s1 == r2 * s1 + s1;
    MulLe(r1 * s2 - r2 * s1, s1, w);
    MulLe(w, s2, s1);
  }

  lemma RootShareStep(s0: int, r0: int, s1: int, r1: int, s2: int, r2: int, n: int, w: int)
    requires 0 < s0 && 0 < s1 && 0 < s2
    requires w * (r0 * s1 - r1 * s0) <= n * (s0 * s1) && w * (r1 * s2 - r2 * s1) <= s1 * s2
    ensures w * (r0 * s2 - r2 * s0) <= (n + 1) * (s0 * s2)
  {
    ThroughMiddle(s0, r0, s1, r1, s2, r2);
    AddLosses(r0 * s1 - r1 * s0, r1 * s2 - r2 * s1, r0 * s2 - r2 * s0, s0, s1, s2, n, w);
  }

  lemma ThroughMiddle(s0: int, r0: int, s1: int, r1: int, s2: int, r2: int)
    ensures (r0 * s2 - r2 * s0) * s1 == (r0 * s1 - r1 * s0) * s2 + (r1 * s2 - r2 * s1) * s0
  {
  }

  lemma AddLosses(a: int, b: int, d: int, s0: int, s1: int, s2: int, n: int, w: int)
    requires 0 < s0 && 0 < s1 && 0 < s2 && d * s1 == a * s2 + b * s0
    requires w * a <= n * (s0 * s1) && w * b <= s1 * s2
    ensures w * d <= (n + 1) * (s0 * s2)
  {
    MulLe(w * a, n * (s0 * s1), s2);
    MulLe(w * b, s1 * s2, s0);
    ScaleLosses(a, b, d, s0, s1, s2, w);
    Regroup(s0, s1, s2, n);
    CancelLe(w * d, (n + 1) * (s0 * s2), s1);
  }

  lemma ScaleLosses(a: int, b: int, d: int, s0: int, s1: int, s2: int, w: int)
    requires d * s1 == a * s2 + b * s0
    ensures w * d * s1 == w * a * s2 + w * b * s0
  {
    assert w * d * s1 == w * (d * s1);
    assert w * (a * s2 + b * s0) == w * (a * s2) + w * (b * s0);
  }

  lemma Regroup(s0: int, s1: int, s2: int, n: int)
    ensures n * (s0 * s1) * s2 + s1 * s2 * s0 == (n + 1) * (s0 * s2) * s1
  {
    var t := s0 * s2;
    assert s0 * s1 * s2 == t * s1 && s1 * s2 * s0 == t * s1;
    assert (n + 1) * t * s1 == n * t * s1 + t * s1;
    assert n * (s0 * s1) * s2 == n * (s0 * s1 * s2);
  }
}
