/** Every action of the pair by inequalities alone: when it goes through, and what it leaves. */
module PairLaws {
  import opened Options
  import opened Rounding
  import opened FixedPoint
  import opened UniswapV2
  import opened UniswapPair

  // ----- Swaps -----

  /** A swap by numbers: beside its outputs and inputs being in range, it goes through exactly when the
      product of the reserves grows by three thousandths of what comes in, at the new reserves. */
  lemma SwapByNumbers(s: PairState, in0: int, in1: int, out0: int, out1: int)
    requires WellFormed(s) && 0 <= in0 && 0 <= in1 && 0 <= out0 && 0 <= out1
    ensures var r0, r1 := s.pool.reserve0 + in0 - out0, s.pool.reserve1 + in1 - out1;
            Next(s, Swap(in0, in1, out0, out1))
            == if && 0 < out0 + out1 && 0 < in0 + in1 && out0 < s.pool.reserve0 && out1 < s.pool.reserve1
                  && 3000 * (in0 * r1 + in1 * r0) - 9 * (in0 * in1)
                     <= 1_000_000 * (r0 * r1 - s.pool.reserve0 * s.pool.reserve1)
               then Some(PairState(Pool(s.pool.supply, r0, r1), s.kLast))
               else None
  {
    AdjustedProduct(s.pool.reserve0 + in0 - out0, s.pool.reserve1 + in1 - out1, in0, in1);
  }

  lemma AdjustedProduct(r0: int, r1: int, in0: int, in1: int)
    ensures (r0 * 1000 - in0 * 3) * (r1 * 1000 - in1 * 3)
            == 1_000_000 * (r0 * r1) - 3000 * (in0 * r1 + in1 * r0) + 9 * (in0 * in1)
  {
    var a, b := r0 * 1000, r1 * 1000;
    assert (a - in0 * 3) * (b - in1 * 3) == a * b - in0 * 3 * b - a * (in1 * 3) + in0 * 3 * (in1 * 3);
  }

  /** What a swap of one token for the other pays: it goes through exactly for an output of at most the
      share of the reserve that 997 thousandths of the input make of the reserve they join. */
  lemma SwapZeroForOneIff(s: PairState, in0: int, out1: int)
    requires WellFormed(s) && Live(s.pool) && 0 <= in0 && 0 <= out1
    ensures Next(s, Swap(in0, 0, 0, out1)).Some?
            <==> && 0 < in0 && 0 < out1 < s.pool.reserve1
                 && out1 * (1000 * s.pool.reserve0 + 997 * in0) <= 997 * in0 * s.pool.reserve1
  {
    PaysShare(s.pool.reserve0, s.pool.reserve1, in0, out1);
  }

  lemma SwapOneForZeroIff(s: PairState, in1: int, out0: int)
    requires WellFormed(s) && Live(s.pool) && 0 <= in1 && 0 <= out0
    ensures Next(s, Swap(0, in1, out0, 0)).Some?
            <==> && 0 < in1 && 0 < out0 < s.pool.reserve0
                 && out0 * (1000 * s.pool.reserve1 + 997 * in1) <= 997 * in1 * s.pool.reserve0
  {
    PaysShare(s.pool.reserve1, s.pool.reserve0, in1, out0);
    var p := s.pool;
    assert p.reserve0 * p.reserve1 == p.reserve1 * p.reserve0;
    assert ((p.reserve0 - out0) * 1000) * ((p.reserve1 + in1) * 1000 - in1 * 3)
        == ((p.reserve1 + in1) * 1000 - in1 * 3) * ((p.reserve0 - out0) * 1000);
  }

  lemma PaysShare(ri: int, ro: int, amountIn: int, amountOut: int)
    ensures ri * ro * 1_000_000 <= ((ri + amountIn) * 1000 - amountIn * 3) * ((ro - amountOut) * 1000)
            <==> amountOut * (1000 * ri + 997 * amountIn) <= 997 * amountIn * ro
  {
    var d := 1000 * ri + 997 * amountIn;
    assert (ri + amountIn) * 1000 - amountIn * 3 == d;
    assert d * ((ro - amountOut) * 1000) == (d * ro - d * amountOut) * 1000;
    assert d * ro == 1000 * (ri * ro) + 997 * amountIn * ro;
  }

  // ----- The protocol fee -----

  /** What the protocol is paid: the supply times the growth of the root of the product since the last
      mint or burn, over five roots and the last one. */
  ghost predicate SixthPaid(s: PairState, fee: int, rootK: int, rootKLast: int)
  {
    && IsFloorSqrt(rootK, s.pool.reserve0 * s.pool.reserve1) && IsFloorSqrt(rootKLast, s.kLast)
    && if rootKLast < rootK then IsFloor(fee, s.pool.supply * (rootK - rootKLast), 5 * rootK + rootKLast) else fee == 0
  }

  ghost predicate ProtocolPaid(s: PairState, feeOn: bool, fee: int)
  {
    if feeOn && s.kLast != 0 then exists rootK, rootKLast :: SixthPaid(s, fee, rootK, rootKLast) else fee == 0
  }

  lemma ProtocolFeeIsPaid(s: PairState, feeOn: bool)
    requires WellFormed(s)
    ensures ProtocolPaid(s, feeOn, ProtocolFee(s, feeOn))
  {
    ProductNonNegative(s.pool.reserve0, s.pool.reserve1);
    if feeOn && s.kLast != 0 {
      var rootK, rootKLast := FloorSqrt(s.pool.K()), FloorSqrt(s.kLast);
      if rootKLast < rootK { SixthIsFloor(s.pool.supply, rootK, rootKLast); }
      assert SixthPaid(s, ProtocolFee(s, feeOn), rootK, rootKLast);
    }
  }

  lemma SixthIsFloor(supply: int, rootK: int, rootKLast: int)
    requires 0 <= supply && 0 <= rootKLast < rootK
    ensures IsFloor(SixthOfGrowth(supply, rootK, rootKLast), supply * (rootK - rootKLast), 5 * rootK + rootKLast)
  {
    var fee, d := SixthOfGrowth(supply, rootK, rootKLast), 5 * rootK + rootKLast;
    assert (fee + 1) * d == fee * d + d;
  }

  // ----- Mints -----

  /** The liquidity of a mint: the root of the product of both amounts, less the locked thousand, or else
      the most that neither amount falls short of. */
  ghost predicate Liquidity(s: PairState, a: Action, fee: int, liquidity: int)
    requires a.Mint?
  {
    var supply := s.pool.supply + fee;
    if s.pool.supply == 0 then IsFloorSqrt(liquidity + 1000, a.amount0 * a.amount1)
    else
      && liquidity * s.pool.reserve0 <= a.amount0 * supply && liquidity * s.pool.reserve1 <= a.amount1 * supply
      && (|| a.amount0 * supply < (liquidity + 1) * s.pool.reserve0
          || a.amount1 * supply < (liquidity + 1) * s.pool.reserve1)
  }

  /** A mint by numbers: it pays the protocol and goes through exactly when it mints something. */
  lemma MintByNumbers(s: PairState, a: Action) returns (fee: int, liquidity: int)
    requires WellFormed(s) && ActionValid(a) && a.Mint?
    ensures ProtocolPaid(s, a.feeOn, fee) && Liquidity(s, a, fee, liquidity)
    ensures var r0, r1 := s.pool.reserve0 + a.amount0, s.pool.reserve1 + a.amount1;
            var locked := if s.pool.supply == 0 then 1000 else 0;
            Next(s, a) == if 0 < liquidity
                          then Some(PairState(Pool(s.pool.supply + fee + locked + liquidity, r0, r1),
                                              if a.feeOn then r0 * r1 else 0))
                          else None
  {
    fee := ProtocolFee(s, a.feeOn);
    ProtocolFeeIsPaid(s, a.feeOn);
    ProductNonNegative(a.amount0, a.amount1);
    if s.pool.supply == 0 {
      liquidity := FloorSqrt(a.amount0 * a.amount1) - MINIMUM_LIQUIDITY;
    } else {
      var pool := WithFee(s, a.feeOn);
      liquidity := ProRataLiquidity(pool, a.amount0, a.amount1);
      ProRataIsLargest(pool, a.amount0, a.amount1, liquidity);
      ProRataIsLargest(pool, a.amount0, a.amount1, liquidity + 1);
    }
  }

  // ----- Burns -----

  /** A burn by numbers: each token pays its share of the balances, donations included, after the protocol
      has been paid; it goes through exactly when the liquidity is not the locked thousand's and both
      amounts are positive. */
  lemma BurnByNumbers(s: PairState, a: Action) returns (fee: int, amount0: int, amount1: int)
    requires WellFormed(s) && ActionValid(a) && a.Burn?
    ensures ProtocolPaid(s, a.feeOn, fee)
    ensures 0 < s.pool.supply ==>
              && IsFloor(amount0, a.liquidity * (s.pool.reserve0 + a.extra0), s.pool.supply + fee)
              && IsFloor(amount1, a.liquidity * (s.pool.reserve1 + a.extra1), s.pool.supply + fee)
    ensures var r0, r1 := s.pool.reserve0 + a.extra0 - amount0, s.pool.reserve1 + a.extra1 - amount1;
            Next(s, a) == if a.liquidity <= s.pool.supply - 1000 && 0 < amount0 && 0 < amount1
                          then Some(PairState(Pool(s.pool.supply + fee - a.liquidity, r0, r1),
                                              if a.feeOn then r0 * r1 else 0))
                          else None
  {
    fee := ProtocolFee(s, a.feeOn);
    ProtocolFeeIsPaid(s, a.feeOn);
    amount0, amount1 := 0, 0;
    if 0 < s.pool.supply {
      ProductNonNegative(a.liquidity, s.pool.reserve0 + a.extra0);
      ProductNonNegative(a.liquidity, s.pool.reserve1 + a.extra1);
      amount0 := TruncDiv(a.liquidity * (s.pool.reserve0 + a.extra0), s.pool.supply + fee);
      amount1 := TruncDiv(a.liquidity * (s.pool.reserve1 + a.extra1), s.pool.supply + fee);
    }
  }
}
