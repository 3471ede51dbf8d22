/** utils/common/feeModuleUtils.ts: the streaming fee, paid by inflating the supply. */
module StreamingFee {
  import opened Options
  import opened Rounding
  import opened FixedPoint

  const ONE_YEAR_IN_SECONDS: int := 31557600

  // ----- The helpers -----

  /** `getStreamingFee`: the rate given, or else the one stored for the set. */
  function PredictedFee(storedRate: int, previousTimestamp: int, recentTimestamp: int, rate: Option<int>): int
  {
    FeeForPeriod(if rate.Some? then rate.value else storedRate, previousTimestamp, recentTimestamp)
  }

  /** A rate that is given is charged, whatever is stored; otherwise the stored one is. */
  lemma PredictedFeeByRate(storedRate: int, from: int, to: int, rate: Option<int>, fee: int)
    requires from <= to && 0 <= storedRate && (rate.Some? ==> 0 <= rate.value)
    ensures PredictedFee(storedRate, from, to, rate) == fee
            <==> IsFloor(fee, (to - from) * (match rate case Some(given) => given case None => storedRate), 31557600)
  {
    var charged := if rate.Some? then rate.value else storedRate;
    BracketUnique((to - from) * charged, ONE_YEAR_IN_SECONDS, FeeForPeriod(charged, from, to), fee);
  }

  /** The rate for the elapsed part of a year, rounded down. */
  function FeeForPeriod(rate: int, from: int, to: int): (fee: int)
    ensures 0 <= rate && from <= to ==>
              && 0 <= fee
              && fee * ONE_YEAR_IN_SECONDS <= (to - from) * rate < fee * ONE_YEAR_IN_SECONDS + ONE_YEAR_IN_SECONDS
  {
    assert 0 <= rate && from <= to ==> 0 <= (to - from) * rate;
    TruncDiv((to - from) * rate, ONE_YEAR_IN_SECONDS)
  }

  /** `getStreamingFeeInflationAmount`. A fee of exactly one hundred per cent divides by zero. */
  function InflationAmount(fee: int, supply: int): (f: int)
    requires fee != PRECISE_UNIT
    ensures 0 <= fee < PRECISE_UNIT && 0 <= supply ==>
              var d := PRECISE_UNIT - fee; 0 <= f && f * d <= fee * supply < f * d + d
  {
    assert 0 <= fee && 0 <= supply ==> 0 <= fee * supply;
    TruncDiv(fee * supply, PRECISE_UNIT - fee)
  }

  function PostFeeUnit(unit: int, fee: int): int
  {
    if 0 <= unit then PreciseMul(unit, PRECISE_UNIT - fee) else PreciseMulCeilInt(unit, PRECISE_UNIT - fee)
  }

  /** `getPostFeePositionUnits`. */
  method PostFeePositionUnits(preFeeUnits: seq<int>, fee: int) returns (newUnits: seq<int>)
    ensures |newUnits| == |preFeeUnits|
    ensures forall i :: 0 <= i < |preFeeUnits| ==> newUnits[i] == PostFeeUnit(preFeeUnits[i], fee)
  {
    newUnits := [];
    for i := 0 to |preFeeUnits|
      invariant |newUnits| == i
      invariant forall j :: 0 <= j < i ==> newUnits[j] == PostFeeUnit(preFeeUnits[j], fee)
    {
      if preFeeUnits[i] >= 0 {
        newUnits := newUnits + [PreciseMul(preFeeUnits[i], PRECISE_UNIT - fee)];
      } else {
        newUnits := newUnits + [PreciseMulCeilInt(preFeeUnits[i], PRECISE_UNIT - fee)];
      }
    }
  }

  // ----- Inflation -----

  /** The inflation is the largest number of tokens whose share of the inflated supply stays within
      the fee. */
  lemma InflationIsLargestShare(fee: int, supply: int, f: int)
    requires 0 <= fee < PRECISE_UNIT && 0 <= supply
    ensures f * PRECISE_UNIT <= fee * (supply + f) <==> f <= InflationAmount(fee, supply)
  {
    BracketGreatest(fee * supply, PRECISE_UNIT - fee, InflationAmount(fee, supply), f);
    assert fee * (supply + f) == fee * supply + fee * f;
    assert f * (PRECISE_UNIT - fee) == f * PRECISE_UNIT - fee * f;
  }

  function InflatedSupply(fee: int, supply: int): int
    requires fee != PRECISE_UNIT
  {
    supply + InflationAmount(fee, supply)
  }

  /** The inflated supply is the exact quotient of the supply by what the fee leaves, truncated. */
  lemma InflatedSupplyIsQuotient(fee: int, supply: int)
    requires 0 <= fee < PRECISE_UNIT && 0 <= supply
    ensures var n := InflatedSupply(fee, supply); var d := PRECISE_UNIT - fee;
            supply <= n && n * d <= supply * PRECISE_UNIT < n * d + d
  {
    var f, d := InflationAmount(fee, supply), PRECISE_UNIT - fee;
    assert (supply + f) * d == supply * PRECISE_UNIT - fee * supply + f * d;
  }

  // ----- Units -----

  /** A held position: the notional total never grows, and shrinks by at most one unit plus one wei
      per token of the new supply. */
  lemma AccrualOnHeldUnit(fee: int, supply: int, unit: int)
    requires 0 <= fee < PRECISE_UNIT && 0 <= supply && 0 <= unit
    ensures var n := InflatedSupply(fee, supply); var u' := PostFeeUnit(unit, fee);
            0 <= u' <= unit && (supply - 1) * unit <= n * (u' + 1) && n * u' <= supply * unit
  {
    InflatedSupplyIsQuotient(fee, supply);
    var n, u', d := InflatedSupply(fee, supply), PostFeeUnit(unit, fee), PRECISE_UNIT - fee;
    CancelLe(u', unit, PRECISE_UNIT) by { MulLe(d, PRECISE_UNIT, unit); }
    ComposeProportions(n, u', supply, unit, d, PRECISE_UNIT);
    if 0 < supply {
      ComposeProportions(supply - 1, unit, n, u' + 1, PRECISE_UNIT, d);
    } else {
      MulLe(-1, 0, unit);
      MulLe(0, n, u' + 1);
    }
  }

  /** A debt: its notional total stays within one unit below and one wei per new token above. */
  lemma AccrualOnDebtUnit(fee: int, supply: int, unit: int)
    requires 0 <= fee < PRECISE_UNIT && 0 < supply && unit < 0
    ensures var n := InflatedSupply(fee, supply); var u' := PostFeeUnit(unit, fee);
            u' < 0 && (supply - 1) * -unit < n * -u' && n * (-u' - 1) < supply * -unit
  {
    var n, d := InflatedSupply(fee, supply), PRECISE_UNIT - fee;
    var q, debt := -PostFeeUnit(unit, fee), -unit;
    InflatedSupplyIsQuotient(fee, supply);
    DebtUnitRoundsUp(fee, unit);
    ComposeProportionsStrictly(supply - 1, debt, n, q, PRECISE_UNIT, d);
    ComposeProportionsStrictly(n, q - 1, supply, debt, d, PRECISE_UNIT);
  }

  lemma DebtUnitRoundsUp(fee: int, unit: int)
    requires 0 <= fee < PRECISE_UNIT && unit < 0
    ensures var q := -PostFeeUnit(unit, fee); var d := PRECISE_UNIT - fee;
            0 < q && -unit * d <= q * PRECISE_UNIT && (q - 1) * PRECISE_UNIT < -unit * d
  {
  }

  /** Both branches of the helper round down: a held unit towards zero, a debt away from it. */
  lemma PostFeeUnitIsFloor(unit: int, fee: int)
    requires 0 <= fee < PRECISE_UNIT
    ensures var p := PostFeeUnit(unit, fee);
            p * PRECISE_UNIT <= unit * (PRECISE_UNIT - fee) < p * PRECISE_UNIT + PRECISE_UNIT
  {
    if unit < 0 {
      DebtUnitRoundsUp(fee, unit);
      assert -unit * (PRECISE_UNIT - fee) == -(unit * (PRECISE_UNIT - fee));
    }
  }

  // ----- Splitting a period into several accruals -----

  predicate NonDecreasing(times: seq<int>)
  {
    forall i :: 0 < i < |times| ==> times[i - 1] <= times[i]
  }

  /** The fees of accruing at every listed time after the first. */
  function SplitFees(rate: int, times: seq<int>): (fees: seq<int>)
    requires 0 < |times|
    ensures |fees| == |times| - 1
  {
    var n := |times| - 1;
    if n == 0 then [] else SplitFees(rate, times[..n]) + [FeeForPeriod(rate, times[n - 1], times[n])]
  }

  /** The supply after accruing each fee in turn. */
  function SupplyAfter(supply: int, fees: seq<int>): int
    requires forall i :: 0 <= i < |fees| ==> fees[i] != PRECISE_UNIT
  {
    if |fees| == 0 then supply
    else InflatedSupply(fees[|fees| - 1], SupplyAfter(supply, fees[..|fees| - 1]))
  }

  /** Truncated fees of a split period add up to the fee of the whole, less at most one wei for each
      cut. */
  lemma {:induction false} SplitFeesSum(rate: int, times: seq<int>)
    requires 0 <= rate && 1 < |times| && NonDecreasing(times)
    ensures var whole := FeeForPeriod(rate, times[0], times[|times| - 1]);
            whole - (|times| - 2) <= Sum(SplitFees(rate, times)) <= whole
    ensures times[0] <= times[|times| - 1]
    decreases |times|
  {
    var n := |times| - 1;
    var front, last := SplitFees(rate, times[..n]), FeeForPeriod(rate, times[n - 1], times[n]);
    assert SplitFees(rate, times)[..n - 1] == front;
    if n == 1 {
      assert Sum(front) == 0;
    } else {
      SplitFeesSum(rate, times[..n]);
      FeeOfAdjacentPeriods(rate, times[0], times[n - 1], times[n]);
    }
  }

  lemma {:induction false} SplitFeesNonNegative(rate: int, times: seq<int>, i: nat)
    requires 0 <= rate && 0 < |times| && NonDecreasing(times) && i < |times| - 1
    ensures 0 <= SplitFees(rate, times)[i]
    decreases |times|
  {
    var n := |times| - 1;
    if i < n - 1 { SplitFeesNonNegative(rate, times[..n], i); }
  }

  lemma FeeOfAdjacentPeriods(rate: int, t0: int, t1: int, t2: int)
    requires 0 <= rate && t0 <= t1 <= t2
    ensures FeeForPeriod(rate, t0, t1) + FeeForPeriod(rate, t1, t2)
            <= FeeForPeriod(rate, t0, t2)
            <= FeeForPeriod(rate, t0, t1) + FeeForPeriod(rate, t1, t2) + 1
  {
    assert (t1 - t0) * rate + (t2 - t1) * rate == (t2 - t0) * rate;
    assert 0 <= (t1 - t0) * rate && 0 <= (t2 - t1) * rate;
  }

  /** Each accrual divides by what its fee leaves; together they inflate at most as one division by
      what the summed fees leave. */
  lemma {:induction false} AccrualsCompose(supply: int, fees: seq<int>)
    requires 0 <= supply
    requires forall i :: 0 <= i < |fees| ==> 0 <= fees[i]
    requires Sum(fees) < PRECISE_UNIT
    ensures forall i :: 0 <= i < |fees| ==> fees[i] < PRECISE_UNIT
    ensures 0 <= Sum(fees)
    ensures supply <= SupplyAfter(supply, fees)
    ensures SupplyAfter(supply, fees) * (PRECISE_UNIT - Sum(fees)) <= supply * PRECISE_UNIT
    decreases |fees|
  {
    if |fees| > 0 {
      var n := |fees| - 1;
      var fee, sum := fees[n], Sum(fees[..n]);
      AccrualsCompose(supply, fees[..n]);
      assert forall i :: 0 <= i < n ==> fees[i] == fees[..n][i];
      var before, after := SupplyAfter(supply, fees[..n]), SupplyAfter(supply, fees);
      InflatedSupplyIsQuotient(fee, before);
      ComposeQuotients(supply, before, after, sum, fee, PRECISE_UNIT);
    }
  }

  lemma ComposeQuotients(s0: int, s1: int, s2: int, sum: int, fee: int, u: int)
    requires 0 <= sum && 0 <= fee && sum + fee < u && 0 <= s2
    requires s1 * (u - sum) <= s0 * u
    requires s2 * (u - fee) <= s1 * u
    ensures s2 * (u - (sum + fee)) <= s0 * u
  {
  }

  /** Accruing more often never mints more: at a constant rate, over any times at which the whole
      fee stays below one hundred per cent, the supply after the separate accruals is at most the
      supply after a single one. */
  lemma SplittingNeverMintsMore(supply: int, rate: int, times: seq<int>)
    requires 0 <= supply && 0 <= rate && 1 < |times| && NonDecreasing(times)
    requires FeeForPeriod(rate, times[0], times[|times| - 1]) < PRECISE_UNIT
    ensures forall i :: 0 <= i < |times| - 1 ==> SplitFees(rate, times)[i] < PRECISE_UNIT
    ensures supply <= SupplyAfter(supply, SplitFees(rate, times))
                   <= InflatedSupply(FeeForPeriod(rate, times[0], times[|times| - 1]), supply)
  {
    var fees, whole := SplitFees(rate, times), FeeForPeriod(rate, times[0], times[|times| - 1]);
    SplitFeesSum(rate, times);
    forall i | 0 <= i < |fees| ensures 0 <= fees[i] {
      SplitFeesNonNegative(rate, times, i);
    }
    AccrualsCompose(supply, fees);
    LessThanQuotient(SupplyAfter(supply, fees), supply, Sum(fees), whole);
  }

  lemma LessThanQuotient(split: int, supply: int, sum: int, whole: int)
    requires 0 <= supply && 0 <= split && 0 <= sum <= whole < PRECISE_UNIT
    requires split * (PRECISE_UNIT - sum) <= supply * PRECISE_UNIT
    ensures split <= InflatedSupply(whole, supply)
  {
    var d := PRECISE_UNIT - whole;
    MulLe(d, PRECISE_UNIT - sum, split);
    InflatedSupplyIsQuotient(whole, supply);
    BracketGreatest(supply * PRECISE_UNIT, d, InflatedSupply(whole, supply), split);
  }

  // ----- The multiplier of a split period -----

  /** The position multiplier after accruing each fee in turn. */
  function MultiplierAfterFees(multiplier: int, fees: seq<int>): int
  {
    if |fees| == 0 then multiplier
    else PreciseMul(MultiplierAfterFees(multiplier, fees[..|fees| - 1]), PRECISE_UNIT - fees[|fees| - 1])
  }

  /** Separate accruals leave what the summed fees leave, short of it by less than a wei each. */
  lemma {:induction false} MultipliersCompose(multiplier: int, fees: seq<int>)
    requires 0 <= multiplier && forall i :: 0 <= i < |fees| ==> 0 <= fees[i] <= PRECISE_UNIT
    ensures var after := MultiplierAfterFees(multiplier, fees);
            && 0 <= after <= multiplier
            && multiplier * (PRECISE_UNIT - Sum(fees)) <= (after + |fees|) * PRECISE_UNIT
            && (0 < |fees| ==> multiplier * (PRECISE_UNIT - Sum(fees)) < (after + |fees|) * PRECISE_UNIT)
    decreases |fees|
  {
    if |fees| > 0 {
      var n := |fees| - 1;
      MultipliersCompose(multiplier, fees[..n]);
      var before, after := MultiplierAfterFees(multiplier, fees[..n]), MultiplierAfterFees(multiplier, fees);
      MulLe(0, before, PRECISE_UNIT - fees[n]);
      MultiplierShortBy(multiplier, before, after, Sum(fees[..n]), fees[n], n, PRECISE_UNIT);
    }
  }

  lemma MultiplierShortBy(m: int, before: int, after: int, sum: int, fee: int, n: int, u: int)
    requires 0 < u && 0 <= before <= m && 0 <= fee <= u
    requires m * (u - sum) <= (before + n) * u
    requires after * u <= before * (u - fee) < after * u + u
    ensures after <= m && m * (u - (sum + fee)) < (after + n + 1) * u
  {
    MulLe(before, m, fee);
    assert before * (u - fee) == before * u - before * fee && m * (u - (sum + fee)) == m * (u - sum) - m * fee;
    assert (before + n) * u == before * u + n * u && (after + n + 1) * u == after * u + n * u + u;
    CancelLe(after, before, u) by { MulLe(0, before, fee); }
  }

  /** Accruing more often never dilutes positions more, but for a wei of the multiplier at each cut: the
      multiplier after the separate accruals is at least that of a single one, less the number of cuts. */
  lemma SplittingKeepsMultiplier(multiplier: int, rate: int, times: seq<int>)
    requires 0 <= multiplier && 0 <= rate && 1 < |times| && NonDecreasing(times)
    requires FeeForPeriod(rate, times[0], times[|times| - 1]) < PRECISE_UNIT
    ensures PreciseMul(multiplier, PRECISE_UNIT - FeeForPeriod(rate, times[0], times[|times| - 1]))
            <= MultiplierAfterFees(multiplier, SplitFees(rate, times)) + |times| - 2
  {
    var fees, whole := SplitFees(rate, times), FeeForPeriod(rate, times[0], times[|times| - 1]);
    SplitFeesSum(rate, times);
    forall i | 0 <= i < |fees| ensures 0 <= fees[i] {
      SplitFeesNonNegative(rate, times, i);
    }
    AccrualsCompose(0, fees);
    MultipliersCompose(multiplier, fees);
    MulLe(PRECISE_UNIT - whole, PRECISE_UNIT - Sum(fees), multiplier);
    CancelLt(PreciseMul(multiplier, PRECISE_UNIT - whole), MultiplierAfterFees(multiplier, fees) + |fees|,
             PRECISE_UNIT);
  }
}
