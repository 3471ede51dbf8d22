/** utils/common/perpV2Utils.ts: the collateral a leveraged perpetual set takes in on issue and pays
    out on redeem, summed over long and short positions. */
module PerpV2 {
  import opened Rounding
  import opened FixedPoint

  type Token = string

  datatype Account = Account(collateralBalance: int, owedRealizedPnl: int, netQuoteBalance: int,
                             pendingFundingPayments: int)

  datatype PositionUnit = PositionUnit(baseToken: Token, baseUnit: int)

  datatype PositionNotional = PositionNotional(baseToken: Token, baseBalance: int, quoteBalance: int)

  /** What the exchange answers: the quote amount for trading a base amount, and the spot price. */
  type Quotes = (Token, int, bool) -> int
  type Prices = Token -> int

  // ----- Issue -----

  /** The base amount an issuer of `setQuantity` tokens must add to a position. */
  function BaseToAdd(p: PositionUnit, setQuantity: int): int
  {
    PreciseMul(p.baseUnit, setQuantity)
  }

  /** The quote of a position, paid in by a long and received by a short. */
  function SignedQuoteIn(p: PositionUnit, setQuantity: int, quote: Quotes): int
  {
    var base := BaseToAdd(p, setQuantity);
    if 0 <= base then quote(p.baseToken, base, true) else -quote(p.baseToken, -base, false)
  }

  function TotalQuotesIn(positions: seq<PositionUnit>, setQuantity: int, quote: Quotes): int
  {
    if |positions| == 0 then 0
    else
      var n := |positions| - 1;
      TotalQuotesIn(positions[..n], setQuantity, quote) + SignedQuoteIn(positions[n], setQuantity, quote)
  }

  /** Twice the ideal quote of every position whose ideal quote has the wrong sign for a short. */
  function SpotResidue(p: PositionUnit, setQuantity: int, spot: Prices): int
  {
    var base := BaseToAdd(p, setQuantity);
    var ideal := PreciseMul(base, spot(p.baseToken));
    if base < 0 && 0 < ideal then 2 * ideal else 0
  }

  function TotalSpotResidue(positions: seq<PositionUnit>, setQuantity: int, spot: Prices): int
  {
    if |positions| == 0 then 0
    else
      var n := |positions| - 1;
      TotalSpotResidue(positions[..n], setQuantity, spot) + SpotResidue(positions[n], setQuantity, spot)
  }

  /** `calculateUSDCTransferInPreciseUnits`. The loop adds an ideal quote and a slippage for each
      position; the spot price cancels, and what is left of it is the residue. */
  method TransferIn(account: Account, supply: int, setQuantity: int, positions: seq<PositionUnit>,
                    quote: Quotes, spot: Prices, includeFunding: bool) returns (usdcAmountIn: int)
    requires supply != 0
    ensures var value := account.collateralBalance + account.owedRealizedPnl + account.netQuoteBalance
                         + (if includeFunding then account.pendingFundingPayments else 0);
            usdcAmountIn == PreciseMul(PreciseDiv(value, supply), setQuantity)
                            + TotalQuotesIn(positions, setQuantity, quote)
                            + TotalSpotResidue(positions, setQuantity, spot)
  {
    var totalCollateralValue := account.collateralBalance + account.owedRealizedPnl + account.netQuoteBalance;
    if includeFunding {
      totalCollateralValue := totalCollateralValue + account.pendingFundingPayments;
    }
    usdcAmountIn := PreciseMul(PreciseDiv(totalCollateralValue, supply), setQuantity);
    ghost var share := usdcAmountIn;
    for i := 0 to |positions|
      invariant usdcAmountIn == share + TotalQuotesIn(positions[..i], setQuantity, quote)
                                + TotalSpotResidue(positions[..i], setQuantity, spot)
    {
      var p := positions[i];
      var base := PreciseMul(p.baseUnit, setQuantity);
      var isLong := base >= 0;
      var deltaQuote := quote(p.baseToken, Abs(base), isLong);
      var idealQuote := PreciseMul(base, spot(p.baseToken));
      var expectedSlippage := if isLong then deltaQuote - idealQuote else Abs(idealQuote) - deltaQuote;
      usdcAmountIn := usdcAmountIn + idealQuote + expectedSlippage;
      assert positions[..i + 1][..i] == positions[..i];
    }
    assert positions[..|positions|] == positions;
  }

  /** At non-negative spot prices it cancels for every list of long and short positions. */
  lemma {:induction false} SpotPriceCancels(positions: seq<PositionUnit>, setQuantity: int, spot: Prices)
    requires forall t :: 0 <= spot(t)
    ensures TotalSpotResidue(positions, setQuantity, spot) == 0
    decreases |positions|
  {
    if |positions| > 0 {
      var n := |positions| - 1;
      SpotPriceCancels(positions[..n], setQuantity, spot);
      PreciseMulSign(BaseToAdd(positions[n], setQuantity), spot(positions[n].baseToken));
    }
  }

  /** Quotes and residues add up over any two lists; at any price a short leaves the ideal quote and its
      magnitude, a long nothing. */
  lemma {:induction false} TotalsInAdd(a: seq<PositionUnit>, b: seq<PositionUnit>, setQuantity: int, quote: Quotes,
                                       spot: Prices)
    ensures TotalQuotesIn(a + b, setQuantity, quote)
            == TotalQuotesIn(a, setQuantity, quote) + TotalQuotesIn(b, setQuantity, quote)
    ensures TotalSpotResidue(a + b, setQuantity, spot)
            == TotalSpotResidue(a, setQuantity, spot) + TotalSpotResidue(b, setQuantity, spot)
    decreases |b|
  {
    if |b| == 0 {
      assert a + b == a;
    } else {
      TotalsInAdd(a, b[..|b| - 1], setQuantity, quote, spot);
      assert (a + b)[..|a + b| - 1] == a + b[..|b| - 1];
    }
  }

  lemma ResidueOfOne(p: PositionUnit, setQuantity: int, spot: Prices)
    ensures var base := PreciseMul(p.baseUnit, setQuantity); var ideal := PreciseMul(base, spot(p.baseToken));
            TotalSpotResidue([p], setQuantity, spot) == if base < 0 then ideal + Abs(ideal) else 0
  {
    assert [p][..0] == [];
    assert TotalSpotResidue([], setQuantity, spot) == 0;
  }

  /** What an issuer trades, by numbers: the position's share of the quantity, bought at the quote for
      buying, or, if it is short by a wei or more, sold at the quote for selling. */
  lemma QuoteInByNumbers(p: PositionUnit, setQuantity: int, quote: Quotes) returns (base: int)
    requires 0 <= setQuantity
    ensures IsFloor(base, Abs(p.baseUnit) * setQuantity, PRECISE_UNIT)
    ensures SignedQuoteIn(p, setQuantity, quote)
            == if p.baseUnit * setQuantity <= -PRECISE_UNIT then -quote(p.baseToken, base, false)
               else quote(p.baseToken, base, true)
  {
    base := PreciseMul(Abs(p.baseUnit), setQuantity);
    PreciseMulSign(p.baseUnit, setQuantity);
    MulLe(0, Abs(p.baseUnit), setQuantity);
    BracketGreatest(Abs(p.baseUnit) * setQuantity, PRECISE_UNIT, base, 1);
    assert p.baseUnit < 0 ==> p.baseUnit * setQuantity == -(Abs(p.baseUnit) * setQuantity);
  }

  /** Quotes around a price: selling yields at most, and buying costs at least, the amount at that price. */
  ghost predicate Around(quote: Quotes, price: Prices)
  {
    forall t: Token, x: int :: 0 <= x ==>
                                 && quote(t, x, false) * PRECISE_UNIT <= price(t) * x
                                 && price(t) * x <= quote(t, x, true) * PRECISE_UNIT
  }

  /** The value at a price of what an issuer adds to every position. */
  function ValueAdded(positions: seq<PositionUnit>, setQuantity: int, price: Prices): int
  {
    if |positions| == 0 then 0
    else
      var n := |positions| - 1;
      ValueAdded(positions[..n], setQuantity, price)
      + price(positions[n].baseToken) * BaseToAdd(positions[n], setQuantity)
  }

  /** The spread is the issuer's: longs and shorts together cost at least their value at any price between
      the quotes. */
  lemma {:induction false} IssuerPaysTheSpread(positions: seq<PositionUnit>, setQuantity: int, quote: Quotes,
                                               price: Prices)
    requires Around(quote, price)
    ensures ValueAdded(positions, setQuantity, price) <= TotalQuotesIn(positions, setQuantity, quote) * PRECISE_UNIT
    decreases |positions|
  {
    if |positions| > 0 {
      var n := |positions| - 1;
      IssuerPaysTheSpread(positions[..n], setQuantity, quote, price);
      OpenerPaysTheSpread(positions[n], setQuantity, quote, price);
    }
  }

  lemma OpenerPaysTheSpread(p: PositionUnit, setQuantity: int, quote: Quotes, price: Prices)
    requires Around(quote, price)
    ensures price(p.baseToken) * BaseToAdd(p, setQuantity) <= SignedQuoteIn(p, setQuantity, quote) * PRECISE_UNIT
  {
    var t, base := p.baseToken, BaseToAdd(p, setQuantity);
    if 0 <= base {
      assert price(t) * base <= quote(t, base, true) * PRECISE_UNIT;
    } else {
      assert quote(t, -base, false) * PRECISE_UNIT <= price(t) * -base;
      assert price(t) * -base == -(price(t) * base);
    }
  }

  // ----- Signs -----

  /** Truncated multiplication by a non-negative factor keeps the sign and commutes with magnitude. */
  lemma PreciseMulSign(a: int, b: int)
    requires 0 <= b
    ensures Abs(PreciseMul(a, b)) == PreciseMul(Abs(a), b)
    ensures 0 <= a ==> 0 <= PreciseMul(a, b)
    ensures a <= 0 ==> PreciseMul(a, b) <= 0
  {
    if a < 0 {
      assert (-a) * b == -(a * b);
      TruncDivIsOdd(a * b, PRECISE_UNIT);
    }
  }

  lemma PreciseDivSign(a: int, b: int)
    requires 0 < b
    ensures Abs(PreciseDiv(a, b)) == PreciseDiv(Abs(a), b)
    ensures 0 <= a ==> 0 <= PreciseDiv(a, b)
    ensures a <= 0 ==> PreciseDiv(a, b) <= 0
  {
    if a < 0 { TruncDivIsOdd(a * PRECISE_UNIT, b); }
  }

  // ----- Redeem -----

  /** The base amount traded to close a redeemer's part of a position. */
  function BaseToClose(baseBalance: int, supply: int, setQuantity: int): int
    requires supply != 0
  {
    PreciseMul(PreciseDiv(baseBalance, supply), setQuantity)
  }

  function CloseRatio(baseBalance: int, supply: int, setQuantity: int): int
    requires supply != 0 && baseBalance != 0
  {
    PreciseDiv(Abs(BaseToClose(baseBalance, supply, setQuantity)), Abs(baseBalance))
  }

  function ReducedOpenNotional(p: PositionNotional, supply: int, setQuantity: int): int
    requires supply != 0 && p.baseBalance != 0
  {
    PreciseMul(p.quoteBalance, CloseRatio(p.baseBalance, supply, setQuantity))
  }

  function RealizedPnl(p: PositionNotional, supply: int, setQuantity: int, quote: Quotes): int
    requires supply != 0 && p.baseBalance != 0
  {
    var isLong := 0 <= PreciseDiv(p.baseBalance, supply);
    var deltaQuote := quote(p.baseToken, Abs(BaseToClose(p.baseBalance, supply, setQuantity)), !isLong);
    ReducedOpenNotional(p, supply, setQuantity) + (if isLong then deltaQuote else -deltaQuote)
  }

  predicate AllOpen(positions: seq<PositionNotional>)
  {
    forall i :: 0 <= i < |positions| ==> positions[i].baseBalance != 0
  }

  function TotalRealizedPnl(positions: seq<PositionNotional>, supply: int, setQuantity: int, quote: Quotes): int
    requires supply != 0 && AllOpen(positions)
  {
    if |positions| == 0 then 0
    else
      var n := |positions| - 1;
      TotalRealizedPnl(positions[..n], supply, setQuantity, quote)
      + RealizedPnl(positions[n], supply, setQuantity, quote)
  }

  lemma TotalPnlExtends(positions: seq<PositionNotional>, i: nat, supply: int, setQuantity: int, quote: Quotes)
    requires supply != 0 && AllOpen(positions) && i < |positions|
    ensures TotalRealizedPnl(positions[..i + 1], supply, setQuantity, quote)
            == TotalRealizedPnl(positions[..i], supply, setQuantity, quote)
               + RealizedPnl(positions[i], supply, setQuantity, quote)
  {
    assert positions[..i + 1][..i] == positions[..i];
  }

  /** Profits add up over any two lists. */
  lemma {:induction false} TotalPnlAdds(a: seq<PositionNotional>, b: seq<PositionNotional>, supply: int,
                                        setQuantity: int, quote: Quotes)
    requires supply != 0 && AllOpen(a) && AllOpen(b)
    ensures AllOpen(a + b)
    ensures TotalRealizedPnl(a + b, supply, setQuantity, quote)
            == TotalRealizedPnl(a, supply, setQuantity, quote) + TotalRealizedPnl(b, supply, setQuantity, quote)
    decreases |b|
  {
    if |b| == 0 {
      assert a + b == a;
    } else {
      TotalPnlAdds(a, b[..|b| - 1], supply, setQuantity, quote);
      assert (a + b)[..|a + b| - 1] == a + b[..|b| - 1];
    }
  }

  /** The body of the redeem loop, for one position. */
  method ClosePosition(p: PositionNotional, supply: int, setQuantity: int, quote: Quotes) returns (realizedPnl: int)
    requires supply != 0 && p.baseBalance != 0
    ensures realizedPnl == RealizedPnl(p, supply, setQuantity, quote)
  {
    var baseUnit := PreciseDiv(p.baseBalance, supply);
    var base := PreciseMul(baseUnit, setQuantity);
    var isLong := baseUnit >= 0;
    var closeRatio := PreciseDiv(Abs(base), Abs(p.baseBalance));
    var reducedOpenNotional := PreciseMul(p.quoteBalance, closeRatio);
    var deltaQuote := quote(p.baseToken, Abs(base), !isLong);
    realizedPnl := if isLong then reducedOpenNotional + deltaQuote else reducedOpenNotional - deltaQuote;
  }

  /** `calculateUSDCTransferOutPreciseUnits`. A position with no base balance divides by zero. */
  method TransferOut(account: Account, supply: int, setQuantity: int, positions: seq<PositionNotional>,
                     quote: Quotes, includeFunding: bool) returns (usdcAmountOut: int)
    requires supply != 0 && AllOpen(positions)
    ensures var collateral := account.collateralBalance + account.owedRealizedPnl
                              + (if includeFunding then account.pendingFundingPayments else 0);
            usdcAmountOut == Abs(PreciseMul(PreciseDiv(collateral, supply), setQuantity)
                                 + TotalRealizedPnl(positions, supply, setQuantity, quote))
  {
    var totalRealizedPnl := 0;
    var totalCollateralBalance := account.collateralBalance + account.owedRealizedPnl;
    if includeFunding {
      totalCollateralBalance := totalCollateralBalance + account.pendingFundingPayments;
    }
    var collateralUnit := PreciseDiv(totalCollateralBalance, supply);
    var collateralNotional := PreciseMul(collateralUnit, setQuantity);
    for i := 0 to |positions|
      invariant totalRealizedPnl == TotalRealizedPnl(positions[..i], supply, setQuantity, quote)
    {
      var realizedPnl := ClosePosition(positions[i], supply, setQuantity, quote);
      totalRealizedPnl := totalRealizedPnl + realizedPnl;
      TotalPnlExtends(positions, i, supply, setQuantity, quote);
    }
    assert positions[..|positions|] == positions;
    usdcAmountOut := Abs(collateralNotional + totalRealizedPnl);
  }

  /** A redeemer closes at most the redeemed fraction of a position, and the notional this realises
      never exceeds the quote balance nor changes its sign. */
  lemma RedeemClosesAtMostItsShare(p: PositionNotional, supply: int, setQuantity: int)
    requires 0 <= setQuantity <= supply && 0 < supply && p.baseBalance != 0
    ensures var ratio := CloseRatio(p.baseBalance, supply, setQuantity);
            0 <= ratio <= PreciseDiv(setQuantity, supply) <= PRECISE_UNIT
    ensures var base := Abs(BaseToClose(p.baseBalance, supply, setQuantity));
            && base <= Abs(p.baseBalance)
            && Abs(p.baseBalance) * setQuantity * PRECISE_UNIT < ((base + 1) * PRECISE_UNIT + setQuantity) * supply
    ensures var reduced := ReducedOpenNotional(p, supply, setQuantity);
            && Abs(reduced) <= Abs(p.quoteBalance)
            && (0 <= p.quoteBalance ==> 0 <= reduced) && (p.quoteBalance <= 0 ==> reduced <= 0)
  {
    var b, base := Abs(p.baseBalance), Abs(BaseToClose(p.baseBalance, supply, setQuantity));
    BaseToCloseMagnitude(p.baseBalance, supply, setQuantity);
    var ratio := PreciseDiv(base, b);
    PortionIsFair(b, supply, setQuantity);
    CloseBounds(b, supply, setQuantity);
    RatioBounds(base, b, setQuantity, supply);
    PreciseMulSign(p.quoteBalance, ratio);
    PreciseMulAtMost(Abs(p.quoteBalance), ratio);
  }

  lemma BaseToCloseMagnitude(baseBalance: int, supply: int, setQuantity: int)
    requires 0 < supply && 0 <= setQuantity
    ensures Abs(BaseToClose(baseBalance, supply, setQuantity))
            == PreciseMul(PreciseDiv(Abs(baseBalance), supply), setQuantity)
  {
    PreciseDivSign(baseBalance, supply);
    PreciseMulSign(PreciseDiv(baseBalance, supply), setQuantity);
  }

  lemma CloseBounds(b: int, supply: int, setQuantity: int)
    requires 0 <= b && 0 <= setQuantity <= supply && 0 < supply
    ensures var base := PreciseMul(PreciseDiv(b, supply), setQuantity);
            0 <= base <= b && base * supply <= b * setQuantity
  {
    var base := PreciseMul(PreciseDiv(b, supply), setQuantity);
    PortionIsFair(b, supply, setQuantity);
    MulLe(setQuantity, supply, b);
    CancelLe(base, b, supply);
  }

  lemma RatioBounds(base: int, b: int, setQuantity: int, supply: int)
    requires 0 <= base && 0 < b && 0 <= setQuantity <= supply && 0 < supply
    requires base * supply <= b * setQuantity
    ensures 0 <= PreciseDiv(base, b) <= PreciseDiv(setQuantity, supply) <= PRECISE_UNIT
  {
    var ratio, whole := PreciseDiv(base, b), PreciseDiv(setQuantity, supply);
    ComposeProportions(supply, ratio, setQuantity, PRECISE_UNIT, base, b);
    BracketGreatest(setQuantity * PRECISE_UNIT, supply, whole, ratio);
    CancelLe(whole, PRECISE_UNIT, supply);
  }

  lemma PreciseMulAtMost(x: int, ratio: int)
    requires 0 <= x && 0 <= ratio <= PRECISE_UNIT
    ensures 0 <= PreciseMul(x, ratio) <= x
  {
  }

  // ----- What a position realises -----

  /** The unit of a position, the base amount closed, its ratio, and the part of the quote balance. */
  datatype Closing = Closing(unit: int, base: int, ratio: int, reduced: int)

  /** By numbers: the position per token, for the tokens redeemed; its ratio to the position; and that
      ratio of the quote balance, with its sign. */
  ghost predicate ClosesBy(p: PositionNotional, supply: int, setQuantity: int, n: Closing)
  {
    && IsFloor(n.unit, Abs(p.baseBalance) * PRECISE_UNIT, supply)
    && IsFloor(n.base, n.unit * setQuantity, PRECISE_UNIT)
    && IsFloor(n.ratio, n.base * PRECISE_UNIT, Abs(p.baseBalance))
    && IsFloor(Abs(n.reduced), Abs(p.quoteBalance) * n.ratio, PRECISE_UNIT)
    && (0 <= p.quoteBalance ==> 0 <= n.reduced) && (p.quoteBalance <= 0 ==> n.reduced <= 0)
  }

  /** A long is closed by selling, and realises what that yields beside its part of the quote balance; a
      short by buying, and realises its part less what that costs. A short of less than a wei per token
      is taken for a long of nothing. */
  lemma RealizedPnlByNumbers(p: PositionNotional, supply: int, setQuantity: int, quote: Quotes) returns (n: Closing)
    requires 0 < supply && 0 <= setQuantity && p.baseBalance != 0
    ensures ClosesBy(p, supply, setQuantity, n)
    ensures RealizedPnl(p, supply, setQuantity, quote)
            == if p.baseBalance * PRECISE_UNIT <= -supply then n.reduced - quote(p.baseToken, n.base, true)
               else n.reduced + quote(p.baseToken, n.base, false)
    ensures -supply < p.baseBalance * PRECISE_UNIT < 0 ==> n.base == 0 && n.reduced == 0
  {
    var b := Abs(p.baseBalance);
    PreciseDivSign(p.baseBalance, supply);
    BaseToCloseMagnitude(p.baseBalance, supply, setQuantity);
    n := Closing(PreciseDiv(b, supply), Abs(BaseToClose(p.baseBalance, supply, setQuantity)),
                 CloseRatio(p.baseBalance, supply, setQuantity), ReducedOpenNotional(p, supply, setQuantity));
    PreciseMulSign(p.quoteBalance, n.ratio);
    BracketGreatest(b * PRECISE_UNIT, supply, n.unit, 1);
  }

  lemma TinyShortIsTakenForLong(quote: Quotes)
    ensures RealizedPnl(PositionNotional("t", -1, 0), 2 * PRECISE_UNIT, PRECISE_UNIT, quote) == quote("t", 0, false)
  {
    var n := RealizedPnlByNumbers(PositionNotional("t", -1, 0), 2 * PRECISE_UNIT, PRECISE_UNIT, quote);
  }

  /** The part of the quote balance that is realised is at most the redeemed fraction of it, and short of
      it only by the truncations of unit, base, ratio and part. */
  lemma ReducedIsItsShare(p: PositionNotional, supply: int, setQuantity: int)
    requires 0 < supply && 0 <= setQuantity <= supply && p.baseBalance != 0
    ensures var reduced := Abs(ReducedOpenNotional(p, supply, setQuantity));
            var q, b := Abs(p.quoteBalance), Abs(p.baseBalance);
            && reduced * supply <= q * setQuantity
            && q * (b * setQuantity * PRECISE_UNIT - (PRECISE_UNIT + setQuantity + b) * supply)
               < (reduced + 1) * PRECISE_UNIT * b * supply
  {
    var b, q := Abs(p.baseBalance), Abs(p.quoteBalance);
    var base := Abs(BaseToClose(p.baseBalance, supply, setQuantity));
    var ratio := CloseRatio(p.baseBalance, supply, setQuantity);
    RedemptionScales(p, supply, setQuantity);
    RedeemClosesAtMostItsShare(p, supply, setQuantity);
    PreciseMulSign(p.quoteBalance, ratio);
    ShareThroughTruncations(q, b, setQuantity, supply, base, ratio, PreciseMul(q, ratio), PRECISE_UNIT);
  }

  lemma ShareThroughTruncations(q: int, b: int, n: int, s: int, base: int, ratio: int, reduced: int, u: int)
    requires 0 <= q && 0 < b && 0 < s
    requires q * ratio < reduced * u + u && base * u < ratio * b + b && b * n * u < ((base + 1) * u + n) * s
    ensures q * (b * n * u - (u + n + b) * s) < (reduced + 1) * u * b * s
  {
    RatioShare(b, n, s, base, ratio, u);
    PartShare(b * n * u - (u + n + b) * s, q, b, s, ratio, reduced, u);
  }

  lemma RatioShare(b: int, n: int, s: int, base: int, ratio: int, u: int)
    requires 0 < s && base * u < ratio * b + b && b * n * u < ((base + 1) * u + n) * s
    ensures b * n * u - (u + n + b) * s <= ratio * b * s
  {
    MulLe(base * u, ratio * b + b, s);
    assert ((base + 1) * u + n) * s == base * u * s + (u + n) * s;
    assert (ratio * b + b) * s == ratio * b * s + b * s && (u + n + b) * s == (u + n) * s + b * s;
  }

  lemma PartShare(x: int, q: int, b: int, s: int, ratio: int, reduced: int, u: int)
    requires 0 <= q && 0 < b && 0 < s && x <= ratio * b * s && q * ratio < reduced * u + u
    ensures q * x < (reduced + 1) * u * b * s
  {
    MulLe(x, ratio * b * s, q);
    MulLt(0, b, s);
    MulLt(q * ratio, reduced * u + u, b * s);
    RegroupShare(q, ratio, reduced, b, s, u);
  }

  lemma RegroupShare(q: int, ratio: int, reduced: int, b: int, s: int, u: int)
    ensures q * (ratio * b * s) == q * ratio * (b * s)
    ensures (reduced * u + u) * (b * s) == (reduced + 1) * u * b * s
  {
    assert reduced * u + u == (reduced + 1) * u;
    assert (reduced + 1) * u * (b * s) == (reduced + 1) * u * b * s;
  }

  /** A position closed whole: a long opened for `q` and closed for `q'` realises `q' - q`, a short `q - q'`,
      but for what truncating leaves of the quote balance. */
  lemma WholeCloseRealisesDifference(p: PositionNotional, supply: int, quote: Quotes) returns (base: int)
    requires 0 < supply <= Abs(p.baseBalance) * PRECISE_UNIT
    ensures IsFloor(base, PreciseDiv(Abs(p.baseBalance), supply) * supply, PRECISE_UNIT)
    ensures var q, b := Abs(p.quoteBalance), Abs(p.baseBalance);
            var pnl := RealizedPnl(p, supply, supply, quote);
            && (0 < p.baseBalance && p.quoteBalance <= 0 ==>
                  var short := pnl - (quote(p.baseToken, base, false) - q);
                  0 <= short && (short - 1) * PRECISE_UNIT * b < q * (PRECISE_UNIT + supply + b))
            && (p.baseBalance < 0 <= p.quoteBalance ==>
                  var short := q - quote(p.baseToken, base, true) - pnl;
                  0 <= short && (short - 1) * PRECISE_UNIT * b < q * (PRECISE_UNIT + supply + b))
  {
    var n := RealizedPnlByNumbers(p, supply, supply, quote);
    base := n.base;
    SameUnit(n.unit, Abs(p.baseBalance), supply);
    ReducedIsItsShare(p, supply, supply);
    SameReduced(p, supply, n);
    WholeShort(Abs(p.quoteBalance), Abs(p.baseBalance), supply, Abs(n.reduced), PRECISE_UNIT);
  }

  lemma SameUnit(unit: int, b: int, supply: int)
    requires 0 <= b && 0 < supply && IsFloor(unit, b * PRECISE_UNIT, supply)
    ensures unit == PreciseDiv(b, supply)
  {
    SameMultiple(unit, PreciseDiv(b, supply), supply);
  }

  /** The numbers of a closing are those of the formulas. */
  lemma SameReduced(p: PositionNotional, supply: int, n: Closing)
    requires 0 < supply && p.baseBalance != 0 && ClosesBy(p, supply, supply, n)
    ensures Abs(n.reduced) == Abs(ReducedOpenNotional(p, supply, supply))
  {
    var b := Abs(p.baseBalance);
    SameUnit(n.unit, b, supply);
    BaseToCloseMagnitude(p.baseBalance, supply, supply);
    SameMultiple(n.base, PreciseMul(n.unit, supply), PRECISE_UNIT);
    SameMultiple(n.ratio, PreciseDiv(n.base, b), b);
    PreciseMulSign(p.quoteBalance, n.ratio);
    SameMultiple(Abs(n.reduced), PreciseMul(Abs(p.quoteBalance), n.ratio), PRECISE_UNIT);
  }

  lemma WholeShort(q: int, b: int, s: int, reduced: int, u: int)
    requires 0 <= q && 0 < b && 0 < s && 0 < u && reduced * s <= q * s
    requires q * (b * s * u - (u + s + b) * s) < (reduced + 1) * u * b * s
    ensures 0 <= q - reduced && (q - reduced - 1) * u * b < q * (u + s + b)
  {
    CancelLe(reduced, q, s);
    RegroupWhole(q, b, s, u);
    RegroupRest(q, reduced + 1, u, b);
    CancelLt(q * u * b - q * (u + s + b), (reduced + 1) * u * b, s);
  }

  lemma RegroupWhole(q: int, b: int, s: int, u: int)
    ensures q * (b * s * u - (u + s + b) * s) == (q * u * b - q * (u + s + b)) * s
  {
    var t := u + s + b;
    assert b * s * u - t * s == (u * b - t) * s;
    assert q * ((u * b - t) * s) == q * (u * b - t) * s;
    assert q * (u * b - t) == q * u * b - q * t;
  }

  lemma RegroupRest(q: int, r: int, u: int, b: int)
    ensures (q - r) * u * b == q * u * b - r * u * b
  {
    assert (q - r) * u == q * u - r * u;
  }

  /** The value at a price of what a redeemer closes of every position, with its part of the quote balance. */
  function ValueClosed(positions: seq<PositionNotional>, supply: int, setQuantity: int, price: Prices): int
    requires supply != 0 && AllOpen(positions)
  {
    if |positions| == 0 then 0
    else
      var n := |positions| - 1;
      var p := positions[n];
      ValueClosed(positions[..n], supply, setQuantity, price)
      + ReducedOpenNotional(p, supply, setQuantity) * PRECISE_UNIT
      + price(p.baseToken) * BaseToClose(p.baseBalance, supply, setQuantity)
  }

  /** The spread is the redeemer's too: longs and shorts together realise at most that value at any price
      between the quotes. */
  lemma {:induction false} RedeemerPaysTheSpread(positions: seq<PositionNotional>, supply: int, setQuantity: int,
                                                 quote: Quotes, price: Prices)
    requires 0 < supply && 0 <= setQuantity && AllOpen(positions) && Around(quote, price)
    ensures TotalRealizedPnl(positions, supply, setQuantity, quote) * PRECISE_UNIT
            <= ValueClosed(positions, supply, setQuantity, price)
    decreases |positions|
  {
    if |positions| > 0 {
      var n := |positions| - 1;
      RedeemerPaysTheSpread(positions[..n], supply, setQuantity, quote, price);
      CloserPaysTheSpread(positions[n], supply, setQuantity, quote, price);
    }
  }

  lemma CloserPaysTheSpread(p: PositionNotional, supply: int, setQuantity: int, quote: Quotes, price: Prices)
    requires 0 < supply && 0 <= setQuantity && p.baseBalance != 0 && Around(quote, price)
    ensures RealizedPnl(p, supply, setQuantity, quote) * PRECISE_UNIT
            <= ReducedOpenNotional(p, supply, setQuantity) * PRECISE_UNIT
               + price(p.baseToken) * BaseToClose(p.baseBalance, supply, setQuantity)
  {
    var t, unit := p.baseToken, PreciseDiv(p.baseBalance, supply);
    var base := BaseToClose(p.baseBalance, supply, setQuantity);
    PreciseMulSign(unit, setQuantity);
    if 0 <= unit {
      assert quote(t, base, false) * PRECISE_UNIT <= price(t) * base;
    } else {
      assert price(t) * -base <= quote(t, -base, true) * PRECISE_UNIT;
      assert price(t) * -base == -(price(t) * base);
    }
  }

  /** What several redemptions trade in a position, in total. */
  function TotalClosed(p: PositionNotional, supply: int, quantities: seq<int>): int
    requires supply != 0
  {
    if |quantities| == 0 then 0
    else
      var n := |quantities| - 1;
      TotalClosed(p, supply, quantities[..n]) + Abs(BaseToClose(p.baseBalance, supply, quantities[n]))
  }

  /** What they realise of its quote balance. */
  function TotalReduced(p: PositionNotional, supply: int, quantities: seq<int>): int
    requires supply != 0 && p.baseBalance != 0
  {
    if |quantities| == 0 then 0
    else
      var n := |quantities| - 1;
      TotalReduced(p, supply, quantities[..n]) + Abs(ReducedOpenNotional(p, supply, quantities[n]))
  }

  /** However redeemers split the supply, together they trade at most the open base balance, and
      together realise at most the quote balance. */
  lemma SplitRedeemsCloseAtMostAll(p: PositionNotional, supply: int, quantities: seq<int>)
    requires 0 < supply && p.baseBalance != 0
    requires forall i :: 0 <= i < |quantities| ==> 0 <= quantities[i]
    requires Sum(quantities) <= supply
    ensures TotalClosed(p, supply, quantities) <= Abs(p.baseBalance)
    ensures TotalReduced(p, supply, quantities) <= Abs(p.quoteBalance)
  {
    forall i | 0 <= i < |quantities| ensures quantities[i] <= supply { PartWithinSum(quantities, i); }
    SplitScales(p, supply, quantities);
    WithinScaled(TotalClosed(p, supply, quantities), Abs(p.baseBalance), Sum(quantities), supply);
    WithinScaled(TotalReduced(p, supply, quantities), Abs(p.quoteBalance), Sum(quantities), supply);
  }

  lemma WithinScaled(total: int, whole: int, part: int, supply: int)
    requires 0 < supply && 0 <= whole && part <= supply
    requires total * supply <= whole * part
    ensures total <= whole
  {
  }

  lemma {:induction false} PartWithinSum(xs: seq<int>, i: nat)
    requires i < |xs| && forall j :: 0 <= j < |xs| ==> 0 <= xs[j]
    ensures 0 <= xs[i] <= Sum(xs)
    decreases |xs|
  {
    var n := |xs| - 1;
    if i < n { PartWithinSum(xs[..n], i); } else if n > 0 { PartWithinSum(xs[..n], 0); }
  }

  /** Each redemption takes at most its fraction, so together they take at most the fraction of the
      summed quantities. */
  lemma {:induction false} SplitScales(p: PositionNotional, supply: int, quantities: seq<int>)
    requires 0 < supply && p.baseBalance != 0
    requires forall i :: 0 <= i < |quantities| ==> 0 <= quantities[i] <= supply
    ensures TotalClosed(p, supply, quantities) * supply <= Abs(p.baseBalance) * Sum(quantities)
    ensures TotalReduced(p, supply, quantities) * supply <= Abs(p.quoteBalance) * Sum(quantities)
    decreases |quantities|
  {
    if |quantities| > 0 {
      var n := |quantities| - 1;
      var front, last := quantities[..n], quantities[n];
      SplitScales(p, supply, front);
      RedemptionScales(p, supply, last);
      AddScaled(TotalClosed(p, supply, front), Abs(BaseToClose(p.baseBalance, supply, last)), supply,
                Abs(p.baseBalance), Sum(front), last);
      AddScaled(TotalReduced(p, supply, front), Abs(ReducedOpenNotional(p, supply, last)), supply,
                Abs(p.quoteBalance), Sum(front), last);
    }
  }

  lemma AddScaled(a: int, b: int, supply: int, whole: int, s: int, t: int)
    requires a * supply <= whole * s && b * supply <= whole * t
    ensures (a + b) * supply <= whole * (s + t)
  {
  }

  lemma RedemptionScales(p: PositionNotional, supply: int, setQuantity: int)
    requires 0 < supply && p.baseBalance != 0 && 0 <= setQuantity <= supply
    ensures Abs(BaseToClose(p.baseBalance, supply, setQuantity)) * supply <= Abs(p.baseBalance) * setQuantity
    ensures Abs(ReducedOpenNotional(p, supply, setQuantity)) * supply <= Abs(p.quoteBalance) * setQuantity
  {
    BaseToCloseMagnitude(p.baseBalance, supply, setQuantity);
    CloseBounds(Abs(p.baseBalance), supply, setQuantity);
    RedeemClosesAtMostItsShare(p, supply, setQuantity);
    PreciseMulSign(p.quoteBalance, CloseRatio(p.baseBalance, supply, setQuantity));
    ReducedScales(Abs(p.quoteBalance), CloseRatio(p.baseBalance, supply, setQuantity), setQuantity, supply);
  }

  lemma ReducedScales(quote: int, ratio: int, setQuantity: int, supply: int)
    requires 0 <= quote && 0 <= setQuantity && 0 < supply && 0 <= ratio <= PreciseDiv(setQuantity, supply)
    ensures PreciseMul(quote, ratio) * supply <= quote * setQuantity
  {
    MulLe(ratio, PreciseDiv(setQuantity, supply), supply);
    ComposeProportions(supply, PreciseMul(quote, ratio), setQuantity, quote, ratio, PRECISE_UNIT);
  }
}
