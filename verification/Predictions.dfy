/** How far the redeem helper of utils/common/navIssuanceModuleUtils.ts is from the contract it predicts, and
    exactly when they agree. They round the same factors in another order. */
module Predictions {
  import opened Rounding
  import opened FixedPoint
  import opened NavIssuance
  import opened SetLedger

  // ----- The reserve that a redemption takes out -----

  /** What the contract takes out is the value in base units less the premium, rounded down; what the
      helper starts from is the value less the premium, rounded down. */
  lemma OutflowIsFloor(quantity: int, valuation: int, t: Terms)
    requires 0 <= quantity && 0 <= valuation && TermsValid(t)
    ensures var kept := PRECISE_UNIT - t.premium;
            var total, value := PreciseMul(valuation, quantity), ContractValue(quantity, valuation, t);
            var notional := RedeemNotional(quantity, valuation, t.premium);
            var outflow := RedeemOutflow(quantity, valuation, t);
            && 0 <= notional && notional * PRECISE_UNIT <= total * kept < notional * PRECISE_UNIT + PRECISE_UNIT
            && 0 <= outflow && outflow * PRECISE_UNIT <= value * kept < outflow * PRECISE_UNIT + PRECISE_UNIT
  {
    LessPremium(PreciseMul(valuation, quantity), t.premium);
    LessPremium(ContractValue(quantity, valuation, t), t.premium);
  }

  /** The helper takes the premium first and converts to base units last, the contract the other way
      round. They agree exactly when the contract's remainder, seen from the helper's, is proper. */
  lemma RedeemHelperExactIff(quantity: int, valuation: int, t: Terms)
    requires 0 <= quantity && 0 <= valuation && TermsValid(t)
    ensures var total := PreciseMul(valuation, quantity);
            var kept := PRECISE_UNIT - t.premium;
            var notional := RedeemNotional(quantity, valuation, t.premium);
            RedeemOutflow(quantity, valuation, t) == ReserveDeducted(quantity, valuation, t.baseUnits, t.premium)
            <==> 0 <= notional * t.baseUnits % PRECISE_UNIT * PRECISE_UNIT
                      + total * kept % PRECISE_UNIT * t.baseUnits - total * t.baseUnits % PRECISE_UNIT * kept
                   < PRECISE_UNIT * PRECISE_UNIT
  {
    var total, kept := PreciseMul(valuation, quantity), PRECISE_UNIT - t.premium;
    var x := RedeemNotional(quantity, valuation, t.premium);
    var h := ReserveDeducted(quantity, valuation, t.baseUnits, t.premium);
    var value, c := ContractValue(quantity, valuation, t), RedeemOutflow(quantity, valuation, t);
    OutflowIsFloor(quantity, valuation, t);
    Remainder(x * t.baseUnits, PRECISE_UNIT, h);
    Remainder(total * kept, PRECISE_UNIT, x);
    Remainder(total * t.baseUnits, PRECISE_UNIT, value);
    TwoOrders(total, kept, t.baseUnits, x, h, value, c, x * t.baseUnits % PRECISE_UNIT, total * kept % PRECISE_UNIT,
              total * t.baseUnits % PRECISE_UNIT, PRECISE_UNIT);
  }

  /** They differ by at most one wei while a base unit is at most one; in general the helper is at most
      one wei high, and low by less than a wei plus the base units' whole part. */
  lemma RedeemHelperIsClose(quantity: int, valuation: int, t: Terms)
    requires 0 <= quantity && 0 <= valuation && TermsValid(t)
    ensures var gap := RedeemOutflow(quantity, valuation, t)
                       - ReserveDeducted(quantity, valuation, t.baseUnits, t.premium);
            -1 <= gap && (gap - 1) * PRECISE_UNIT < t.baseUnits && (t.baseUnits <= PRECISE_UNIT ==> gap <= 1)
  {
    var total, kept := PreciseMul(valuation, quantity), PRECISE_UNIT - t.premium;
    var x := RedeemNotional(quantity, valuation, t.premium);
    var h := ReserveDeducted(quantity, valuation, t.baseUnits, t.premium);
    var value, c := ContractValue(quantity, valuation, t), RedeemOutflow(quantity, valuation, t);
    OutflowIsFloor(quantity, valuation, t);
    TwoOrdersClose(total, kept, t.baseUnits, x, h, value, c, PRECISE_UNIT);
  }

  /** The value redeemed in base units, before the premium. */
  function ContractValue(quantity: int, valuation: int, t: Terms): (value: int)
    ensures 0 <= quantity && 0 <= valuation && 0 < t.baseUnits ==>
              var total := PreciseMul(valuation, quantity);
              0 <= value && value * PRECISE_UNIT <= total * t.baseUnits < value * PRECISE_UNIT + PRECISE_UNIT
  {
    assert quantity * valuation == valuation * quantity;
    PreciseMul(PreciseMul(quantity, valuation), t.baseUnits)
  }

  /** `total` scaled by `g` then `b` through `x` to `h`, and by `b` then `g` through `y` to `c`; what the
      first three divisions leave behind is `e`, `e1` and `e2`. */
  lemma TwoOrders(total: int, g: int, b: int, x: int, h: int, y: int, c: int, e: int, e1: int, e2: int, u: int)
    requires 0 < u && c * u <= y * g < c * u + u
    requires x * b == h * u + e && total * g == x * u + e1 && total * b == y * u + e2
    ensures c == h <==> 0 <= e * u + e1 * b - e2 * g < u * u
  {
    BracketUnique(y * g, u, c, h);
    TwoOrdersRemainder(total, g, b, x, h, y, e, e1, e2, u);
    var r := y * g - h * u;
    if r < 0 { MulLt(r, 0, u); } else { MulLe(0, r, u); }
    if r < u { MulLt(r, u, u); } else { MulLe(u, r, u); }
  }

  lemma TwoOrdersRemainder(total: int, g: int, b: int, x: int, h: int, y: int, e: int, e1: int, e2: int, u: int)
    requires x * b == h * u + e && total * g == x * u + e1 && total * b == y * u + e2
    ensures e * u + e1 * b - e2 * g == (y * g - h * u) * u
  {
    assert e * u == x * b * u - h * u * u;
    assert e1 * b == total * g * b - x * u * b;
    assert e2 * g == total * b * g - y * u * g;
  }

  lemma TwoOrdersClose(total: int, g: int, b: int, x: int, h: int, y: int, c: int, u: int)
    requires 0 < u && 0 <= g <= u && 0 < b
    requires x * u <= total * g < x * u + u && h * u <= x * b < h * u + u
    requires y * u <= total * b < y * u + u && c * u <= y * g < c * u + u
    ensures -1 <= c - h && (c - h - 1) * u < b && (b <= u ==> c - h <= 1)
  {
    OtherOrderNotAbove(total, b, g, y, c, x, u);
    OtherOrderNotAbove(total, g, b, x, h, y, u);
    WithinOneStep(c, h, b, u);
  }

  lemma WithinOneStep(c: int, h: int, b: int, u: int)
    requires 0 < u && h * u < c * u + 2 * u && c * u < h * u + u + b
    ensures -1 <= c - h && (c - h - 1) * u < b && (b <= u ==> c - h <= 1)
  {
    assert (c + 2) * u == c * u + 2 * u && (c - h - 1) * u == c * u - h * u - u;
    CancelLt(h, c + 2, u);
    if b <= u { CancelLt(c - h - 1, 1, u); }
  }

  /** Scaled by `p` and then `q`, a total is at most what it is after `q`, one added, scaled by `p`. */
  lemma OtherOrderNotAbove(total: int, p: int, q: int, a: int, r: int, b: int, u: int)
    requires 0 <= p && 0 <= q && 0 < u
    requires a * u <= total * p && r * u <= a * q && total * q < b * u + u
    ensures r * u <= b * p + p
    ensures 0 < p ==> r * u < b * p + p
  {
    ScaledTwice(q, total, a, p, r, u);
    assert q * total * p == total * q * p;
    BelowNextMultiple(r * u, total * q, b, p, u);
  }

  lemma BelowNextMultiple(z: int, t: int, b: int, p: int, u: int)
    requires 0 <= p && 0 < u && z * u <= t * p && t < b * u + u
    ensures z <= b * p + p
    ensures 0 < p ==> z < b * p + p
  {
    assert (b * u + u) * p == (b * p + p) * u;
    if 0 < p {
      MulLt(t, b * u + u, p);
      CancelLt(z, b * p + p, u);
    } else {
      CancelLe(z, 0, u);
    }
  }

  /** An input at which they differ: one token at 0.0000011 of a reserve of six decimals, less one per
      cent. The helper predicts one wei, the contract takes and pays none. */
  lemma RedeemHelperDiffers()
    ensures var t := Terms(1_000_000, 0, 0, PRECISE_UNIT / 100, 1);
            && ReserveDeducted(PRECISE_UNIT, 1_100_000_000_000, t.baseUnits, t.premium) == 1
            && RedeemOutflow(PRECISE_UNIT, 1_100_000_000_000, t) == 0
            && HelperPayout(PRECISE_UNIT, 1_100_000_000_000, t) == 1
            && ContractPayout(PRECISE_UNIT, 1_100_000_000_000, t) == 0
  {
  }

  /** The same as a redemption. */
  lemma DifferingRedemption(reserve: Component) returns (a: Action)
    ensures a.NavRedeem? && ActionValid(a) && a.reserve == reserve && a.quantity == PRECISE_UNIT && a.minReceive == 0
    ensures a.terms.minSupply == 1 && PostFeeQuantity(0, a.terms.managerFee, a.terms.protocolFee) == 0
    ensures ReserveDeducted(a.quantity, a.valuation, a.terms.baseUnits, a.terms.premium) == 1
    ensures RedeemOutflow(a.quantity, a.valuation, a.terms) == 0
  {
    var v, b, p := DifferingNumbers();
    a := NavRedeem(reserve, PRECISE_UNIT, 0, v, Terms(b, 0, 0, p, 1));
  }

  lemma DifferingNumbers() returns (v: int, b: int, p: int)
    ensures 0 <= v && 0 < b && Percentage(p) && ReserveDeducted(PRECISE_UNIT, v, b, p) == 1
    ensures PreciseMul(PreciseMul(PRECISE_UNIT, v), b) == 1 && PreciseMulCeil(1, p) == 1
  {
    v, b, p := 1_100_000_000_000, 1_000_000, PRECISE_UNIT / 100;
    assert PreciseMul(v, PRECISE_UNIT) == v == PreciseMul(PRECISE_UNIT, v);
    assert PreciseMulCeil(v, p) == 11_000_000_000;
  }

  // ----- What the redeemer is paid -----

  /** What the contract pays out. */
  function ContractPayout(quantity: int, valuation: int, t: Terms): int
    requires TermsValid(t)
  {
    PostFeeQuantity(RedeemOutflow(quantity, valuation, t), t.managerFee, t.protocolFee)
  }

  /** What the helper says it pays out. */
  function HelperPayout(quantity: int, valuation: int, t: Terms): int
  {
    ReserveRedeemQuantity(quantity, valuation, t.baseUnits, t.managerFee, t.protocolFee, t.premium)
  }

  /** The parts that two truncated fees leave behind. */
  function FeeDust(quantity: int, t: Terms): int
  {
    quantity * t.managerFee % PRECISE_UNIT + quantity * t.protocolFee % PRECISE_UNIT
  }

  /** How far the helper's last dividend is from the contract's payout, at the scale cubed: every
      remainder on the way, with the factors that still scale it. */
  function PayoutDrift(quantity: int, valuation: int, t: Terms): int
    requires TermsValid(t)
  {
    var u, b, g, k := PRECISE_UNIT, t.baseUnits, PRECISE_UNIT - t.premium, PRECISE_UNIT - t.managerFee - t.protocolFee;
    var total, notional := PreciseMul(valuation, quantity), RedeemNotional(quantity, valuation, t.premium);
    var value, outflow := ContractValue(quantity, valuation, t), RedeemOutflow(quantity, valuation, t);
    FeeDust(notional, t) * b * u - total * g % u * k * b
      + total * b % u * g * k + value * g % u * k * u - FeeDust(outflow, t) * u * u
  }

  /** Helper and contract pay the same exactly when the drift is not negative and below one wei. */
  lemma PayoutExactIff(quantity: int, valuation: int, t: Terms)
    requires 0 <= quantity && 0 <= valuation && TermsValid(t) && FeesInRange(t.managerFee, t.protocolFee)
    ensures HelperPayout(quantity, valuation, t) == ContractPayout(quantity, valuation, t)
            <==> 0 <= PayoutDrift(quantity, valuation, t) < PRECISE_UNIT * PRECISE_UNIT * PRECISE_UNIT
  {
    var u, b, g, k := PRECISE_UNIT, t.baseUnits, PRECISE_UNIT - t.premium, PRECISE_UNIT - t.managerFee - t.protocolFee;
    var total, x := PreciseMul(valuation, quantity), RedeemNotional(quantity, valuation, t.premium);
    var value, c := ContractValue(quantity, valuation, t), RedeemOutflow(quantity, valuation, t);
    OutflowIsFloor(quantity, valuation, t);
    var y, payout := PostFeeQuantity(x, t.managerFee, t.protocolFee), ContractPayout(quantity, valuation, t);
    Remainder(total * g, u, x);
    Remainder(total * b, u, value);
    Remainder(value * g, u, c);
    PostFeeExact(x, t.managerFee, t.protocolFee);
    PostFeeExact(c, t.managerFee, t.protocolFee);
    DriftIsRemainder(total, b, g, k, x, y, value, c, payout, total * g % u, total * b % u, value * g % u,
                     FeeDust(x, t), FeeDust(c, t), u);
    BracketUnique(y * b, u, HelperPayout(quantity, valuation, t), payout);
    ScaledRange(y * b - payout * u, u);
  }

  lemma DriftIsRemainder(total: int, b: int, g: int, k: int, x: int, y: int, value: int, c: int, payout: int,
                         e1: int, e2: int, e3: int, dust: int, dust': int, u: int)
    requires y * u == x * k + dust && payout * u == c * k + dust'
    requires total * g == x * u + e1 && total * b == value * u + e2 && value * g == c * u + e3
    ensures dust * b * u - e1 * k * b + e2 * g * k + e3 * k * u - dust' * u * u == (y * b - payout * u) * u * u
  {
    HelperDrift(total, b, g, k, x, y, e1, dust, u);
    ContractDrift(total, b, g, k, value, c, payout, e2, e3, dust', u);
    assert (y * b - payout * u) * u * u == y * b * u * u - payout * u * u * u;
  }

  lemma HelperDrift(total: int, b: int, g: int, k: int, x: int, y: int, e1: int, dust: int, u: int)
    requires y * u == x * k + dust && total * g == x * u + e1
    ensures y * b * u * u == total * g * k * b - e1 * k * b + dust * b * u
  {
    calc {
      y * b * u * u;
      (y * u) * (b * u);
      (x * k + dust) * (b * u);
      (x * u) * (k * b) + dust * b * u;
      (total * g - e1) * (k * b) + dust * b * u;
    }
  }

  lemma ContractDrift(total: int, b: int, g: int, k: int, value: int, c: int, payout: int,
                      e2: int, e3: int, dust: int, u: int)
    requires payout * u == c * k + dust && value * g == c * u + e3 && total * b == value * u + e2
    ensures payout * u * u * u == total * g * k * b - e2 * g * k - e3 * k * u + dust * u * u
  {
    HelperDrift(value, u, g, k, c, payout, e3, dust, u);
    assert value * g * k * u == (value * u) * (g * k) == (total * b - e2) * (g * k);
  }

  lemma ScaledRange(r: int, u: int)
    requires 0 < u
    ensures 0 <= r < u <==> 0 <= r * u * u < u * u * u
  {
    MulLt(0, u, u);
    assert r * u * u == r * (u * u) && u * u * u == u * (u * u);
    if r < 0 { MulLt(r, 0, u * u); } else { MulLe(0, r, u * u); }
    if r < u { MulLt(r, u, u * u); } else { MulLe(u, r, u * u); }
  }

  /** While a base unit is at most one they are at most three wei apart; in general the helper is high by
      less than two wei and twice the base units' whole part, and low by less than four and that part. */
  lemma PayoutsAreClose(quantity: int, valuation: int, t: Terms)
    requires 0 <= quantity && 0 <= valuation && TermsValid(t) && FeesInRange(t.managerFee, t.protocolFee)
    ensures var gap := HelperPayout(quantity, valuation, t) - ContractPayout(quantity, valuation, t);
            && (gap - 2) * PRECISE_UNIT < 2 * t.baseUnits && (-gap - 4) * PRECISE_UNIT < t.baseUnits
            && (t.baseUnits <= PRECISE_UNIT ==> -3 <= gap <= 3)
  {
    var k, x := PRECISE_UNIT - t.managerFee - t.protocolFee, RedeemNotional(quantity, valuation, t.premium);
    var c, h := RedeemOutflow(quantity, valuation, t), ReserveDeducted(quantity, valuation, t.baseUnits, t.premium);
    var y := PostFeeQuantity(x, t.managerFee, t.protocolFee);
    RedeemHelperIsClose(quantity, valuation, t);
    PostFeeBounds(x, t.managerFee, t.protocolFee);
    PostFeeBounds(c, t.managerFee, t.protocolFee);
    PayoutsBracket(x, y, HelperPayout(quantity, valuation, t), h, t.baseUnits, k, PRECISE_UNIT);
    PayoutGap(HelperPayout(quantity, valuation, t), ContractPayout(quantity, valuation, t), c, h, t.baseUnits, k,
              PRECISE_UNIT);
  }

  lemma PayoutGap(p: int, q: int, c: int, h: int, b: int, k: int, u: int)
    requires 0 < u && 0 < b && 0 <= k <= u && -1 <= c - h && (c - h - 1) * u < b && (b <= u ==> c - h <= 1)
    requires h * k < (p + 1) * u && p * u < (h + 1) * k + 2 * b && c * k <= q * u < c * k + 2 * u
    ensures (p - q - 2) * u < 2 * b && (q - p - 4) * u < b && (b <= u ==> -3 <= p - q <= 3)
  {
    MulLe(h - 1, c, k);
    assert (h + 1) * k == (h - 1) * k + 2 * k;
    assert (p - q - 2) * u == p * u - q * u - 2 * u;
    assert (q - p - 4) * u == q * u - (p + 1) * u - 3 * u;
    if b <= u { CancelLt(p - q - 2, 2, u); }
    assert c * k == h * k + k + (c - h - 1) * k;
    if c - h <= 1 {
      MulLe(c - h - 1, 0, k);
      CancelLt(q - p - 4, 0, u);
    } else {
      MulLe(k, u, c - h - 1);
    }
  }

  /** Fees taken before the conversion instead of after it. */
  lemma PayoutsBracket(x: int, y: int, p: int, h: int, b: int, k: int, u: int)
    requires 0 < u && 0 < b && 0 <= k <= u
    requires x * k <= y * u < x * k + 2 * u && p * u <= y * b < p * u + u && h * u <= x * b < h * u + u
    ensures h * k < (p + 1) * u && p * u < (h + 1) * k + 2 * b
  {
    ComposeProportions(k, h, y, b, x, u);
    ComposeProportionsStrictly(b, y - 2, h + 1, k, x, u);
    assert (h + 1) * u == h * u + u && (p + 1) * u == p * u + u && (y - 2) * u == y * u - 2 * u;
    assert b * (y - 2) == y * b - 2 * b;
  }

  lemma ScaledTwice(v: int, m: int, m': int, d: int, a: int, u: int)
    requires 0 <= v && 0 <= u && m' * u <= m * d && a * u <= v * m'
    ensures a * u * u <= v * m * d
  {
    MulLe(a * u, v * m', u);
    MulLe(m' * u, m * d, v);
  }
}
