/** utils/common/navIssuanceModuleUtils.ts: issuing and redeeming a SetToken at net asset value
    against one reserve asset. Reads of the chain are parameters. */
module NavIssuance {
  import opened Rounding
  import opened FixedPoint

  /** A pair of fee percentages that together take at most everything. */
  predicate FeesInRange(managerFee: int, protocolFee: int)
  {
    0 <= managerFee && 0 <= protocolFee && managerFee + protocolFee <= PRECISE_UNIT
  }

  predicate Percentage(p: int)
  {
    0 <= p <= PRECISE_UNIT
  }

  // ----- The helpers -----

  function PostFeeQuantity(quantity: int, managerFee: int, protocolFee: int): (r: int)
    ensures 0 <= quantity && FeesInRange(managerFee, protocolFee) ==> 0 <= r <= quantity
  {
    var managerFees := PreciseMul(quantity, managerFee);
    var protocolDirectFees := PreciseMul(quantity, protocolFee);
    assert 0 <= quantity && FeesInRange(managerFee, protocolFee) ==> managerFees + protocolDirectFees <= quantity by {
      if 0 <= quantity && FeesInRange(managerFee, protocolFee) {
        assert quantity * managerFee + quantity * protocolFee == quantity * (managerFee + protocolFee);
        MulLe(managerFee + protocolFee, PRECISE_UNIT, quantity);
      }
    }
    quantity - managerFees - protocolDirectFees
  }

  /** The part of a deposit that buys tokens: after fees and after the premium. */
  function PostPremiumQuantity(netQuantity: int, premium: int): (r: int)
    ensures 0 <= netQuantity && Percentage(premium) ==> 0 <= r <= netQuantity
  {
    assert 0 <= netQuantity && Percentage(premium) ==> PreciseMul(netQuantity, premium) <= netQuantity by {
      if 0 <= netQuantity && Percentage(premium) { MulLe(premium, PRECISE_UNIT, netQuantity); }
    }
    netQuantity - PreciseMul(netQuantity, premium)
  }

  /** The value of the set plus the premium left in it, on which new tokens are priced. */
  function IssueDenominator(supply: int, valuation: int, normalizedNet: int, normalizedNetAndPremium: int): int
  {
    PreciseMul(supply, valuation) + normalizedNet - normalizedNetAndPremium
  }

  /** The last two lines of `getExpectedSetTokenIssueQuantity`. */
  function MintedFor(supply: int, valuation: int, normalizedNet: int, normalizedNetAndPremium: int): int
    requires IssueDenominator(supply, valuation, normalizedNet, normalizedNetAndPremium) != 0
  {
    PreciseDiv(PreciseMul(normalizedNetAndPremium, supply),
               IssueDenominator(supply, valuation, normalizedNet, normalizedNetAndPremium))
  }

  /** The denominator is not zero; otherwise the source divides by zero. */
  predicate CanPrice(supply: int, valuation: int, baseUnits: int, netQuantity: int, premium: int)
    requires baseUnits != 0
  {
    IssueDenominator(supply, valuation, PreciseDiv(netQuantity, baseUnits),
                     PreciseDiv(PostPremiumQuantity(netQuantity, premium), baseUnits)) != 0
  }

  /** `getExpectedSetTokenIssueQuantity`, from the quantity net of fees. */
  function SetTokenIssueQuantity(supply: int, valuation: int, baseUnits: int, netQuantity: int, premium: int): int
    requires baseUnits != 0
    requires CanPrice(supply, valuation, baseUnits, netQuantity, premium)
  {
    MintedFor(supply, valuation, PreciseDiv(netQuantity, baseUnits),
              PreciseDiv(PostPremiumQuantity(netQuantity, premium), baseUnits))
  }

  function IssuePositionMultiplier(multiplier: int, previousSupply: int, currentSupply: int): int
  {
    var inflation := PreciseDivCeil(currentSupply - previousSupply, currentSupply);
    PreciseMul(multiplier, PRECISE_UNIT - inflation)
  }

  function RedeemPositionMultiplier(multiplier: int, previousSupply: int, currentSupply: int): int
    requires currentSupply != 0
  {
    var deflation := PreciseDiv(previousSupply - currentSupply, currentSupply);
    PreciseMul(multiplier, PRECISE_UNIT + deflation)
  }

  /** `CustomOracleNAVIssuanceModule` multiplies before it divides. */
  function ContractMultiplier(multiplier: int, previousSupply: int, currentSupply: int): (r: int)
    requires currentSupply != 0
    ensures 0 <= multiplier && 0 <= previousSupply && 0 < currentSupply ==>
              0 <= r && r * currentSupply <= multiplier * previousSupply < r * currentSupply + currentSupply
  {
    assert 0 <= multiplier && 0 <= previousSupply ==> 0 <= multiplier * previousSupply;
    TruncDiv(multiplier * previousSupply, currentSupply)
  }

  /** The rounding that both unit helpers apply last. */
  function Normalize(unit: int, multiplier: int): (r: int)
    requires multiplier != 0
    ensures 0 <= unit && 0 < multiplier ==> 0 <= r <= unit
  {
    assert 0 <= unit && 0 < multiplier ==> 0 <= PreciseDiv(PreciseMul(unit, multiplier), multiplier) <= unit by {
      if 0 <= unit && 0 < multiplier { MulThenDivLoses(unit, multiplier); }
    }
    PreciseDiv(PreciseMul(unit, multiplier), multiplier)
  }

  function IssuePositionUnit(previousUnit: int, issueQuantity: int, previousSupply: int, currentSupply: int,
                             newMultiplier: int, managerFee: int, protocolFee: int): int
    requires currentSupply != 0 && newMultiplier != 0
  {
    var numerator := PreciseMul(previousSupply, previousUnit) + PostFeeQuantity(issueQuantity, managerFee, protocolFee);
    Normalize(PreciseDiv(numerator, currentSupply), newMultiplier)
  }

  /** The premium of an issue is charged, rounded down: what is left is the exact remainder or less than a
      wei more. */
  lemma PostPremiumBounds(net: int, premium: int)
    requires 0 <= net && Percentage(premium)
    ensures net * (PRECISE_UNIT - premium)
            <= PostPremiumQuantity(net, premium) * PRECISE_UNIT
            < net * (PRECISE_UNIT - premium) + PRECISE_UNIT
  {
    assert net * (PRECISE_UNIT - premium) == net * PRECISE_UNIT - net * premium;
  }

  /** Taking a premium off rounded up leaves the remainder rounded down. */
  lemma LessPremium(total: int, premium: int)
    requires 0 <= total && Percentage(premium)
    ensures var r := total - PreciseMulCeil(total, premium);
            && 0 <= r <= total
            && r * PRECISE_UNIT <= total * (PRECISE_UNIT - premium) < r * PRECISE_UNIT + PRECISE_UNIT
  {
    MulLe(premium, PRECISE_UNIT, total);
    assert total * (PRECISE_UNIT - premium) == total * PRECISE_UNIT - total * premium;
  }

  /** The notional value redeemed, less the premium rounded up. */
  function RedeemNotional(quantity: int, valuation: int, premium: int): (r: int)
    ensures 0 <= quantity && 0 <= valuation && Percentage(premium) ==> 0 <= r <= PreciseMul(valuation, quantity)
  {
    var total := PreciseMul(valuation, quantity);
    assert 0 <= total && Percentage(premium) ==> 0 <= total - PreciseMulCeil(total, premium) <= total by {
      if 0 <= total && Percentage(premium) { LessPremium(total, premium); }
    }
    total - PreciseMulCeil(total, premium)
  }

  function ReserveRedeemQuantity(quantity: int, valuation: int, baseUnits: int,
                                 managerFee: int, protocolFee: int, premium: int): int
  {
    PreciseMul(PostFeeQuantity(RedeemNotional(quantity, valuation, premium), managerFee, protocolFee), baseUnits)
  }

  /** What a redemption takes out of the reserve position. */
  function ReserveDeducted(quantity: int, valuation: int, baseUnits: int, premium: int): int
  {
    PreciseMul(RedeemNotional(quantity, valuation, premium), baseUnits)
  }

  function RedeemPositionUnit(previousUnit: int, quantity: int, valuation: int, baseUnits: int, previousSupply: int,
                              currentSupply: int, newMultiplier: int, premium: int): int
    requires currentSupply != 0 && newMultiplier != 0
  {
    var deducted := ReserveDeducted(quantity, valuation, baseUnits, premium);
    var numerator := PreciseMul(previousSupply, previousUnit) - deducted;
    Normalize(PreciseDiv(numerator, currentSupply), newMultiplier)
  }

  // ----- Fees -----

  /** What is left is the exact remainder and the two parts that the fees truncate. */
  lemma PostFeeExact(quantity: int, managerFee: int, protocolFee: int)
    requires 0 <= quantity && FeesInRange(managerFee, protocolFee)
    ensures PostFeeQuantity(quantity, managerFee, protocolFee) * PRECISE_UNIT
            == quantity * (PRECISE_UNIT - managerFee - protocolFee)
               + quantity * managerFee % PRECISE_UNIT + quantity * protocolFee % PRECISE_UNIT
  {
    Remainder(quantity * managerFee, PRECISE_UNIT, PreciseMul(quantity, managerFee));
    Remainder(quantity * protocolFee, PRECISE_UNIT, PreciseMul(quantity, protocolFee));
    assert quantity * (PRECISE_UNIT - managerFee - protocolFee)
        == quantity * PRECISE_UNIT - quantity * managerFee - quantity * protocolFee;
  }

  /** Two truncated fees leave less than two wei more than the exact remainder, and never less. */
  lemma PostFeeBounds(quantity: int, managerFee: int, protocolFee: int)
    requires 0 <= quantity && FeesInRange(managerFee, protocolFee)
    ensures quantity * (PRECISE_UNIT - managerFee - protocolFee)
            <= PostFeeQuantity(quantity, managerFee, protocolFee) * PRECISE_UNIT
            < quantity * (PRECISE_UNIT - managerFee - protocolFee) + 2 * PRECISE_UNIT
  {
  }

  /** A larger quantity can leave less after fees, but never by more than one wei. */
  lemma PostFeeAlmostMonotone(small: int, large: int, managerFee: int, protocolFee: int)
    requires 0 <= small <= large && FeesInRange(managerFee, protocolFee)
    ensures PostFeeQuantity(small, managerFee, protocolFee) <= PostFeeQuantity(large, managerFee, protocolFee) + 1
  {
    PostFeeBounds(small, managerFee, protocolFee);
    PostFeeBounds(large, managerFee, protocolFee);
    MulLe(small, large, PRECISE_UNIT - managerFee - protocolFee);
  }

  /** One more wei leaves less exactly when it tips both fees over their next whole wei. */
  lemma PostFeeDropsIff(quantity: int, managerFee: int, protocolFee: int)
    requires 0 <= quantity && FeesInRange(managerFee, protocolFee)
    ensures PostFeeQuantity(quantity + 1, managerFee, protocolFee) < PostFeeQuantity(quantity, managerFee, protocolFee)
            <==> && PRECISE_UNIT <= quantity * managerFee % PRECISE_UNIT + managerFee
                 && PRECISE_UNIT <= quantity * protocolFee % PRECISE_UNIT + protocolFee
  {
    FeeTicks(quantity, managerFee);
    FeeTicks(quantity, protocolFee);
  }

  lemma FeeTicks(quantity: int, fee: int)
    requires 0 <= quantity && Percentage(fee)
    ensures PreciseMul(quantity + 1, fee) - PreciseMul(quantity, fee)
            == if PRECISE_UNIT <= quantity * fee % PRECISE_UNIT + fee then 1 else 0
  {
    var n := quantity * fee;
    assert (quantity + 1) * fee == n + fee;
    assert 0 <= n by { MulLe(0, quantity, fee); }
    assert PreciseMul(quantity, fee) == n / PRECISE_UNIT && PreciseMul(quantity + 1, fee) == (n + fee) / PRECISE_UNIT;
  }

  ghost predicate PostFeeMonotone(managerFee: int, protocolFee: int)
  {
    forall a: nat, b: nat | a <= b ::
      PostFeeQuantity(a, managerFee, protocolFee) <= PostFeeQuantity(b, managerFee, protocolFee)
  }

  /** Over all quantities a larger one never leaves less exactly when one of the fees is off. With both on
      the last wei of a whole unit tips both. */
  lemma PostFeeMonotoneIff(managerFee: int, protocolFee: int)
    requires FeesInRange(managerFee, protocolFee)
    ensures PostFeeMonotone(managerFee, protocolFee) <==> managerFee == 0 || protocolFee == 0
  {
    if managerFee == 0 || protocolFee == 0 {
      forall a: nat, b: nat | a <= b
        ensures PostFeeQuantity(a, managerFee, protocolFee) <= PostFeeQuantity(b, managerFee, protocolFee)
      {
        OneFeeMonotone(a, b, managerFee + protocolFee);
        NoFee(a);
        NoFee(b);
      }
    } else {
      LastWeiTips(managerFee);
      LastWeiTips(protocolFee);
      PostFeeDropsIff(PRECISE_UNIT - 1, managerFee, protocolFee);
    }
  }

  lemma NoFee(quantity: nat)
    ensures PreciseMul(quantity, 0) == 0
  {
  }

  lemma OneFeeMonotone(a: nat, b: nat, fee: int)
    requires a <= b && Percentage(fee)
    ensures a - PreciseMul(a, fee) <= b - PreciseMul(b, fee)
  {
    var kept := PRECISE_UNIT - fee;
    MulLe(a, b, kept);
    assert a * kept == a * PRECISE_UNIT - a * fee && b * kept == b * PRECISE_UNIT - b * fee;
    CancelLt(a - PreciseMul(a, fee), b - PreciseMul(b, fee) + 1, PRECISE_UNIT);
  }

  lemma LastWeiTips(fee: int)
    requires 0 < fee < PRECISE_UNIT
    ensures (PRECISE_UNIT - 1) * fee % PRECISE_UNIT == PRECISE_UNIT - fee
  {
    Remainder((PRECISE_UNIT - 1) * fee, PRECISE_UNIT, fee - 1);
  }

  lemma PostFeeNotMonotone()
    ensures var half := PRECISE_UNIT / 2; PostFeeQuantity(1, half, half) > PostFeeQuantity(2, half, half)
  {
  }

  // ----- Pricing an issue -----

  /** The pricing law: minted tokens, at the price the denominator fixes, cost at most what was paid,
      and the shortfall from truncating twice is below one scale unit plus the denominator. */
  lemma MintedWithinPrice(supply: int, valuation: int, net: int, paid: int)
    requires 0 <= supply && 0 <= valuation && 0 <= paid <= net
    requires IssueDenominator(supply, valuation, net, paid) != 0
    ensures var d := IssueDenominator(supply, valuation, net, paid);
            var minted := MintedFor(supply, valuation, net, paid);
            0 < d && 0 <= minted && minted * d <= paid * supply < minted * d + PRECISE_UNIT + d
  {
  }

  /** No dilution: tokens are minted at the price the denominator fixes, short of it by less than one
      scale unit plus the denominator; at the post-issue value of the set they are worth at most what
      was paid for them, and the old holders' value per token does not drop. */
  lemma IssueDoesNotDilute(supply: int, valuation: int, net: int, paid: int)
    requires 0 <= supply && 0 <= valuation && 0 <= paid <= net
    requires IssueDenominator(supply, valuation, net, paid) != 0
    ensures var minted := MintedFor(supply, valuation, net, paid);
            var before := PreciseMul(supply, valuation);
            var d := before + net - paid;
            && minted * d <= paid * supply < minted * d + PRECISE_UNIT + d
            && minted * (before + net) <= paid * (supply + minted)
            && before * (supply + minted) <= (before + net) * supply
  {
    MintedWithinPrice(supply, valuation, net, paid);
    var minted, before := MintedFor(supply, valuation, net, paid), PreciseMul(supply, valuation);
    var d := IssueDenominator(supply, valuation, net, paid);
    ShareOfGrownTotal(minted, d, paid, supply, before, net);
  }

  lemma ShareOfGrownTotal(minted: int, d: int, paid: int, supply: int, before: int, net: int)
    requires 0 <= minted && 0 <= supply && paid <= net && d == before + net - paid
    requires minted * d <= paid * supply
    ensures minted * (before + net) <= paid * (supply + minted)
    ensures before * (supply + minted) <= (before + net) * supply
  {
  }

  /** What tokens minted for `paid` can be redeemed for, at any valuation that does not exceed the
      post-issue value per token, is at most `paid`. */
  lemma RedeemedValueWithinPaid(supply: int, valuation: int, net: int, paid: int, newValuation: int)
    requires 0 <= supply && 0 <= valuation && 0 <= paid <= net && 0 <= newValuation
    requires IssueDenominator(supply, valuation, net, paid) != 0
    requires newValuation * (supply + MintedFor(supply, valuation, net, paid))
             <= (PreciseMul(supply, valuation) + net) * PRECISE_UNIT
    ensures PreciseMul(newValuation, MintedFor(supply, valuation, net, paid)) <= paid
  {
    var minted, after := MintedFor(supply, valuation, net, paid), PreciseMul(supply, valuation) + net;
    var total := supply + minted;
    assert 0 <= minted && minted * after <= paid * total by {
      MintedWithinPrice(supply, valuation, net, paid);
      IssueDoesNotDilute(supply, valuation, net, paid);
    }
    ValueWithinPaid(newValuation, minted, paid, after, total);
  }

  lemma ValueWithinPaid(price: int, minted: int, paid: int, worth: int, total: int)
    requires 0 <= price && 0 <= minted <= total && 0 <= paid
    requires price * total <= worth * PRECISE_UNIT
    requires minted * worth <= paid * total
    ensures PreciseMul(price, minted) <= paid
  {
  }

  /** No free round trip: issue with any reserve quantity, redeem exactly what was issued at any
      valuation not above the post-issue value per token, and the payout is at most the post-fee,
      post-premium part of the deposit. Each leg has its own fees and premium. */
  lemma NoFreeRoundTrip(supply: int, valuation: int, baseUnits: int, quantity: int,
                        issueManagerFee: int, issueProtocolFee: int, issuePremium: int,
                        newValuation: int, redeemManagerFee: int, redeemProtocolFee: int, redeemPremium: int)
    requires 0 <= supply && 0 <= valuation && 0 < baseUnits && 0 <= quantity && 0 <= newValuation
    requires FeesInRange(issueManagerFee, issueProtocolFee) && Percentage(issuePremium)
    requires FeesInRange(redeemManagerFee, redeemProtocolFee) && Percentage(redeemPremium)
    ensures var net := PostFeeQuantity(quantity, issueManagerFee, issueProtocolFee);
            CanPrice(supply, valuation, baseUnits, net, issuePremium) ==>
              var issued := SetTokenIssueQuantity(supply, valuation, baseUnits, net, issuePremium);
              var worth := PreciseMul(supply, valuation) + PreciseDiv(net, baseUnits);
              newValuation * (supply + issued) <= worth * PRECISE_UNIT ==>
                var payout := ReserveRedeemQuantity(issued, newValuation, baseUnits, redeemManagerFee,
                                                    redeemProtocolFee, redeemPremium);
                && payout <= PostPremiumQuantity(net, issuePremium) <= quantity
                && payout * PRECISE_UNIT < net * (PRECISE_UNIT - issuePremium) + PRECISE_UNIT
                && net * PRECISE_UNIT
                   < quantity * (PRECISE_UNIT - issueManagerFee - issueProtocolFee) + 2 * PRECISE_UNIT
  {
    var net := PostFeeQuantity(quantity, issueManagerFee, issueProtocolFee);
    RoundTripWithinSpent(supply, valuation, baseUnits, quantity, issueManagerFee, issueProtocolFee, issuePremium,
                         newValuation, redeemManagerFee, redeemProtocolFee, redeemPremium);
    PostPremiumBounds(net, issuePremium);
    PostFeeBounds(quantity, issueManagerFee, issueProtocolFee);
  }

  lemma RoundTripWithinSpent(supply: int, valuation: int, baseUnits: int, quantity: int,
                             issueManagerFee: int, issueProtocolFee: int, issuePremium: int,
                             newValuation: int, redeemManagerFee: int, redeemProtocolFee: int, redeemPremium: int)
    requires 0 <= supply && 0 <= valuation && 0 < baseUnits && 0 <= quantity && 0 <= newValuation
    requires FeesInRange(issueManagerFee, issueProtocolFee) && Percentage(issuePremium)
    requires FeesInRange(redeemManagerFee, redeemProtocolFee) && Percentage(redeemPremium)
    ensures var net := PostFeeQuantity(quantity, issueManagerFee, issueProtocolFee);
            CanPrice(supply, valuation, baseUnits, net, issuePremium) ==>
              var issued := SetTokenIssueQuantity(supply, valuation, baseUnits, net, issuePremium);
              var worth := PreciseMul(supply, valuation) + PreciseDiv(net, baseUnits);
              newValuation * (supply + issued) <= worth * PRECISE_UNIT ==>
                ReserveRedeemQuantity(issued, newValuation, baseUnits, redeemManagerFee, redeemProtocolFee,
                                           redeemPremium)
                <= PostPremiumQuantity(net, issuePremium) <= quantity
  {
    var net := PostFeeQuantity(quantity, issueManagerFee, issueProtocolFee);
    var spent := PostPremiumQuantity(net, issuePremium);
    var paid, deposited := PreciseDiv(spent, baseUnits), PreciseDiv(net, baseUnits);
    PreciseDivMonotone(spent, net, baseUnits);
    if CanPrice(supply, valuation, baseUnits, net, issuePremium) {
      var issued := SetTokenIssueQuantity(supply, valuation, baseUnits, net, issuePremium);
      if newValuation * (supply + issued) <= (PreciseMul(supply, valuation) + deposited) * PRECISE_UNIT {
        MintedWithinPrice(supply, valuation, deposited, paid);
        RedeemedValueWithinPaid(supply, valuation, deposited, paid, newValuation);
        var notional := RedeemNotional(issued, newValuation, redeemPremium);
        MulLe(PostFeeQuantity(notional, redeemManagerFee, redeemProtocolFee), paid, baseUnits);
      }
    }
  }

  lemma PreciseDivMonotone(a: int, b: int, d: int)
    requires 0 <= a <= b && 0 < d
    ensures PreciseDiv(a, d) <= PreciseDiv(b, d)
  {
    var p, q := PreciseDiv(a, d), PreciseDiv(b, d);
    assert (q + 1) * d == q * d + d;
    CancelLt(p, q + 1, d);
  }

  /** The redeemer never receives more than the position is reduced by. */
  lemma PayoutWithinDeduction(quantity: int, valuation: int, baseUnits: int, managerFee: int, protocolFee: int,
                              premium: int)
    requires 0 <= quantity && 0 <= valuation && 0 <= baseUnits
    requires FeesInRange(managerFee, protocolFee) && Percentage(premium)
    ensures 0 <= ReserveRedeemQuantity(quantity, valuation, baseUnits, managerFee, protocolFee, premium)
              <= ReserveDeducted(quantity, valuation, baseUnits, premium)
  {
    var notional := RedeemNotional(quantity, valuation, premium);
    MulLe(PostFeeQuantity(notional, managerFee, protocolFee), notional, baseUnits);
  }

  /** Nor much less than it is owed: what premium, fees and base units leave of the notional, truncated
      at each of the four steps. */
  lemma PayoutNotFarBelow(quantity: int, valuation: int, baseUnits: int, managerFee: int, protocolFee: int,
                          premium: int)
    requires 0 <= quantity && 0 <= valuation && 0 <= baseUnits
    requires FeesInRange(managerFee, protocolFee) && Percentage(premium)
    ensures var total := PreciseMul(valuation, quantity);
            var payout := ReserveRedeemQuantity(quantity, valuation, baseUnits, managerFee, protocolFee, premium);
            (total * (PRECISE_UNIT - premium) - PRECISE_UNIT) * ((PRECISE_UNIT - managerFee - protocolFee) * baseUnits)
            < (payout + 1) * PRECISE_UNIT * PRECISE_UNIT * PRECISE_UNIT
  {
    var total, x := PreciseMul(valuation, quantity), RedeemNotional(quantity, valuation, premium);
    var g, y := PRECISE_UNIT - managerFee - protocolFee, PostFeeQuantity(x, managerFee, protocolFee);
    assert total * (PRECISE_UNIT - premium) == total * PRECISE_UNIT - total * premium;
    PostFeeBounds(x, managerFee, protocolFee);
    ThreeTruncations(total * (PRECISE_UNIT - premium) - PRECISE_UNIT, x, g, y, baseUnits, PreciseMul(y, baseUnits),
                     PRECISE_UNIT);
  }

  lemma ThreeTruncations(t: int, x: int, g: int, y: int, b: int, payout: int, u: int)
    requires 0 <= g && 0 <= b && 0 < u
    requires t <= x * u && x * g <= y * u && y * b < payout * u + u
    ensures t * (g * b) < (payout + 1) * u * u * u
  {
    calc {
      t * (g * b);
    <= { MulLe(0, g, b); MulLe(t, x * u, g * b); }
      x * u * (g * b);
      (x * g) * (u * b);
    <= { MulLe(0, u, b); MulLe(x * g, y * u, u * b); }
      (y * u) * (u * b);
      (y * b) * (u * u);
    <  { MulLt(0, u, u); MulLt(y * b, payout * u + u, u * u); }
      (payout * u + u) * (u * u);
      (payout + 1) * u * u * u;
    }
  }
}
