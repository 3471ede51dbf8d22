/** Every transition of the ledger by inequalities alone: when it goes through, and what it leaves. The
    numbers on the way are named, and each is fixed by its bracket. */
module LedgerLaws {
  import opened Options
  import opened Rounding
  import opened FixedPoint
  import opened NavIssuance
  import opened StreamingFee
  import opened SetLedger

  // ----- Restating a position -----

  /** There is a position, and every position is worth a wei at this multiplier. */
  ghost predicate Survives(l: Ledger, multiplier: int)
  {
    && ((exists c :: 0 < Virtual(l, c)) || l.externals != map[])
    && (forall c :: 0 < Virtual(l, c) ==> PRECISE_UNIT <= Virtual(l, c) * multiplier)
    && forall c, m :: c in l.externals && m in l.externals[c] ==> PRECISE_UNIT <= Abs(l.externals[c][m]) * multiplier
  }

  lemma AcceptedIffSurvives(l: Ledger, multiplier: int)
    requires WellFormed(l)
    ensures MultiplierAccepted(l, multiplier) <==> Survives(l, multiplier)
  {
    if MultiplierAccepted(l, multiplier) {
      var p :| 0 < UnitAt(l, p);
      assert 0 < Virtual(l, p.component) || p.component in l.externals;
      forall c | 0 < Virtual(l, c) ensures PRECISE_UNIT <= Virtual(l, c) * multiplier {
        assert UnitAt(l, Default(c)) == Virtual(l, c);
      }
      forall c, m | c in l.externals && m in l.externals[c]
        ensures PRECISE_UNIT <= Abs(l.externals[c][m]) * multiplier
      {
        assert UnitAt(l, External(c, m)) == Abs(l.externals[c][m]);
      }
    }
    if Survives(l, multiplier) {
      SomePosition(l);
    }
  }

  lemma SomePosition(l: Ledger)
    requires WellFormed(l) && ((exists c :: 0 < Virtual(l, c)) || l.externals != map[])
    ensures exists p :: 0 < UnitAt(l, p)
  {
    if c :| 0 < Virtual(l, c) {
      assert 0 < UnitAt(l, Default(c));
    } else {
      var c :| c in l.externals;
      var m :| m in l.externals[c];
      assert 0 < UnitAt(l, External(c, m));
    }
  }

  /** The multiplier after a change of supply, the total per token, and how it is stored. */
  datatype Restated = Restated(multiplier: int, unit: int, stored: int)

  ghost predicate RestatesBy(l: Ledger, supply: int, total: int, n: Restated)
  {
    && IsFloor(n.multiplier, l.multiplier * l.supply, supply)
    && IsFloor(n.unit, total * PRECISE_UNIT, supply)
    && (0 < n.multiplier ==> IsFloor(n.stored, n.unit * PRECISE_UNIT, n.multiplier))
  }

  /** No position is lost: neither by the multiplier, nor, if there is a total, the restated one. */
  ghost predicate Restatable(l: Ledger, n: Restated)
  {
    Survives(l, n.multiplier) && (n.unit == 0 || PRECISE_UNIT <= n.stored * n.multiplier)
  }

  lemma RestateIff(l: Ledger, reserve: Component, supply: int, total: int) returns (n: Restated)
    requires WellFormed(l) && 0 < supply && 0 <= total
    ensures RestatesBy(l, supply, total, n)
    ensures Restate(l, reserve, supply, total)
            == if Restatable(l, n) then
                 Some(l.(supply := supply, multiplier := n.multiplier,
                         virtualUnits := l.virtualUnits[reserve := n.stored]))
               else None
  {
    var m, x := ContractMultiplier(l.multiplier, l.supply, supply), PreciseDiv(total, supply);
    n := Restated(m, x, if m == 0 then 0 else ConservativePreciseDiv(x, m));
    AcceptedIffSurvives(l, m);
    if MultiplierAccepted(l, m) {
      AcceptedIsPositive(l, m);
      StoredIff(x, m, n.stored);
    }
  }

  lemma StoredIff(x: int, m: int, v: int)
    requires 0 <= x && 0 < m && v == ConservativePreciseDiv(x, m)
    ensures Stored(x, m) == if x == 0 || PRECISE_UNIT <= v * m then Some(v) else None
  {
  }

  /** What the units say is held: the real unit, and that for every token. */
  ghost predicate Tracks(l: Ledger, c: Component, tracked: int)
  {
    exists unit ::
      IsFloor(unit, Virtual(l, c) * l.multiplier, PRECISE_UNIT) && IsFloor(tracked, l.supply * unit, PRECISE_UNIT)
  }

  lemma TrackedTracks(l: Ledger, c: Component)
    requires WellFormed(l)
    ensures Tracks(l, c, Tracked(l, c))
  {
    RealBounds(l, c);
    assert IsFloor(Real(l, c), Virtual(l, c) * l.multiplier, PRECISE_UNIT);
  }

  // ----- NAV issue -----

  datatype IssueNumbers = IssueNumbers(managerFees: int, protocolFees: int, premium: int, value: int, deposited: int,
                                       paid: int, bought: int, minted: int, tracked: int)
  {
    /** What a deposit leaves after fees. */
    function Net(quantity: int): int { quantity - managerFees - protocolFees }

    /** What new tokens are priced on: the value of the set and the premium left in it. */
    function Denominator(): int { value + deposited - paid }
  }

  /** Fees, premium, value of the set, deposit and payment in units of the reserve, and the tokens that the
      payment buys at the value per token. */
  ghost predicate IssuesBy(l: Ledger, a: Action, n: IssueNumbers)
    requires a.NavIssue?
  {
    var t, net := a.terms, n.Net(a.quantity);
    && IsFloor(n.managerFees, a.quantity * t.managerFee, PRECISE_UNIT)
    && IsFloor(n.protocolFees, a.quantity * t.protocolFee, PRECISE_UNIT)
    && Tracks(l, a.reserve, n.tracked)
    && (0 <= net ==>
          && IsFloor(n.premium, net * t.premium, PRECISE_UNIT)
          && IsFloor(n.value, l.supply * a.valuation, PRECISE_UNIT)
          && IsFloor(n.deposited, net * PRECISE_UNIT, t.baseUnits)
          && IsFloor(n.paid, (net - n.premium) * PRECISE_UNIT, t.baseUnits)
          && IsFloor(n.bought, n.paid * l.supply, PRECISE_UNIT)
          && (0 < n.Denominator() ==> IsFloor(n.minted, n.bought * PRECISE_UNIT, n.Denominator())))
  }

  /** The requirements of `issue`. */
  ghost predicate IssueAllowed(l: Ledger, a: Action, n: IssueNumbers)
    requires a.NavIssue?
  {
    && 0 < a.quantity && 0 <= n.Net(a.quantity) && a.terms.minSupply <= l.supply && 0 < n.Denominator()
    && a.minReceive <= n.minted
  }

  /** A NAV issue by numbers: exactly when it goes through, and then the caller gets at least the minimum
      asked for, the set the net deposit, and the reserve position is restated for both. */
  lemma NavIssueByNumbers(l: Ledger, a: Action) returns (n: IssueNumbers, r: Restated)
    requires WellFormed(l) && ActionValid(a) && a.NavIssue?
    ensures IssuesBy(l, a, n)
    ensures IssueAllowed(l, a, n) ==> RestatesBy(l, l.supply + n.minted, n.tracked + n.Net(a.quantity), r)
    ensures Next(l, a)
            == if IssueAllowed(l, a, n) && Restatable(l, r) then
                 Some(Ledger(l.supply + n.minted, r.multiplier, l.virtualUnits[a.reserve := r.stored],
                             l.balances[a.reserve := Balance(l, a.reserve) + n.Net(a.quantity)], l.externals))
               else None
  {
    n, r := IssueComputes(l, a);
    IssueUnfolds(l, a, n);
  }

  lemma IssueComputes(l: Ledger, a: Action) returns (n: IssueNumbers, r: Restated)
    requires WellFormed(l) && ActionValid(a) && a.NavIssue?
    ensures IssuesBy(l, a, n) && AmountsAre(l, a, n)
    ensures IssueAllowed(l, a, n) ==>
              && 0 < l.supply + n.minted && RestatesBy(l, l.supply + n.minted, n.tracked + n.Net(a.quantity), r)
              && Restate(Transfer(l, a.reserve, n.Net(a.quantity)), a.reserve, l.supply + n.minted,
                         n.tracked + n.Net(a.quantity))
                 == if Restatable(l, r) then
                      Some(Ledger(l.supply + n.minted, r.multiplier, l.virtualUnits[a.reserve := r.stored],
                                  l.balances[a.reserve := Balance(l, a.reserve) + n.Net(a.quantity)], l.externals))
                    else None
  {
    n := IssueAmounts(l, a);
    r := Restated(0, 0, 0);
    if IssueAllowed(l, a, n) {
      RealBounds(l, a.reserve);
      r := MovedRestateIff(l, a.reserve, n.Net(a.quantity), l.supply + n.minted, n.tracked + n.Net(a.quantity));
    }
  }

  lemma IssueUnfolds(l: Ledger, a: Action, n: IssueNumbers)
    requires WellFormed(l) && ActionValid(a) && a.NavIssue? && AmountsAre(l, a, n)
    ensures IssueAllowed(l, a, n) ==> 0 < l.supply + n.minted
    ensures Next(l, a)
            == if IssueAllowed(l, a, n) then
                 Restate(Transfer(l, a.reserve, n.Net(a.quantity)), a.reserve, l.supply + n.minted,
                         n.tracked + n.Net(a.quantity))
               else None
  {
  }

  /** The amounts that the transition computes. */
  ghost predicate AmountsAre(l: Ledger, a: Action, n: IssueNumbers)
    requires a.NavIssue? && ActionValid(a)
  {
    var t, net := a.terms, PostFeeQuantity(a.quantity, a.terms.managerFee, a.terms.protocolFee);
    && n.Net(a.quantity) == net && n.tracked == Tracked(l, a.reserve)
    && (0 <= net ==> 0 <= n.Denominator())
    && (0 <= net ==> (0 < n.Denominator() <==> CanPrice(l.supply, a.valuation, t.baseUnits, net, t.premium)))
    && (0 <= net && 0 < n.Denominator() ==>
          0 <= n.minted == SetTokenIssueQuantity(l.supply, a.valuation, t.baseUnits, net, t.premium))
  }

  /** A restatement after a transfer, which no position notices. */
  lemma MovedRestateIff(l: Ledger, reserve: Component, flow: int, supply: int, total: int) returns (n: Restated)
    requires WellFormed(l) && 0 < supply && 0 <= total
    ensures RestatesBy(l, supply, total, n)
    ensures Restate(Transfer(l, reserve, flow), reserve, supply, total)
            == if Restatable(l, n) then
                 Some(Ledger(supply, n.multiplier, l.virtualUnits[reserve := n.stored],
                             l.balances[reserve := Balance(l, reserve) + flow], l.externals))
               else None
  {
    n := RestateIff(Transfer(l, reserve, flow), reserve, supply, total);
    SamePositionsSurvive(l, Transfer(l, reserve, flow), n.multiplier);
  }

  lemma SamePositionsSurvive(l: Ledger, l': Ledger, multiplier: int)
    requires l'.virtualUnits == l.virtualUnits && l'.externals == l.externals
    ensures Survives(l', multiplier) <==> Survives(l, multiplier)
  {
    assert forall c :: Virtual(l', c) == Virtual(l, c);
  }

  lemma IssueAmounts(l: Ledger, a: Action) returns (n: IssueNumbers)
    requires WellFormed(l) && ActionValid(a) && a.NavIssue?
    ensures IssuesBy(l, a, n)
    ensures AmountsAre(l, a, n)
  {
    var t := a.terms;
    var net := PostFeeQuantity(a.quantity, t.managerFee, t.protocolFee);
    TrackedTracks(l, a.reserve);
    n := IssueNumbers(PreciseMul(a.quantity, t.managerFee), PreciseMul(a.quantity, t.protocolFee), 0, 0, 0, 0, 0, 0,
                      Tracked(l, a.reserve));
    if 0 <= net {
      var priced := Pricing(l.supply, a.valuation, t.baseUnits, net, t.premium);
      n := n.(premium := priced.premium, value := priced.value, deposited := priced.deposited, paid := priced.paid,
              bought := priced.bought, minted := priced.minted);
    }
  }

  lemma Pricing(supply: int, valuation: int, baseUnits: int, net: int, premium: int) returns (n: IssueNumbers)
    requires 0 <= supply && 0 <= valuation && 0 < baseUnits && 0 <= net && Percentage(premium)
    ensures IsFloor(n.premium, net * premium, PRECISE_UNIT) && IsFloor(n.value, supply * valuation, PRECISE_UNIT)
    ensures IsFloor(n.deposited, net * PRECISE_UNIT, baseUnits)
    ensures IsFloor(n.paid, (net - n.premium) * PRECISE_UNIT, baseUnits)
    ensures IsFloor(n.bought, n.paid * supply, PRECISE_UNIT)
    ensures 0 <= n.Denominator()
    ensures 0 < n.Denominator() ==> IsFloor(n.minted, n.bought * PRECISE_UNIT, n.Denominator())
    ensures 0 < n.Denominator() <==> CanPrice(supply, valuation, baseUnits, net, premium)
    ensures 0 < n.Denominator() ==> 0 <= n.minted == SetTokenIssueQuantity(supply, valuation, baseUnits, net, premium)
  {
    var spent := PostPremiumQuantity(net, premium);
    var deposited, paid := PreciseDiv(net, baseUnits), PreciseDiv(spent, baseUnits);
    PreciseDivMonotone(spent, net, baseUnits);
    n := IssueNumbers(0, 0, net - spent, PreciseMul(supply, valuation), deposited, paid, PreciseMul(paid, supply),
                      0, 0);
    if CanPrice(supply, valuation, baseUnits, net, premium) {
      n := n.(minted := SetTokenIssueQuantity(supply, valuation, baseUnits, net, premium));
    }
  }

  // ----- NAV redemption -----

  datatype RedeemNumbers = RedeemNumbers(value: int, notional: int, outflow: int, managerFees: int, protocolFees: int,
                                         tracked: int)
  {
    /** What the caller is paid. */
    function Paid(): int { outflow - managerFees - protocolFees }
  }

  /** The value of the tokens, in base units, less the premium, less the fees. */
  ghost predicate RedeemsBy(l: Ledger, a: Action, n: RedeemNumbers)
    requires a.NavRedeem?
  {
    var t := a.terms;
    && IsFloor(n.value, a.quantity * a.valuation, PRECISE_UNIT)
    && IsFloor(n.notional, n.value * t.baseUnits, PRECISE_UNIT)
    && IsFloor(n.outflow, n.notional * (PRECISE_UNIT - t.premium), PRECISE_UNIT)
    && IsFloor(n.managerFees, n.outflow * t.managerFee, PRECISE_UNIT)
    && IsFloor(n.protocolFees, n.outflow * t.protocolFee, PRECISE_UNIT)
    && Tracks(l, a.reserve, n.tracked)
  }

  /** The requirements of `redeem`. */
  predicate RedeemPermitted(l: Ledger, a: Action, n: RedeemNumbers)
    requires a.NavRedeem?
  {
    && 0 < a.quantity && 0 <= n.Paid() && a.minReceive <= n.Paid() && a.terms.minSupply <= l.supply - a.quantity
    && n.outflow <= n.tracked && n.outflow <= Balance(l, a.reserve)
  }

  /** A NAV redemption by numbers: exactly when it goes through, and then the caller gets at least the
      minimum asked for, the minimum supply is left, and the reserve position is restated. */
  lemma NavRedeemByNumbers(l: Ledger, a: Action) returns (n: RedeemNumbers, r: Restated)
    requires WellFormed(l) && ActionValid(a) && a.NavRedeem?
    ensures RedeemsBy(l, a, n)
    ensures RedeemPermitted(l, a, n) ==> RestatesBy(l, l.supply - a.quantity, n.tracked - n.outflow, r)
    ensures Next(l, a)
            == if RedeemPermitted(l, a, n) && Restatable(l, r) then
                 Some(Ledger(l.supply - a.quantity, r.multiplier, l.virtualUnits[a.reserve := r.stored],
                             l.balances[a.reserve := Balance(l, a.reserve) - n.outflow], l.externals))
               else None
  {
    n, r := RedeemComputes(l, a);
    RedeemUnfolds(l, a, n);
  }

  lemma RedeemComputes(l: Ledger, a: Action) returns (n: RedeemNumbers, r: Restated)
    requires WellFormed(l) && ActionValid(a) && a.NavRedeem?
    ensures RedeemsBy(l, a, n) && (RedeemPermitted(l, a, n) <==> RedeemAllowed(l, a))
    ensures n.outflow == RedeemOutflow(a.quantity, a.valuation, a.terms) && n.tracked == Tracked(l, a.reserve)
    ensures RedeemPermitted(l, a, n) ==>
              && 0 < l.supply - a.quantity && RestatesBy(l, l.supply - a.quantity, n.tracked - n.outflow, r)
              && Restate(Transfer(l, a.reserve, -n.outflow), a.reserve, l.supply - a.quantity, n.tracked - n.outflow)
                 == if Restatable(l, r) then
                      Some(Ledger(l.supply - a.quantity, r.multiplier, l.virtualUnits[a.reserve := r.stored],
                                  l.balances[a.reserve := Balance(l, a.reserve) - n.outflow], l.externals))
                    else None
  {
    n := RedeemAmounts(l, a);
    r := Restated(0, 0, 0);
    if RedeemPermitted(l, a, n) {
      r := MovedRestateIff(l, a.reserve, -n.outflow, l.supply - a.quantity, n.tracked - n.outflow);
    }
  }

  lemma RedeemUnfolds(l: Ledger, a: Action, n: RedeemNumbers)
    requires WellFormed(l) && ActionValid(a) && a.NavRedeem? && (RedeemPermitted(l, a, n) <==> RedeemAllowed(l, a))
    requires n.outflow == RedeemOutflow(a.quantity, a.valuation, a.terms) && n.tracked == Tracked(l, a.reserve)
    ensures Next(l, a)
            == if RedeemPermitted(l, a, n) then
                 Restate(Transfer(l, a.reserve, -n.outflow), a.reserve, l.supply - a.quantity, n.tracked - n.outflow)
               else None
  {
  }

  lemma RedeemAmounts(l: Ledger, a: Action) returns (n: RedeemNumbers)
    requires WellFormed(l) && ActionValid(a) && a.NavRedeem?
    ensures RedeemsBy(l, a, n) && (RedeemPermitted(l, a, n) <==> RedeemAllowed(l, a))
    ensures n.outflow == RedeemOutflow(a.quantity, a.valuation, a.terms) && n.tracked == Tracked(l, a.reserve)
  {
    var t := a.terms;
    var value := PreciseMul(a.quantity, a.valuation);
    var notional, outflow := PreciseMul(value, t.baseUnits), RedeemOutflow(a.quantity, a.valuation, t);
    LessPremium(notional, t.premium);
    TrackedTracks(l, a.reserve);
    n := RedeemNumbers(value, notional, outflow, PreciseMul(outflow, t.managerFee), PreciseMul(outflow, t.protocolFee),
                       Tracked(l, a.reserve));
  }

  // ----- Fees -----

  /** An accrual by numbers: the supply grows to what the fee leaves of it, the multiplier shrinks by as
      much, and it goes through exactly when the fee is below one hundred per cent and no position is
      lost. */
  lemma AccrueByNumbers(l: Ledger, fee: int) returns (supply: int, multiplier: int)
    requires WellFormed(l) && 0 <= fee
    ensures fee < PRECISE_UNIT ==>
              && IsFloor(supply, l.supply * PRECISE_UNIT, PRECISE_UNIT - fee)
              && IsFloor(multiplier, l.multiplier * (PRECISE_UNIT - fee), PRECISE_UNIT)
    ensures Next(l, AccrueFee(fee))
            == if fee < PRECISE_UNIT && Survives(l, multiplier)
               then Some(l.(supply := supply, multiplier := multiplier)) else None
  {
    supply, multiplier := 0, 0;
    if fee < PRECISE_UNIT {
      supply, multiplier := InflatedSupply(fee, l.supply), PreciseMul(l.multiplier, PRECISE_UNIT - fee);
      InflatedSupplyIsQuotient(fee, l.supply);
      var inflated := l.(supply := supply);
      AcceptedIffSurvives(inflated, multiplier);
      SamePositionsSurvive(l, inflated, multiplier);
    }
  }

  // ----- Basic issue and redemption -----

  /** A basic issue goes through exactly for a positive quantity and default positions only; a redemption
      also needs the tokens, and of every component at least what they are worth. */
  lemma BasicGoesThroughIff(l: Ledger, a: Action)
    requires WellFormed(l) && (a.BasicIssue? || a.BasicRedeem?)
    ensures AfterBasic(l, a).Some?
            <==> && 0 < a.quantity && l.externals == map[]
                 && (a.BasicRedeem? ==>
                       && a.quantity <= l.supply
                       && forall c :: 0 < Virtual(l, c) ==>
                                        a.quantity * Real(l, c) < (Balance(l, c) + 1) * PRECISE_UNIT)
  {
    if 0 < a.quantity && a.BasicRedeem? {
      forall c | 0 < Virtual(l, c)
        ensures c in Held(l)
        ensures 0 <= Balance(l, c) + BasicFlow(l, c, a)
                <==> a.quantity * Real(l, c) < (Balance(l, c) + 1) * PRECISE_UNIT
      {
        RealBounds(l, c);
        PaysIff(a.quantity * Real(l, c), PreciseMul(a.quantity, Real(l, c)), Balance(l, c));
      }
      assert forall c :: c in Held(l) ==> 0 < Virtual(l, c);
    }
  }

  lemma PaysIff(n: int, q: int, balance: int)
    requires IsFloor(q, n, PRECISE_UNIT)
    ensures q <= balance <==> n < (balance + 1) * PRECISE_UNIT
  {
  }

  /** And then moves the real unit of every component for every token, into the set rounded up and out of
      it rounded down, and nothing else. */
  lemma BasicByNumbers(l: Ledger, a: Action, c: Component) returns (unit: int, moved: int)
    requires WellFormed(l) && (a.BasicIssue? || a.BasicRedeem?) && 0 <= a.quantity
    ensures IsFloor(unit, Virtual(l, c) * l.multiplier, PRECISE_UNIT)
    ensures if a.BasicIssue? then IsCeiling(moved, unit * a.quantity, PRECISE_UNIT)
            else IsFloor(moved, unit * a.quantity, PRECISE_UNIT)
    ensures AfterBasic(l, a).Some? ==>
              var l' := AfterBasic(l, a).value;
              && Balance(l', c) == (if a.BasicIssue? then Balance(l, c) + moved else Balance(l, c) - moved)
              && l' == l.(supply := if a.BasicIssue? then l.supply + a.quantity else l.supply - a.quantity,
                          balances := l'.balances)
  {
    unit := Real(l, c);
    RealBounds(l, c);
    moved := if a.BasicIssue? then PreciseMulCeil(unit, a.quantity) else PreciseMul(a.quantity, unit);
    assert unit * a.quantity == a.quantity * unit;
    if AfterBasic(l, a).Some? { BasicEffect(l, a, c); }
  }

  // ----- External positions -----

  /** An external edit goes through exactly when a positive unit is worth a wei once stored. */
  lemma ExternalGoesThroughIff(l: Ledger, c: Component, m: Module, unit: int) returns (stored: int)
    requires WellFormed(l)
    ensures IsFloor(stored, unit * PRECISE_UNIT, l.multiplier)
    ensures EditExternalUnit(l, c, m, unit).Some? <==> unit <= 0 || PRECISE_UNIT <= stored * l.multiplier
  {
    stored := ConservativePreciseDiv(unit, l.multiplier);
    if 0 < unit { StoredIff(unit, l.multiplier, stored); }
  }
}
