/** The accounting of a SetToken under its issuance and fee modules, as transitions of a ledger:
    contracts/protocol/SetToken.sol, contracts/protocol/modules/v1/BasicIssuanceModule.sol,
    CustomOracleNAVIssuanceModule.sol and StreamingFeeModule.sol. Positions are stored as virtual
    units; the real unit is the virtual unit times the position multiplier, rounded down. */
module SetLedger {
  import opened Options
  import opened Rounding
  import opened FixedPoint
  import opened NavIssuance
  import opened StreamingFee

  type Component = string

  type Module = string

  /** A set. `externals` has, for each component with external positions, the signed virtual unit of each
      module that keeps one. */
  datatype Ledger = Ledger(supply: int, multiplier: int, virtualUnits: map<Component, int>,
                           balances: map<Component, int>, externals: map<Component, map<Module, int>>)

  /** A mapping read: absent entries are zero. */
  function Lookup(m: map<Component, int>, c: Component): int
  {
    if c in m then m[c] else 0
  }

  function Virtual(l: Ledger, c: Component): int { Lookup(l.virtualUnits, c) }

  function Balance(l: Ledger, c: Component): int { Lookup(l.balances, c) }

  /** `getDefaultPositionRealUnit`. */
  function Real(l: Ledger, c: Component): int
  {
    ConservativePreciseMul(Virtual(l, c), l.multiplier)
  }

  /** `getDefaultTrackedBalance`: what the recorded units say the set holds. */
  function Tracked(l: Ledger, c: Component): int
  {
    PreciseMul(l.supply, Real(l, c))
  }

  /** The components with a default position. */
  function Held(l: Ledger): set<Component>
  {
    set c | c in l.virtualUnits && 0 < l.virtualUnits[c]
  }

  /** The external positions of a component. */
  function Externals(l: Ledger, c: Component): map<Module, int>
  {
    if c in l.externals then l.externals[c] else map[]
  }

  /** Where a position may be: each component has one by default and one for every module. */
  datatype Place = Default(component: Component) | External(component: Component, owner: Module)

  /** The absolute virtual unit of a position; zero where there is none. */
  function UnitAt(l: Ledger, p: Place): (unit: int)
  {
    match p
    case Default(c) => Virtual(l, c)
    case External(c, m) => if m in Externals(l, c) then Abs(Externals(l, c)[m]) else 0
  }

  predicate WellFormed(l: Ledger)
  {
    0 <= l.supply && 0 < l.multiplier && NonNegative(l.virtualUnits) && NonZero(l.externals)
  }

  predicate NonNegative(m: map<Component, int>)
  {
    forall c :: c in m ==> 0 <= m[c]
  }

  /** A component without external positions is not listed, and no external position is zero. */
  predicate NonZero(externals: map<Component, map<Module, int>>)
  {
    && (forall c :: c in externals ==> externals[c] != map[])
    && forall c, m :: c in externals && m in externals[c] ==> externals[c][m] != 0
  }

  // ----- Edits of the token -----

  /** Every position keeps a real unit at this multiplier. */
  ghost predicate NoneVanishes(l: Ledger, multiplier: int)
  {
    forall p :: 0 < UnitAt(l, p) ==> 0 < ConservativePreciseMul(UnitAt(l, p), multiplier)
  }

  /** `_validateNewMultiplier`: there is a position, and none would round to nothing. */
  ghost predicate MultiplierAccepted(l: Ledger, multiplier: int)
  {
    (exists p :: 0 < UnitAt(l, p)) && NoneVanishes(l, multiplier)
  }

  ghost function EditMultiplier(l: Ledger, multiplier: int): Option<Ledger>
  {
    if MultiplierAccepted(l, multiplier) then Some(l.(multiplier := multiplier)) else None
  }

  /** `_convertRealToVirtualUnit`: a positive unit may not be stored as nothing. */
  function Stored(realUnit: int, multiplier: int): Option<int>
    requires multiplier != 0
  {
    var virtualUnit := ConservativePreciseDiv(realUnit, multiplier);
    if 0 < realUnit && (virtualUnit == 0 || ConservativePreciseMul(virtualUnit, multiplier) == 0) then None
    else Some(virtualUnit)
  }

  function EditUnit(l: Ledger, c: Component, realUnit: int): Option<Ledger>
    requires l.multiplier != 0
  {
    var stored := Stored(realUnit, l.multiplier);
    if stored.None? then None else Some(l.(virtualUnits := l.virtualUnits[c := stored.value]))
  }

  /** `Position.editExternalPosition`: a zero unit closes the position. */
  function EditExternalUnit(l: Ledger, c: Component, m: Module, realUnit: int): Option<Ledger>
    requires l.multiplier != 0
  {
    var stored := Stored(realUnit, l.multiplier);
    if stored.None? then None
    else if realUnit == 0 then Some(WithExternals(l, c, Externals(l, c) - {m}))
    else Some(WithExternals(l, c, Externals(l, c)[m := stored.value]))
  }

  function WithExternals(l: Ledger, c: Component, externals: map<Module, int>): Ledger
  {
    l.(externals := if externals == map[] then l.externals - {c} else l.externals[c := externals])
  }

  /** A transfer of `amount` into the set, or out of it when negative. */
  function Transfer(l: Ledger, c: Component, amount: int): Ledger
  {
    l.(balances := l.balances[c := Balance(l, c) + amount])
  }

  // ----- Actions of the modules -----

  /** The terms of NAV issuance: reserve base units, fee percentages, premium, minimum supply. */
  datatype Terms = Terms(baseUnits: int, managerFee: int, protocolFee: int, premium: int, minSupply: int)

  predicate TermsValid(t: Terms)
  {
    0 < t.baseUnits && 0 <= t.managerFee && 0 <= t.protocolFee && Percentage(t.premium) && 0 < t.minSupply
  }

  datatype Action =
    | NavIssue(reserve: Component, quantity: int, minReceive: int, valuation: int, terms: Terms)
    | NavRedeem(reserve: Component, quantity: int, minReceive: int, valuation: int, terms: Terms)
    | AccrueFee(fee: int)
    | BasicIssue(quantity: int)
    | BasicRedeem(quantity: int)
    | EditExternal(component: Component, owner: Module, unit: int)

  /** Unsigned arguments, and terms the module accepted. */
  predicate ActionValid(a: Action)
  {
    match a
    case NavIssue(_, quantity, minReceive, valuation, terms) => 0 <= quantity && 0 <= valuation && TermsValid(terms)
    case NavRedeem(_, quantity, minReceive, valuation, terms) => 0 <= quantity && 0 <= valuation && TermsValid(terms)
    case AccrueFee(fee) => 0 <= fee
    case BasicIssue(quantity) => 0 <= quantity
    case BasicRedeem(quantity) => 0 <= quantity
    case EditExternal(_, _, _) => true
  }

  /** `_handleIssueStateUpdates` and `_handleRedeemStateUpdates`: the new multiplier, then the new
      reserve unit, then the new supply. */
  ghost function Restate(l: Ledger, reserve: Component, supply: int, total: int): Option<Ledger>
    requires supply != 0
  {
    var edited := EditMultiplier(l, ContractMultiplier(l.multiplier, l.supply, supply));
    if edited.None? || edited.value.multiplier == 0 then None
    else
      var restated := EditUnit(edited.value, reserve, PreciseDiv(total, supply));
      if restated.None? then None else Some(restated.value.(supply := supply))
  }

  ghost function AfterNavIssue(l: Ledger, a: Action): Option<Ledger>
    requires WellFormed(l) && a.NavIssue? && ActionValid(a)
  {
    var t := a.terms;
    var net := PostFeeQuantity(a.quantity, t.managerFee, t.protocolFee);
    if a.quantity == 0 || net < 0 || l.supply < t.minSupply
       || !CanPrice(l.supply, a.valuation, t.baseUnits, net, t.premium) then None
    else
      var minted := SetTokenIssueQuantity(l.supply, a.valuation, t.baseUnits, net, t.premium);
      if minted < a.minReceive || l.supply + minted == 0 then None
      else Restate(Transfer(l, a.reserve, net), a.reserve, l.supply + minted, Tracked(l, a.reserve) + net)
  }

  /** `_getRedeemReserveQuantity`: unlike the test helper, converts to base units before the premium. */
  function RedeemOutflow(quantity: int, valuation: int, t: Terms): (r: int)
    requires TermsValid(t)
    ensures 0 <= quantity && 0 <= valuation ==> 0 <= r <= PreciseMul(PreciseMul(quantity, valuation), t.baseUnits)
  {
    var prePremium := PreciseMul(PreciseMul(quantity, valuation), t.baseUnits);
    assert 0 <= prePremium ==> 0 <= prePremium - PreciseMulCeil(prePremium, t.premium) <= prePremium by {
      if 0 <= prePremium { LessPremium(prePremium, t.premium); }
    }
    prePremium - PreciseMulCeil(prePremium, t.premium)
  }

  /** The checks of `redeem`: a quantity, fees within it, the caller's minimum, the minimum supply, and a
      reserve position and balance that cover what leaves. */
  predicate RedeemAllowed(l: Ledger, a: Action)
    requires a.NavRedeem? && ActionValid(a)
  {
    var outflow := RedeemOutflow(a.quantity, a.valuation, a.terms);
    var net := PostFeeQuantity(outflow, a.terms.managerFee, a.terms.protocolFee);
    && a.quantity != 0 && 0 <= net && a.minReceive <= net && a.terms.minSupply <= l.supply - a.quantity
    && outflow <= Tracked(l, a.reserve) && outflow <= Balance(l, a.reserve)
  }

  ghost function AfterNavRedeem(l: Ledger, a: Action): Option<Ledger>
    requires WellFormed(l) && a.NavRedeem? && ActionValid(a)
  {
    var outflow := RedeemOutflow(a.quantity, a.valuation, a.terms);
    if !RedeemAllowed(l, a) then None
    else Restate(Transfer(l, a.reserve, -outflow), a.reserve, l.supply - a.quantity, Tracked(l, a.reserve) - outflow)
  }

  ghost function AfterAccrueFee(l: Ledger, fee: int): Option<Ledger>
  {
    if PRECISE_UNIT <= fee then None
    else EditMultiplier(l.(supply := InflatedSupply(fee, l.supply)), PreciseMul(l.multiplier, PRECISE_UNIT - fee))
  }

  /** What one component pays in for a basic issue, or out (negative) for a basic redemption. */
  function BasicFlow(l: Ledger, c: Component, a: Action): int
    requires a.BasicIssue? || a.BasicRedeem?
  {
    if a.BasicIssue? then PreciseMulCeil(Real(l, c), a.quantity) else -PreciseMul(a.quantity, Real(l, c))
  }

  /** The basic module supports default positions only. */
  function AfterBasic(l: Ledger, a: Action): Option<Ledger>
    requires a.BasicIssue? || a.BasicRedeem?
  {
    if a.quantity <= 0 || l.externals != map[] || (a.BasicRedeem? && l.supply < a.quantity)
       || (a.BasicRedeem? && exists c :: c in Held(l) && Balance(l, c) + BasicFlow(l, c, a) < 0) then None
    else
      Some(l.(supply := if a.BasicIssue? then l.supply + a.quantity else l.supply - a.quantity,
              balances := map c | c in l.balances.Keys + Held(l) ::
                            Balance(l, c) + (if c in Held(l) then BasicFlow(l, c, a) else 0)))
  }

  ghost function Next(l: Ledger, a: Action): Option<Ledger>
    requires WellFormed(l) && ActionValid(a)
  {
    match a
    case NavIssue(_, _, _, _, _) => AfterNavIssue(l, a)
    case NavRedeem(_, _, _, _, _) => AfterNavRedeem(l, a)
    case AccrueFee(fee) => AfterAccrueFee(l, fee)
    case BasicIssue(_) => AfterBasic(l, a)
    case BasicRedeem(_) => AfterBasic(l, a)
    case EditExternal(c, m, unit) => EditExternalUnit(l, c, m, unit)
  }

  // ----- Well-formedness -----

  lemma AcceptedIsPositive(l: Ledger, multiplier: int)
    requires WellFormed(l) && MultiplierAccepted(l, multiplier)
    ensures 0 < multiplier
  {
    var p :| 0 < UnitAt(l, p);
    if multiplier <= 0 { MulLe(multiplier, 0, UnitAt(l, p)); }
  }

  lemma StoredUnit(realUnit: int, multiplier: int)
    requires 0 <= realUnit && 0 < multiplier
    ensures var v := ConservativePreciseDiv(realUnit, multiplier); 0 <= v && v * multiplier <= realUnit * PRECISE_UNIT
  {
  }

  lemma RealBounds(l: Ledger, c: Component)
    requires WellFormed(l)
    ensures 0 <= Real(l, c) && 0 <= Tracked(l, c)
    ensures Real(l, c) * PRECISE_UNIT <= Virtual(l, c) * l.multiplier < Real(l, c) * PRECISE_UNIT + PRECISE_UNIT
  {
  }

  /** A restatement, in full: the reserve unit is what the total pays per token, but for the stated
      truncation, every other position keeps its virtual unit, and the multiplier follows the supply
      ratio rounded down. */
  lemma RestateEffect(l: Ledger, reserve: Component, supply: int, total: int)
    requires WellFormed(l) && 0 < supply && 0 <= total && Restate(l, reserve, supply, total).Some?
    ensures var l' := Restate(l, reserve, supply, total).value;
            && WellFormed(l')
            && l'.supply == supply && l'.balances == l.balances && l'.externals == l.externals
            && l'.multiplier * supply <= l.multiplier * l.supply < (l'.multiplier + 1) * supply
            && Real(l', reserve) <= PreciseDiv(total, supply)
            && (PreciseDiv(total, supply) - Real(l', reserve) - 1) * PRECISE_UNIT < l'.multiplier
            && supply * (Virtual(l', reserve) * l'.multiplier) <= total * PRECISE_UNIT * PRECISE_UNIT
            && forall c :: c != reserve ==> Virtual(l', c) == Virtual(l, c)
  {
    var l' := Restate(l, reserve, supply, total).value;
    AcceptedIsPositive(l, l'.multiplier);
    var unit := PreciseDiv(total, supply);
    StoredUnit(unit, l'.multiplier);
    ExactTotal(Virtual(l', reserve) * l'.multiplier, unit, supply, total);
  }

  lemma ExactTotal(exact: int, unit: int, supply: int, total: int)
    requires 0 < supply && exact <= unit * PRECISE_UNIT && unit * supply <= total * PRECISE_UNIT
    ensures supply * exact <= total * PRECISE_UNIT * PRECISE_UNIT
  {
  }

  /** The reserve that a NAV action moves into the set; negative when out of it. */
  function NavFlow(a: Action): int
    requires (a.NavIssue? || a.NavRedeem?) && ActionValid(a)
  {
    if a.NavIssue? then PostFeeQuantity(a.quantity, a.terms.managerFee, a.terms.protocolFee)
    else -RedeemOutflow(a.quantity, a.valuation, a.terms)
  }

  /** The supply after a NAV action. */
  ghost function NavSupply(l: Ledger, a: Action): int
    requires (a.NavIssue? || a.NavRedeem?) && ActionValid(a)
  {
    if a.NavRedeem? then l.supply - a.quantity
    else if CanPrice(l.supply, a.valuation, a.terms.baseUnits, NavFlow(a), a.terms.premium)
    then l.supply + SetTokenIssueQuantity(l.supply, a.valuation, a.terms.baseUnits, NavFlow(a), a.terms.premium)
    else l.supply
  }

  /** The restatement that a NAV action comes down to. */
  ghost function NavRestate(l: Ledger, a: Action): Option<Ledger>
    requires (a.NavIssue? || a.NavRedeem?) && ActionValid(a) && NavSupply(l, a) != 0
  {
    Restate(Transfer(l, a.reserve, NavFlow(a)), a.reserve, NavSupply(l, a), Tracked(l, a.reserve) + NavFlow(a))
  }

  /** Both NAV actions move some reserve across the set's boundary and restate the position by as much. */
  lemma NavIssueMoves(l: Ledger, a: Action)
    requires WellFormed(l) && ActionValid(a) && a.NavIssue?
    ensures AfterNavIssue(l, a).Some? ==>
              && 0 < NavSupply(l, a) && 0 <= Tracked(l, a.reserve) + NavFlow(a)
              && AfterNavIssue(l, a) == NavRestate(l, a)
  {
    RealBounds(l, a.reserve);
    if 0 <= NavFlow(a) {
      IssueQuantityNonNegative(l.supply, a.valuation, a.terms.baseUnits, NavFlow(a), a.terms.premium);
    }
  }

  lemma NavRedeemMoves(l: Ledger, a: Action)
    requires WellFormed(l) && ActionValid(a) && a.NavRedeem?
    ensures AfterNavRedeem(l, a).Some? ==>
              && 0 < NavSupply(l, a) && 0 <= Tracked(l, a.reserve) + NavFlow(a)
              && AfterNavRedeem(l, a) == NavRestate(l, a)
  {
  }

  /** When nothing leaves the set, the position is restated for the fewer tokens. */
  lemma RedeemedWithoutFlow(l: Ledger, a: Action)
    requires WellFormed(l) && a.NavRedeem? && ActionValid(a)
    requires 0 < a.quantity && a.minReceive == 0 && a.terms.minSupply <= l.supply - a.quantity
    requires RedeemOutflow(a.quantity, a.valuation, a.terms) == 0
    requires PostFeeQuantity(0, a.terms.managerFee, a.terms.protocolFee) == 0
    requires 0 <= Balance(l, a.reserve) && 0 <= Tracked(l, a.reserve)
    ensures AfterNavRedeem(l, a)
            == Restate(Transfer(l, a.reserve, 0), a.reserve, l.supply - a.quantity, Tracked(l, a.reserve))
  {
  }

  /** A NAV action, in full. */
  lemma NavEffect(l: Ledger, a: Action)
    requires WellFormed(l) && ActionValid(a) && (a.NavIssue? || a.NavRedeem?)
    ensures Next(l, a).Some? ==>
              var l' := Next(l, a).value;
              && WellFormed(l') && l'.supply == NavSupply(l, a)
              && l'.multiplier * l'.supply <= l.multiplier * l.supply
              && Balance(l', a.reserve) == Balance(l, a.reserve) + NavFlow(a)
              && l'.supply * (Virtual(l', a.reserve) * l'.multiplier)
                 <= (Tracked(l, a.reserve) + NavFlow(a)) * PRECISE_UNIT * PRECISE_UNIT
              && forall c :: c != a.reserve ==> Virtual(l', c) == Virtual(l, c) && Balance(l', c) == Balance(l, c)
  {
    if a.NavIssue? { NavIssueMoves(l, a); } else { NavRedeemMoves(l, a); }
    if Next(l, a).Some? {
      NavRestateEffect(l, a.reserve, NavFlow(a), NavSupply(l, a));
    }
  }

  lemma NavRestateEffect(l: Ledger, reserve: Component, flow: int, supply: int)
    requires WellFormed(l) && 0 < supply && 0 <= Tracked(l, reserve) + flow
    ensures var r := Restate(Transfer(l, reserve, flow), reserve, supply, Tracked(l, reserve) + flow);
            r.Some? ==>
              && WellFormed(r.value) && r.value.supply == supply
              && r.value.multiplier * supply <= l.multiplier * l.supply
              && Balance(r.value, reserve) == Balance(l, reserve) + flow
              && supply * (Virtual(r.value, reserve) * r.value.multiplier)
                 <= (Tracked(l, reserve) + flow) * PRECISE_UNIT * PRECISE_UNIT
              && forall c :: c != reserve ==>
                               Virtual(r.value, c) == Virtual(l, c) && Balance(r.value, c) == Balance(l, c)
  {
    if Restate(Transfer(l, reserve, flow), reserve, supply, Tracked(l, reserve) + flow).Some? {
      RestateEffect(Transfer(l, reserve, flow), reserve, supply, Tracked(l, reserve) + flow);
    }
  }

  lemma IssueQuantityNonNegative(supply: int, valuation: int, baseUnits: int, net: int, premium: int)
    requires 0 <= supply && 0 <= valuation && 0 < baseUnits && 0 <= net && Percentage(premium)
    ensures CanPrice(supply, valuation, baseUnits, net, premium) ==>
              0 <= SetTokenIssueQuantity(supply, valuation, baseUnits, net, premium)
  {
    PreciseDivMonotone(PostPremiumQuantity(net, premium), net, baseUnits);
    if CanPrice(supply, valuation, baseUnits, net, premium) {
      MintedWithinPrice(supply, valuation, PreciseDiv(net, baseUnits),
                        PreciseDiv(PostPremiumQuantity(net, premium), baseUnits));
    }
  }

  /** An accrual leaves every virtual unit and balance, and multiplier times supply does not rise. */
  lemma AccrueEffect(l: Ledger, fee: int)
    requires WellFormed(l) && 0 <= fee && AfterAccrueFee(l, fee).Some?
    ensures var l' := AfterAccrueFee(l, fee).value;
            && WellFormed(l')
            && l'.balances == l.balances && l'.virtualUnits == l.virtualUnits && l'.externals == l.externals
            && l'.multiplier * l'.supply <= l.multiplier * l.supply
  {
    var l' := AfterAccrueFee(l, fee).value;
    AcceptedIsPositive(l.(supply := l'.supply), l'.multiplier);
    InflatedSupplyIsQuotient(fee, l.supply);
    ComposeProportions(l'.supply, l'.multiplier, l.supply, l.multiplier, PRECISE_UNIT - fee, PRECISE_UNIT);
  }

  /** A basic issue or redemption moves the rounded share of every component. */
  lemma BasicEffect(l: Ledger, a: Action, c: Component)
    requires WellFormed(l) && (a.BasicIssue? || a.BasicRedeem?) && AfterBasic(l, a).Some?
    ensures var l' := AfterBasic(l, a).value;
            && WellFormed(l')
            && l'.multiplier == l.multiplier && l'.virtualUnits == l.virtualUnits
            && l'.supply == l.supply + (if a.BasicIssue? then a.quantity else -a.quantity)
            && Balance(l', c) == Balance(l, c) + BasicFlow(l, c, a)
  {
  }

  /** An external edit leaves supply, multiplier, default positions and balances, and every other external
      position; the edited one reads back as the unit given, rounded down by less than the multiplier. */
  lemma ExternalEffect(l: Ledger, c: Component, m: Module, unit: int)
    requires WellFormed(l)
    ensures EditExternalUnit(l, c, m, unit).Some? ==>
              var l' := EditExternalUnit(l, c, m, unit).value;
              && WellFormed(l') && l' == l.(externals := l'.externals)
              && (forall d :: d != c ==> Externals(l', d) == Externals(l, d))
              && Externals(l', c) - {m} == Externals(l, c) - {m}
              && (m in Externals(l', c) <==> unit != 0)
              && (unit != 0 ==> var v := Externals(l', c)[m];
                                0 < ConservativePreciseMul(Abs(v), l.multiplier)
                                && v * l.multiplier <= unit * PRECISE_UNIT < v * l.multiplier + l.multiplier)
  {
    if unit != 0 {
      StoredIsLarge(unit, l.multiplier);
    }
  }

  lemma StoredIsLarge(unit: int, multiplier: int)
    requires 0 < multiplier && unit != 0
    ensures Stored(unit, multiplier).Some? ==>
              var v := Stored(unit, multiplier).value;
              v != 0 && 0 < ConservativePreciseMul(Abs(v), multiplier)
  {
  }

  lemma NextWellFormed(l: Ledger, a: Action)
    requires WellFormed(l) && ActionValid(a)
    ensures Next(l, a).Some? ==> WellFormed(Next(l, a).value)
  {
    if Next(l, a).Some? {
      if a.NavIssue? || a.NavRedeem? {
        NavEffect(l, a);
      } else if a.AccrueFee? {
        AccrueEffect(l, a.fee);
      } else if a.EditExternal? {
        ExternalEffect(l, a.component, a.owner, a.unit);
      }
    }
  }

  // ----- A round trip through the module -----

  /** A redemption of exactly what an issue minted, from the same reserve, at a valuation not above the
      post-issue value per token. */
  ghost predicate Undoes(l: Ledger, issue: Action, redeem: Action)
    requires WellFormed(l) && issue.NavIssue? && redeem.NavRedeem? && ActionValid(issue) && ActionValid(redeem)
  {
    && Next(l, issue).Some? && redeem.reserve == issue.reserve && redeem.terms.baseUnits == issue.terms.baseUnits
    && var supply := Next(l, issue).value.supply;
       && redeem.quantity == supply - l.supply
       && redeem.valuation * supply
          <= (PreciseMul(l.supply, issue.valuation) + PreciseDiv(NavFlow(issue), issue.terms.baseUnits)) * PRECISE_UNIT
  }

  /** Issue against the reserve, then redeem exactly what was minted: the contract pays out at most the
      post-fee, post-premium part of the deposit, so the set keeps at least the reserve it had, whatever
      the terms of either call. */
  lemma RoundTripLeavesReserve(l: Ledger, issue: Action, redeem: Action)
    requires WellFormed(l) && issue.NavIssue? && redeem.NavRedeem? && ActionValid(issue) && ActionValid(redeem)
    ensures Undoes(l, issue, redeem) ==>
              && -NavFlow(redeem) <= PostPremiumQuantity(NavFlow(issue), issue.terms.premium) <= NavFlow(issue)
              && -NavFlow(redeem) * PRECISE_UNIT
                 < NavFlow(issue) * (PRECISE_UNIT - issue.terms.premium) + PRECISE_UNIT
    ensures Undoes(l, issue, redeem) ==>
              var l1 := Next(l, issue).value;
              && WellFormed(l1)
              && (Next(l1, redeem).Some? ==>
                    Balance(l, issue.reserve) <= Balance(Next(l1, redeem).value, issue.reserve))
  {
    if Undoes(l, issue, redeem) {
      RoundTripPrice(l.supply, issue.valuation, NavFlow(issue), issue.terms, redeem.valuation, redeem.terms);
      PostPremiumBounds(NavFlow(issue), issue.terms.premium);
      NavEffect(l, issue);
      NavEffect(Next(l, issue).value, redeem);
    }
  }

  lemma RoundTripPrice(supply: int, valuation: int, net: int, t: Terms, newValuation: int, t': Terms)
    requires 0 <= supply && 0 <= valuation && 0 <= net && 0 <= newValuation
    requires TermsValid(t) && TermsValid(t') && t'.baseUnits == t.baseUnits
    ensures CanPrice(supply, valuation, t.baseUnits, net, t.premium) ==>
              var minted := SetTokenIssueQuantity(supply, valuation, t.baseUnits, net, t.premium);
              newValuation * (supply + minted)
                <= (PreciseMul(supply, valuation) + PreciseDiv(net, t.baseUnits)) * PRECISE_UNIT ==>
                RedeemOutflow(minted, newValuation, t') <= PostPremiumQuantity(net, t.premium) <= net
  {
    var spent := PostPremiumQuantity(net, t.premium);
    var paid, deposited := PreciseDiv(spent, t.baseUnits), PreciseDiv(net, t.baseUnits);
    IssueQuantityNonNegative(supply, valuation, t.baseUnits, net, t.premium);
    PreciseDivMonotone(spent, net, t.baseUnits);
    if CanPrice(supply, valuation, t.baseUnits, net, t.premium) {
      var minted := SetTokenIssueQuantity(supply, valuation, t.baseUnits, net, t.premium);
      if newValuation * (supply + minted) <= (PreciseMul(supply, valuation) + deposited) * PRECISE_UNIT {
        RedeemedValueWithinPaid(supply, valuation, deposited, paid, newValuation);
        OutflowWithinPaid(minted, newValuation, t', paid, spent);
      }
    }
  }

  lemma OutflowWithinPaid(quantity: int, valuation: int, t: Terms, paid: int, spent: int)
    requires TermsValid(t) && 0 <= quantity && 0 <= valuation
    requires PreciseMul(valuation, quantity) <= paid && paid * t.baseUnits <= spent * PRECISE_UNIT
    ensures RedeemOutflow(quantity, valuation, t) <= spent
  {
    var value := PreciseMul(quantity, valuation);
    assert value == PreciseMul(valuation, quantity) by { assert quantity * valuation == valuation * quantity; }
    MulLe(value, paid, t.baseUnits);
  }
}
