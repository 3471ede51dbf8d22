/** How far the units that utils/common/feeModuleUtils.ts and navIssuanceModuleUtils.ts predict are from those
    that the set reads after the call, and exactly when they agree. */
module UnitPredictions {
  import opened Options
  import opened Rounding
  import opened FixedPoint
  import opened NavIssuance
  import opened StreamingFee
  import opened SetLedger
  import opened Predictions

  // ----- Units after a fee -----

  /** The signed virtual unit of a position; zero where there is none. */
  function SignedUnit(l: Ledger, p: Place): int
  {
    match p
    case Default(c) => Virtual(l, c)
    case External(c, m) => if m in Externals(l, c) then Externals(l, c)[m] else 0
  }

  /** `getDefaultPositionRealUnit` and `getExternalPositionRealUnit`. */
  function RealAt(l: Ledger, p: Place): int
  {
    ConservativePreciseMul(SignedUnit(l, p), l.multiplier)
  }

  /** `getPostFeePositionUnits` scales the real unit, the contract the multiplier. For a held position the
      prediction is at most one wei low, and high by less than a wei plus the virtual unit's whole part;
      a debt is never understated, and overstated by less than two wei plus that part. At multiplier
      one it is exact. */
  lemma FeeHelperIsClose(l: Ledger, fee: int, p: Place)
    requires WellFormed(l) && 0 <= fee && AfterAccrueFee(l, fee).Some?
    ensures var predicted := PostFeeUnit(RealAt(l, p), fee);
            var actual := RealAt(AfterAccrueFee(l, fee).value, p);
            && (0 <= SignedUnit(l, p) ==>
                  actual <= predicted + 1 && (predicted - actual - 1) * PRECISE_UNIT < SignedUnit(l, p))
            && (SignedUnit(l, p) < 0 ==>
                  predicted <= actual && (actual - predicted - 2) * PRECISE_UNIT < -SignedUnit(l, p))
            && (l.multiplier == PRECISE_UNIT ==> actual == predicted)
  {
    UnitIsClose(SignedUnit(l, p), l.multiplier, fee);
  }

  lemma UnitIsClose(v: int, m: int, fee: int)
    requires 0 < m && 0 <= fee < PRECISE_UNIT
    ensures var predicted := PostFeeUnit(ConservativePreciseMul(v, m), fee);
            var actual := ConservativePreciseMul(v, PreciseMul(m, PRECISE_UNIT - fee));
            && (0 <= v ==> actual <= predicted + 1 && (predicted - actual - 1) * PRECISE_UNIT < v)
            && (v < 0 ==> predicted <= actual && (actual - predicted - 2) * PRECISE_UNIT < -v)
            && (m == PRECISE_UNIT ==> actual == predicted)
  {
    var d, r := PRECISE_UNIT - fee, ConservativePreciseMul(v, m);
    var m', p := PreciseMul(m, d), PostFeeUnit(r, fee);
    var a := ConservativePreciseMul(v, m');
    PostFeeUnitIsFloor(r, fee);
    if 0 <= v {
      ScaledUnitNotAbove(v, m, m', d, r, p, a, PRECISE_UNIT);
      ScaledUnitNotBelow(v, m, m', d, r, p, a, PRECISE_UNIT);
    } else {
      DebtNotUnderstated(v, m, m', d, r, p, a, PRECISE_UNIT);
      DebtNotFarOverstated(v, m, m', d, r, p, a, PRECISE_UNIT);
    }
    if m == PRECISE_UNIT {
      assert m' == d && r == v;
      SameMultiple(a, p, PRECISE_UNIT);
    }
  }

  /** The exact condition, for every position: the remainders of both orders of scaling, each with the
      factors that still scale it, differ by a proper remainder. */
  lemma FeeHelperExactIff(l: Ledger, fee: int, p: Place)
    requires WellFormed(l) && 0 <= fee && AfterAccrueFee(l, fee).Some?
    ensures var v, r, m, left := SignedUnit(l, p), RealAt(l, p), l.multiplier, PRECISE_UNIT - fee;
            RealAt(AfterAccrueFee(l, fee).value, p) == PostFeeUnit(r, fee)
            <==> 0 <= r * left % PRECISE_UNIT * PRECISE_UNIT + v * m % PRECISE_UNIT * left - m * left % PRECISE_UNIT * v
                   < PRECISE_UNIT * PRECISE_UNIT
  {
    UnitExactIff(SignedUnit(l, p), l.multiplier, fee);
  }

  lemma UnitExactIff(v: int, m: int, fee: int)
    requires 0 < m && 0 <= fee < PRECISE_UNIT
    ensures var r, left := ConservativePreciseMul(v, m), PRECISE_UNIT - fee;
            ConservativePreciseMul(v, PreciseMul(m, left)) == PostFeeUnit(r, fee)
            <==> 0 <= r * left % PRECISE_UNIT * PRECISE_UNIT + v * m % PRECISE_UNIT * left - m * left % PRECISE_UNIT * v
                   < PRECISE_UNIT * PRECISE_UNIT
  {
    var r, left, m' := ConservativePreciseMul(v, m), PRECISE_UNIT - fee, PreciseMul(m, PRECISE_UNIT - fee);
    PostFeeUnitIsFloor(r, fee);
    Remainder(r * left, PRECISE_UNIT, PostFeeUnit(r, fee));
    Remainder(v * m, PRECISE_UNIT, r);
    Remainder(m * left, PRECISE_UNIT, m');
    assert m * v == v * m && m' * v == v * m';
    TwoOrders(m, v, left, r, PostFeeUnit(r, fee), m', ConservativePreciseMul(v, m'), r * left % PRECISE_UNIT,
              v * m % PRECISE_UNIT, m * left % PRECISE_UNIT, PRECISE_UNIT);
  }

  /** At multiplier one half, charged a quarter: of three units held the helper predicts that nothing is
      left and the contract reads one; of five owed it predicts three and the contract reads two. */
  lemma FeeHelperDiffers(l: Ledger, p: Place)
    requires WellFormed(l) && l.multiplier == PRECISE_UNIT / 2
    ensures AfterAccrueFee(l, PRECISE_UNIT / 4).Some? ==>
              var predicted := PostFeeUnit(RealAt(l, p), PRECISE_UNIT / 4);
              var actual := RealAt(AfterAccrueFee(l, PRECISE_UNIT / 4).value, p);
              && (SignedUnit(l, p) == 3 ==> predicted == 0 && actual == 1)
              && (SignedUnit(l, p) == -5 ==> predicted == -3 && actual == -2)
  {
    UnitsAtHalf();
  }

  lemma UnitsAtHalf()
    ensures var m' := PreciseMul(PRECISE_UNIT / 2, PRECISE_UNIT - PRECISE_UNIT / 4);
            && ConservativePreciseMul(3, PRECISE_UNIT / 2) == 1 && ConservativePreciseMul(-5, PRECISE_UNIT / 2) == -3
            && PostFeeUnit(1, PRECISE_UNIT / 4) == 0 && PostFeeUnit(-3, PRECISE_UNIT / 4) == -3
            && ConservativePreciseMul(3, m') == 1 && ConservativePreciseMul(-5, m') == -2
  {
    PostFeeUnitIsFloor(-3, PRECISE_UNIT / 4);
    assert PreciseMul(PRECISE_UNIT / 2, PRECISE_UNIT - PRECISE_UNIT / 4) == 3 * (PRECISE_UNIT / 8);
  }

  /** Such a debt can be charged. */
  lemma DebtCanBeCharged(c: Component, m: Module)
    ensures var l := Ledger(PRECISE_UNIT, PRECISE_UNIT / 2, map[], map[], map[c := map[m := -5]]);
            WellFormed(l) && SignedUnit(l, External(c, m)) == -5 && AfterAccrueFee(l, PRECISE_UNIT / 4).Some?
  {
    var l := Ledger(PRECISE_UNIT, PRECISE_UNIT / 2, map[], map[], map[c := map[m := -5]]);
    OneDebt(l, c, m);
    assert PreciseMul(PRECISE_UNIT / 2, PRECISE_UNIT - PRECISE_UNIT / 4) == 3 * (PRECISE_UNIT / 8);
    assert ConservativePreciseMul(5, 3 * (PRECISE_UNIT / 8)) == 1;
    ChargeAccepted(l, PRECISE_UNIT / 4, External(c, m));
  }

  lemma ChargeAccepted(l: Ledger, fee: int, p: Place)
    requires 0 <= fee < PRECISE_UNIT && 0 < UnitAt(l, p)
    requires NoneVanishes(l, PreciseMul(l.multiplier, PRECISE_UNIT - fee))
    ensures AfterAccrueFee(l, fee).Some?
  {
    var l' := l.(supply := InflatedSupply(fee, l.supply));
    assert forall q :: UnitAt(l', q) == UnitAt(l, q);
  }

  lemma OneDebt(l: Ledger, c: Component, m: Module)
    requires l.virtualUnits == map[] && l.externals == map[c := map[m := -5]]
    ensures NonZero(l.externals) && UnitAt(l, External(c, m)) == 5 && forall p :: 0 < UnitAt(l, p) ==> UnitAt(l, p) == 5
  {
    assert m in l.externals[c];
  }

  lemma ScaledUnitNotAbove(v: int, m: int, m': int, d: int, r: int, p: int, a: int, u: int)
    requires 0 <= v && 0 < d <= u
    requires m' * u <= m * d && v * m < r * u + u && r * d < p * u + u && a * u <= v * m'
    ensures a <= p + 1
  {
    ScaledTwice(v, m, m', d, a, u);
    MulLt(v * m, (r + 1) * u, d);
    CancelLt(a * u, (r + 1) * d, u);
    assert (r + 1) * d == r * d + d;
    CancelLt(a, p + 2, u);
  }

  lemma ScaledUnitNotBelow(v: int, m: int, m': int, d: int, r: int, p: int, a: int, u: int)
    requires 0 <= v && 0 < d <= u
    requires m * d < m' * u + u && r * u <= v * m && p * u <= r * d && v * m' < a * u + u
    ensures (p - a - 1) * u < v
  {
  }

  lemma DebtNotUnderstated(v: int, m: int, m': int, d: int, r: int, p: int, a: int, u: int)
    requires v < 0 && 0 < d && 0 < u
    requires m' * u <= m * d && r * u <= v * m && p * u <= r * d && v * m' < a * u + u
    ensures p <= a
  {
    MulLe(p * u, r * d, u);
    MulLe(r * u, v * m, d);
    MulLe(m' * u, m * d, -v);
    assert p * u * u <= v * m' * u;
    CancelLe(p * u, v * m', u);
    CancelLt(p, a + 1, u);
  }

  lemma DebtNotFarOverstated(v: int, m: int, m': int, d: int, r: int, p: int, a: int, u: int)
    requires v < 0 && 0 < d <= u
    requires m * d < m' * u + u && v * m < r * u + u && r * d < p * u + u && a * u <= v * m'
    ensures (a - p - 2) * u < -v
  {
    MulLe(a * u, v * m', u);
    LowerMultiplier(v, m, m', d, u);
    HigherUnit(v, m, d, r, u);
    CancelLe(a * u, r * d + d - v, u) by { assert (r * d + d - v) * u == (r * d + d) * u - v * u; }
  }

  lemma LowerMultiplier(v: int, m: int, m': int, d: int, u: int)
    requires v < 0 && m * d < m' * u + u
    ensures v * m' * u <= v * m * d - v * u
  {
    MulLe(m * d - u, m' * u, -v);
    assert (m * d - u) * -v == v * u - v * m * d && m' * u * -v == -(v * m' * u);
  }

  lemma HigherUnit(v: int, m: int, d: int, r: int, u: int)
    requires 0 < d && v * m < r * u + u
    ensures v * m * d <= (r * d + d) * u
  {
    MulLe(v * m, r * u + u, d);
    assert (r * u + u) * d == (r * d + d) * u;
  }

  // ----- Units after a NAV issue -----

  /** The unit that a set reads of a total. */
  function ReadUnit(total: int, supply: int, m: int): int
    requires supply != 0 && m != 0
  {
    PreciseMul(PreciseDiv(PreciseDiv(total, supply), m), m)
  }

  /** What a restatement reads back: the total per token, stored by dividing and read by multiplying. */
  lemma RestatedUnit(l: Ledger, reserve: Component, supply: int, total: int, l': Ledger)
    requires WellFormed(l) && 0 < supply && 0 <= total
    ensures Restate(l, reserve, supply, total) == Some(l') ==>
              && WellFormed(l') && l'.supply == supply
              && Real(l', reserve) == ReadUnit(total, supply, l'.multiplier)
  {
    if Restate(l, reserve, supply, total) == Some(l') {
      RestateEffect(l, reserve, supply, total);
      StoredAndRead(PreciseDiv(total, supply), l'.multiplier);
    }
  }

  lemma StoredAndRead(x: int, m: int)
    requires 0 <= x && 0 < m
    ensures ConservativePreciseDiv(x, m) == PreciseDiv(x, m)
    ensures ConservativePreciseMul(PreciseDiv(x, m), m) == PreciseMul(PreciseDiv(x, m), m)
  {
  }

  /** What `getExpectedIssuePositionUnit` predicts of an issue, given the supply and multiplier after it. */
  function PredictedIssueUnit(l: Ledger, a: Action, l': Ledger): int
    requires a.NavIssue? && l'.supply != 0 && l'.multiplier != 0
  {
    IssuePositionUnit(Real(l, a.reserve), a.quantity, l.supply, l'.supply, l'.multiplier,
                      a.terms.managerFee, a.terms.protocolFee)
  }

  /** For every issue that goes through, helper and set read the same unit exactly when the two orders of
      normalising the total per token agree; otherwise they are within the stated bounds. */
  lemma IssueUnitExactIff(l: Ledger, a: Action, l': Ledger)
    requires WellFormed(l) && ActionValid(a) && a.NavIssue?
    ensures Next(l, a) == Some(l') ==>
              && WellFormed(l') && 0 < l'.supply
              && var x, m := PreciseDiv(Tracked(l, a.reserve) + NavFlow(a), l'.supply), l'.multiplier;
                 var gap := PredictedIssueUnit(l, a, l') - Real(l', a.reserve);
                 && (gap == 0 <==> NormalisesAlike(x, m))
                 && (gap - 1) * PRECISE_UNIT < m && (-gap - 1) * m < PRECISE_UNIT
  {
    if Next(l, a) == Some(l') {
      RestatedIssue(l, a, l');
      PredictionNormalises(l, a, l');
    }
  }

  lemma PredictionNormalises(l: Ledger, a: Action, l': Ledger)
    requires ReadsIssued(l, a, l')
    ensures var gap := PredictedIssueUnit(l, a, l') - Real(l', a.reserve);
            && (gap == 0 <==> NormalisesAlike(PreciseDiv(Tracked(l, a.reserve) + NavFlow(a), l'.supply), l'.multiplier))
            && (gap - 1) * PRECISE_UNIT < l'.multiplier && (-gap - 1) * l'.multiplier < PRECISE_UNIT
  {
    NormalisedBothWays(PreciseDiv(Tracked(l, a.reserve) + NavFlow(a), l'.supply), l'.multiplier);
  }

  /** The unit that the set reads after an issue that goes through. */
  ghost predicate ReadsIssued(l: Ledger, a: Action, l': Ledger)
  {
    && WellFormed(l) && ActionValid(a) && a.NavIssue? && 0 < l'.supply && 0 < l'.multiplier
    && var total := Tracked(l, a.reserve) + NavFlow(a);
       0 <= total && Real(l', a.reserve) == ReadUnit(total, l'.supply, l'.multiplier)
  }

  lemma RestatedIssue(l: Ledger, a: Action, l': Ledger)
    requires WellFormed(l) && ActionValid(a) && a.NavIssue?
    ensures Next(l, a) == Some(l') ==> WellFormed(l') && ReadsIssued(l, a, l')
  {
    if Next(l, a) == Some(l') {
      NavIssueMoves(l, a);
      var total := Tracked(l, a.reserve) + NavFlow(a);
      RestatedUnit(Transfer(l, a.reserve, NavFlow(a)), a.reserve, NavSupply(l, a), total, l');
    }
  }

  lemma NormalisedBothWays(x: int, m: int)
    requires 0 <= x && 0 < m
    ensures var gap := Normalize(x, m) - PreciseMul(PreciseDiv(x, m), m);
            && (gap == 0 <==> NormalisesAlike(x, m))
            && (gap - 1) * PRECISE_UNIT < m && (-gap - 1) * m < PRECISE_UNIT
  {
    NormalisationsAgreeIff(x, m);
    MulThenDivLoses(x, m);
    DivThenMulLoses(x, m);
    var h, c := Normalize(x, m), PreciseMul(PreciseDiv(x, m), m);
    MulLe(h - c - 1, x - c - 1, PRECISE_UNIT);
    MulLe(c - h - 1, x - h - 1, m);
  }

  /** A set of one position, which is not the reserve. */
  ghost predicate OnePosition(l: Ledger, supply: int, multiplier: int)
  {
    && l.supply == supply && l.multiplier == multiplier
    && l.virtualUnits == map["d" := PRECISE_UNIT] && l.externals == map[]
  }

  lemma NoReserveYet(l: Ledger, supply: int, multiplier: int)
    requires OnePosition(l, supply, multiplier) && 0 < supply && 0 < multiplier
    ensures WellFormed(l) && Real(l, "r") == 0 && Tracked(l, "r") == 0
    ensures UnitAt(l, Default("d")) == PRECISE_UNIT && forall p :: 0 < UnitAt(l, p) ==> UnitAt(l, p) == PRECISE_UNIT
  {
    assert Virtual(l, "r") == 0;
  }

  /** An issue after which the helper predicts no unit and the set reads one: a wei of a new reserve at
      multiplier one half, too little to mint anything. */
  lemma IssueUnitDiffers(l: Ledger) returns (a: Action, l': Ledger)
    requires OnePosition(l, PRECISE_UNIT, PRECISE_UNIT / 2)
    ensures WellFormed(l) && ActionValid(a) && a.NavIssue? && Next(l, a) == Some(l')
    ensures 0 < l'.supply && 0 < l'.multiplier && PredictedIssueUnit(l, a, l') == 0 && Real(l', a.reserve) == 1
  {
    a := OneWeiDeposit();
    NoReserveYet(l, PRECISE_UNIT, PRECISE_UNIT / 2);
    IssueWithoutMint(l, a);
    l' := OneWeiRestated(Transfer(l, "r", 1));
    HalfOfOneWei();
  }

  lemma OneWeiDeposit() returns (a: Action)
    ensures a.NavIssue? && ActionValid(a) && a.reserve == "r" && 0 < a.quantity && a.minReceive <= 0
    ensures a.terms.minSupply == 1 && NavFlow(a) == 1
    ensures CanPrice(PRECISE_UNIT, a.valuation, a.terms.baseUnits, 1, a.terms.premium)
    ensures SetTokenIssueQuantity(PRECISE_UNIT, a.valuation, a.terms.baseUnits, 1, a.terms.premium) == 0
  {
    a := NavIssue("r", 1, 0, 2 * PRECISE_UNIT, Terms(PRECISE_UNIT, 0, 0, 0, 1));
    OneWeiMintsNothing();
  }

  lemma OneWeiMintsNothing()
    ensures PostFeeQuantity(1, 0, 0) == 1 && CanPrice(PRECISE_UNIT, 2 * PRECISE_UNIT, PRECISE_UNIT, 1, 0)
    ensures SetTokenIssueQuantity(PRECISE_UNIT, 2 * PRECISE_UNIT, PRECISE_UNIT, 1, 0) == 0
  {
    assert PostPremiumQuantity(1, 0) == 1 && PreciseDiv(1, PRECISE_UNIT) == 1;
    assert IssueDenominator(PRECISE_UNIT, 2 * PRECISE_UNIT, 1, 1) == 2 * PRECISE_UNIT;
    assert PreciseMul(1, PRECISE_UNIT) == 1 && PreciseDiv(1, 2 * PRECISE_UNIT) == 0;
  }

  lemma IssueWithoutMint(l: Ledger, a: Action)
    requires WellFormed(l) && ActionValid(a) && a.NavIssue? && 0 < a.quantity && a.minReceive <= 0
    requires 0 < a.terms.minSupply <= l.supply && 0 <= NavFlow(a)
    requires CanPrice(l.supply, a.valuation, a.terms.baseUnits, NavFlow(a), a.terms.premium)
    requires SetTokenIssueQuantity(l.supply, a.valuation, a.terms.baseUnits, NavFlow(a), a.terms.premium) == 0
    ensures AfterNavIssue(l, a)
            == Restate(Transfer(l, a.reserve, NavFlow(a)), a.reserve, l.supply, Tracked(l, a.reserve) + NavFlow(a))
  {
  }

  lemma OneWeiRestated(l: Ledger) returns (l': Ledger)
    requires OnePosition(l, PRECISE_UNIT, PRECISE_UNIT / 2)
    ensures Restate(l, "r", PRECISE_UNIT, 1) == Some(l') && Real(l', "r") == 1
    ensures l'.supply == PRECISE_UNIT && l'.multiplier == PRECISE_UNIT / 2
  {
    assert ContractMultiplier(PRECISE_UNIT / 2, PRECISE_UNIT, PRECISE_UNIT) == PRECISE_UNIT / 2;
    assert ConservativePreciseMul(PRECISE_UNIT, PRECISE_UNIT / 2) == PRECISE_UNIT / 2;
    NoReserveYet(l, PRECISE_UNIT, PRECISE_UNIT / 2);
    assert PreciseDiv(1, PRECISE_UNIT) == 1 && Stored(1, PRECISE_UNIT / 2) == Some(2);
    l' := RestateStores(l, "r", PRECISE_UNIT, 1, PRECISE_UNIT / 2, 2);
  }

  lemma RestateStores(l: Ledger, reserve: Component, supply: int, total: int, m: int, v: int) returns (l': Ledger)
    requires 0 < supply && 0 < m && ContractMultiplier(l.multiplier, l.supply, supply) == m && MultiplierAccepted(l, m)
    requires Stored(PreciseDiv(total, supply), m) == Some(v)
    ensures Restate(l, reserve, supply, total) == Some(l') && l'.supply == supply && l'.multiplier == m
    ensures Real(l', reserve) == ConservativePreciseMul(v, m)
  {
    l' := l.(multiplier := m, virtualUnits := l.virtualUnits[reserve := v], supply := supply);
  }

  lemma HalfOfOneWei()
    ensures PreciseDiv(1, PRECISE_UNIT) == 1 && Normalize(1, PRECISE_UNIT / 2) == 0
  {
    assert PreciseMul(1, PRECISE_UNIT / 2) == 0;
  }

  // ----- Units after a NAV redemption -----

  /** What `getExpectedRedeemPositionUnit` predicts of a redemption. */
  function PredictedRedeemUnit(l: Ledger, a: Action, l': Ledger): int
    requires a.NavRedeem? && l'.supply != 0 && l'.multiplier != 0
  {
    RedeemPositionUnit(Real(l, a.reserve), a.quantity, a.valuation, a.terms.baseUnits, l.supply, l'.supply,
                       l'.multiplier, a.terms.premium)
  }

  /** What the helper deducts, unlike `RedeemOutflow`. */
  function HelperDeducts(a: Action): int
    requires a.NavRedeem?
  {
    ReserveDeducted(a.quantity, a.valuation, a.terms.baseUnits, a.terms.premium)
  }

  /** How far the helper's last dividend is from the unit the set reads, weighted by supply and scale: the
      difference of the deductions, and every remainder on the way with the factors that still scale it. */
  function UnitDrift(total: int, outflow: int, deducted: int, supply: int, m: int): int
    requires supply != 0 && m != 0
  {
    var u, left, left' := PRECISE_UNIT, total - outflow, total - deducted;
    var x, x' := PreciseDiv(left, supply), PreciseDiv(left', supply);
    (outflow - deducted) * u * u * m + (left * u % supply - left' * u % supply) * u * m
      - x' * m % u * u * supply + (x * u % m + PreciseDiv(x, m) * m % u) * m * supply
  }

  /** If the position covers what the helper deducts, the drift is a proper remainder. Otherwise nothing is
      left in the position, and the helper's one wei too many is lost in normalising. */
  predicate RedeemUnitsAgree(total: int, outflow: int, deducted: int, supply: int, m: int)
    requires 0 < supply && 0 < m
  {
    if deducted <= total then 0 <= UnitDrift(total, outflow, deducted, supply, m) < m * PRECISE_UNIT * supply
    else PreciseMul(PRECISE_UNIT / supply, m) * PRECISE_UNIT < m
  }

  /** For every redemption that goes through, that is exactly when helper and set read the same unit. */
  lemma RedeemUnitExactIff(l: Ledger, a: Action, l': Ledger)
    requires WellFormed(l) && ActionValid(a) && a.NavRedeem?
    ensures Next(l, a) == Some(l') ==>
              && WellFormed(l') && 0 < l'.supply
              && (PredictedRedeemUnit(l, a, l') == Real(l', a.reserve)
                  <==> RedeemUnitsAgree(Tracked(l, a.reserve), RedeemOutflow(a.quantity, a.valuation, a.terms),
                                        HelperDeducts(a), l'.supply, l'.multiplier))
  {
    if Next(l, a) == Some(l') {
      RestatedRedeem(l, a, l');
      PredictionDecides(l, a, l');
    }
  }

  lemma PredictionDecides(l: Ledger, a: Action, l': Ledger)
    requires ReadsRedeemed(l, a, l')
    ensures PredictedRedeemUnit(l, a, l') == Real(l', a.reserve)
            <==> RedeemUnitsAgree(Tracked(l, a.reserve), RedeemOutflow(a.quantity, a.valuation, a.terms),
                                  HelperDeducts(a), l'.supply, l'.multiplier)
  {
    RedeemHelperIsClose(a.quantity, a.valuation, a.terms);
    AgreementDecides(Tracked(l, a.reserve), RedeemOutflow(a.quantity, a.valuation, a.terms), HelperDeducts(a),
                     l'.supply, l'.multiplier);
  }

  lemma AgreementDecides(total: int, c: int, h: int, s: int, m: int)
    requires 0 <= c <= total && 0 <= h <= c + 1 && 0 < s && 0 < m
    ensures Normalize(PreciseDiv(total - h, s), m) == ReadUnit(total - c, s, m) <==> RedeemUnitsAgree(total, c, h, s, m)
  {
    if h <= total { DriftDecides(total, c, h, s, m); } else { Overdrawn(total, c, h, s, m); }
  }

  /** When both deduct the same, which `RedeemHelperExactIff` decides, it is the condition of the issue. */
  lemma AgreesAsForIssue(total: int, outflow: int, supply: int, m: int)
    requires 0 <= outflow <= total && 0 < supply && 0 < m
    ensures RedeemUnitsAgree(total, outflow, outflow, supply, m)
            <==> NormalisesAlike(PreciseDiv(total - outflow, supply), m)
  {
    AgreementDecides(total, outflow, outflow, supply, m);
    NormalisedBothWays(PreciseDiv(total - outflow, supply), m);
  }

  /** Beyond what the deductions differ by per token, the prediction is high by less than two wei and the
      multiplier's whole part, and low by less than two wei and its inverse's. If it overdraws the
      position, the set reads zero and the prediction is at most one wei per token below. */
  predicate RedeemUnitsClose(predicted: int, actual: int, total: int, outflow: int, deducted: int, supply: int, m: int)
  {
    var moved := (outflow - deducted) * PRECISE_UNIT;
    if deducted <= total then
      && ((predicted - actual - 2) * supply - moved) * PRECISE_UNIT < m * supply
      && ((actual - predicted - 2) * supply + moved) * m < PRECISE_UNIT * supply
    else
      actual == 0 && -PRECISE_UNIT <= predicted * supply <= 0
  }

  lemma RedeemUnitIsClose(l: Ledger, a: Action, l': Ledger)
    requires WellFormed(l) && ActionValid(a) && a.NavRedeem?
    ensures Next(l, a) == Some(l') ==>
              && WellFormed(l') && 0 < l'.supply
              && RedeemUnitsClose(PredictedRedeemUnit(l, a, l'), Real(l', a.reserve), Tracked(l, a.reserve),
                                  RedeemOutflow(a.quantity, a.valuation, a.terms), HelperDeducts(a),
                                  l'.supply, l'.multiplier)
  {
    if Next(l, a) == Some(l') {
      RestatedRedeem(l, a, l');
      PredictionIsClose(l, a, l');
    }
  }

  lemma PredictionIsClose(l: Ledger, a: Action, l': Ledger)
    requires ReadsRedeemed(l, a, l')
    ensures RedeemUnitsClose(PredictedRedeemUnit(l, a, l'), Real(l', a.reserve), Tracked(l, a.reserve),
                             RedeemOutflow(a.quantity, a.valuation, a.terms), HelperDeducts(a),
                             l'.supply, l'.multiplier)
  {
    RedeemHelperIsClose(a.quantity, a.valuation, a.terms);
    UnitsClose(Tracked(l, a.reserve), RedeemOutflow(a.quantity, a.valuation, a.terms), HelperDeducts(a),
               l'.supply, l'.multiplier);
  }

  lemma UnitsClose(total: int, c: int, h: int, s: int, m: int)
    requires 0 <= c <= total && 0 <= h <= c + 1 && 0 < s && 0 < m
    ensures RedeemUnitsClose(Normalize(PreciseDiv(total - h, s), m), ReadUnit(total - c, s, m), total, c, h, s, m)
  {
    if h <= total { DriftBounds(total, c, h, s, m); } else { Overdrawn(total, c, h, s, m); }
  }

  /** What a redemption that goes through has checked, and the unit that the set then reads. */
  ghost predicate ReadsRedeemed(l: Ledger, a: Action, l': Ledger)
  {
    && WellFormed(l) && ActionValid(a) && a.NavRedeem? && 0 < l'.supply && 0 < l'.multiplier
    && var total, outflow := Tracked(l, a.reserve), RedeemOutflow(a.quantity, a.valuation, a.terms);
       outflow <= total && Real(l', a.reserve) == ReadUnit(total - outflow, l'.supply, l'.multiplier)
  }

  lemma RestatedRedeem(l: Ledger, a: Action, l': Ledger)
    requires WellFormed(l) && ActionValid(a) && a.NavRedeem?
    ensures Next(l, a) == Some(l') ==> WellFormed(l') && ReadsRedeemed(l, a, l')
  {
    if Next(l, a) == Some(l') {
      var outflow := RedeemOutflow(a.quantity, a.valuation, a.terms);
      NavRedeemMoves(l, a);
      RestatedUnit(Transfer(l, a.reserve, -outflow), a.reserve, NavSupply(l, a), Tracked(l, a.reserve) - outflow, l');
    }
  }

  /** A redemption after which the helper predicts a negative unit: it deducts a wei where the contract,
      rounding the other way, takes nothing from a reserve that has no position. */
  lemma RedeemUnitDiffers(l: Ledger) returns (a: Action, l': Ledger)
    requires OnePosition(l, 2 * PRECISE_UNIT, PRECISE_UNIT) && Balance(l, "r") == 0
    ensures WellFormed(l) && ActionValid(a) && a.NavRedeem? && Next(l, a) == Some(l')
    ensures 0 < l'.supply && 0 < l'.multiplier && PredictedRedeemUnit(l, a, l') == -1 && Real(l', a.reserve) == 0
  {
    a := DifferingRedemption("r");
    NoReserveYet(l, 2 * PRECISE_UNIT, PRECISE_UNIT);
    RedeemedWithoutFlow(l, a);
    l' := NothingRestated(Transfer(l, "r", 0));
    MinusOneWei();
  }

  lemma NothingRestated(l: Ledger) returns (l': Ledger)
    requires OnePosition(l, 2 * PRECISE_UNIT, PRECISE_UNIT)
    ensures Restate(l, "r", PRECISE_UNIT, 0) == Some(l') && Real(l', "r") == 0
    ensures l'.supply == PRECISE_UNIT && l'.multiplier == 2 * PRECISE_UNIT
  {
    assert ContractMultiplier(PRECISE_UNIT, 2 * PRECISE_UNIT, PRECISE_UNIT) == 2 * PRECISE_UNIT;
    assert ConservativePreciseMul(PRECISE_UNIT, 2 * PRECISE_UNIT) == 2 * PRECISE_UNIT;
    NoReserveYet(l, 2 * PRECISE_UNIT, PRECISE_UNIT);
    TruncDivOfZero(PRECISE_UNIT);
    assert PreciseDiv(0, PRECISE_UNIT) == 0 && Stored(0, 2 * PRECISE_UNIT) == Some(0);
    l' := RestateStores(l, "r", PRECISE_UNIT, 0, 2 * PRECISE_UNIT, 0);
  }

  lemma MinusOneWei()
    ensures PreciseDiv(-1, PRECISE_UNIT) == -1 && Normalize(-1, 2 * PRECISE_UNIT) == -1
  {
    assert PreciseMul(-1, 2 * PRECISE_UNIT) == -2;
  }

  lemma DriftDecides(total: int, c: int, h: int, s: int, m: int)
    requires 0 <= c <= total && 0 <= h <= total && 0 < s && 0 < m
    ensures Normalize(PreciseDiv(total - h, s), m) == ReadUnit(total - c, s, m)
            <==> 0 <= UnitDrift(total, c, h, s, m) < m * PRECISE_UNIT * s
  {
    var u, x, x' := PRECISE_UNIT, PreciseDiv(total - c, s), PreciseDiv(total - h, s);
    var v, y := PreciseDiv(x, m), PreciseMul(x', m);
    var unit := PreciseMul(v, m);
    Remainder((total - c) * u, s, x);
    Remainder((total - h) * u, s, x');
    Remainder(x * u, m, v);
    Remainder(v * m, u, unit);
    Remainder(x' * m, u, y);
    UnitDriftIff(total, c, h, s, m, x, v, unit, x', y, PreciseDiv(y, m), (total - c) * u % s, x * u % m, v * m % u,
                 (total - h) * u % s, x' * m % u, u);
  }

  lemma UnitDriftIff(total: int, c: int, h: int, s: int, m: int, x: int, v: int, unit: int, x': int, y: int, unit': int,
                     e1: int, e2: int, e3: int, f1: int, f2: int, u: int)
    requires 0 < s && 0 < m && 0 < u
    requires (total - c) * u == x * s + e1 && x * u == v * m + e2 && v * m == unit * u + e3
    requires (total - h) * u == x' * s + f1 && x' * m == y * u + f2 && unit' * m <= y * u < unit' * m + m
    ensures unit' == unit
            <==> 0 <= (c - h) * u * u * m + (e1 - f1) * u * m - f2 * u * s + (e2 + e3) * m * s < m * u * s
  {
    BracketUnique(y * u, m, unit', unit);
    UnitDriftIdentity(total, c, h, s, m, x, v, unit, x', y, e1, e2, e3, f1, f2, u);
    ScaledProper(y * u - unit * m, m, u * s) by { MulLt(0, u, s); }
    assert m * (u * s) == m * u * s;
  }

  lemma UnitDriftIdentity(total: int, c: int, h: int, s: int, m: int, x: int, v: int, unit: int, x': int, y: int,
                          e1: int, e2: int, e3: int, f1: int, f2: int, u: int)
    requires (total - c) * u == x * s + e1 && x * u == v * m + e2 && v * m == unit * u + e3
    requires (total - h) * u == x' * s + f1 && x' * m == y * u + f2
    ensures (c - h) * u * u * m + (e1 - f1) * u * m - f2 * u * s + (e2 + e3) * m * s == (y * u - unit * m) * (u * s)
  {
    HelperUnitDrift(total - h, s, m, x', y, f1, f2, u);
    ReadUnitDrift(total - c, s, m, x, v, unit, e1, e2, e3, u);
    CombineDrifts(total - h, total - c, y * u, unit * m, s, m, e1, e2 + e3, f1, f2, u);
    assert (total - h) - (total - c) == c - h;
  }

  lemma CombineDrifts(left': int, left: int, a: int, b: int, s: int, m: int, e1: int, e: int, f1: int, f2: int, u: int)
    requires a * u * s == left' * u * u * m - f1 * u * m - f2 * u * s
    requires b * u * s == left * u * u * m - e1 * u * m - e * m * s
    ensures (left' - left) * u * u * m + (e1 - f1) * u * m - f2 * u * s + e * m * s == (a - b) * (u * s)
  {
    Distribute(left', left, u, u, m);
    Distribute(e1, f1, u, m, 1);
    Distribute(a, b, u, s, 1);
  }

  lemma Distribute(a: int, b: int, x: int, y: int, z: int)
    ensures (a - b) * x * y * z == a * x * y * z - b * x * y * z
    ensures (a - b) * (x * y) * z == a * x * y * z - b * x * y * z
  {
    assert (a - b) * x == a * x - b * x;
    assert (a * x - b * x) * y == a * x * y - b * x * y;
    assert (a - b) * (x * y) == (a - b) * x * y;
  }

  lemma HelperUnitDrift(left: int, s: int, m: int, x: int, y: int, f1: int, f2: int, u: int)
    requires left * u == x * s + f1 && x * m == y * u + f2
    ensures y * u * u * s == left * u * u * m - f1 * u * m - f2 * u * s
  {
    calc {
      y * u * u * s;
      (x * m - f2) * (u * s);
      (x * s) * (m * u) - f2 * u * s;
      (left * u - f1) * (m * u) - f2 * u * s;
    }
  }

  lemma ReadUnitDrift(left: int, s: int, m: int, x: int, v: int, unit: int, e1: int, e2: int, e3: int, u: int)
    requires left * u == x * s + e1 && x * u == v * m + e2 && v * m == unit * u + e3
    ensures unit * m * u * s == left * u * u * m - e1 * u * m - (e2 + e3) * m * s
  {
    calc {
      unit * m * u * s;
      (unit * u) * (m * s);
      (x * u - e2 - e3) * (m * s);
      (x * s) * (u * m) - (e2 + e3) * m * s;
      (left * u - e1) * (u * m) - (e2 + e3) * m * s;
    }
  }

  lemma ScaledProper(r: int, d: int, w: int)
    requires 0 < w
    ensures 0 <= r < d <==> 0 <= r * w < d * w
  {
    if r < 0 { MulLt(r, 0, w); } else { MulLe(0, r, w); }
    if r < d { MulLt(r, d, w); } else { MulLe(d, r, w); }
  }

  lemma DriftBounds(total: int, c: int, h: int, s: int, m: int)
    requires 0 <= c <= total && 0 <= h <= total && 0 < s && 0 < m
    ensures var predicted, actual := Normalize(PreciseDiv(total - h, s), m), ReadUnit(total - c, s, m);
            && ((predicted - actual - 2) * s - (c - h) * PRECISE_UNIT) * PRECISE_UNIT < m * s
            && ((actual - predicted - 2) * s + (c - h) * PRECISE_UNIT) * m < PRECISE_UNIT * s
  {
    var x, x' := PreciseDiv(total - c, s), PreciseDiv(total - h, s);
    DivThenMulLoses(x, m);
    MulThenDivLoses(x', m);
    assert (c - h) * PRECISE_UNIT == (total - h) * PRECISE_UNIT - (total - c) * PRECISE_UNIT;
    OneWayBound(x', Normalize(x', m), x, ReadUnit(total - c, s, m), (c - h) * PRECISE_UNIT, s, m, PRECISE_UNIT);
    OneWayBound(x, ReadUnit(total - c, s, m), x', Normalize(x', m), -((c - h) * PRECISE_UNIT), s, PRECISE_UNIT, m);
  }

  lemma OneWayBound(x: int, a: int, y: int, b: int, moved: int, s: int, m: int, u: int)
    requires 0 < s && 0 < u && a <= x && x * s < y * s + s + moved && (y - b - 1) * u < m
    ensures ((a - b - 2) * s - moved) * u < m * s
  {
    MulLe(a, x, s);
    assert (a - b - 2) * s == a * s - y * s - s + (y - b - 1) * s;
    MulLt((a - b - 2) * s - moved, (y - b - 1) * s, u);
    MulLt((y - b - 1) * u, m, s);
    assert (y - b - 1) * s * u == (y - b - 1) * u * s;
  }

  /** A helper that deducts one wei more than there is. */
  lemma Overdrawn(total: int, c: int, h: int, s: int, m: int)
    requires 0 <= c <= total < h <= c + 1 && 0 < s && 0 < m
    ensures var predicted := Normalize(PreciseDiv(total - h, s), m);
            && ReadUnit(total - c, s, m) == 0 && -PRECISE_UNIT <= predicted * s <= 0
            && (predicted == 0 <==> PreciseMul(PRECISE_UNIT / s, m) * PRECISE_UNIT < m)
  {
    NothingRead(s, m);
    NegatedHelper(s, m);
    var x := PRECISE_UNIT / s;
    FloorBounds(PRECISE_UNIT, s);
    MulThenDivLoses(x, m);
    MulLe(Normalize(x, m), x, s);
    assert -Normalize(x, m) * s == -(Normalize(x, m) * s);
    BracketGreatest(PreciseMul(x, m) * PRECISE_UNIT, m, Normalize(x, m), 1);
  }

  lemma NegatedHelper(s: int, m: int)
    requires 0 < s && 0 < m
    ensures Normalize(PreciseDiv(-1, s), m) == -Normalize(PRECISE_UNIT / s, m)
  {
    var x := PRECISE_UNIT / s;
    TruncDivIsOdd(PRECISE_UNIT, s);
    assert PreciseDiv(-1, s) == -x;
    assert -x * m == -(x * m);
    TruncDivIsOdd(x * m, PRECISE_UNIT);
    TruncDivIsOdd(PreciseMul(x, m) * PRECISE_UNIT, m);
    assert -PreciseMul(x, m) * PRECISE_UNIT == -(PreciseMul(x, m) * PRECISE_UNIT);
  }

  lemma NothingRead(s: int, m: int)
    requires 0 < s && 0 < m
    ensures ReadUnit(0, s, m) == 0
  {
    TruncDivOfZero(s);
    TruncDivOfZero(m);
  }
}
