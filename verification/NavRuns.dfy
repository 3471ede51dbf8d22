/** What the NAV helpers keep along whole runs: the position multiplier, and the backing of the
    reserve position under any interleaving of issues, redemptions and fee accruals. */
module NavRuns {
  import opened Options
  import opened Rounding
  import opened FixedPoint
  import opened NavIssuance
  import opened StreamingFee

  // ----- The position multiplier -----

  /** The multiplier scaled by the ratio of supplies, the ratio truncated first. */
  function ScaledMultiplier(multiplier: int, previousSupply: int, currentSupply: int): int
    requires currentSupply != 0
  {
    PreciseMul(multiplier, PreciseDiv(previousSupply, currentSupply))
  }

  /** Rounding inflation up and deflation down are the same rounding: both helpers scale by the
      truncated ratio of supplies. */
  lemma IssueMultiplierScales(multiplier: int, previousSupply: int, currentSupply: int)
    requires 0 <= previousSupply <= currentSupply && 0 < currentSupply
    ensures IssuePositionMultiplier(multiplier, previousSupply, currentSupply)
            == ScaledMultiplier(multiplier, previousSupply, currentSupply)
  {
    var inflation := PreciseDivCeil(currentSupply - previousSupply, currentSupply);
    var ratio := PreciseDiv(previousSupply, currentSupply);
    ComplementQuotient(ratio, inflation, previousSupply, currentSupply, PRECISE_UNIT);
  }

  lemma ComplementQuotient(ratio: int, inflation: int, prev: int, cur: int, u: int)
    requires 0 < cur
    requires inflation * cur - cur < (cur - prev) * u <= inflation * cur
    requires ratio * cur <= prev * u < ratio * cur + cur
    ensures ratio == u - inflation
  {
    assert (cur - prev) * u == cur * u - prev * u;
    assert (u - inflation) * cur == cur * u - inflation * cur;
    SameMultiple(ratio, u - inflation, cur);
  }

  lemma RedeemMultiplierScales(multiplier: int, previousSupply: int, currentSupply: int)
    requires 0 < currentSupply <= previousSupply
    ensures RedeemPositionMultiplier(multiplier, previousSupply, currentSupply)
            == ScaledMultiplier(multiplier, previousSupply, currentSupply)
  {
    var deflation := PreciseDiv(previousSupply - currentSupply, currentSupply);
    assert (PRECISE_UNIT + deflation) * currentSupply == currentSupply * PRECISE_UNIT + deflation * currentSupply;
    SameMultiple(PreciseDiv(previousSupply, currentSupply), PRECISE_UNIT + deflation, currentSupply);
  }

  /** One step: the product of multiplier and supply never rises, and falls by less than the stated
      margin. */
  lemma MultiplierStep(m: int, prev: int, cur: int)
    requires 0 <= m && 0 <= prev && 0 < cur
    ensures var m' := ScaledMultiplier(m, prev, cur);
            && 0 <= m' && m' * cur <= m * prev
            && m * PRECISE_UNIT * prev - cur * (m + PRECISE_UNIT) < m' * PRECISE_UNIT * cur
  {
    var k, m' := PreciseDiv(prev, cur), ScaledMultiplier(m, prev, cur);
    ComposeProportions(cur, m', prev, m, k, PRECISE_UNIT);
    StepMargin(m, prev, cur, k, m', PRECISE_UNIT);
  }

  lemma StepMargin(m: int, prev: int, cur: int, k: int, m': int, u: int)
    requires 0 <= m && 0 < cur
    requires prev * u <= k * cur + cur
    requires m * k < m' * u + u
    ensures m * u * prev - cur * (m + u) < m' * u * cur
  {
  }

  /** A run of the multiplier through a list of supplies, each step an issue or a redemption. */
  function MultiplierAfter(m: int, supplies: seq<int>): int
    requires 0 < |supplies| && forall i :: 0 <= i < |supplies| ==> 0 < supplies[i]
  {
    var n := |supplies|;
    if n == 1 then m
    else
      var before := MultiplierAfter(m, supplies[..n - 1]);
      if supplies[n - 2] <= supplies[n - 1]
      then IssuePositionMultiplier(before, supplies[n - 2], supplies[n - 1])
      else RedeemPositionMultiplier(before, supplies[n - 2], supplies[n - 1])
  }

  /** Multiplier times supply never rises along any run between positive supplies; a run that comes
      back to its first supply never raises the multiplier. */
  lemma {:induction false} MultiplierTimesSupplyNeverRises(m: int, supplies: seq<int>)
    requires 0 <= m
    requires 0 < |supplies| && forall i :: 0 <= i < |supplies| ==> 0 < supplies[i]
    ensures 0 <= MultiplierAfter(m, supplies)
    ensures MultiplierAfter(m, supplies) * supplies[|supplies| - 1] <= m * supplies[0]
    ensures supplies[|supplies| - 1] == supplies[0] ==> MultiplierAfter(m, supplies) <= m
    decreases |supplies|
  {
    var n := |supplies|;
    if n > 1 {
      var before := MultiplierAfter(m, supplies[..n - 1]);
      MultiplierTimesSupplyNeverRises(m, supplies[..n - 1]);
      if supplies[n - 2] <= supplies[n - 1] {
        IssueMultiplierScales(before, supplies[n - 2], supplies[n - 1]);
      } else {
        RedeemMultiplierScales(before, supplies[n - 2], supplies[n - 1]);
      }
      MultiplierStep(before, supplies[n - 2], supplies[n - 1]);
    }
    if supplies[n - 1] == supplies[0] { CancelLe(MultiplierAfter(m, supplies), m, supplies[0]); }
  }

  /** The helper never predicts more than the contract stores and is at most one wei short while the
      multiplier is at most one. It is exact if and only if what its two truncations drop, the second
      weighted by the new supply and the first by the multiplier, is less than one wei. */
  lemma HelperPredictsContract(m: int, prev: int, cur: int)
    requires 0 <= m && 0 <= prev && 0 < cur
    ensures var gap := ContractMultiplier(m, prev, cur) - ScaledMultiplier(m, prev, cur);
            0 <= gap && (gap - 1) * PRECISE_UNIT < m && (m <= PRECISE_UNIT ==> gap <= 1)
    ensures ContractMultiplier(m, prev, cur) == ScaledMultiplier(m, prev, cur)
            <==> (m * PreciseDiv(prev, cur) % PRECISE_UNIT) * cur + m * (prev * PRECISE_UNIT % cur) < PRECISE_UNIT * cur
  {
    var c, h, k := ContractMultiplier(m, prev, cur), ScaledMultiplier(m, prev, cur), PreciseDiv(prev, cur);
    MultiplierStep(m, prev, cur);
    BracketGreatest(m * prev, cur, c, h);
    assert prev * PRECISE_UNIT <= (k + 1) * cur by { assert (k + 1) * cur == k * cur + cur; }
    GapMargin(c, h, k, m, prev, cur, PRECISE_UNIT);
    Remainder(m * k, PRECISE_UNIT, h);
    Remainder(prev * PRECISE_UNIT, cur, k);
    ExactIff(c, h, k, m, prev, cur, PRECISE_UNIT);
  }

  lemma ExactIff(c: int, h: int, k: int, m: int, prev: int, cur: int, u: int)
    requires 0 < cur && 0 < u
    requires c * cur <= m * prev < c * cur + cur && h * cur <= m * prev
    ensures c == h <==> (m * k - h * u) * cur + m * (prev * u - k * cur) < u * cur
  {
    BracketUnique(m * prev, cur, c, h);
    assert (m * k - h * u) * cur + m * (prev * u - k * cur) == (m * prev - h * cur) * u;
    if m * prev - h * cur < cur { MulLt(m * prev - h * cur, cur, u); } else { MulLe(cur, m * prev - h * cur, u); }
  }

  lemma GapMargin(c: int, h: int, k: int, m: int, prev: int, cur: int, u: int)
    requires 0 <= m && 0 < cur && 0 < u
    requires c * cur <= m * prev
    requires prev * u <= (k + 1) * cur
    requires m * k < h * u + u
    ensures (c - h - 1) * u < m
  {
  }

  lemma HelperExactAtOne(prev: int, cur: int)
    requires 0 <= prev && 0 < cur
    ensures ContractMultiplier(PRECISE_UNIT, prev, cur) == ScaledMultiplier(PRECISE_UNIT, prev, cur)
  {
  }

  lemma HelperIsNotExact()
    ensures ScaledMultiplier(3, 1, 3) == 0 && ContractMultiplier(3, 1, 3) == 1
  {
  }

  // ----- The reserve position -----

  /** A set seen from its reserve asset. */
  datatype Reserve = Reserve(supply: int, unit: int, multiplier: int, balance: int)

  predicate WellFormed(s: Reserve)
  {
    0 < s.supply && 0 <= s.unit && 0 < s.multiplier
  }

  /** The units recorded never promise more than is held. */
  predicate Backed(s: Reserve)
  {
    PreciseMul(s.supply, s.unit) <= s.balance
  }

  datatype Operation =
    | Issue(quantity: int, minted: int, managerFee: int, protocolFee: int)
    | Redeem(quantity: int, valuation: int, baseUnits: int, premium: int)
    | Accrue(fee: int)

  predicate InRange(op: Operation)
  {
    match op
    case Issue(quantity, minted, managerFee, protocolFee) =>
      0 <= quantity && 0 <= minted && FeesInRange(managerFee, protocolFee)
    case Redeem(quantity, valuation, baseUnits, premium) =>
      0 <= quantity && 0 <= valuation && 0 <= baseUnits && Percentage(premium)
    case Accrue(fee) => 0 <= fee < PRECISE_UNIT
  }

  /** One operation. An issue adds the net deposit and a redemption removes what the position is
      reduced by; the operation is refused where the contracts revert: when the supply or the
      multiplier would not stay positive, or the position does not cover the redemption. */
  function Step(s: Reserve, op: Operation): (r: Option<Reserve>)
    requires WellFormed(s) && InRange(op)
    ensures r.Some? ==> WellFormed(r.value)
  {
    match op
    case Issue(quantity, minted, managerFee, protocolFee) =>
      var supply := s.supply + minted;
      var multiplier := IssuePositionMultiplier(s.multiplier, s.supply, supply);
      if multiplier <= 0 then None
      else
        var unit := IssuePositionUnit(s.unit, quantity, s.supply, supply, multiplier, managerFee, protocolFee);
        Some(Reserve(supply, unit, multiplier, s.balance + PostFeeQuantity(quantity, managerFee, protocolFee)))
    case Redeem(quantity, valuation, baseUnits, premium) =>
      var supply := s.supply - quantity;
      var deducted := ReserveDeducted(quantity, valuation, baseUnits, premium);
      if supply <= 0 || PreciseMul(s.supply, s.unit) < deducted then None
      else
        var multiplier := RedeemPositionMultiplier(s.multiplier, s.supply, supply);
        if multiplier <= 0 then None
        else
          var unit := RedeemPositionUnit(s.unit, quantity, valuation, baseUnits, s.supply, supply, multiplier, premium);
          Some(Reserve(supply, unit, multiplier, s.balance - deducted))
    case Accrue(fee) =>
      var multiplier := PreciseMul(s.multiplier, PRECISE_UNIT - fee);
      if multiplier <= 0 then None
      else Some(Reserve(InflatedSupply(fee, s.supply), PostFeeUnit(s.unit, fee), multiplier, s.balance))
  }

  // ----- One operation by numbers -----

  /** A total per token, normalised through the multiplier, each step rounded down. */
  ghost predicate Records(total: int, supply: int, multiplier: int, unit: int)
  {
    exists x, y ::
      && IsFloor(x, total * PRECISE_UNIT, supply) && IsFloor(y, x * multiplier, PRECISE_UNIT)
      && IsFloor(unit, y * PRECISE_UNIT, multiplier)
  }

  /** The multiplier times the ratio of supplies, the ratio rounded down first. */
  ghost predicate ScalesBy(multiplier: int, previousSupply: int, currentSupply: int, scaled: int)
  {
    exists ratio ::
      IsFloor(ratio, previousSupply * PRECISE_UNIT, currentSupply) && IsFloor(scaled, multiplier * ratio, PRECISE_UNIT)
  }

  /** What is left of a quantity after two fees, each rounded down. */
  ghost predicate LeftAfterFees(quantity: int, managerFee: int, protocolFee: int, net: int)
  {
    exists a, b ::
      && IsFloor(a, quantity * managerFee, PRECISE_UNIT) && IsFloor(b, quantity * protocolFee, PRECISE_UNIT)
      && net == quantity - a - b
  }

  /** The value redeemed, less the premium, in base units, each step rounded down. */
  ghost predicate Deducts(quantity: int, valuation: int, baseUnits: int, premium: int, deducted: int)
  {
    exists value, notional ::
      && IsFloor(value, valuation * quantity, PRECISE_UNIT)
      && IsFloor(notional, value * (PRECISE_UNIT - premium), PRECISE_UNIT)
      && IsFloor(deducted, notional * baseUnits, PRECISE_UNIT)
  }

  /** What an operation moves in or out of the balance, what the units said was held, and the state after
      it, by inequalities alone. */
  ghost predicate StepsBy(s: Reserve, op: Operation, moved: int, tracked: int, s': Reserve)
  {
    && IsFloor(tracked, s.supply * s.unit, PRECISE_UNIT)
    && match op
       case Issue(quantity, minted, managerFee, protocolFee) =>
         && LeftAfterFees(quantity, managerFee, protocolFee, moved)
         && s'.supply == s.supply + minted && s'.balance == s.balance + moved
         && ScalesBy(s.multiplier, s.supply, s'.supply, s'.multiplier)
         && (0 < s'.multiplier ==> Records(tracked + moved, s'.supply, s'.multiplier, s'.unit))
       case Redeem(quantity, valuation, baseUnits, premium) =>
         && Deducts(quantity, valuation, baseUnits, premium, moved)
         && s'.supply == s.supply - quantity && s'.balance == s.balance - moved
         && (0 < s'.supply ==> ScalesBy(s.multiplier, s.supply, s'.supply, s'.multiplier))
         && (0 < s'.supply && 0 < s'.multiplier && moved <= tracked ==>
               Records(tracked - moved, s'.supply, s'.multiplier, s'.unit))
       case Accrue(fee) =>
         && moved == 0 && s'.balance == s.balance
         && IsFloor(s'.supply, s.supply * PRECISE_UNIT, PRECISE_UNIT - fee)
         && IsFloor(s'.unit, s.unit * (PRECISE_UNIT - fee), PRECISE_UNIT)
         && IsFloor(s'.multiplier, s.multiplier * (PRECISE_UNIT - fee), PRECISE_UNIT)
  }

  /** An operation is refused exactly when supply or multiplier would not stay positive, or the position
      does not cover a redemption. */
  lemma StepByNumbers(s: Reserve, op: Operation) returns (moved: int, tracked: int, s': Reserve)
    requires WellFormed(s) && InRange(op)
    ensures StepsBy(s, op, moved, tracked, s')
    ensures Step(s, op)
            == if 0 < s'.supply && 0 < s'.multiplier && (op.Redeem? ==> moved <= tracked) then Some(s') else None
  {
    match op {
      case Issue(_, _, _, _) => moved, tracked, s' := IssueByNumbers(s, op);
      case Redeem(_, _, _, _) => moved, tracked, s' := RedeemByNumbers(s, op);
      case Accrue(_) => moved, tracked, s' := AccrueByNumbers(s, op);
    }
  }

  lemma IssueByNumbers(s: Reserve, op: Operation) returns (moved: int, tracked: int, s': Reserve)
    requires WellFormed(s) && InRange(op) && op.Issue?
    ensures StepsBy(s, op, moved, tracked, s') && 0 < s'.supply
    ensures Step(s, op) == if 0 < s'.multiplier then Some(s') else None
  {
    tracked, moved := PreciseMul(s.supply, s.unit), PostFeeQuantity(op.quantity, op.managerFee, op.protocolFee);
    LeftByNumbers(op.quantity, op.managerFee, op.protocolFee);
    var supply := s.supply + op.minted;
    var multiplier := IssuePositionMultiplier(s.multiplier, s.supply, supply);
    IssueMultiplierScales(s.multiplier, s.supply, supply);
    ScaledByNumbers(s.multiplier, s.supply, supply);
    var unit := 0;
    if 0 < multiplier {
      unit := IssuePositionUnit(s.unit, op.quantity, s.supply, supply, multiplier, op.managerFee, op.protocolFee);
      RecordedByNumbers(tracked + moved, supply, multiplier);
    }
    s' := Reserve(supply, unit, multiplier, s.balance + moved);
  }

  lemma RedeemByNumbers(s: Reserve, op: Operation) returns (moved: int, tracked: int, s': Reserve)
    requires WellFormed(s) && InRange(op) && op.Redeem?
    ensures StepsBy(s, op, moved, tracked, s')
    ensures Step(s, op) == if 0 < s'.supply && 0 < s'.multiplier && moved <= tracked then Some(s') else None
  {
    tracked := PreciseMul(s.supply, s.unit);
    moved := ReserveDeducted(op.quantity, op.valuation, op.baseUnits, op.premium);
    DeductedByNumbers(op.quantity, op.valuation, op.baseUnits, op.premium);
    var supply, multiplier, unit := s.supply - op.quantity, 0, 0;
    if 0 < supply {
      multiplier := RedeemPositionMultiplier(s.multiplier, s.supply, supply);
      RedeemMultiplierScales(s.multiplier, s.supply, supply);
      ScaledByNumbers(s.multiplier, s.supply, supply);
      if 0 < multiplier && moved <= tracked {
        unit := RedeemPositionUnit(s.unit, op.quantity, op.valuation, op.baseUnits, s.supply, supply, multiplier,
                                   op.premium);
        RecordedByNumbers(tracked - moved, supply, multiplier);
      }
    }
    s' := Reserve(supply, unit, multiplier, s.balance - moved);
  }

  lemma AccrueByNumbers(s: Reserve, op: Operation) returns (moved: int, tracked: int, s': Reserve)
    requires WellFormed(s) && InRange(op) && op.Accrue?
    ensures StepsBy(s, op, moved, tracked, s') && 0 < s'.supply
    ensures Step(s, op) == if 0 < s'.multiplier then Some(s') else None
  {
    tracked, moved := PreciseMul(s.supply, s.unit), 0;
    InflatedSupplyIsQuotient(op.fee, s.supply);
    PostFeeUnitIsFloor(s.unit, op.fee);
    s' := Reserve(InflatedSupply(op.fee, s.supply), PostFeeUnit(s.unit, op.fee),
                  PreciseMul(s.multiplier, PRECISE_UNIT - op.fee), s.balance);
  }

  lemma LeftByNumbers(quantity: int, managerFee: int, protocolFee: int)
    requires 0 <= quantity && FeesInRange(managerFee, protocolFee)
    ensures LeftAfterFees(quantity, managerFee, protocolFee, PostFeeQuantity(quantity, managerFee, protocolFee))
  {
    assert IsFloor(PreciseMul(quantity, managerFee), quantity * managerFee, PRECISE_UNIT);
    assert IsFloor(PreciseMul(quantity, protocolFee), quantity * protocolFee, PRECISE_UNIT);
  }

  lemma ScaledByNumbers(multiplier: int, previousSupply: int, currentSupply: int)
    requires 0 <= multiplier && 0 <= previousSupply && 0 < currentSupply
    ensures ScalesBy(multiplier, previousSupply, currentSupply,
                     ScaledMultiplier(multiplier, previousSupply, currentSupply))
  {
    assert IsFloor(PreciseDiv(previousSupply, currentSupply), previousSupply * PRECISE_UNIT, currentSupply);
  }

  lemma DeductedByNumbers(quantity: int, valuation: int, baseUnits: int, premium: int)
    requires 0 <= quantity && 0 <= valuation && 0 <= baseUnits && Percentage(premium)
    ensures Deducts(quantity, valuation, baseUnits, premium, ReserveDeducted(quantity, valuation, baseUnits, premium))
  {
    var value, notional := PreciseMul(valuation, quantity), RedeemNotional(quantity, valuation, premium);
    LessPremium(value, premium);
    assert IsFloor(value, valuation * quantity, PRECISE_UNIT);
    assert IsFloor(notional, value * (PRECISE_UNIT - premium), PRECISE_UNIT);
    assert IsFloor(PreciseMul(notional, baseUnits), notional * baseUnits, PRECISE_UNIT);
  }

  lemma RecordedByNumbers(total: int, supply: int, multiplier: int)
    requires 0 <= total && 0 < supply && 0 < multiplier
    ensures Records(total, supply, multiplier, Normalize(PreciseDiv(total, supply), multiplier))
  {
    var x := PreciseDiv(total, supply);
    var y := PreciseMul(x, multiplier);
    assert IsFloor(x, total * PRECISE_UNIT, supply) && IsFloor(y, x * multiplier, PRECISE_UNIT);
    assert IsFloor(PreciseDiv(y, multiplier), y * PRECISE_UNIT, multiplier);
  }

  /** Dividing a notional total by a supply, and normalising, never records more than the total; what
      the two truncations lose is bounded, for the issue and the redemption formula alike. */
  lemma RecordedWithinTotal(total: int, supply: int, multiplier: int)
    requires 0 <= total && 0 < supply && 0 < multiplier
    ensures var unit := Normalize(PreciseDiv(total, supply), multiplier);
            && 0 <= unit
            && PreciseMul(supply, unit) <= total
            && total * PRECISE_UNIT * multiplier < ((unit + 2) * multiplier + PRECISE_UNIT) * supply
  {
    var x := PreciseDiv(total, supply);
    var unit := Normalize(x, multiplier);
    MulThenDivLoses(x, multiplier);
    MulLe(unit, x, supply);
    assert (x - unit - 1) * multiplier + (unit + 2) * multiplier == (x + 1) * multiplier;
    LossMargin(total * PRECISE_UNIT, supply, x, (unit + 2) * multiplier + PRECISE_UNIT, multiplier);
  }

  lemma LossMargin(t: int, supply: int, x: int, bound: int, multiplier: int)
    requires 0 < supply && 0 < multiplier
    requires t < x * supply + supply
    requires (x + 1) * multiplier < bound
    ensures t * multiplier < bound * supply
  {
  }

  /** Both unit helpers record the old total and what crossed the boundary, and nothing else. */
  lemma IssueUnitRecordsDeposit(unit: int, quantity: int, previousSupply: int, currentSupply: int,
                                multiplier: int, managerFee: int, protocolFee: int)
    requires 0 <= unit && 0 <= quantity && 0 <= previousSupply && 0 < currentSupply && 0 < multiplier
    requires FeesInRange(managerFee, protocolFee)
    ensures var total := PreciseMul(previousSupply, unit) + PostFeeQuantity(quantity, managerFee, protocolFee);
            var unit' := IssuePositionUnit(unit, quantity, previousSupply, currentSupply, multiplier,
                                           managerFee, protocolFee);
            && 0 <= unit' && PreciseMul(currentSupply, unit') <= total
            && total * PRECISE_UNIT * multiplier < ((unit' + 2) * multiplier + PRECISE_UNIT) * currentSupply
  {
    var net := PostFeeQuantity(quantity, managerFee, protocolFee);
    RecordedWithinTotal(PreciseMul(previousSupply, unit) + net, currentSupply, multiplier);
  }

  lemma RedeemUnitRecordsDeduction(unit: int, quantity: int, valuation: int, baseUnits: int, previousSupply: int,
                                   currentSupply: int, multiplier: int, premium: int)
    requires 0 <= unit && 0 <= quantity && 0 <= valuation && 0 <= baseUnits && Percentage(premium)
    requires 0 <= previousSupply && 0 < currentSupply && 0 < multiplier
    requires ReserveDeducted(quantity, valuation, baseUnits, premium) <= PreciseMul(previousSupply, unit)
    ensures var total := PreciseMul(previousSupply, unit) - ReserveDeducted(quantity, valuation, baseUnits, premium);
            var unit' := RedeemPositionUnit(unit, quantity, valuation, baseUnits, previousSupply, currentSupply,
                                            multiplier, premium);
            && 0 <= unit' && PreciseMul(currentSupply, unit') <= total
            && total * PRECISE_UNIT * multiplier < ((unit' + 2) * multiplier + PRECISE_UNIT) * currentSupply
  {
    var deducted := ReserveDeducted(quantity, valuation, baseUnits, premium);
    RecordedWithinTotal(PreciseMul(previousSupply, unit) - deducted, currentSupply, multiplier);
  }

  lemma StepKeepsBacked(s: Reserve, op: Operation)
    requires WellFormed(s) && InRange(op) && Backed(s)
    ensures var r := Step(s, op); r.Some? ==> Backed(r.value)
  {
    var r := Step(s, op);
    if r.Some? {
      var s' := r.value;
      match op
      case Issue(quantity, minted, managerFee, protocolFee) =>
        var net := PostFeeQuantity(quantity, managerFee, protocolFee);
        RecordedWithinTotal(PreciseMul(s.supply, s.unit) + net, s'.supply, s'.multiplier);
      case Redeem(quantity, valuation, baseUnits, premium) =>
        var deducted := ReserveDeducted(quantity, valuation, baseUnits, premium);
        RecordedWithinTotal(PreciseMul(s.supply, s.unit) - deducted, s'.supply, s'.multiplier);
      case Accrue(fee) =>
        AccrualOnHeldUnit(fee, s.supply, s.unit);
        InflatedSupplyIsQuotient(fee, s.supply);
        PreciseMulBelow(s'.supply, s'.unit, s.supply, s.unit);
    }
  }

  lemma PreciseMulBelow(a: int, b: int, c: int, d: int)
    requires 0 <= a && 0 <= b && 0 <= c && 0 <= d && a * b <= c * d
    ensures PreciseMul(a, b) <= PreciseMul(c, d)
  {
  }

  /** The state after the operations that were not refused. */
  function Run(s: Reserve, ops: seq<Operation>): (s': Reserve)
    requires WellFormed(s) && forall i :: 0 <= i < |ops| ==> InRange(ops[i])
    ensures WellFormed(s')
  {
    if |ops| == 0 then s
    else
      var before := Run(s, ops[..|ops| - 1]);
      var r := Step(before, ops[|ops| - 1]);
      if r.Some? then r.value else before
  }

  /** Backing over whole runs: every interleaving of issues, redemptions and fee accruals keeps the
      recorded reserve within the balance. */
  lemma {:induction false} RunKeepsBacked(s: Reserve, ops: seq<Operation>)
    requires WellFormed(s) && Backed(s)
    requires forall i :: 0 <= i < |ops| ==> InRange(ops[i])
    ensures Backed(Run(s, ops))
    decreases |ops|
  {
    if |ops| > 0 {
      RunKeepsBacked(s, ops[..|ops| - 1]);
      StepKeepsBacked(Run(s, ops[..|ops| - 1]), ops[|ops| - 1]);
    }
  }
}
