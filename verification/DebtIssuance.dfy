/** contracts/protocol/modules/v1/DebtIssuanceModule.sol: issuing and redeeming a leveraged set, whose
    flows test/integration/aaveUniswapLeverageDebtIssuance.spec.ts predicts. Collateral comes in
    rounded up and goes out rounded down; debt goes out rounded down and is repaid rounded up. */
module DebtIssuance {
  import opened Options
  import opened Rounding
  import opened FixedPoint

  // ----- Units -----

  /** The real units of one component: its default position and its external positions. */
  datatype Position = Position(defaultUnit: int, externalUnits: seq<int>)

  /** Per component, the equity and the debt behind one token. */
  datatype Units = Units(equity: seq<int>, debt: seq<int>)

  predicate UnitsValid(u: Units)
  {
    && |u.equity| == |u.debt|
    && forall i :: 0 <= i < |u.equity| ==> 0 <= u.equity[i] && 0 <= u.debt[i]
  }

  /** The sum of the positive units. */
  function SumHeld(xs: seq<int>): (r: int)
    ensures 0 <= r
  {
    if |xs| == 0 then 0
    else SumHeld(xs[..|xs| - 1]) + (if 0 < xs[|xs| - 1] then xs[|xs| - 1] else 0)
  }

  /** The sum of the others, as a debt. */
  function SumOwed(xs: seq<int>): (r: int)
    ensures 0 <= r
  {
    if |xs| == 0 then 0
    else SumOwed(xs[..|xs| - 1]) + (if 0 < xs[|xs| - 1] then 0 else -xs[|xs| - 1])
  }

  /** Equity less debt is the component's total real unit. */
  lemma {:induction false} HeldLessOwed(xs: seq<int>)
    ensures SumHeld(xs) - SumOwed(xs) == Sum(xs)
    decreases |xs|
  {
    if |xs| > 0 { HeldLessOwed(xs[..|xs| - 1]); }
  }

  /** And together they are its magnitude, so that neither counts a unit of the other's. */
  lemma {:induction false} HeldPlusOwed(xs: seq<int>)
    ensures SumHeld(xs) + SumOwed(xs) == Sum(seq(|xs|, i requires 0 <= i < |xs| => Abs(xs[i])))
    decreases |xs|
  {
    if |xs| > 0 {
      var n := |xs| - 1;
      HeldPlusOwed(xs[..n]);
      var magnitudes := seq(|xs|, i requires 0 <= i < |xs| => Abs(xs[i]));
      assert magnitudes[..n] == seq(n, i requires 0 <= i < n => Abs(xs[..n][i]));
    }
  }

  /** `_getTotalIssuanceUnits`: positive external units add to equity, the others to debt. */
  method TotalIssuanceUnits(positions: seq<Position>) returns (units: Units)
    requires forall i :: 0 <= i < |positions| ==> 0 <= positions[i].defaultUnit
    ensures UnitsValid(units) && |units.equity| == |positions|
    ensures forall i :: 0 <= i < |positions| ==>
              && units.equity[i] == positions[i].defaultUnit + SumHeld(positions[i].externalUnits)
              && units.debt[i] == SumOwed(positions[i].externalUnits)
              && units.equity[i] - units.debt[i] == positions[i].defaultUnit + Sum(positions[i].externalUnits)
  {
    var equityUnits, debtUnits: seq<int> := [], [];
    for i := 0 to |positions|
      invariant |equityUnits| == |debtUnits| == i
      invariant forall k :: 0 <= k < i ==>
                  && equityUnits[k] == positions[k].defaultUnit + SumHeld(positions[k].externalUnits)
                  && debtUnits[k] == SumOwed(positions[k].externalUnits)
                  && equityUnits[k] - debtUnits[k] == positions[k].defaultUnit + Sum(positions[k].externalUnits)
    {
      var cumulativeEquity, cumulativeDebt := positions[i].defaultUnit, 0;
      var externals := positions[i].externalUnits;
      for j := 0 to |externals|
        invariant cumulativeEquity == positions[i].defaultUnit + SumHeld(externals[..j])
        invariant cumulativeDebt == -SumOwed(externals[..j])
      {
        if externals[j] > 0 {
          cumulativeEquity := cumulativeEquity + externals[j];
        } else {
          cumulativeDebt := cumulativeDebt + externals[j];
        }
        assert externals[..j + 1][..j] == externals[..j];
      }
      assert externals[..|externals|] == externals;
      HeldLessOwed(externals);
      equityUnits, debtUnits := equityUnits + [cumulativeEquity], debtUnits + [-cumulativeDebt];
    }
    units := Units(equityUnits, debtUnits);
  }

  // ----- Fees -----

  datatype Settings = Settings(issueFee: int, redeemFee: int, protocolFeeSplit: int)

  predicate SettingsValid(s: Settings)
  {
    0 <= s.issueFee && 0 <= s.redeemFee && 0 <= s.protocolFeeSplit
  }

  datatype Fees = Fees(totalQuantity: int, managerFee: int, protocolFee: int)

  function TotalFee(s: Settings, quantity: int, isIssue: bool): int
  {
    PreciseMul(if isIssue then s.issueFee else s.redeemFee, quantity)
  }

  /** `calculateTotalFees`. Unsigned subtraction reverts below zero. */
  function CalculateTotalFees(s: Settings, quantity: int, isIssue: bool): Option<Fees>
  {
    var totalFee := TotalFee(s, quantity, isIssue);
    var protocolFee := PreciseMul(totalFee, s.protocolFeeSplit);
    if totalFee < protocolFee || (!isIssue && quantity < totalFee) then None
    else Some(Fees(if isIssue then quantity + totalFee else quantity - totalFee, totalFee - protocolFee, protocolFee))
  }

  /** `_resolveFees`: the protocol's part is minted only if the manager gets one. */
  function FeesMinted(fees: Fees): int
  {
    if 0 < fees.managerFee then fees.managerFee + fees.protocolFee else 0
  }

  // ----- State -----

  /** What a set holds and owes, per component. Net debt may be negative: repayment rounds up. */
  datatype Book = Book(supply: int, collateral: seq<int>, debt: seq<int>)

  predicate Matches(b: Book, u: Units)
  {
    UnitsValid(u) && 0 <= b.supply && |b.collateral| == |b.debt| == |u.equity|
  }

  /** Every token is fully collateralised. */
  predicate Collateralised(b: Book, u: Units)
    requires Matches(b, u)
  {
    forall i :: 0 <= i < |u.equity| ==> u.equity[i] * b.supply <= b.collateral[i] * PRECISE_UNIT
  }

  /** No component owes more than its tokens carry. */
  predicate DebtWithin(b: Book, u: Units)
    requires Matches(b, u)
  {
    forall i :: 0 <= i < |u.debt| ==> b.debt[i] * PRECISE_UNIT <= u.debt[i] * b.supply
  }

  datatype Operation = Issue(quantity: int) | Redeem(quantity: int)

  /** What a component's collateral changes by: rounded up coming in, down going out. */
  function CollateralChange(isIssue: bool, unit: int, moved: int): (r: int)
    ensures 0 <= unit && 0 <= moved ==>
              if isIssue then IsCeiling(r, unit * moved, PRECISE_UNIT) else IsFloor(-r, unit * moved, PRECISE_UNIT)
  {
    if isIssue then PreciseMulCeil(unit, moved) else -PreciseMul(unit, moved)
  }

  /** What a component's debt changes by: rounded down going out, up being repaid. */
  function DebtChange(isIssue: bool, unit: int, moved: int): (r: int)
    ensures 0 <= unit && 0 <= moved ==>
              if isIssue then IsFloor(r, unit * moved, PRECISE_UNIT) else IsCeiling(-r, unit * moved, PRECISE_UNIT)
  {
    if isIssue then PreciseMul(unit, moved) else -PreciseMulCeil(unit, moved)
  }

  /** The book after an issue or a redemption of `moved` tokens' worth of components that changes the
      supply by `delta`. */
  function Flow(b: Book, u: Units, isIssue: bool, moved: int, delta: int): Book
    requires Matches(b, u)
  {
    Book(b.supply + delta,
         seq(|b.collateral|, i requires 0 <= i < |b.collateral| =>
               b.collateral[i] + CollateralChange(isIssue, u.equity[i], moved)),
         seq(|b.debt|, i requires 0 <= i < |b.debt| => b.debt[i] + DebtChange(isIssue, u.debt[i], moved)))
  }

  /** The set holds what a redemption moves of every component; nothing to move is skipped. */
  predicate Pays(b: Book, u: Units, moved: int)
    requires Matches(b, u)
  {
    forall i :: 0 <= i < |u.equity| ==>
                  PreciseMul(u.equity[i], moved) <= 0 || PreciseMul(u.equity[i], moved) <= b.collateral[i]
  }

  /** One call. A zero quantity, a fee that underflows, a burn beyond the supply or collateral that is
      not there reverts. */
  function Step(b: Book, u: Units, s: Settings, op: Operation): (r: Option<Book>)
    requires Matches(b, u) && SettingsValid(s)
    ensures r.Some? ==> Matches(r.value, u)
  {
    var isIssue := op.Issue?;
    var fees := CalculateTotalFees(s, op.quantity, isIssue);
    if op.quantity <= 0 || fees.None? || (!isIssue && b.supply < op.quantity)
       || (!isIssue && !Pays(b, u, fees.value.totalQuantity)) then None
    else
      var minted := FeesMinted(fees.value);
      Some(Flow(b, u, isIssue, fees.value.totalQuantity, minted + Signed(isIssue, op.quantity)))
  }

  /** An amount with the direction of the call. */
  function Signed(isIssue: bool, amount: int): int
  {
    if isIssue then amount else -amount
  }

  /** The module's calls on one set at fixed units. The external hooks move what they are told. */
  class Module {
    const units: Units
    const settings: Settings
    var supply: int
    var collateral: seq<int>
    var debt: seq<int>

    ghost predicate Valid()
      reads this
    {
      Matches(State(), units) && SettingsValid(settings)
    }

    ghost function State(): Book
      reads this
    {
      Book(supply, collateral, debt)
    }

    constructor (units: Units, settings: Settings)
      requires UnitsValid(units) && SettingsValid(settings)
      ensures Valid() && this.units == units && this.settings == settings
      ensures supply == 0 && Collateralised(State(), units) && DebtWithin(State(), units)
    {
      this.units, this.settings := units, settings;
      supply := 0;
      collateral, debt := seq(|units.equity|, i => 0), seq(|units.equity|, i => 0);
    }

    /** `_calculateRequiredComponentIssuanceUnits`. */
    method RequiredComponents(quantity: int, isIssue: bool) returns (equity: seq<int>, owed: seq<int>)
      requires Valid() && 0 <= quantity
      ensures |equity| == |owed| == |units.equity|
      ensures forall i :: 0 <= i < |equity| ==>
                && 0 <= equity[i] && 0 <= owed[i]
                && Signed(isIssue, equity[i]) == CollateralChange(isIssue, units.equity[i], quantity)
                && Signed(isIssue, owed[i]) == DebtChange(isIssue, units.debt[i], quantity)
    {
      equity, owed := [], [];
      for i := 0 to |units.equity|
        invariant |equity| == |owed| == i
        invariant forall k :: 0 <= k < i ==>
                    && 0 <= equity[k] && 0 <= owed[k]
                    && Signed(isIssue, equity[k]) == CollateralChange(isIssue, units.equity[k], quantity)
                    && Signed(isIssue, owed[k]) == DebtChange(isIssue, units.debt[k], quantity)
      {
        var e, d := units.equity[i], units.debt[i];
        equity := equity + [if isIssue then PreciseMulCeil(e, quantity) else PreciseMul(e, quantity)];
        owed := owed + [if isIssue then PreciseMul(d, quantity) else PreciseMulCeil(d, quantity)];
      }
    }

    /** `_resolveEquityPositions`: a component with nothing to move is skipped; one that the set cannot
        pay out stops the call. */
    method ResolveEquity(isIssue: bool, equity: seq<int>) returns (ok: bool)
      requires |equity| == |collateral| && forall i :: 0 <= i < |equity| ==> 0 <= equity[i]
      modifies this`collateral
      ensures ok == (isIssue || forall i :: 0 <= i < |equity| ==> equity[i] == 0 || equity[i] <= old(collateral)[i])
      ensures ok ==> |collateral| == |equity|
      ensures ok ==> forall i :: 0 <= i < |equity| ==> collateral[i] == old(collateral)[i] + Signed(isIssue, equity[i])
    {
      for i := 0 to |equity|
        invariant |collateral| == |equity|
        invariant isIssue || forall k :: 0 <= k < i ==> equity[k] == 0 || equity[k] <= old(collateral)[k]
        invariant forall k :: 0 <= k < i ==> collateral[k] == old(collateral)[k] + Signed(isIssue, equity[k])
        invariant forall k :: i <= k < |equity| ==> collateral[k] == old(collateral)[k]
      {
        if equity[i] > 0 {
          if !isIssue && collateral[i] < equity[i] {
            return false;
          }
          collateral := collateral[i := collateral[i] + Signed(isIssue, equity[i])];
        }
      }
      ok := true;
    }

    /** `_resolveDebtPositions`. */
    method ResolveDebt(isIssue: bool, owed: seq<int>)
      requires |owed| == |debt| && forall i :: 0 <= i < |owed| ==> 0 <= owed[i]
      modifies this`debt
      ensures |debt| == |owed|
      ensures forall i :: 0 <= i < |owed| ==> debt[i] == old(debt)[i] + Signed(isIssue, owed[i])
    {
      for i := 0 to |owed|
        invariant |debt| == |owed|
        invariant forall k :: 0 <= k < i ==> debt[k] == old(debt)[k] + Signed(isIssue, owed[k])
        invariant forall k :: i <= k < |owed| ==> debt[k] == old(debt)[k]
      {
        if owed[i] > 0 {
          debt := debt[i := debt[i] + Signed(isIssue, owed[i])];
        }
      }
    }

    /** Collateral comes in before debt goes out, and debt is repaid before collateral goes out. A call
        that stops leaves everything as it was. */
    method Resolve(isIssue: bool, quantity: int) returns (ok: bool)
      requires Valid() && 0 <= quantity
      modifies this`collateral, this`debt
      ensures ok == (isIssue || Pays(old(State()), units, quantity))
      ensures State() == if ok then Flow(old(State()), units, isIssue, quantity, 0) else old(State())
    {
      var savedCollateral, savedDebt := collateral, debt;
      var equity, owed := RequiredComponents(quantity, isIssue);
      if isIssue {
        ok := ResolveEquity(isIssue, equity);
        ResolveDebt(isIssue, owed);
      } else {
        ResolveDebt(isIssue, owed);
        ok := ResolveEquity(isIssue, equity);
      }
      if ok {
        assert collateral == Flow(old(State()), units, isIssue, quantity, 0).collateral;
        assert debt == Flow(old(State()), units, isIssue, quantity, 0).debt;
      } else {
        collateral, debt := savedCollateral, savedDebt;
      }
    }

    /** `issue` and `redeem`. */
    method Execute(op: Operation) returns (ok: bool)
      requires Valid()
      modifies this
      ensures Valid()
      ensures var r := Step(old(State()), units, settings, op);
              ok == r.Some? && State() == (if r.Some? then r.value else old(State()))
    {
      var isIssue := op.Issue?;
      var fees := CalculateTotalFees(settings, op.quantity, isIssue);
      ok := op.quantity > 0 && fees.Some? && (isIssue || op.quantity <= supply);
      if ok {
        ok := Resolve(isIssue, fees.value.totalQuantity);
        if ok {
          if fees.value.managerFee > 0 {
            supply := supply + fees.value.managerFee;
            if fees.value.protocolFee > 0 {
              supply := supply + fees.value.protocolFee;
            }
          }
          supply := if isIssue then supply + op.quantity else supply - op.quantity;
        }
      }
    }
  }

  // ----- Supply and fees -----

  /** The change of supply is the quantity that was collateralised, unless the protocol takes the whole
      of a non-zero fee: then no fee is minted. The exact condition. */
  lemma SupplyFollowsQuantityIff(s: Settings, quantity: int, isIssue: bool)
    requires SettingsValid(s) && 0 <= quantity && CalculateTotalFees(s, quantity, isIssue).Some?
    ensures var fees := CalculateTotalFees(s, quantity, isIssue).value;
            var totalFee := TotalFee(s, quantity, isIssue);
            && 0 <= FeesMinted(fees) <= totalFee
            && (FeesMinted(fees) == totalFee <==> s.protocolFeeSplit < PRECISE_UNIT || totalFee == 0)
  {
    FeeSplit(TotalFee(s, quantity, isIssue), s.protocolFeeSplit);
  }

  lemma FeeSplit(fee: int, split: int)
    requires 0 <= fee && 0 <= split
    ensures 0 <= PreciseMul(fee, split)
    ensures split < PRECISE_UNIT && 0 < fee ==> PreciseMul(fee, split) < fee
    ensures PRECISE_UNIT <= split ==> fee <= PreciseMul(fee, split)
  {
    if split < PRECISE_UNIT && 0 < fee { MulLt(split, PRECISE_UNIT, fee); }
    if PRECISE_UNIT <= split { MulLe(PRECISE_UNIT, split, fee); }
  }

  // ----- By numbers -----

  /** The fee of a call at its own rate, and the protocol's part of it. */
  predicate ChargesBy(s: Settings, op: Operation, fee: int, protocolFee: int)
  {
    && IsFloor(fee, (match op case Issue(q) => s.issueFee * q case Redeem(q) => s.redeemFee * q), PRECISE_UNIT)
    && IsFloor(protocolFee, fee * s.protocolFeeSplit, PRECISE_UNIT)
  }

  /** A call goes through exactly when it asks for something, the protocol's part does not exceed the fee
      and, for a redemption, neither the fee the quantity, nor the quantity the supply, nor what leaves
      of any component the collateral. */
  predicate Allowed(b: Book, u: Units, op: Operation, fee: int, protocolFee: int)
    requires Matches(b, u)
  {
    && 0 < op.quantity && protocolFee <= fee
    && (op.Redeem? ==>
          && fee <= op.quantity <= b.supply
          && forall i :: 0 <= i < |u.equity| ==>
                           var worth := u.equity[i] * (op.quantity - fee);
                           worth < PRECISE_UNIT || worth < (b.collateral[i] + 1) * PRECISE_UNIT)
  }

  /** An issue mints the quantity, and with it the fee unless all of it is the protocol's; of every
      component it collects what quantity and fee are worth, rounded up, and passes on their debt,
      rounded down. */
  predicate Issued(b: Book, u: Units, quantity: int, fee: int, protocolFee: int, b': Book)
    requires Matches(b, u) && Matches(b', u)
  {
    && b'.supply == b.supply + quantity + (if protocolFee < fee then fee else 0)
    && forall i :: 0 <= i < |u.equity| ==>
                     && IsCeiling(b'.collateral[i] - b.collateral[i], u.equity[i] * (quantity + fee), PRECISE_UNIT)
                     && IsFloor(b'.debt[i] - b.debt[i], u.debt[i] * (quantity + fee), PRECISE_UNIT)
  }

  /** A redemption burns the quantity and mints the fee likewise; of every component it pays out what the
      quantity less the fee is worth, rounded down, and has their debt repaid, rounded up. */
  predicate Redeemed(b: Book, u: Units, quantity: int, fee: int, protocolFee: int, b': Book)
    requires Matches(b, u) && Matches(b', u)
  {
    && b'.supply == b.supply - quantity + (if protocolFee < fee then fee else 0)
    && forall i :: 0 <= i < |u.equity| ==>
                     && IsFloor(b.collateral[i] - b'.collateral[i], u.equity[i] * (quantity - fee), PRECISE_UNIT)
                     && IsCeiling(b.debt[i] - b'.debt[i], u.debt[i] * (quantity - fee), PRECISE_UNIT)
  }

  lemma StepByNumbers(b: Book, u: Units, s: Settings, op: Operation) returns (fee: int, protocolFee: int)
    requires Matches(b, u) && SettingsValid(s)
    ensures 0 <= op.quantity ==> ChargesBy(s, op, fee, protocolFee)
    ensures 0 <= op.quantity && s.protocolFeeSplit < PRECISE_UNIT ==> 0 <= protocolFee < fee || fee == 0
    ensures Step(b, u, s, op).Some? <==> Allowed(b, u, op, fee, protocolFee)
    ensures Step(b, u, s, op).Some? ==>
              var b' := Step(b, u, s, op).value;
              if op.Issue? then Issued(b, u, op.quantity, fee, protocolFee, b')
              else Redeemed(b, u, op.quantity, fee, protocolFee, b')
  {
    fee := TotalFee(s, op.quantity, op.Issue?);
    protocolFee := PreciseMul(fee, s.protocolFeeSplit);
    if 0 <= op.quantity {
      FeesByNumbers(s, op);
      if op.Redeem? && fee <= op.quantity { PaysIff(b, u, op.quantity - fee); }
      if Step(b, u, s, op).Some? { OutcomeByNumbers(b, u, s, op, fee, protocolFee); }
    }
  }

  lemma FeesByNumbers(s: Settings, op: Operation)
    requires SettingsValid(s) && 0 <= op.quantity
    ensures var fee := TotalFee(s, op.quantity, op.Issue?);
            var protocolFee := PreciseMul(fee, s.protocolFeeSplit);
            && 0 <= fee && ChargesBy(s, op, fee, protocolFee)
            && (s.protocolFeeSplit < PRECISE_UNIT ==> 0 <= protocolFee < fee || fee == 0)
  {
    FeeSplit(TotalFee(s, op.quantity, op.Issue?), s.protocolFeeSplit);
  }

  lemma OutcomeByNumbers(b: Book, u: Units, s: Settings, op: Operation, fee: int, protocolFee: int)
    requires Matches(b, u) && SettingsValid(s) && Step(b, u, s, op).Some?
    requires 0 <= fee == TotalFee(s, op.quantity, op.Issue?) && protocolFee == PreciseMul(fee, s.protocolFeeSplit)
    ensures var b' := Step(b, u, s, op).value;
            if op.Issue? then Issued(b, u, op.quantity, fee, protocolFee, b')
            else Redeemed(b, u, op.quantity, fee, protocolFee, b')
  {
    StepIsFlow(b, u, s, op, fee, protocolFee);
    if op.Issue? {
      FlowIssues(b, u, op.quantity, fee, protocolFee);
    } else {
      FlowRedeems(b, u, op.quantity, fee, protocolFee);
    }
  }

  lemma StepIsFlow(b: Book, u: Units, s: Settings, op: Operation, fee: int, protocolFee: int)
    requires Matches(b, u) && SettingsValid(s) && Step(b, u, s, op).Some?
    requires 0 <= fee == TotalFee(s, op.quantity, op.Issue?) && protocolFee == PreciseMul(fee, s.protocolFeeSplit)
    ensures var minted := if protocolFee < fee then fee else 0;
            && (op.Redeem? ==> fee <= op.quantity)
            && Step(b, u, s, op).value
               == if op.Issue? then Flow(b, u, true, op.quantity + fee, minted + op.quantity)
                  else Flow(b, u, false, op.quantity - fee, minted - op.quantity)
  {
  }

  lemma FlowIssues(b: Book, u: Units, quantity: int, fee: int, protocolFee: int)
    requires Matches(b, u) && 0 <= quantity && 0 <= fee
    ensures var b' := Flow(b, u, true, quantity + fee, (if protocolFee < fee then fee else 0) + quantity);
            Matches(b', u) && Issued(b, u, quantity, fee, protocolFee, b')
  {
  }

  lemma FlowRedeems(b: Book, u: Units, quantity: int, fee: int, protocolFee: int)
    requires Matches(b, u) && 0 <= fee <= quantity
    ensures var b' := Flow(b, u, false, quantity - fee, (if protocolFee < fee then fee else 0) - quantity);
            Matches(b', u) ==> Redeemed(b, u, quantity, fee, protocolFee, b')
  {
  }

  lemma PaysIff(b: Book, u: Units, moved: int)
    requires Matches(b, u) && 0 <= moved
    ensures Pays(b, u, moved)
            <==> forall i :: 0 <= i < |u.equity| ==>
                               var worth := u.equity[i] * moved;
                               worth < PRECISE_UNIT || worth < (b.collateral[i] + 1) * PRECISE_UNIT
  {
    forall i | 0 <= i < |u.equity|
      ensures PreciseMul(u.equity[i], moved) <= 0 <==> u.equity[i] * moved < PRECISE_UNIT
      ensures PreciseMul(u.equity[i], moved) <= b.collateral[i]
              <==> u.equity[i] * moved < (b.collateral[i] + 1) * PRECISE_UNIT
    {
      MulLe(0, u.equity[i], moved);
      BracketGreatest(u.equity[i] * moved, PRECISE_UNIT, PreciseMul(u.equity[i], moved), 1);
      BracketGreatest(u.equity[i] * moved, PRECISE_UNIT, PreciseMul(u.equity[i], moved), b.collateral[i] + 1);
    }
  }

  // ----- One call -----

  /** A flow keeps every token collateralised if the supply grows by no more than what was brought in,
      or falls by no less than what was taken out. */
  lemma FlowKeepsCollateralised(b: Book, u: Units, isIssue: bool, moved: int, delta: int)
    requires Matches(b, u) && Collateralised(b, u) && 0 <= moved && 0 <= b.supply + delta
    requires delta <= Signed(isIssue, moved)
    ensures Collateralised(Flow(b, u, isIssue, moved, delta), u)
  {
    forall i | 0 <= i < |u.equity|
      ensures u.equity[i] * (b.supply + delta) <= Flow(b, u, isIssue, moved, delta).collateral[i] * PRECISE_UNIT
    {
      ChangeBounds(u.equity[i], b.supply, delta, Signed(isIssue, moved));
    }
  }

  /** And keeps debt within what the tokens carry if the supply moves the other way round. */
  lemma FlowKeepsDebtWithin(b: Book, u: Units, isIssue: bool, moved: int, delta: int)
    requires Matches(b, u) && DebtWithin(b, u) && 0 <= moved && 0 <= b.supply + delta
    requires Signed(isIssue, moved) <= delta
    ensures DebtWithin(Flow(b, u, isIssue, moved, delta), u)
  {
    forall i | 0 <= i < |u.debt|
      ensures Flow(b, u, isIssue, moved, delta).debt[i] * PRECISE_UNIT <= u.debt[i] * (b.supply + delta)
    {
      ChangeBounds(u.debt[i], b.supply, delta, Signed(isIssue, moved));
    }
  }

  lemma ChangeBounds(unit: int, supply: int, delta: int, moved: int)
    requires 0 <= unit
    ensures delta <= moved ==> unit * (supply + delta) <= unit * supply + unit * moved
    ensures moved <= delta ==> unit * supply + unit * moved <= unit * (supply + delta)
    ensures unit * -moved == -(unit * moved)
  {
  }

  /** Every call keeps every token collateralised, whatever the fees. */
  lemma StepKeepsCollateralised(b: Book, u: Units, s: Settings, op: Operation)
    requires Matches(b, u) && SettingsValid(s) && Collateralised(b, u)
    ensures var r := Step(b, u, s, op); r.Some? ==> Collateralised(r.value, u)
  {
    if Step(b, u, s, op).Some? {
      SupplyFollowsQuantityIff(s, op.quantity, op.Issue?);
      var fees := CalculateTotalFees(s, op.quantity, op.Issue?).value;
      var minted := FeesMinted(fees);
      FlowKeepsCollateralised(b, u, op.Issue?, fees.totalQuantity, minted + Signed(op.Issue?, op.quantity));
    }
  }

  /** A collateralised set honours every redemption of tokens that exist: the only reverts are a zero
      quantity, a missing balance and a fee that underflows. */
  lemma RedemptionIsCovered(b: Book, u: Units, s: Settings, quantity: int)
    requires Matches(b, u) && SettingsValid(s) && Collateralised(b, u)
    ensures Step(b, u, s, Redeem(quantity)).Some?
            <==> 0 < quantity <= b.supply && CalculateTotalFees(s, quantity, false).Some?
  {
    if 0 < quantity <= b.supply && CalculateTotalFees(s, quantity, false).Some? {
      var moved := CalculateTotalFees(s, quantity, false).value.totalQuantity;
      forall i | 0 <= i < |u.equity| ensures PreciseMul(u.equity[i], moved) <= b.collateral[i] {
        MulLe(moved, b.supply, u.equity[i]);
      }
    }
  }

  /** A call keeps debt within what the tokens carry, for every book and every units, exactly when the
      protocol does not take the whole of a non-zero fee. */
  lemma StepKeepsDebtWithinIff(s: Settings, op: Operation)
    requires SettingsValid(s) && 0 < op.quantity && CalculateTotalFees(s, op.quantity, op.Issue?).Some?
    ensures (forall b: Book, u: Units | Matches(b, u) && DebtWithin(b, u) && Step(b, u, s, op).Some? ::
               DebtWithin(Step(b, u, s, op).value, u))
            <==> s.protocolFeeSplit < PRECISE_UNIT || TotalFee(s, op.quantity, op.Issue?) == 0
  {
    SupplyFollowsQuantityIff(s, op.quantity, op.Issue?);
    var fees := CalculateTotalFees(s, op.quantity, op.Issue?).value;
    var minted, totalFee := FeesMinted(fees), TotalFee(s, op.quantity, op.Issue?);
    var delta := minted + Signed(op.Issue?, op.quantity);
    if s.protocolFeeSplit < PRECISE_UNIT || totalFee == 0 {
      forall b: Book, u: Units | Matches(b, u) && DebtWithin(b, u) && Step(b, u, s, op).Some?
        ensures DebtWithin(Step(b, u, s, op).value, u)
      {
        FlowKeepsDebtWithin(b, u, op.Issue?, fees.totalQuantity, delta);
      }
    } else {
      // One component that owes one token's worth per token, at a supply that just covers the call.
      var u := Units([0], [PRECISE_UNIT]);
      var b := if op.Issue? then Book(0, [0], [0]) else Book(op.quantity, [0], [op.quantity]);
      assert DebtWithin(b, u);
      var b' := Step(b, u, s, op).value;
      assert b'.debt[0] * PRECISE_UNIT > u.debt[0] * b'.supply;
    }
  }

  // ----- Whole runs -----

  /** The book after every call that did not revert. */
  function Run(b: Book, u: Units, s: Settings, ops: seq<Operation>): (b': Book)
    requires Matches(b, u) && SettingsValid(s)
    ensures Matches(b', u)
  {
    if |ops| == 0 then b
    else
      var before := Run(b, u, s, ops[..|ops| - 1]);
      var r := Step(before, u, s, ops[|ops| - 1]);
      if r.Some? then r.value else before
  }

  /** Over every run at fixed units, collateral covers the supply, and, while the manager keeps part of
      the fee, net debt stays within it. */
  lemma {:induction false} RunStaysSolvent(b: Book, u: Units, s: Settings, ops: seq<Operation>)
    requires Matches(b, u) && SettingsValid(s)
    ensures Collateralised(b, u) ==> Collateralised(Run(b, u, s, ops), u)
    ensures DebtWithin(b, u) && s.protocolFeeSplit < PRECISE_UNIT ==> DebtWithin(Run(b, u, s, ops), u)
    decreases |ops|
  {
    if |ops| > 0 {
      var before, op := Run(b, u, s, ops[..|ops| - 1]), ops[|ops| - 1];
      RunStaysSolvent(b, u, s, ops[..|ops| - 1]);
      if Collateralised(b, u) { StepKeepsCollateralised(before, u, s, op); }
      if DebtWithin(b, u) && s.protocolFeeSplit < PRECISE_UNIT && Step(before, u, s, op).Some? {
        StepKeepsDebtWithinIff(s, op);
      }
    }
  }
}
