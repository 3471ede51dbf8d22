/** Whether the units a SetToken records are backed by what it holds, over every run of its issuance
    and fee modules. */
module SetBacking {
  import opened Options
  import opened Rounding
  import opened FixedPoint
  import opened NavIssuance
  import opened StreamingFee
  import opened SetLedger

  const SQUARED_UNIT: int := PRECISE_UNIT * PRECISE_UNIT

  /** Even before any rounding, all tokens together claim at most the balance, but for a margin. */
  predicate Backed(l: Ledger, c: Component, margin: int)
  {
    l.supply * (Virtual(l, c) * l.multiplier) <= Balance(l, c) * SQUARED_UNIT + margin
  }

  /** The part of the exact unit that the real unit truncates. */
  function Truncated(l: Ledger, c: Component): int
  {
    (Virtual(l, c) * l.multiplier) % PRECISE_UNIT
  }

  /** A basic issue collects components for the truncated unit but mints claims on the exact one; the
      margin grows by the difference. No other action needs any. */
  function MarginOf(l: Ledger, a: Action, c: Component): int
  {
    if a.BasicIssue? then a.quantity * Truncated(l, c) else 0
  }

  // ----- What backing gives -----

  lemma TrackedWithinMargin(l: Ledger, c: Component, margin: int)
    requires WellFormed(l) && Backed(l, c, margin)
    ensures (Tracked(l, c) - Balance(l, c)) * SQUARED_UNIT <= margin
  {
  }

  lemma FullyBackedTracks(l: Ledger, c: Component)
    requires WellFormed(l) && Backed(l, c, 0)
    ensures Tracked(l, c) <= Balance(l, c)
  {
  }

  // ----- One action -----

  /** A position whose virtual unit and balance stay put stays backed while multiplier times supply
      does not rise. */
  lemma UntouchedStaysBacked(l: Ledger, l': Ledger, c: Component, margin: int)
    requires WellFormed(l) && Backed(l, c, margin)
    requires Virtual(l', c) == Virtual(l, c) && Balance(l', c) == Balance(l, c)
    requires l'.multiplier * l'.supply <= l.multiplier * l.supply
    ensures Backed(l', c, margin)
  {
  }

  /** A position restated from what was recorded and what crossed the boundary stays backed. */
  lemma RestatedStaysBacked(l: Ledger, l': Ledger, c: Component, flow: int, margin: int)
    requires WellFormed(l) && Backed(l, c, margin)
    requires Balance(l', c) == Balance(l, c) + flow
    requires l'.supply * (Virtual(l', c) * l'.multiplier) <= (Tracked(l, c) + flow) * PRECISE_UNIT * PRECISE_UNIT
    ensures Backed(l', c, margin)
  {
    TrackedWithinMargin(l, c, margin);
  }

  lemma NavKeepsBacked(l: Ledger, a: Action, c: Component, margin: int)
    requires WellFormed(l) && ActionValid(a) && (a.NavIssue? || a.NavRedeem?) && Backed(l, c, margin)
    ensures Next(l, a).Some? ==> Backed(Next(l, a).value, c, margin)
  {
    NavEffect(l, a);
    if Next(l, a).Some? {
      if c == a.reserve {
        RestatedStaysBacked(l, Next(l, a).value, c, NavFlow(a), margin);
      } else {
        UntouchedStaysBacked(l, Next(l, a).value, c, margin);
      }
    }
  }

  lemma IssueArithmetic(supply: int, exact: int, unit: int, balance: int, margin: int, quantity: int)
    requires 0 <= unit && 0 <= quantity
    requires unit * PRECISE_UNIT <= exact
    requires supply * exact <= balance * SQUARED_UNIT + margin
    ensures (supply + quantity) * exact
            <= (balance + PreciseMulCeil(unit, quantity)) * SQUARED_UNIT + margin
               + quantity * (exact - unit * PRECISE_UNIT)
  {
  }

  lemma RedeemArithmetic(supply: int, exact: int, unit: int, balance: int, margin: int, quantity: int)
    requires 0 <= unit && 0 <= quantity
    requires unit * PRECISE_UNIT <= exact
    requires supply * exact <= balance * SQUARED_UNIT + margin
    ensures (supply - quantity) * exact <= (balance - PreciseMul(quantity, unit)) * SQUARED_UNIT + margin
  {
  }

  lemma BasicKeepsBacked(l: Ledger, a: Action, c: Component, margin: int)
    requires WellFormed(l) && ActionValid(a) && (a.BasicIssue? || a.BasicRedeem?)
    requires AfterBasic(l, a).Some? && Backed(l, c, margin)
    ensures Backed(AfterBasic(l, a).value, c, margin + MarginOf(l, a, c))
  {
    BasicEffect(l, a, c);
    RealBounds(l, c);
    var exact, unit := Virtual(l, c) * l.multiplier, Real(l, c);
    if a.BasicIssue? {
      assert Truncated(l, c) == exact - unit * PRECISE_UNIT;
      IssueArithmetic(l.supply, exact, unit, Balance(l, c), margin, a.quantity);
    } else {
      RedeemArithmetic(l.supply, exact, unit, Balance(l, c), margin, a.quantity);
    }
  }

  /** Every action of every module keeps every component backed, within its margin. */
  lemma NextKeepsBacked(l: Ledger, a: Action, c: Component, margin: int)
    requires WellFormed(l) && ActionValid(a) && Backed(l, c, margin)
    ensures Next(l, a).Some? ==> Backed(Next(l, a).value, c, margin + MarginOf(l, a, c))
  {
    if a.NavIssue? || a.NavRedeem? {
      NavKeepsBacked(l, a, c, margin);
    } else if Next(l, a).Some? {
      if a.AccrueFee? {
        AccrueEffect(l, a.fee);
        UntouchedStaysBacked(l, Next(l, a).value, c, margin);
      } else if a.EditExternal? {
        ExternalEffect(l, a.component, a.owner, a.unit);
      } else {
        BasicKeepsBacked(l, a, c, margin);
      }
    }
  }

  // ----- Whole runs -----

  predicate AllValid(actions: seq<Action>)
  {
    forall i :: 0 <= i < |actions| ==> ActionValid(actions[i])
  }

  /** The ledger after every action that did not revert. */
  ghost function Run(l: Ledger, actions: seq<Action>): (l': Ledger)
    requires WellFormed(l) && AllValid(actions)
    ensures WellFormed(l')
  {
    if |actions| == 0 then l
    else
      var before, a := Run(l, actions[..|actions| - 1]), actions[|actions| - 1];
      NextWellFormed(before, a);
      var r := Next(before, a);
      if r.Some? then r.value else before
  }

  /** The margins of the basic issues along the way. */
  ghost function RunMargin(l: Ledger, actions: seq<Action>, c: Component): int
    requires WellFormed(l) && AllValid(actions)
  {
    if |actions| == 0 then 0
    else
      var front, a := actions[..|actions| - 1], actions[|actions| - 1];
      var before := Run(l, front);
      RunMargin(l, front, c) + (if Next(before, a).Some? then MarginOf(before, a, c) else 0)
  }

  /** Over every run, of any modules in any order, every component stays backed up to the margin its
      basic issues left. */
  lemma {:induction false} RunKeepsBacked(l: Ledger, actions: seq<Action>, c: Component, margin: int)
    requires WellFormed(l) && AllValid(actions) && Backed(l, c, margin)
    ensures Backed(Run(l, actions), c, margin + RunMargin(l, actions, c))
    decreases |actions|
  {
    if |actions| > 0 {
      var front, a := actions[..|actions| - 1], actions[|actions| - 1];
      RunKeepsBacked(l, front, c, margin);
      var before := Run(l, front);
      if Next(before, a).Some? {
        NextKeepsBacked(before, a, c, margin + RunMargin(l, front, c));
      }
    }
  }

  /** Every basic issue of the run happens while the component's exact unit is whole. */
  ghost predicate IssuesWhole(l: Ledger, actions: seq<Action>, c: Component)
    requires WellFormed(l) && AllValid(actions)
  {
    forall i :: 0 <= i < |actions| && actions[i].BasicIssue? ==> Truncated(Run(l, actions[..i]), c) == 0
  }

  lemma {:induction false} WholeIssuesLeaveNoMargin(l: Ledger, actions: seq<Action>, c: Component)
    requires WellFormed(l) && AllValid(actions) && IssuesWhole(l, actions, c)
    ensures RunMargin(l, actions, c) == 0
    decreases |actions|
  {
    if |actions| > 0 {
      var n := |actions| - 1;
      forall i | 0 <= i < n ensures actions[..n][..i] == actions[..i] {}
      WholeIssuesLeaveNoMargin(l, actions[..n], c);
    }
  }

  /** Backing over whole runs: from a fully backed set, as long as every basic issue happens while the
      component's exact unit is whole, the recorded balance never exceeds the held one. In particular
      no run of NAV issues, NAV redemptions, fee accruals and basic redemptions breaks it. */
  lemma RunTracksAtMostBalance(l: Ledger, actions: seq<Action>, c: Component)
    requires WellFormed(l) && AllValid(actions) && Backed(l, c, 0) && IssuesWhole(l, actions, c)
    ensures Tracked(Run(l, actions), c) <= Balance(Run(l, actions), c)
  {
    RunKeepsBacked(l, actions, c, 0);
    WholeIssuesLeaveNoMargin(l, actions, c);
    FullyBackedTracks(Run(l, actions), c);
  }

  /** The quantity of every basic issue asked for. */
  function TotalIssued(actions: seq<Action>): int
  {
    if |actions| == 0 then 0
    else TotalIssued(actions[..|actions| - 1])
         + (if actions[|actions| - 1].BasicIssue? then actions[|actions| - 1].quantity else 0)
  }

  lemma {:induction false} RunMarginBelow(l: Ledger, actions: seq<Action>, c: Component)
    requires WellFormed(l) && AllValid(actions)
    ensures 0 <= TotalIssued(actions)
    ensures RunMargin(l, actions, c) <= TotalIssued(actions) * (PRECISE_UNIT - 1)
    decreases |actions|
  {
    if |actions| > 0 {
      var front, a := actions[..|actions| - 1], actions[|actions| - 1];
      RunMarginBelow(l, front, c);
      if a.BasicIssue? {
        MulLe(Truncated(Run(l, front), c), PRECISE_UNIT - 1, a.quantity);
      }
    }
  }

  /** Without any condition: over every run the recorded balance exceeds the held one by less than one
      wei for each whole token that was ever issued through the basic module. */
  lemma RunShortfallIsDust(l: Ledger, actions: seq<Action>, c: Component)
    requires WellFormed(l) && AllValid(actions) && Backed(l, c, 0)
    ensures (Tracked(Run(l, actions), c) - Balance(Run(l, actions), c)) * SQUARED_UNIT
            <= TotalIssued(actions) * (PRECISE_UNIT - 1)
  {
    var l', margin := Run(l, actions), RunMargin(l, actions, c);
    assert (Tracked(l', c) - Balance(l', c)) * SQUARED_UNIT <= margin by {
      RunKeepsBacked(l, actions, c, 0);
      TrackedWithinMargin(l', c, margin);
    }
    RunMarginBelow(l, actions, c);
  }

  /** A set with no tokens yet is fully backed. */
  lemma EmptySetIsBacked(l: Ledger, c: Component)
    requires l.supply == 0 && 0 <= Balance(l, c)
    ensures Backed(l, c, 0)
  {
  }

  /** While the multiplier is one every unit is whole. */
  lemma WholeAtOne(l: Ledger, c: Component)
    requires l.multiplier == PRECISE_UNIT
    ensures Truncated(l, c) == 0
  {
  }

  // ----- The exact condition -----

  /** Issuing at this unit and multiplier is safe: from any fully backed set, in any quantity and
      whatever other actions follow, what is recorded stays within what is held. */
  ghost predicate IssueIsSafe(c: Component, unit: int, multiplier: int)
  {
    forall l: Ledger, q: int, rest: seq<Action> |
      && WellFormed(l) && Virtual(l, c) == unit && l.multiplier == multiplier && Backed(l, c, 0)
      && 0 < q && AllValid([BasicIssue(q)] + rest) && NoBasicIssue(rest) ::
      Tracked(Run(l, [BasicIssue(q)] + rest), c) <= Balance(Run(l, [BasicIssue(q)] + rest), c)
  }

  predicate NoBasicIssue(actions: seq<Action>)
  {
    forall i :: 0 <= i < |actions| ==> !actions[i].BasicIssue?
  }

  /** The exact condition: a basic issue is safe exactly when virtual unit times multiplier is a
      multiple of the scale, so that the real unit truncates nothing. */
  lemma BasicIssueIsSafeIff(c: Component, unit: int, multiplier: int)
    requires 0 <= unit && 0 < multiplier
    ensures IssueIsSafe(c, unit, multiplier) <==> unit * multiplier % PRECISE_UNIT == 0
  {
    if unit * multiplier % PRECISE_UNIT == 0 {
      forall l: Ledger, q: int, rest: seq<Action> |
        && WellFormed(l) && Virtual(l, c) == unit && l.multiplier == multiplier && Backed(l, c, 0)
        && 0 < q && AllValid([BasicIssue(q)] + rest) && NoBasicIssue(rest)
        ensures Tracked(Run(l, [BasicIssue(q)] + rest), c) <= Balance(Run(l, [BasicIssue(q)] + rest), c)
      {
        WholeIssueFirst(l, q, rest, c);
        RunTracksAtMostBalance(l, [BasicIssue(q)] + rest, c);
      }
    } else {
      var redeem := RedemptionForNothing(Other(c));
      IssueThenRedeemUnderbacks(c, unit, multiplier, redeem);
      FloorBounds(unit * multiplier, PRECISE_UNIT);
      assert [IssueMany()] + [redeem] == [IssueMany(), redeem];
      UnsafeBy(c, TwoPositions(c, unit, multiplier), SQUARED_UNIT, [redeem]);
    }
  }

  lemma WholeIssueFirst(l: Ledger, q: int, rest: seq<Action>, c: Component)
    requires WellFormed(l) && AllValid([BasicIssue(q)] + rest) && NoBasicIssue(rest) && Truncated(l, c) == 0
    ensures IssuesWhole(l, [BasicIssue(q)] + rest, c)
  {
    assert ([BasicIssue(q)] + rest)[..0] == [];
  }

  lemma UnsafeBy(c: Component, l: Ledger, q: int, rest: seq<Action>)
    requires WellFormed(l) && Backed(l, c, 0) && 0 < q && AllValid([BasicIssue(q)] + rest) && NoBasicIssue(rest)
    ensures Balance(Run(l, [BasicIssue(q)] + rest), c) < Tracked(Run(l, [BasicIssue(q)] + rest), c) ==>
              !IssueIsSafe(c, Virtual(l, c), l.multiplier)
  {
  }

  /** An empty set of one component and one other of a whole unit. */
  function TwoPositions(c: Component, unit: int, multiplier: int): Ledger
  {
    Ledger(0, multiplier, map[Other(c) := PRECISE_UNIT][c := unit], map[], map[])
  }

  function Other(c: Component): (other: Component)
    ensures other != c
  {
    assert |c + "'"| != |c|;
    c + "'"
  }

  function IssueMany(): Action { BasicIssue(SQUARED_UNIT) }

  /** Nearly all tokens redeemed for nothing of the other component. */
  ghost predicate RedeemsForNothing(a: Action, other: Component)
  {
    && a.NavRedeem? && ActionValid(a) && a.reserve == other
    && a.quantity == SQUARED_UNIT - PRECISE_UNIT && a.minReceive == 0 && a.terms.minSupply <= PRECISE_UNIT
    && RedeemOutflow(a.quantity, a.valuation, a.terms) == 0
    && PostFeeQuantity(0, a.terms.managerFee, a.terms.protocolFee) == 0
  }

  lemma RedemptionForNothing(other: Component) returns (a: Action)
    ensures RedeemsForNothing(a, other)
  {
    a := NavRedeem(other, SQUARED_UNIT - PRECISE_UNIT, 0, 0, Terms(1, 0, 0, 0, 1));
  }

  /** For every unit that is not whole: the redemption scales the multiplier until the truncated part
      of the unit is recorded, though only the whole part was ever collected. */
  lemma IssueThenRedeemUnderbacks(c: Component, unit: int, multiplier: int, redeem: Action)
    requires 0 < unit && 0 < multiplier && RedeemsForNothing(redeem, Other(c))
    ensures var l := TwoPositions(c, unit, multiplier); var actions := [IssueMany(), redeem];
            && WellFormed(l) && AllValid(actions) && Backed(l, c, 0)
            && Balance(Run(l, actions), c) == unit * multiplier / PRECISE_UNIT * PRECISE_UNIT
            && Tracked(Run(l, actions), c) == unit * multiplier
  {
    var l := TwoPositions(c, unit, multiplier);
    EmptySetIsBacked(l, c);
    ManyIssued(c, unit, multiplier);
    var l1 := AfterBasic(l, IssueMany()).value;
    OtherRedeemed(c, unit, multiplier, l1, redeem);
    RunOfTwo(l, IssueMany(), redeem, l1);
  }

  /** The dust bound is attained: whenever truncation drops as much as it can, that run falls short by
      exactly the bound. */
  lemma DustBoundIsAttained(c: Component, unit: int, multiplier: int) returns (l: Ledger, actions: seq<Action>)
    requires 0 < unit && 0 < multiplier && unit * multiplier % PRECISE_UNIT == PRECISE_UNIT - 1
    ensures WellFormed(l) && AllValid(actions) && Backed(l, c, 0) && Virtual(l, c) == unit && l.multiplier == multiplier
    ensures 0 < TotalIssued(actions)
    ensures (Tracked(Run(l, actions), c) - Balance(Run(l, actions), c)) * SQUARED_UNIT
            == TotalIssued(actions) * (PRECISE_UNIT - 1)
  {
    l, actions := UnderbackedRun(c, unit, multiplier);
    FloorBounds(unit * multiplier, PRECISE_UNIT);
    assert Tracked(Run(l, actions), c) - Balance(Run(l, actions), c) == PRECISE_UNIT - 1;
  }

  lemma UnderbackedRun(c: Component, unit: int, multiplier: int) returns (l: Ledger, actions: seq<Action>)
    requires 0 < unit && 0 < multiplier
    ensures WellFormed(l) && AllValid(actions) && Backed(l, c, 0) && Virtual(l, c) == unit && l.multiplier == multiplier
    ensures TotalIssued(actions) == SQUARED_UNIT
    ensures Balance(Run(l, actions), c) == unit * multiplier / PRECISE_UNIT * PRECISE_UNIT
    ensures Tracked(Run(l, actions), c) == unit * multiplier
  {
    var redeem := RedemptionForNothing(Other(c));
    IssueThenRedeemUnderbacks(c, unit, multiplier, redeem);
    l, actions := TwoPositions(c, unit, multiplier), [IssueMany(), redeem];
    IssuedOfTwo(SQUARED_UNIT, redeem);
  }

  lemma IssuedOfTwo(quantity: int, other: Action)
    requires !other.BasicIssue?
    ensures TotalIssued([BasicIssue(quantity), other]) == quantity
  {
    assert [BasicIssue(quantity), other][..1] == [BasicIssue(quantity)];
    assert TotalIssued([BasicIssue(quantity)]) == quantity;
  }

  lemma RunOfTwo(l: Ledger, first: Action, second: Action, l1: Ledger)
    requires WellFormed(l) && WellFormed(l1) && ActionValid(first) && ActionValid(second)
    ensures AllValid([first, second])
    ensures Next(l, first) == Some(l1) && Next(l1, second).Some? ==> Run(l, [first, second]) == Next(l1, second).value
  {
    assert [first, second][..1] == [first] && [first][..0] == [];
    assert Run(l, []) == l;
    assert Next(l, first) == Some(l1) ==> Run(l, [first]) == l1;
  }

  lemma ManyIssued(c: Component, unit: int, multiplier: int)
    requires 0 < unit && 0 < multiplier
    ensures var r := AfterBasic(TwoPositions(c, unit, multiplier), IssueMany());
            && r.Some? && AfterMany(r.value, c, unit, multiplier)
            && Balance(r.value, c) == unit * multiplier / PRECISE_UNIT * PRECISE_UNIT
  {
    var l := TwoPositions(c, unit, multiplier);
    RealBounds(l, c);
    RealBounds(l, Other(c));
    BasicEffect(l, IssueMany(), c);
    BasicEffect(l, IssueMany(), Other(c));
    assert Real(l, c) == unit * multiplier / PRECISE_UNIT;
    ScaleSquared(Real(l, c));
  }

  ghost predicate AfterMany(l: Ledger, c: Component, unit: int, multiplier: int)
  {
    && l.supply == SQUARED_UNIT && l.multiplier == multiplier
    && l.virtualUnits == map[Other(c) := PRECISE_UNIT][c := unit] && l.externals == map[]
    && 0 <= Balance(l, Other(c))
  }

  lemma ScaleSquared(x: int)
    requires 0 <= x
    ensures PreciseMul(SQUARED_UNIT, x) == PreciseMulCeil(x, SQUARED_UNIT) == x * PRECISE_UNIT
  {
  }

  lemma OtherRedeemed(c: Component, unit: int, multiplier: int, l: Ledger, a: Action)
    requires 0 < unit && 0 < multiplier && AfterMany(l, c, unit, multiplier) && RedeemsForNothing(a, Other(c))
    ensures var r := Next(l, a);
            r.Some? && Balance(r.value, c) == Balance(l, c) && Tracked(r.value, c) == unit * multiplier
  {
    assert Tracked(l, Other(c)) == multiplier * PRECISE_UNIT by {
      assert Real(l, Other(c)) == multiplier;
      ScaleSquared(multiplier);
    }
    RedeemedWithoutFlow(l, a);
    RestatedByScale(Transfer(l, Other(c), 0), c, unit, multiplier);
  }

  /** The multiplier grows by the scale, and the other component keeps its unit. */
  lemma RestatedByScale(l: Ledger, c: Component, unit: int, multiplier: int)
    requires 0 < unit && 0 < multiplier && AfterMany(l, c, unit, multiplier)
    ensures var r := Restate(l, Other(c), PRECISE_UNIT, multiplier * PRECISE_UNIT);
            && r.Some? && r.value.balances == l.balances && Tracked(r.value, c) == unit * multiplier
  {
    var m := multiplier * PRECISE_UNIT;
    ScaledByScale(multiplier, unit);
    ScaledByScale(multiplier, PRECISE_UNIT);
    assert MultiplierAccepted(l, m) by {
      assert UnitAt(l, Default(c)) == unit;
      assert forall p :: 0 < UnitAt(l, p) ==> UnitAt(l, p) == unit || UnitAt(l, p) == PRECISE_UNIT;
    }
    assert l.virtualUnits[Other(c) := PRECISE_UNIT] == l.virtualUnits;
    assert EditUnit(l.(multiplier := m), Other(c), m) == Some(l.(multiplier := m));
  }

  lemma ScaledByScale(multiplier: int, unit: int)
    requires 0 < multiplier && 0 < unit
    ensures var m := multiplier * PRECISE_UNIT;
            && 0 < unit * multiplier
            && ContractMultiplier(multiplier, SQUARED_UNIT, PRECISE_UNIT) == m == PreciseDiv(m, PRECISE_UNIT)
            && ConservativePreciseMul(unit, m) == unit * multiplier == PreciseMul(PRECISE_UNIT, unit * multiplier)
            && ConservativePreciseDiv(m, m) == PRECISE_UNIT
  {
    MulLt(0, unit, multiplier);
    assert unit * (multiplier * PRECISE_UNIT) == unit * multiplier * PRECISE_UNIT;
    var m := multiplier * PRECISE_UNIT;
    SameMultiple(ConservativePreciseDiv(m, m), PRECISE_UNIT, m);
  }

  /** A run that breaks it: after an accrual has left half units behind, tokens are issued for the
      truncated unit, and the next accrual dilutes a unit that truncation no longer lowers. */
  lemma AccrualAfterIssueCanUnderback() returns (l: Ledger, actions: seq<Action>)
    ensures WellFormed(l) && AllValid(actions) && Backed(l, "c", 0)
    ensures Balance(Run(l, actions), "c") == 6 && Tracked(Run(l, actions), "c") == 8
    ensures AfterBasic(Run(l, actions), BasicRedeem(8 * PRECISE_UNIT)).None?
  {
    var half, l1 := ExampleHalves();
    var issue, l2 := ExampleIssues(l1);
    var quarter, l3 := ExampleQuarters(l2);
    l := Example(0, 8, 0);
    actions := [half, issue, quarter];
    EmptySetIsBacked(l, "c");
    RunOfThree(l, half, issue, quarter, l1, l2, l3);
    ExampleCannotRedeem();
  }

  lemma RunOfThree(l: Ledger, a1: Action, a2: Action, a3: Action, l1: Ledger, l2: Ledger, l3: Ledger)
    requires WellFormed(l) && WellFormed(l1) && WellFormed(l2) && ActionValid(a1) && ActionValid(a2) && ActionValid(a3)
    ensures AllValid([a1, a2, a3])
    ensures Next(l, a1) == Some(l1) && Next(l1, a2) == Some(l2) && Next(l2, a3) == Some(l3) ==>
              Run(l, [a1, a2, a3]) == l3
  {
    assert [a1, a2, a3][..2] == [a1, a2];
    RunOfTwo(l, a1, a2, l1);
  }

  /** One component of three virtual units; a multiplier in eighths; whole tokens. */
  function Example(tokens: int, eighths: int, balance: int): Ledger
  {
    Ledger(tokens * PRECISE_UNIT, eighths * (PRECISE_UNIT / 8), map["c" := 3], map["c" := balance], map[])
  }

  lemma ExamplePosition(tokens: int, eighths: int, balance: int)
    ensures var l := Example(tokens, eighths, balance);
            UnitAt(l, Default("c")) == 3 && forall p :: 0 < UnitAt(l, p) ==> UnitAt(l, p) == 3
  {
  }

  lemma ExampleHalves() returns (a: Action, l': Ledger)
    ensures ActionValid(a) && Next(Example(0, 8, 0), a) == Some(l') && l' == Example(0, 4, 0)
  {
    a, l' := AccrueFee(PRECISE_UNIT / 2), Example(0, 4, 0);
    ExamplePosition(0, 8, 0);
    InflatedSupplyIsQuotient(PRECISE_UNIT / 2, 0);
  }

  lemma ExampleIssues(l: Ledger) returns (a: Action, l': Ledger)
    requires l == Example(0, 4, 0)
    ensures ActionValid(a) && Next(l, a) == Some(l') && l' == Example(6, 4, 6)
  {
    a, l' := BasicIssue(6 * PRECISE_UNIT), Example(6, 4, 6);
    assert Held(l) == {"c"};
    assert Real(l, "c") == 1;
    assert BasicFlow(l, "c", a) == 6;
    assert AfterBasic(l, a).value.balances == map["c" := 6];
  }

  lemma ExampleQuarters(l: Ledger) returns (a: Action, l': Ledger)
    requires l == Example(6, 4, 6)
    ensures ActionValid(a) && Next(l, a) == Some(l') && l' == Example(8, 3, 6)
  {
    a, l' := AccrueFee(PRECISE_UNIT / 4), Example(8, 3, 6);
    ExamplePosition(8, 4, 6);
    InflatedSupplyIsQuotient(PRECISE_UNIT / 4, 6 * PRECISE_UNIT);
  }

  lemma ExampleCannotRedeem()
    ensures Balance(Example(8, 3, 6), "c") == 6 && Tracked(Example(8, 3, 6), "c") == 8
    ensures AfterBasic(Example(8, 3, 6), BasicRedeem(8 * PRECISE_UNIT)).None?
  {
    assert Real(Example(8, 3, 6), "c") == 1;
    FullRedemptionIff(Example(8, 3, 6));
  }

  // ----- Redemption -----

  /** All tokens can be redeemed at once exactly when every recorded balance is held by the set itself. */
  lemma FullRedemptionIff(l: Ledger)
    requires WellFormed(l) && 0 < l.supply
    ensures AfterBasic(l, BasicRedeem(l.supply)).Some?
            <==> l.externals == map[] && forall c :: c in Held(l) ==> Tracked(l, c) <= Balance(l, c)
  {
  }

  /** A fully backed set honours any redemption of existing tokens, unless it has an external position. */
  lemma BackedSetRedeems(l: Ledger, quantity: int)
    requires WellFormed(l) && 0 < quantity <= l.supply
    requires forall c :: c in Held(l) ==> Backed(l, c, 0)
    ensures AfterBasic(l, BasicRedeem(quantity)).Some? <==> l.externals == map[]
  {
    forall c | c in Held(l) ensures 0 <= Balance(l, c) + BasicFlow(l, c, BasicRedeem(quantity)) {
      FullyBackedTracks(l, c);
      RealBounds(l, c);
      MulLe(quantity, l.supply, Real(l, c));
    }
  }
}
