/** The SetToken contract and the module calls that change it, in place; each call is proved to be a
    transition of the ledger, and a reverted call to change nothing. */
module SetTokens {
  import opened Options
  import opened Rounding
  import opened FixedPoint
  import opened NavIssuance
  import opened StreamingFee
  import opened SetLedger
  import opened ComponentLists

  // ----- The token -----

  class SetToken {
    var supply: int
    var positionMultiplier: int
    var components: seq<Component>
    var virtualUnits: map<Component, int>
    var externalModules: map<Component, seq<Module>>
    var externalUnits: map<Component, map<Module, int>>
    var externalData: map<(Component, Module), string>
    var balances: map<Component, int>

    ghost function State(): Ledger
      reads this
    {
      Ledger(supply, positionMultiplier, virtualUnits, balances, externalUnits)
    }

    ghost predicate Valid()
      reads this
    {
      Tidy(State(), components, externalModules)
    }

    constructor (components: seq<Component>, units: seq<int>)
      requires |components| == |units| && NoDuplicates(components)
      requires forall i :: 0 <= i < |units| ==> 0 < units[i]
      ensures Valid() && supply == 0 && positionMultiplier == PRECISE_UNIT
      ensures balances == map[] && externalUnits == map[] && externalData == map[]
      ensures this.components == components
      ensures forall i :: 0 <= i < |units| ==> Virtual(State(), components[i]) == units[i]
    {
      supply, positionMultiplier := 0, PRECISE_UNIT;
      this.components := components;
      balances, externalModules, externalUnits, externalData := map[], map[], map[], map[];
      var stored: map<Component, int> := map[];
      for j := 0 to |components|
        invariant forall i :: 0 <= i < j ==> components[i] in stored && stored[components[i]] == units[i]
        invariant forall c :: c in stored ==> c in components && 0 < stored[c]
      {
        stored := stored[components[j] := units[j]];
      }
      virtualUnits := stored;
    }

    /** `_getPositionsAbsMinimumVirtualUnit`: no position leaves the maximal integer, which does not fit
        the signed result and reverts. */
    method MinimumVirtualUnit() returns (minimum: Option<int>)
      requires Valid()
      ensures IsMinimum(State(), minimum)
    {
      minimum := None;
      for i := 0 to |components|
        invariant IsUnit(State(), minimum) && AtMostAll(State(), minimum, components[..i])
      {
        minimum := MinimumOf(components[i], minimum);
        assert components[..i + 1] == components[..i] + [components[i]];
      }
      assert components[..|components|] == components;
      ListedCoversAll(State(), components, minimum);
    }

    /** The body of that loop: one component's default and external positions. */
    method MinimumOf(c: Component, before: Option<int>) returns (minimum: Option<int>)
      requires Valid() && IsUnit(State(), before)
      ensures IsUnit(State(), minimum) && (before.Some? ==> AtMost(minimum, before.value))
      ensures forall p: Place :: p.component == c ==> AtMost(minimum, UnitAt(State(), p))
    {
      minimum := before;
      var defaultUnit := Lookup(virtualUnits, c);
      assert defaultUnit == UnitAt(State(), Default(c));
      if defaultUnit > 0 && (minimum.None? || defaultUnit < minimum.value) {
        minimum := Some(defaultUnit);
      }
      minimum := MinimumOfExternals(c, minimum);
    }

    method MinimumOfExternals(c: Component, before: Option<int>) returns (minimum: Option<int>)
      requires Valid() && IsUnit(State(), before)
      ensures IsUnit(State(), minimum) && (before.Some? ==> AtMost(minimum, before.value))
      ensures forall m :: AtMost(minimum, UnitAt(State(), External(c, m)))
    {
      minimum := before;
      var modules := ModulesAt(externalModules, c);
      assert ModulesListed(State(), externalModules, c);
      for j := 0 to |modules|
        invariant IsUnit(State(), minimum) && (before.Some? ==> AtMost(minimum, before.value))
        invariant forall m :: m in modules[..j] ==> AtMost(minimum, UnitAt(State(), External(c, m)))
      {
        assert modules[j] in Externals(State(), c);
        var virtualUnit := Abs(externalUnits[c][modules[j]]);
        assert virtualUnit == UnitAt(State(), External(c, modules[j]));
        if virtualUnit > 0 && (minimum.None? || virtualUnit < minimum.value) {
          minimum := Some(virtualUnit);
        }
      }
      assert modules[..|modules|] == modules;
    }

    /** `editPositionMultiplier`: only the smallest position is checked. */
    method EditPositionMultiplier(newMultiplier: int) returns (ok: bool)
      requires Valid()
      modifies this`positionMultiplier
      ensures Valid()
      ensures var r := EditMultiplier(old(State()), newMultiplier);
              ok == r.Some? && State() == (if ok then r.value else old(State()))
    {
      var minimum := MinimumVirtualUnit();
      ok := false;
      if minimum.Some? {
        var product := DivDown(minimum.value * newMultiplier, PRECISE_UNIT);
        ok := product > 0;
        SmallestDecides(State(), minimum.value, newMultiplier);
        if ok {
          AcceptedIsPositive(State(), newMultiplier);
          positionMultiplier := newMultiplier;
          MultiplierEdited(old(State()), newMultiplier, components, externalModules);
        }
      }
    }

    /** `_convertRealToVirtualUnit`. */
    method RealToVirtual(realUnit: int) returns (virtualUnit: Option<int>)
      requires Valid()
      ensures virtualUnit == Stored(realUnit, positionMultiplier)
    {
      var unit := DivDown(realUnit * PRECISE_UNIT, positionMultiplier);
      var roundTrip := DivDown(unit * positionMultiplier, PRECISE_UNIT);
      virtualUnit := if realUnit > 0 && (unit == 0 || roundTrip == 0) then None else Some(unit);
    }

    /** `Position.editDefaultPosition` with `editDefaultPositionUnit`: keeps the component list in step
        with the unit. A component with an external position stays listed. */
    method EditDefaultPosition(c: Component, newUnit: int) returns (ok: bool)
      requires Valid() && 0 <= newUnit
      modifies this`components, this`virtualUnits
      ensures Valid()
      ensures var r := EditUnit(old(State()), c, newUnit);
              ok == r.Some? && State() == (if ok then r.value else old(State()))
    {
      var virtualUnit := RealToVirtual(newUnit);
      ok := virtualUnit.Some?;
      if ok {
        ghost var l := State();
        var unit := DivDown(Lookup(virtualUnits, c) * positionMultiplier, PRECISE_UNIT);
        var isPositionFound := unit > 0;
        FoundIffHeld(l, c);
        assert ModulesListed(l, externalModules, c);
        ModulesIffExternal(l, externalModules, c);
        var hasExternalPosition := |ModulesAt(externalModules, c)| > 0;
        if !isPositionFound && newUnit > 0 {
          if !hasExternalPosition {
            components := components + [c];
          }
        } else if isPositionFound && newUnit == 0 {
          if !hasExternalPosition {
            var removed, rest := RemoveStorage(components, c);
            components := rest;
          }
        }
        virtualUnits := virtualUnits[c := virtualUnit.value];
        DefaultEdited(l, c, newUnit, old(components), components, externalModules);
      }
    }

    /** `Position.editExternalPosition`: opens, changes or closes one module's position in a component,
        and keeps both lists in step. Data may not be passed to close one. */
    method EditExternalPosition(c: Component, owner: Module, newUnit: int, data: string) returns (ok: bool)
      requires Valid()
      modifies this`components, this`externalModules, this`externalUnits, this`externalData
      ensures Valid()
      ensures var r := EditExternalUnit(old(State()), c, owner, newUnit);
              && ok == (r.Some? && (newUnit == 0 ==> data == []))
              && State() == (if ok then r.value else old(State()))
      ensures externalData == if !ok then old(externalData)
                              else if newUnit != 0 then old(externalData)[(c, owner) := data]
                              else if owner in Externals(old(State()), c) then old(externalData) - {(c, owner)}
                              else old(externalData)
    {
      if newUnit != 0 {
        ok := OpenExternalPosition(c, owner, newUnit);
        if ok {
          externalData := externalData[(c, owner) := data];
        }
      } else if |data| > 0 {
        ok := false;
      } else {
        ok := CloseExternalPosition(c, owner);
      }
    }

    method OpenExternalPosition(c: Component, owner: Module, newUnit: int) returns (ok: bool)
      requires Valid() && newUnit != 0
      modifies this`components, this`externalModules, this`externalUnits
      ensures Valid()
      ensures var r := EditExternalUnit(old(State()), c, owner, newUnit);
              ok == r.Some? && State() == (if ok then r.value else old(State()))
    {
      var virtualUnit := RealToVirtual(newUnit);
      ok := virtualUnit.Some?;
      if ok {
        ListExternal(c, owner);
        ExternalOpened(old(State()), c, owner, newUnit, old(components), components,
                       old(externalModules), externalModules);
        var units := UnitsAt(externalUnits, c)[owner := virtualUnit.value];
        assert owner in units;
        externalUnits := externalUnits[c := units];
      }
    }

    /** A new component is listed, and so is a new module. */
    method ListExternal(c: Component, owner: Module)
      requires Valid()
      modifies this`components, this`externalModules
      ensures components == if c in old(components) then old(components) else old(components) + [c]
      ensures var modules := ModulesAt(old(externalModules), c);
              externalModules == if owner in modules then old(externalModules)
                                 else old(externalModules)[c := modules + [owner]]
    {
      var modules := ModulesAt(externalModules, c);
      ModulesIffExternal(State(), externalModules, c) by { assert ModulesListed(State(), externalModules, c); }
      var _, isComponent := IndexOf(components, c);
      if !isComponent {
        components := components + [c];
        externalModules := externalModules[c := modules + [owner]];
      } else {
        var _, isModule := IndexOf(modules, owner);
        if !isModule {
          externalModules := externalModules[c := modules + [owner]];
        }
      }
    }

    /** The component is dropped with its last position. */
    method CloseExternalPosition(c: Component, owner: Module) returns (ok: bool)
      requires Valid()
      modifies this`components, this`externalModules, this`externalUnits, this`externalData
      ensures Valid()
      ensures ok && Some(State()) == EditExternalUnit(old(State()), c, owner, 0)
      ensures externalData
              == if owner in Externals(old(State()), c) then old(externalData) - {(c, owner)} else old(externalData)
    {
      ok := true;
      var modules, units := ModulesAt(externalModules, c), UnitsAt(externalUnits, c);
      assert ModulesListed(State(), externalModules, c);
      var unit := DivDown((if owner in units then units[owner] else 0) * positionMultiplier, PRECISE_UNIT);
      ExternalFoundIff(State(), c, owner);
      if unit == 0 {
        NothingToClose(State(), c, owner);
        return;
      }
      var defaultUnit := DivDown(Lookup(virtualUnits, c) * positionMultiplier, PRECISE_UNIT);
      FoundIffHeld(State(), c);
      LastModule(units, modules, owner);
      if defaultUnit == 0 && |modules| == 1 {
        if modules[0] != owner {
          return false;
        }
        var _, listed := RemoveStorage(components, c);
        components := listed;
      }
      var rest := RemoveExternalModule(c, owner);
      ExternalClosed(old(State()), c, owner, old(components), components, old(externalModules), rest);
    }

    /** `removeExternalPositionModule`. */
    method RemoveExternalModule(c: Component, owner: Module) returns (rest: seq<Module>)
      requires ModulesListed(State(), externalModules, c) && owner in Externals(State(), c)
      modifies this`externalModules, this`externalUnits, this`externalData
      ensures NoDuplicates(rest) && forall k :: k in rest <==> k in ModulesAt(old(externalModules), c) && k != owner
      ensures externalModules == old(externalModules)[c := rest]
      ensures State() == WithExternals(old(State()), c, Externals(old(State()), c) - {owner})
      ensures externalData == old(externalData) - {(c, owner)}
    {
      var _, modules := RemoveStorage(ModulesAt(externalModules, c), owner);
      rest := modules;
      externalModules := externalModules[c := rest];
      var units := UnitsAt(externalUnits, c) - {owner};
      externalUnits := if units == map[] then externalUnits - {c} else externalUnits[c := units];
      externalData := externalData - {(c, owner)};
    }

    // ----- Module calls -----

    /** A transfer into the set, or out of it when negative. */
    method TransferIn(c: Component, amount: int)
      requires Valid()
      modifies this`balances
      ensures Valid() && State() == Transfer(old(State()), c, amount)
    {
      balances := balances[c := Lookup(balances, c) + amount];
      SamePositions(old(State()), State(), components, externalModules);
    }

    /** The tail of both NAV calls: multiplier, then reserve unit, then supply. */
    method RestatePosition(reserve: Component, newSupply: int, total: int) returns (ok: bool)
      requires Valid() && 0 < newSupply && 0 <= total
      modifies this`supply, this`positionMultiplier, this`components, this`virtualUnits
      ensures var r := Restate(old(State()), reserve, newSupply, total);
              ok == r.Some? && (ok ==> Valid() && State() == r.value)
    {
      ok := EditPositionMultiplier(ContractMultiplier(positionMultiplier, supply, newSupply));
      if ok {
        ok := EditDefaultPosition(reserve, PreciseDiv(total, newSupply));
        if ok {
          supply := newSupply;
          SamePositions(State().(supply := old(supply)), State(), components, externalModules);
        }
      }
    }

    /** The reserve crosses the boundary and the position is restated, or nothing happens. */
    method MoveAndRestate(reserve: Component, flow: int, newSupply: int, total: int) returns (ok: bool)
      requires Valid() && 0 < newSupply && 0 <= total
      modifies this`supply, this`positionMultiplier, this`components, this`virtualUnits, this`balances
      ensures Valid()
      ensures var r := Restate(Transfer(old(State()), reserve, flow), reserve, newSupply, total);
              ok == r.Some? && State() == (if ok then r.value else old(State()))
    {
      var saved, list := Ledger(supply, positionMultiplier, virtualUnits, balances, externalUnits), components;
      TransferIn(reserve, flow);
      ok := RestatePosition(reserve, newSupply, total);
      if !ok {
        supply, positionMultiplier, virtualUnits := saved.supply, saved.multiplier, saved.virtualUnits;
        balances, components := saved.balances, list;
      }
    }

    /** `CustomOracleNAVIssuanceModule.issue`. */
    method NavIssueTokens(a: Action) returns (ok: bool)
      requires Valid() && a.NavIssue? && ActionValid(a)
      modifies this`supply, this`positionMultiplier, this`components, this`virtualUnits, this`balances
      ensures Valid()
      ensures ok == Next(old(State()), a).Some? && State() == Outcome(old(State()), a)
    {
      var t := a.terms;
      var net := PostFeeQuantity(a.quantity, t.managerFee, t.protocolFee);
      if a.quantity == 0 || net < 0 || supply < t.minSupply {
        return false;
      }
      if !CanPrice(supply, a.valuation, t.baseUnits, net, t.premium) {
        return false;
      }
      var minted := SetTokenIssueQuantity(supply, a.valuation, t.baseUnits, net, t.premium);
      IssueQuantityNonNegative(supply, a.valuation, t.baseUnits, net, t.premium);
      if minted < a.minReceive {
        return false;
      }
      var total := PreciseMul(supply, RealUnit(a.reserve)) + net;
      RealBounds(State(), a.reserve);
      ok := MoveAndRestate(a.reserve, net, supply + minted, total);
    }

    /** `CustomOracleNAVIssuanceModule.redeem`. */
    method NavRedeemTokens(a: Action) returns (ok: bool)
      requires Valid() && a.NavRedeem? && ActionValid(a)
      modifies this`supply, this`positionMultiplier, this`components, this`virtualUnits, this`balances
      ensures Valid()
      ensures ok == Next(old(State()), a).Some? && State() == Outcome(old(State()), a)
    {
      var outflow := RedeemOutflow(a.quantity, a.valuation, a.terms);
      var tracked := PreciseMul(supply, RealUnit(a.reserve));
      ok := CheckRedeem(a, outflow, tracked);
      if !ok {
        return;
      }
      ok := MoveAndRestate(a.reserve, -outflow, supply - a.quantity, tracked - outflow);
    }

    /** The requirements of `redeem`, one after the other. */
    method CheckRedeem(a: Action, outflow: int, tracked: int) returns (ok: bool)
      requires Valid() && a.NavRedeem? && ActionValid(a)
      requires outflow == RedeemOutflow(a.quantity, a.valuation, a.terms) && tracked == Tracked(State(), a.reserve)
      ensures ok == RedeemAllowed(State(), a)
    {
      if a.quantity == 0 {
        return false;
      }
      var net := PostFeeQuantity(outflow, a.terms.managerFee, a.terms.protocolFee);
      if net < 0 || net < a.minReceive {
        return false;
      }
      if supply - a.quantity < a.terms.minSupply {
        return false;
      }
      ok := outflow <= tracked && outflow <= Lookup(balances, a.reserve);
    }

    function RealUnit(c: Component): (unit: int)
      reads this
      ensures unit == Real(State(), c)
    {
      FloorDiv(Lookup(virtualUnits, c) * positionMultiplier, PRECISE_UNIT)
    }

    /** `StreamingFeeModule.accrueFee`, for a set with a non-zero rate. */
    method Accrue(fee: int) returns (ok: bool)
      requires Valid() && 0 <= fee
      modifies this`supply, this`positionMultiplier
      ensures Valid()
      ensures ok == Next(old(State()), AccrueFee(fee)).Some? && State() == Outcome(old(State()), AccrueFee(fee))
    {
      if fee >= PRECISE_UNIT {
        return false;
      }
      var before := supply;
      supply := supply + InflationAmount(fee, supply);
      assert State() == old(State()).(supply := InflatedSupply(fee, before));
      InflatedSupplyIsQuotient(fee, before);
      SamePositions(old(State()), State(), components, externalModules);
      ok := EditPositionMultiplier(PreciseMul(positionMultiplier, PRECISE_UNIT - fee));
      if !ok {
        supply := before;
      }
    }

    /** `BasicIssuanceModule.getRequiredComponentUnitsForIssue`: only default positions are supported. */
    method RequiredComponentUnits(quantity: int) returns (ok: bool, notionalUnits: seq<int>)
      requires Valid()
      ensures ok <==> externalUnits == map[]
      ensures ok ==> |notionalUnits| == |components|
      ensures ok ==> forall i :: 0 <= i < |components| ==>
                                   notionalUnits[i] == BasicFlow(State(), components[i], BasicIssue(quantity))
    {
      notionalUnits := [];
      for i := 0 to |components|
        invariant |notionalUnits| == i
        invariant forall k :: 0 <= k < i ==> components[k] !in externalUnits
        invariant forall k :: 0 <= k < i ==> notionalUnits[k] == BasicFlow(State(), components[k], BasicIssue(quantity))
      {
        assert ModulesListed(State(), externalModules, components[i]);
        ModulesIffExternal(State(), externalModules, components[i]);
        if |ModulesAt(externalModules, components[i])| > 0 {
          return false, [];
        }
        notionalUnits := notionalUnits + [PreciseMulCeil(RealUnit(components[i]), quantity)];
      }
      ok := true;
      NoneExternal(State(), components);
    }

    /** The transfers of an issue, one component after the other. */
    method CollectComponents(quantity: int, notionalUnits: seq<int>)
      requires Valid() && |notionalUnits| == |components|
      requires forall i :: 0 <= i < |components| ==>
                             notionalUnits[i] == BasicFlow(State(), components[i], BasicIssue(quantity))
      modifies this`balances
      ensures FlowsDone(old(State()), BasicIssue(quantity), components, balances)
    {
      ghost var l := State();
      for i := 0 to |components|
        invariant FlowsDone(l, BasicIssue(quantity), components[..i], balances)
      {
        var c := components[i];
        ghost var before := balances;
        balances := balances[c := Lookup(balances, c) + notionalUnits[i]];
        FlowsExtend(l, BasicIssue(quantity), components, i, before);
      }
      assert components[..|components|] == components;
    }

    /** `BasicIssuanceModule.issue`. */
    method BasicIssueTokens(quantity: int) returns (ok: bool)
      requires Valid() && 0 <= quantity
      modifies this`supply, this`balances
      ensures Valid()
      ensures ok == AfterBasic(old(State()), BasicIssue(quantity)).Some?
      ensures State() == Outcome(old(State()), BasicIssue(quantity))
    {
      if quantity == 0 {
        return false;
      }
      ghost var l := State();
      var notionalUnits;
      ok, notionalUnits := RequiredComponentUnits(quantity);
      if !ok {
        return;
      }
      CollectComponents(quantity, notionalUnits);
      supply := supply + quantity;
      AllFlowsDone(l, BasicIssue(quantity), components, balances);
      SamePositions(l, State(), components, externalModules);
    }

    /** The transfers of a redemption; stops at the first component the set cannot pay. */
    method PayComponents(quantity: int) returns (ok: bool)
      requires Valid()
      modifies this`balances
      ensures ok == (externalUnits == map[]
                     && forall i :: 0 <= i < |components| ==> CanPay(old(State()), components[i], quantity))
      ensures ok ==> FlowsDone(old(State()), BasicRedeem(quantity), components, balances)
    {
      ghost var l, a := State(), BasicRedeem(quantity);
      for i := 0 to |components|
        invariant FlowsDone(l, a, components[..i], balances)
        invariant forall k :: 0 <= k < i ==> components[k] !in externalUnits && CanPay(l, components[k], quantity)
      {
        var c := components[i];
        assert ModulesListed(l, externalModules, c);
        ModulesIffExternal(l, externalModules, c);
        if |ModulesAt(externalModules, c)| > 0 {
          return false;
        }
        var componentQuantity := PreciseMul(quantity, RealUnit(c));
        SameFlows(l, State());
        assert c !in components[..i] && BasicFlow(l, c, a) == -componentQuantity;
        if Lookup(balances, c) < componentQuantity {
          return false;
        }
        ghost var before := balances;
        balances := balances[c := Lookup(balances, c) + -componentQuantity];
        FlowsExtend(l, a, components, i, before);
      }
      assert components[..|components|] == components;
      NoneExternal(l, components);
      ok := true;
    }

    /** `BasicIssuanceModule.redeem`. */
    method BasicRedeemTokens(quantity: int) returns (ok: bool)
      requires Valid() && 0 <= quantity
      modifies this`supply, this`balances
      ensures Valid()
      ensures ok == AfterBasic(old(State()), BasicRedeem(quantity)).Some?
      ensures State() == Outcome(old(State()), BasicRedeem(quantity))
    {
      if quantity == 0 || supply < quantity {
        return false;
      }
      ghost var l := State();
      var saved := balances;
      ok := PayComponents(quantity);
      if !ok {
        balances := saved;
        return;
      }
      supply := supply - quantity;
      AllFlowsDone(l, BasicRedeem(quantity), components, balances);
      SamePositions(l, State(), components, externalModules);
    }
  }

  /** The ledger after a call: the transition, or nothing on a revert. */
  ghost function Outcome(l: Ledger, a: Action): Ledger
    requires WellFormed(l) && ActionValid(a)
  {
    var r := Next(l, a);
    if r.Some? then r.value else l
  }

  lemma NoneExternal(l: Ledger, components: seq<Component>)
    requires Listed(l, components) && forall k :: 0 <= k < |components| ==> components[k] !in l.externals
    ensures l.externals == map[]
  {
    assert forall c :: c in l.externals ==> c in components;
  }

  /** The set holds what a redemption takes of a component. */
  predicate CanPay(l: Ledger, c: Component, quantity: int)
  {
    0 <= Balance(l, c) + BasicFlow(l, c, BasicRedeem(quantity))
  }

  /** The balances once the listed components have flowed. */
  ghost predicate FlowsDone(l: Ledger, a: Action, done: seq<Component>, balances: map<Component, int>)
    requires a.BasicIssue? || a.BasicRedeem?
  {
    && balances.Keys == l.balances.Keys + (set c | c in done)
    && forall c :: Lookup(balances, c) == Balance(l, c) + (if c in done then BasicFlow(l, c, a) else 0)
  }

  lemma FlowsExtend(l: Ledger, a: Action, list: seq<Component>, i: nat, before: map<Component, int>)
    requires a.BasicIssue? || a.BasicRedeem?
    requires i < |list| && NoDuplicates(list) && FlowsDone(l, a, list[..i], before)
    ensures FlowsDone(l, a, list[..i + 1], before[list[i] := Lookup(before, list[i]) + BasicFlow(l, list[i], a)])
  {
  }

  lemma AllFlowsDone(l: Ledger, a: Action, list: seq<Component>, balances: map<Component, int>)
    requires a.BasicIssue? || a.BasicRedeem?
    requires l.externals == map[] && Listed(l, list) && FlowsDone(l, a, list, balances)
    requires 0 < a.quantity && (a.BasicRedeem? ==> a.quantity <= l.supply)
    requires a.BasicRedeem? ==> forall i :: 0 <= i < |list| ==> CanPay(l, list[i], a.quantity)
    ensures AfterBasic(l, a).Some? && AfterBasic(l, a).value.balances == balances
  {
    assert (set c | c in list) == Held(l);
    var expected := AfterBasic(l, a).value.balances;
    forall c | c in balances ensures balances[c] == expected[c] {
      assert Lookup(balances, c) == balances[c];
    }
  }
}
