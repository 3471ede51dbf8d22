/** The lists a SetToken keeps beside its positions: contracts/lib/AddressArrayUtils.sol, and what keeps the
    component and module lists of contracts/protocol/SetToken.sol in step with the ledger. */
module ComponentLists {
  import opened Options
  import opened Rounding
  import opened FixedPoint
  import opened SetLedger

  // ----- AddressArrayUtils.sol -----

  predicate NoDuplicates(xs: seq<Component>)
  {
    forall i, j :: 0 <= i < j < |xs| ==> xs[i] != xs[j]
  }

  method IndexOf(xs: seq<Component>, x: Component) returns (index: int, isIn: bool)
    ensures isIn <==> x in xs
    ensures isIn ==> 0 <= index < |xs| && xs[index] == x && x !in xs[..index]
  {
    for i := 0 to |xs|
      invariant x !in xs[..i]
    {
      if xs[i] == x {
        return i, true;
      }
    }
    return -1, false;
  }

  /** `removeStorage`: the last element takes the place of the removed one. */
  method RemoveStorage(xs: seq<Component>, x: Component) returns (ok: bool, ys: seq<Component>)
    requires NoDuplicates(xs)
    ensures ok <==> x in xs
    ensures ok ==> NoDuplicates(ys) && |ys| == |xs| - 1 && forall y :: y in ys <==> y in xs && y != x
    ensures !ok ==> ys == xs
  {
    var index, isIn := IndexOf(xs, x);
    ok, ys := isIn, xs;
    if isIn {
      var last := |xs| - 1;
      if index != last { ys := ys[index := ys[last]]; }
      ys := ys[..last];
      forall y | y in xs && y != x ensures y in ys {
        var k :| 0 <= k < |xs| && xs[k] == y;
        if k == last { assert ys[index] == y; } else { assert ys[k] == y; }
      }
    }
  }

  /** `hasDuplicate`. */
  method HasDuplicate(xs: seq<Component>) returns (found: bool)
    requires 0 < |xs|
    ensures found <==> !NoDuplicates(xs)
  {
    for i := 0 to |xs| - 1
      invariant forall k, j :: 0 <= k < i && k < j < |xs| ==> xs[k] != xs[j]
    {
      for j := i + 1 to |xs|
        invariant forall k :: i < k < j ==> xs[i] != xs[k]
      {
        if xs[i] == xs[j] {
          return true;
        }
      }
    }
    found := false;
  }

  // ----- What the lists of a token say -----

  /** The component list names every component with a position, default or external, once. */
  ghost predicate Listed(l: Ledger, components: seq<Component>)
  {
    NoDuplicates(components) && forall c :: c in components <==> c in Held(l) || c in l.externals
  }

  function ModulesAt(modules: map<Component, seq<Module>>, c: Component): seq<Module>
  {
    if c in modules then modules[c] else []
  }

  /** A component's module list names its external positions, once each. */
  ghost predicate ModulesListed(l: Ledger, modules: map<Component, seq<Module>>, c: Component)
  {
    NoDuplicates(ModulesAt(modules, c)) && forall m :: m in ModulesAt(modules, c) <==> m in Externals(l, c)
  }

  /** The lists name exactly the positions, and no position rounds to nothing. */
  ghost predicate Tidy(l: Ledger, components: seq<Component>, modules: map<Component, seq<Module>>)
  {
    && WellFormed(l) && NoneVanishes(l, l.multiplier)
    && Listed(l, components) && forall c :: ModulesListed(l, modules, c)
  }

  /** That depends on the positions and the multiplier alone. */
  lemma SamePositions(l: Ledger, l': Ledger, components: seq<Component>, modules: map<Component, seq<Module>>)
    requires Tidy(l, components, modules) && 0 <= l'.supply
    requires l'.virtualUnits == l.virtualUnits && l'.externals == l.externals && l'.multiplier == l.multiplier
    ensures Tidy(l', components, modules)
  {
    forall p ensures UnitAt(l', p) == UnitAt(l, p) {}
    forall c ensures ModulesListed(l', modules, c) {
      assert ModulesListed(l, modules, c);
    }
  }

  lemma SameFlows(l: Ledger, l': Ledger)
    requires l'.virtualUnits == l.virtualUnits && l'.multiplier == l.multiplier
    ensures Held(l') == Held(l) && forall c :: Real(l', c) == Real(l, c)
  {
  }

  lemma ModulesIffExternal(l: Ledger, modules: map<Component, seq<Module>>, c: Component)
    requires WellFormed(l) && ModulesListed(l, modules, c)
    ensures |ModulesAt(modules, c)| > 0 <==> c in l.externals
  {
    var list := ModulesAt(modules, c);
    assert |list| > 0 ==> list[0] in list;
    if c in l.externals {
      var m :| m in l.externals[c];
      assert m in list;
    }
  }

  function UnitsAt(units: map<Component, map<Module, int>>, c: Component): map<Module, int>
  {
    if c in units then units[c] else map[]
  }

  // ----- The smallest position -----

  /** A candidate for the minimum is some position's unit. */
  ghost predicate IsUnit(l: Ledger, minimum: Option<int>)
  {
    minimum.Some? ==> exists p :: 0 < UnitAt(l, p) == minimum.value
  }

  predicate AtMost(minimum: Option<int>, unit: int)
  {
    0 < unit ==> minimum.Some? && minimum.value <= unit
  }

  /** The candidate is at most every unit of the listed components. */
  ghost predicate AtMostAll(l: Ledger, minimum: Option<int>, components: seq<Component>)
  {
    forall p: Place :: p.component in components ==> AtMost(minimum, UnitAt(l, p))
  }

  /** The smallest absolute unit of all positions, if there is any. */
  ghost predicate IsMinimum(l: Ledger, minimum: Option<int>)
  {
    IsUnit(l, minimum) && forall p :: AtMost(minimum, UnitAt(l, p))
  }

  lemma SmallestDecides(l: Ledger, minimum: int, multiplier: int)
    requires IsMinimum(l, Some(minimum))
    ensures 0 < ConservativePreciseMul(minimum, multiplier) <==> MultiplierAccepted(l, multiplier)
  {
    if 0 < ConservativePreciseMul(minimum, multiplier) {
      assert 0 < multiplier by { if multiplier <= 0 { MulLe(multiplier, 0, minimum); } }
      forall p | 0 < UnitAt(l, p) ensures 0 < ConservativePreciseMul(UnitAt(l, p), multiplier) {
        assert AtMost(Some(minimum), UnitAt(l, p));
        MulLe(minimum, UnitAt(l, p), multiplier);
      }
    }
  }

  /** Every position is of a listed component. */
  lemma ListedCoversAll(l: Ledger, components: seq<Component>, minimum: Option<int>)
    requires WellFormed(l) && Listed(l, components) && IsUnit(l, minimum) && AtMostAll(l, minimum, components)
    ensures IsMinimum(l, minimum)
  {
    forall p: Place ensures AtMost(minimum, UnitAt(l, p)) {
      if 0 < UnitAt(l, p) { assert p.component in components; }
    }
  }

  // ----- Edits -----

  lemma MultiplierEdited(l: Ledger, multiplier: int, components: seq<Component>, modules: map<Component, seq<Module>>)
    requires Tidy(l, components, modules) && MultiplierAccepted(l, multiplier) && 0 < multiplier
    ensures Tidy(l.(multiplier := multiplier), components, modules)
  {
    var l' := l.(multiplier := multiplier);
    forall p ensures UnitAt(l', p) == UnitAt(l, p) {}
    forall c ensures ModulesListed(l', modules, c) {
      assert ModulesListed(l, modules, c);
    }
  }

  /** The component list that a default edit leaves. */
  ghost predicate ListAfterDefault(l: Ledger, c: Component, unit: int, before: seq<Component>, after: seq<Component>)
  {
    && NoDuplicates(after)
    && forall d :: d in after <==> if d == c then 0 < unit || c in l.externals else d in before
  }

  lemma DefaultEdited(l: Ledger, c: Component, unit: int, before: seq<Component>, after: seq<Component>,
                      modules: map<Component, seq<Module>>)
    requires Tidy(l, before, modules) && 0 <= unit && ListAfterDefault(l, c, unit, before, after)
    ensures EditUnit(l, c, unit).Some? ==> Tidy(EditUnit(l, c, unit).value, after, modules)
  {
    if EditUnit(l, c, unit).Some? {
      var l' := EditUnit(l, c, unit).value;
      StoredUnit(unit, l.multiplier);
      StoredRoundTrip(unit, l.multiplier);
      forall p ensures p != Default(c) ==> UnitAt(l', p) == UnitAt(l, p) {}
      forall d ensures d in Held(l') <==> if d == c then 0 < unit else d in Held(l) {}
      forall d ensures ModulesListed(l', modules, d) {
        assert ModulesListed(l, modules, d);
      }
    }
  }

  /** What is stored for a positive unit that passes the checks reads back as a positive unit. */
  lemma StoredRoundTrip(unit: int, multiplier: int)
    requires 0 <= unit && 0 < multiplier
    ensures var v := ConservativePreciseDiv(unit, multiplier);
            0 <= ConservativePreciseMul(v, multiplier) && (unit == 0 ==> v == 0)
  {
  }

  lemma FoundIffHeld(l: Ledger, c: Component)
    requires WellFormed(l) && NoneVanishes(l, l.multiplier)
    ensures 0 <= Real(l, c)
    ensures 0 < Real(l, c) <==> c in Held(l)
  {
    RealBounds(l, c);
    assert UnitAt(l, Default(c)) == Virtual(l, c);
  }

  lemma ExternalFoundIff(l: Ledger, c: Component, m: Module)
    requires WellFormed(l) && NoneVanishes(l, l.multiplier)
    ensures m in Externals(l, c) <==>
              ConservativePreciseMul(if m in Externals(l, c) then Externals(l, c)[m] else 0, l.multiplier) != 0
  {
    if m in Externals(l, c) {
      assert UnitAt(l, External(c, m)) == Abs(Externals(l, c)[m]);
    }
  }

  lemma NothingToClose(l: Ledger, c: Component, m: Module)
    requires WellFormed(l) && m !in Externals(l, c)
    ensures EditExternalUnit(l, c, m, 0) == Some(l)
  {
    assert Externals(l, c) - {m} == Externals(l, c);
    assert c in l.externals ==> l.externals[c := l.externals[c]] == l.externals;
    assert c !in l.externals ==> l.externals - {c} == l.externals;
  }

  /** A module is the only one listed exactly when its position is the only one. */
  lemma LastModule(units: map<Module, int>, modules: seq<Module>, m: Module)
    requires NoDuplicates(modules) && (forall k :: k in modules <==> k in units) && m in units
    ensures |modules| == 1 <==> units - {m} == map[]
    ensures |modules| == 1 ==> modules[0] == m
  {
    if |modules| > 1 {
      var k := if modules[0] == m then modules[1] else modules[0];
      assert k in units - {m};
    }
  }

  /** The lists that an external edit leaves. */
  ghost predicate ListsAfterExternal(l: Ledger, c: Component, m: Module, unit: int,
                                     before: seq<Component>, after: seq<Component>,
                                     modules: map<Component, seq<Module>>, modules': map<Component, seq<Module>>)
  {
    && NoDuplicates(after)
    && (forall d :: d in after <==> if d == c then c in Held(l) || unit != 0 || Externals(l, c) - {m} != map[]
                                    else d in before)
    && NoDuplicates(ModulesAt(modules', c))
    && (forall k :: k in ModulesAt(modules', c) <==> if k == m then unit != 0 else k in ModulesAt(modules, c))
    && forall d :: d != c ==> ModulesAt(modules', d) == ModulesAt(modules, d)
  }

  lemma ExternalEdited(l: Ledger, c: Component, m: Module, unit: int, before: seq<Component>, after: seq<Component>,
                       modules: map<Component, seq<Module>>, modules': map<Component, seq<Module>>)
    requires Tidy(l, before, modules) && ListsAfterExternal(l, c, m, unit, before, after, modules, modules')
    ensures EditExternalUnit(l, c, m, unit).Some? ==> Tidy(EditExternalUnit(l, c, m, unit).value, after, modules')
  {
    if EditExternalUnit(l, c, m, unit).Some? {
      var l' := EditExternalUnit(l, c, m, unit).value;
      ExternalEffect(l, c, m, unit);
      forall p | p != External(c, m) ensures UnitAt(l', p) == UnitAt(l, p) {
        OtherUnitKept(l, l', c, m, p);
      }
      assert Held(l') == Held(l);
      forall d ensures ModulesListed(l', modules', d) {
        assert ModulesListed(l, modules, d);
        if d == c { OtherModulesKept(Externals(l, c), Externals(l', c), m); }
      }
    }
  }

  /** Opening a position lists its component and its module unless they are listed. */
  lemma ExternalOpened(l: Ledger, c: Component, m: Module, unit: int, before: seq<Component>, after: seq<Component>,
                       modules: map<Component, seq<Module>>, modules': map<Component, seq<Module>>)
    requires Tidy(l, before, modules) && unit != 0
    requires after == if c in before then before else before + [c]
    requires modules' == if m in ModulesAt(modules, c) then modules else modules[c := ModulesAt(modules, c) + [m]]
    ensures EditExternalUnit(l, c, m, unit).Some? ==> Tidy(EditExternalUnit(l, c, m, unit).value, after, modules')
  {
    assert ModulesListed(l, modules, c);
    ExternalEdited(l, c, m, unit, before, after, modules, modules');
  }

  /** Closing one drops its module, and its component with the last position. */
  lemma ExternalClosed(l: Ledger, c: Component, m: Module, before: seq<Component>, after: seq<Component>,
                       modules: map<Component, seq<Module>>, rest: seq<Module>)
    requires Tidy(l, before, modules) && m in Externals(l, c) && NoDuplicates(after) && NoDuplicates(rest)
    requires forall d :: d in after <==> d in before && (d == c ==> c in Held(l) || |ModulesAt(modules, c)| != 1)
    requires forall k :: k in rest <==> k in ModulesAt(modules, c) && k != m
    ensures var r := EditExternalUnit(l, c, m, 0); r.Some? && Tidy(r.value, after, modules[c := rest])
  {
    assert ModulesListed(l, modules, c);
    LastModule(Externals(l, c), ModulesAt(modules, c), m);
    ExternalEdited(l, c, m, 0, before, after, modules, modules[c := rest]);
  }

  lemma OtherModulesKept(before: map<Module, int>, after: map<Module, int>, m: Module)
    requires after - {m} == before - {m}
    ensures forall k :: k != m ==> (k in after <==> k in before) && (k in after ==> after[k] == before[k])
  {
    forall k | k != m ensures (k in after <==> k in before) && (k in after ==> after[k] == before[k]) {
      assert k in after <==> k in after - {m};
      assert k in before <==> k in before - {m};
      assert k in after ==> (after - {m})[k] == (before - {m})[k];
    }
  }

  lemma OtherUnitKept(l: Ledger, l': Ledger, c: Component, m: Module, p: Place)
    requires l' == l.(externals := l'.externals) && p != External(c, m)
    requires forall d :: d != c ==> Externals(l', d) == Externals(l, d)
    requires Externals(l', c) - {m} == Externals(l, c) - {m}
    ensures UnitAt(l', p) == UnitAt(l, p)
  {
    OtherModulesKept(Externals(l, c), Externals(l', c), m);
  }
}
