/** contracts/protocol/SetTokenCreator.sol and contracts/protocol/modules/v1/StreamingFeeModule.sol: how a set
    comes to be, and the module that charges it over time. */
module SetModules {
  import opened Options
  import opened Rounding
  import opened FixedPoint
  import opened StreamingFee
  import opened SetLedger
  import opened LedgerLaws
  import opened ComponentLists
  import opened SetTokens

  const NullAddress: Component := ""

  /** Arguments from which the creator makes a set; `isModule` is what the controller answers. */
  predicate Creatable(components: seq<Component>, units: seq<int>, modules: seq<Module>, manager: Component,
                      isModule: Module -> bool)
  {
    && 0 < |components| == |units| && NoDuplicates(components) && 0 < |modules| && manager != NullAddress
    && (forall i :: 0 <= i < |components| ==> components[i] != NullAddress && 0 < units[i])
    && forall j :: 0 <= j < |modules| ==> isModule(modules[j])
  }

  /** `create`: a valid set of exactly these positions, or a revert. */
  method Create(components: seq<Component>, units: seq<int>, modules: seq<Module>, manager: Component,
                isModule: Module -> bool)
    returns (token: SetToken?)
    ensures token != null <==> Creatable(components, units, modules, manager, isModule)
    ensures token != null ==> fresh(token) && token.Valid() && token.supply == 0
    ensures token != null ==> token.positionMultiplier == PRECISE_UNIT && token.components == components
    ensures token != null ==> forall i :: 0 <= i < |units| ==> Real(token.State(), components[i]) == units[i]
    ensures token != null ==> token.externalUnits == map[]
  {
    token := null;
    if |components| == 0 || |components| != |units| {
      return;
    }
    var duplicate := HasDuplicate(components);
    if duplicate || |modules| == 0 || manager == NullAddress {
      return;
    }
    for i := 0 to |components|
      invariant forall k :: 0 <= k < i ==> components[k] != NullAddress && 0 < units[k]
    {
      if components[i] == NullAddress || units[i] <= 0 {
        return;
      }
    }
    for j := 0 to |modules|
      invariant forall k :: 0 <= k < j ==> isModule(modules[k])
    {
      if !isModule(modules[j]) {
        return;
      }
    }
    var created := new SetToken(components, units);
    forall i | 0 <= i < |units| ensures Real(created.State(), components[i]) == units[i] {
      RealAtOne(created.State(), components[i]);
    }
    token := created;
  }

  lemma RealAtOne(l: Ledger, c: Component)
    requires l.multiplier == PRECISE_UNIT
    ensures Real(l, c) == Virtual(l, c)
  {
  }

  /** A fee is the yearly rate for the elapsed seconds, rounded down. */
  predicate FeeOver(elapsed: int, rate: int, fee: int)
  {
    fee * 31557600 <= elapsed * rate < (fee + 1) * 31557600
  }

  /** A charge by numbers: the old supply is what the fee leaves of the new one, rounded down, the new
      multiplier what it leaves of the old one, and nothing else changes. */
  ghost predicate ChargedBy(before: Ledger, after: Ledger, fee: int)
  {
    && 0 <= fee < 1_000_000_000_000_000_000
    && IsFloor(after.supply, before.supply * 1_000_000_000_000_000_000, 1_000_000_000_000_000_000 - fee)
    && IsFloor(after.multiplier, before.multiplier * (1_000_000_000_000_000_000 - fee), 1_000_000_000_000_000_000)
    && after == before.(supply := after.supply, multiplier := after.multiplier)
  }

  /** What cannot be charged: all or more of the supply, or what loses a position. */
  ghost predicate Unchargeable(before: Ledger, fee: int, multiplier: int)
  {
    || PRECISE_UNIT <= fee
    || (IsFloor(multiplier, before.multiplier * (PRECISE_UNIT - fee), PRECISE_UNIT) && !Survives(before, multiplier))
  }

  ghost predicate Charges(before: Ledger, after: Ledger, elapsed: int, rate: int)
  {
    exists fee :: FeeOver(elapsed, rate, fee) && ChargedBy(before, after, fee)
  }

  ghost predicate CannotCharge(before: Ledger, elapsed: int, rate: int)
  {
    exists fee, multiplier :: FeeOver(elapsed, rate, fee) && Unchargeable(before, fee, multiplier)
  }

  lemma ChargeByNumbers(before: Ledger, rate: int, last: int, now: int)
    requires WellFormed(before) && 0 <= rate && last <= now
    ensures var next := Next(before, AccrueFee(FeeForPeriod(rate, last, now)));
            && (next.Some? ==> Charges(before, next.value, now - last, rate))
            && (next.None? ==> CannotCharge(before, now - last, rate))
  {
    var fee := FeeForPeriod(rate, last, now);
    var supply, multiplier := AccrueByNumbers(before, fee);
    assert FeeOver(now - last, rate, fee);
    if Next(before, AccrueFee(fee)).Some? {
      assert ChargedBy(before, Next(before, AccrueFee(fee)).value, fee);
    } else {
      assert Unchargeable(before, fee, multiplier);
    }
  }

  /** `StreamingFeeModule` on one set: a yearly rate, its maximum, and when it was last charged. */
  class FeeModule {
    const token: SetToken
    const maxRate: int
    var rate: int
    var lastTimestamp: int

    ghost predicate Valid()
      reads this, token
    {
      token.Valid() && 0 <= rate <= maxRate < PRECISE_UNIT
    }

    constructor (token: SetToken, rate: int, maxRate: int, now: int)
      requires token.Valid() && 0 <= rate <= maxRate < PRECISE_UNIT
      ensures Valid() && this.token == token && this.maxRate == maxRate && this.rate == rate && lastTimestamp == now
    {
      this.token, this.maxRate, this.rate, lastTimestamp := token, maxRate, rate, now;
    }

    /** What is charged at a given time: nothing of the ledger at a zero rate. */
    ghost function Charge(now: int): (r: Option<Ledger>)
      reads this, token
      requires Valid()
    {
      if rate == 0 then Some(token.State())
      else if now < lastTimestamp then None
      else Next(token.State(), AccrueFee(PredictedFee(rate, lastTimestamp, now, None)))
    }

    /** `accrueFee`: charges the fee for the time since the last charge, and takes note of the time. At a zero rate only
        the time is noted; a clock behind the last charge reverts. */
    method Accrue(now: int) returns (ok: bool)
      requires Valid()
      modifies this`lastTimestamp, token`supply, token`positionMultiplier
      ensures Valid()
      ensures ok == old(Charge(now)).Some?
      ensures ok ==> lastTimestamp == now && token.State() == old(Charge(now)).value
      ensures ok && rate > 0 ==>
                old(lastTimestamp) <= now && Charges(old(token.State()), token.State(), now - old(lastTimestamp), rate)
      ensures ok && rate == 0 ==> token.State() == old(token.State())
      ensures !ok ==> rate > 0 && (now < old(lastTimestamp)
                                   || CannotCharge(old(token.State()), now - old(lastTimestamp), rate))
      ensures !ok ==> lastTimestamp == old(lastTimestamp) && token.State() == old(token.State())
    {
      ok := true;
      if rate > 0 {
        if now < lastTimestamp {
          return false;
        }
        ChargeByNumbers(token.State(), rate, lastTimestamp, now);
        ok := token.Accrue(FeeForPeriod(rate, lastTimestamp, now));
      }
      if ok {
        lastTimestamp := now;
      }
    }

    /** `updateStreamingFee`: what has accrued is charged at the old rate first. */
    method UpdateRate(newRate: int, now: int) returns (ok: bool)
      requires Valid() && 0 <= newRate
      modifies this`rate, this`lastTimestamp, token`supply, token`positionMultiplier
      ensures Valid()
      ensures ok == (newRate < maxRate && old(Charge(now)).Some?)
      ensures ok ==> rate == newRate && lastTimestamp == now && token.State() == old(Charge(now)).value
      ensures ok && old(rate) > 0 ==>
                && old(lastTimestamp) <= now
                && Charges(old(token.State()), token.State(), now - old(lastTimestamp), old(rate))
      ensures ok && old(rate) == 0 ==> token.State() == old(token.State())
      ensures !ok ==> rate == old(rate) && lastTimestamp == old(lastTimestamp) && token.State() == old(token.State())
    {
      if newRate >= maxRate {
        return false;
      }
      ok := Accrue(now);
      if ok {
        rate := newRate;
      }
    }
  }
}
