/** utils/common/mathUtils.ts and contracts/lib/PreciseUnitMath.sol: arithmetic on integers that
    stand for decimals with eighteen places. */
module FixedPoint {
  import opened Rounding

  const PRECISE_UNIT: int := 1_000_000_000_000_000_000

  /** `BigNumber.div` and Solidity's signed `/`: the quotient truncated towards zero. */
  function TruncDiv(a: int, b: int): (q: int)
    requires b != 0
    ensures 0 <= a && 0 < b ==> 0 <= q && q * b <= a < q * b + b
  {
    FloorBounds(Abs(a), Abs(b));
    if (0 <= a) == (0 < b) then Abs(a) / Abs(b) else -(Abs(a) / Abs(b))
  }

  function PreciseMul(a: int, b: int): (r: int)
    ensures 0 <= a && 0 <= b ==> 0 <= r && r * PRECISE_UNIT <= a * b < r * PRECISE_UNIT + PRECISE_UNIT
  {
    assert 0 <= a && 0 <= b ==> 0 <= a * b;
    TruncDiv(a * b, PRECISE_UNIT)
  }

  function PreciseMulCeil(a: int, b: int): (r: int)
    ensures 0 <= a && 0 <= b ==> 0 <= r && r * PRECISE_UNIT - PRECISE_UNIT < a * b <= r * PRECISE_UNIT
  {
    if a == 0 || b == 0 then 0
    else
      assert 0 < a && 0 < b ==> 0 < a * b;
      TruncDiv(a * b - 1, PRECISE_UNIT) + 1
  }

  function PreciseMulCeilInt(a: int, b: int): int
  {
    if a == 0 || b == 0 then 0
    else if (a > 0 && b > 0) || (a < 0 && b < 0) then TruncDiv(a * b - 1, PRECISE_UNIT) + 1
    else TruncDiv(a * b + 1, PRECISE_UNIT) - 1
  }

  function PreciseDiv(a: int, b: int): (r: int)
    requires b != 0
    ensures 0 <= a && 0 < b ==> 0 <= r && r * b <= a * PRECISE_UNIT < r * b + b
  {
    TruncDiv(a * PRECISE_UNIT, b)
  }

  /** Unlike the truncating form, a zero divisor is answered with zero. */
  function PreciseDivCeil(a: int, b: int): (r: int)
    ensures 0 <= a && 0 < b ==> 0 <= r && r * b - b < a * PRECISE_UNIT <= r * b
    ensures b == 0 ==> r == 0
  {
    if a == 0 || b == 0 then 0
    else TruncDiv(a * PRECISE_UNIT - 1, b) + 1
  }

  function PreciseDivCeilInt(a: int, b: int): int
    requires b != 0
  {
    var result := TruncDiv(a * PRECISE_UNIT, b);
    if result * b == a * PRECISE_UNIT then result
    else if (a > 0 && b > 0) || (a < 0 && b < 0) then result + 1
    else result - 1
  }

  function Min(a: int, b: int): (r: int)
    ensures r <= a && r <= b && (r == a || r == b)
  {
    if a < b then a else b
  }

  /** `divDown`: truncate, then step down when a non-zero remainder was rounded up towards zero. */
  method DivDown(a: int, b: int) returns (result: int)
    requires b != 0
    ensures result == FloorDiv(a, b)
  {
    result := TruncDiv(a, b);
    if a < 0 && b > 0 && a % b != 0 {
      result := result - 1;
    } else if a > 0 && b < 0 && a % -b != 0 {
      result := result - 1;
    }
    TruncateThenStepDown(a, b);
  }

  lemma TruncateThenStepDown(a: int, b: int)
    requires b != 0
    ensures FloorDiv(a, b) == TruncDiv(a, b)
                              - (if (a < 0 && b > 0 && a % b != 0) || (a > 0 && b < 0 && a % -b != 0) then 1 else 0)
  {
    if a < 0 && 0 < b {
      FloorOfNegation(-a, b);
    } else if 0 <= a && b < 0 {
      FloorOfNegation(a, -b);
    }
  }

  lemma FloorOfNegation(n: int, d: int)
    requires 0 <= n && 0 < d
    ensures (-n) % d == 0 <==> n % d == 0
    ensures (-n) / d == -(n / d) - (if n % d == 0 then 0 else 1)
  {
    FloorBounds(n, d);
    FloorBounds(-n, d);
    NegatedBracket(n, d, n / d, (-n) / d);
    assert n % d == n - n / d * d && (-n) % d == -n - (-n) / d * d;
  }

  lemma NegatedBracket(n: int, d: int, q: int, k: int)
    requires 0 < d && q * d <= n < q * d + d && k * d <= -n < k * d + d
    ensures k == if q * d == n then -q else -q - 1
    ensures k * d == -n <==> q * d == n
  {
    assert -q * d == -(q * d) && (-q - 1) * d == -(q * d) - d;
    SameMultiple(k, if q * d == n then -q else -q - 1, d);
  }

  // ----- Rounding towards zero -----

  /** `q` is the exact quotient of `n` by `d` rounded towards zero. */
  ghost predicate Truncates(q: int, n: int, d: int)
  {
    && Abs(q) * Abs(d) <= Abs(n) < Abs(q) * Abs(d) + Abs(d)
    && (0 < q ==> (0 < n && 0 < d) || (n < 0 && d < 0))
    && (q < 0 ==> (0 < n && d < 0) || (n < 0 && 0 < d))
  }

  lemma TruncatesUnique(p: int, q: int, n: int, d: int)
    requires d != 0 && Truncates(p, n, d) && Truncates(q, n, d)
    ensures p == q
  {
    SameMultiple(Abs(p), Abs(q), Abs(d));
  }

  lemma TruncDivTruncates(n: int, d: int)
    requires d != 0
    ensures Truncates(TruncDiv(n, d), n, d)
  {
    var q := Abs(n) / Abs(d);
    FloorBounds(Abs(n), Abs(d));
    assert Abs(TruncDiv(n, d)) == q;
    if n == 0 { TruncDivOfZero(d); }
  }

  /** Multiplication and division round their exact result towards zero, for all signs. */
  lemma PreciseMulTruncates(a: int, b: int)
    ensures Truncates(PreciseMul(a, b), a * b, PRECISE_UNIT)
  {
    TruncDivTruncates(a * b, PRECISE_UNIT);
  }

  lemma PreciseDivTruncates(a: int, b: int)
    requires b != 0
    ensures Truncates(PreciseDiv(a, b), a * PRECISE_UNIT, b)
  {
    TruncDivTruncates(a * PRECISE_UNIT, b);
  }

  // ----- Rounding away from zero -----

  /** `q` is the exact quotient of `n` by `d` rounded away from zero. */
  ghost predicate RoundsAway(q: int, n: int, d: int)
  {
    && Abs(n) <= Abs(q) * Abs(d) < Abs(n) + Abs(d)
    && (0 < q ==> (0 < n && 0 < d) || (n < 0 && d < 0))
    && (q < 0 ==> (0 < n && d < 0) || (n < 0 && 0 < d))
  }

  lemma RoundsAwayUnique(p: int, q: int, n: int, d: int)
    requires d != 0 && RoundsAway(p, n, d) && RoundsAway(q, n, d)
    ensures p == q
  {
    SameMultiple(Abs(p), Abs(q), Abs(d));
  }

  /** Subtract one, divide, add one: the unsigned recipe, away from zero on a positive dividend. */
  lemma CeilBySubtraction(n: int, d: int)
    requires 0 < n && 0 < d
    ensures TruncDiv(n - 1, d) + 1 == CeilDiv(n, d)
    ensures RoundsAway(CeilDiv(n, d), n, d)
  {
    var q := TruncDiv(n - 1, d) + 1;
    assert (q - 1) * d == q * d - d;
    SameMultiple(q, CeilDiv(n, d), d);
  }

  lemma TruncDivIsOdd(a: int, b: int)
    requires b != 0
    ensures TruncDiv(-a, b) == TruncDiv(a, -b) == -TruncDiv(a, b)
  {
  }

  /** Both signed ceilings are odd in each argument. */
  lemma MulCeilIntIsOdd(a: int, b: int)
    ensures PreciseMulCeilInt(-a, b) == PreciseMulCeilInt(a, -b) == -PreciseMulCeilInt(a, b)
  {
    var n := a * b;
    assert (-a) * b == -n && a * (-b) == -n;
    TruncDivIsOdd(n - 1, PRECISE_UNIT);
    TruncDivIsOdd(n + 1, PRECISE_UNIT);
  }

  lemma DivCeilIntIsOdd(a: int, b: int)
    requires b != 0
    ensures PreciseDivCeilInt(-a, b) == PreciseDivCeilInt(a, -b) == -PreciseDivCeilInt(a, b)
  {
    var n := a * PRECISE_UNIT;
    var t := TruncDiv(n, b);
    TruncDivIsOdd(n, b);
    NegatedQuotient(t, b, n);
    if n == 0 { TruncDivOfZero(b); }
  }

  lemma NegatedQuotient(t: int, b: int, n: int)
    ensures (-t) * b == -n <==> t * b == n
    ensures (-t) * (-b) == n <==> t * b == n
  {
  }

  lemma TruncDivOfZero(b: int)
    requires b != 0
    ensures TruncDiv(0, b) == 0
  {
  }

  /** The two signed ceilings, written with different recipes, are the same rounding. */
  lemma MulCeilIntRoundsAway(a: int, b: int)
    ensures RoundsAway(PreciseMulCeilInt(a, b), a * b, PRECISE_UNIT)
    decreases a < 0, b < 0
  {
    if a < 0 {
      MulCeilIntIsOdd(a, b);
      MulCeilIntRoundsAway(-a, b);
      assert (-a) * b == -(a * b);
    } else if b < 0 {
      MulCeilIntIsOdd(a, b);
      MulCeilIntRoundsAway(a, -b);
      assert a * (-b) == -(a * b);
    } else if a != 0 && b != 0 {
      MulLt(0, a, b);
      CeilBySubtraction(a * b, PRECISE_UNIT);
    }
  }

  lemma DivCeilIntRoundsAway(a: int, b: int)
    requires b != 0
    ensures RoundsAway(PreciseDivCeilInt(a, b), a * PRECISE_UNIT, b)
    decreases a < 0, b < 0
  {
    if a < 0 {
      DivCeilIntIsOdd(a, b);
      DivCeilIntRoundsAway(-a, b);
    } else if b < 0 {
      DivCeilIntIsOdd(a, b);
      DivCeilIntRoundsAway(a, -b);
    } else {
      var t := TruncDiv(a * PRECISE_UNIT, b);
      assert (t + 1) * b == t * b + b;
    }
  }

  /** On non-negative inputs all four ceilings are the mathematical ceiling. */
  lemma CeilingsAgree(a: int, b: int)
    requires 0 <= a && 0 <= b
    ensures PreciseMulCeil(a, b) == PreciseMulCeilInt(a, b) == CeilDiv(a * b, PRECISE_UNIT)
    ensures 0 < b ==> PreciseDivCeil(a, b) == PreciseDivCeilInt(a, b) == CeilDiv(a * PRECISE_UNIT, b)
  {
    if 0 < a && 0 < b {
      assert 0 < a * b;
      CeilBySubtraction(a * b, PRECISE_UNIT);
      CeilBySubtraction(a * PRECISE_UNIT, b);
      DivCeilIntRoundsAway(a, b);
      RoundsAwayUnique(PreciseDivCeilInt(a, b), CeilDiv(a * PRECISE_UNIT, b), a * PRECISE_UNIT, b);
    } else if 0 < b {
      CeilLeast(0, b, 0);
    }
  }

  /** On a negative product the unsigned recipe is not the ceiling, unless the product is one above a
      multiple of the scale: the exact condition for the helper to keep its name. */
  lemma MulCeilIsCeilingIff(a: int, b: int)
    ensures PreciseMulCeil(a, b) == CeilDiv(a * b, PRECISE_UNIT)
            <==> 0 <= a * b || (-(a * b)) % PRECISE_UNIT == PRECISE_UNIT - 1
  {
  }

  lemma MulCeilOfNegativeProduct()
    ensures PreciseMulCeil(-1, 1) == 1 != CeilDiv(-1, PRECISE_UNIT)
  {
  }

  /** The ceiling of a quotient by a divisor of either sign. */
  function CeilQuotient(n: int, d: int): int
    requires d != 0
  {
    if 0 < d then CeilDiv(n, d) else CeilDiv(-n, -d)
  }

  /** The same for division. With one negative argument the recipe is the ceiling only one below a
      multiple of the divisor, with two only off the multiples and not one below the next; a positive
      dividend over a negative divisor is never rounded up. */
  lemma DivCeilIsCeilingIff(a: int, b: int)
    requires b != 0
    ensures var n := Abs(a * PRECISE_UNIT);
            PreciseDivCeil(a, b) == CeilQuotient(a * PRECISE_UNIT, b)
            <==> || a == 0
                 || (0 < a && 0 < b)
                 || (a < 0 < b && n % b == b - 1)
                 || (a < 0 && b < 0 && 0 < n % -b < -b - 1)
  {
    var n, d := Abs(a * PRECISE_UNIT), Abs(b);
    if a == 0 {
      CeilLeast(0, d, 0);
      CeilLeast(0, d, -1);
    } else if a > 0 && b > 0 {
      CeilBySubtraction(n, d);
    } else {
      CeilOfQuotient(n, d);
      NextQuotient(n, d);
      NextQuotient(n - 1, d);
      CeilOfNegation(n, d);
    }
  }

  lemma CeilOfQuotient(n: int, d: int)
    requires 0 < n && 0 < d
    ensures CeilDiv(n, d) == n / d + (if n % d == 0 then 0 else 1)
  {
    FloorBounds(n, d);
    Remainder(n, d, n / d);
    CeilUnique(n, d, n / d + (if n % d == 0 then 0 else 1));
  }

  lemma CeilOfNegation(n: int, d: int)
    requires 0 < n && 0 < d
    ensures CeilDiv(-n, d) == -(n / d)
  {
    FloorBounds(n, d);
    CeilUnique(-n, d, -(n / d)) by { assert -(n / d) * d == -(n / d * d); }
  }

  lemma CeilUnique(n: int, d: int, q: int)
    requires 0 < d && q * d - d < n <= q * d
    ensures CeilDiv(n, d) == q
  {
    SameMultiple(CeilDiv(n, d), q, d);
  }

  lemma NextQuotient(n: int, d: int)
    requires 0 <= n && 0 < d
    ensures (n + 1) / d == n / d + (if n % d == d - 1 then 1 else 0)
  {
    FloorBounds(n, d);
    Remainder(n, d, n / d);
    var q := n / d + (if n % d == d - 1 then 1 else 0);
    assert (n / d + 1) * d == n / d * d + d;
    Remainder(n + 1, d, q);
  }

  lemma DivCeilOfNegativeQuotient()
    ensures PreciseDivCeil(-1, 2) == 1 - PRECISE_UNIT / 2 != CeilQuotient(-PRECISE_UNIT, 2)
  {
  }

  // ----- Unit conversions -----

  /** Truncated multiplication is adjoint to rounded-up division: `x` real units are worth at least
      `v` exactly when `x` reaches the rounded-up quotient. */
  lemma MulAdjointDivCeil(x: int, m: int, v: int)
    requires 0 <= x && 0 < m && 0 <= v
    ensures v <= PreciseMul(x, m) <==> PreciseDivCeil(v, m) <= x
  {
    CeilingsAgree(v, m);
    FloorGreatest(x * m, PRECISE_UNIT, v);
    CeilLeast(v * PRECISE_UNIT, m, x);
    assert PreciseMul(x, m) == x * m / PRECISE_UNIT by { assert 0 <= x * m; }
  }

  /** Truncated division is adjoint to rounded-up multiplication. */
  lemma DivAdjointMulCeil(v: int, m: int, x: int)
    requires 0 <= x && 0 < m && 0 <= v
    ensures x <= PreciseDiv(v, m) <==> PreciseMulCeil(x, m) <= v
  {
    CeilingsAgree(x, m);
    FloorGreatest(v * PRECISE_UNIT, m, x);
    CeilLeast(x * m, PRECISE_UNIT, v);
  }

  /** At a multiplier of at most one, dividing up and multiplying back is lossless. */
  lemma DivCeilThenMul(v: int, m: int)
    requires 0 <= v && 0 < m <= PRECISE_UNIT
    ensures PreciseMul(PreciseDivCeil(v, m), m) == v
  {
  }

  /** At a multiplier of at least one, multiplying and dividing up is lossless. */
  lemma MulThenDivCeil(x: int, m: int)
    requires 0 <= x && PRECISE_UNIT <= m
    ensures PreciseDivCeil(PreciseMul(x, m), m) == x
  {
    var v := PreciseMul(x, m);
    SameMultiple(PreciseDivCeil(v, m), x, m);
  }

  /** Real to virtual to real, as the NAV helpers normalise: never gains, and loses less than one
      scale unit per multiplier unit beyond the first. */
  lemma MulThenDivLoses(x: int, m: int)
    requires 0 <= x && 0 < m
    ensures 0 <= PreciseDiv(PreciseMul(x, m), m) <= x
    ensures (x - PreciseDiv(PreciseMul(x, m), m) - 1) * m < PRECISE_UNIT
  {
  }

  /** The other order, as `SetToken` stores units: never gains, and loses at most one wei at a
      multiplier of at most one. */
  lemma DivThenMulLoses(x: int, m: int)
    requires 0 <= x && 0 < m
    ensures 0 <= PreciseMul(PreciseDiv(x, m), m) <= x
    ensures (x - PreciseMul(PreciseDiv(x, m), m) - 1) * PRECISE_UNIT < m
    ensures m <= PRECISE_UNIT ==> x - PreciseMul(PreciseDiv(x, m), m) <= 1
  {
  }

  /** Exactly what each order loses: the remainder of its first step, in units of its second, rounded
      up. */
  lemma NormalisationLosses(x: int, m: int)
    requires 0 <= x && 0 < m
    ensures PreciseDiv(PreciseMul(x, m), m) == x - CeilDiv(x * m % PRECISE_UNIT, m)
    ensures PreciseMul(PreciseDiv(x, m), m) == x - CeilDiv(x * PRECISE_UNIT % m, PRECISE_UNIT)
  {
    var v, w := PreciseMul(x, m), PreciseDiv(x, m);
    Remainder(x * m, PRECISE_UNIT, v);
    Remainder(x * PRECISE_UNIT, m, w);
    ShortQuotient(x, x * m % PRECISE_UNIT, m, PreciseDiv(v, m));
    ShortQuotient(x, x * PRECISE_UNIT % m, PRECISE_UNIT, PreciseMul(w, m));
  }

  lemma ShortQuotient(x: int, e: int, d: int, q: int)
    requires 0 < d && q * d <= x * d - e < q * d + d
    ensures q == x - CeilDiv(e, d)
  {
    assert (x - q) * d == x * d - q * d;
    SameMultiple(x - q, CeilDiv(e, d), d);
  }

  /** Both orders lose nothing, or both exactly one wei. */
  predicate NormalisesAlike(x: int, m: int)
    requires 0 < m
  {
    var r, s := x * m % PRECISE_UNIT, x * PRECISE_UNIT % m;
    (r == 0 && s == 0) || (0 < r <= m && 0 < s <= PRECISE_UNIT)
  }

  /** Those are the only ways for them to agree: one of the two orders never loses more than a wei. */
  lemma NormalisationsAgreeIff(x: int, m: int)
    requires 0 <= x && 0 < m
    ensures PreciseDiv(PreciseMul(x, m), m) == PreciseMul(PreciseDiv(x, m), m) <==> NormalisesAlike(x, m)
  {
    NormalisationLosses(x, m);
    var r, s := x * m % PRECISE_UNIT, x * PRECISE_UNIT % m;
    CeilLeast(r, m, 0);
    CeilLeast(r, m, 1);
    CeilLeast(s, PRECISE_UNIT, 0);
    CeilLeast(s, PRECISE_UNIT, 1);
  }

  lemma NormalisationsDiffer()
    ensures var m := PRECISE_UNIT / 2; PreciseDiv(PreciseMul(1, m), m) == 0 && PreciseMul(PreciseDiv(1, m), m) == 1
  {
    var m := PRECISE_UNIT / 2;
    assert PreciseMul(1, m) == 0 && PreciseDiv(1, m) == 2;
  }

  // ----- Splitting a total by unit -----

  /** The amount each part gets when a unit is paid per token. */
  function Portions(unit: int, parts: seq<int>): (r: seq<int>)
    ensures |r| == |parts|
  {
    seq(|parts|, i requires 0 <= i < |parts| => PreciseMul(unit, parts[i]))
  }

  lemma {:induction false} PortionsWithinUnit(unit: int, parts: seq<int>)
    requires 0 <= unit && forall i :: 0 <= i < |parts| ==> 0 <= parts[i]
    ensures 0 <= Sum(parts) && 0 <= Sum(Portions(unit, parts))
    ensures Sum(Portions(unit, parts)) * PRECISE_UNIT <= unit * Sum(parts)
    decreases |parts|
  {
    if |parts| > 0 {
      var n := |parts| - 1;
      PortionsWithinUnit(unit, parts[..n]);
      assert Portions(unit, parts)[..n] == Portions(unit, parts[..n]);
      assert unit * Sum(parts) == unit * Sum(parts[..n]) + unit * parts[n];
    }
  }

  /** No over-claim: however holders split a supply, what their parts are worth, at the unit obtained
      by dividing a total by that supply, adds up to at most the total. */
  lemma PortionsWithinTotal(total: int, supply: int, parts: seq<int>)
    requires 0 <= total && 0 < supply && forall i :: 0 <= i < |parts| ==> 0 <= parts[i]
    requires Sum(parts) <= supply
    ensures Sum(Portions(PreciseDiv(total, supply), parts)) <= total
  {
    var unit := PreciseDiv(total, supply);
    PortionsWithinUnit(unit, parts);
    MulLe(Sum(parts), supply, unit);
  }

  /** And each part gets its share, short of it by less than a wei and what the unit truncated. */
  lemma PortionIsFair(total: int, supply: int, part: int)
    requires 0 <= total && 0 < supply && 0 <= part
    ensures var portion := PreciseMul(PreciseDiv(total, supply), part);
            && portion * supply <= total * part
            && total * part * PRECISE_UNIT < ((portion + 1) * PRECISE_UNIT + part) * supply
  {
    var unit := PreciseDiv(total, supply);
    var portion := PreciseMul(unit, part);
    ComposeProportions(supply, portion, total, part, unit, PRECISE_UNIT);
    TwoTruncations(total, supply, part, unit, portion, PRECISE_UNIT);
  }

  lemma TwoTruncations(total: int, supply: int, part: int, unit: int, portion: int, u: int)
    requires 0 < supply && 0 <= part
    requires total * u < unit * supply + supply && unit * part < portion * u + u
    ensures total * part * u < ((portion + 1) * u + part) * supply
  {
  }

  // ----- PreciseUnitMath's conservative forms -----

  /** `conservativePreciseMul`: divDown of the product, so that a debt is never understated. */
  function ConservativePreciseMul(a: int, b: int): (r: int)
    ensures r * PRECISE_UNIT <= a * b < r * PRECISE_UNIT + PRECISE_UNIT
  {
    FloorDiv(a * b, PRECISE_UNIT)
  }

  function ConservativePreciseDiv(a: int, b: int): (r: int)
    requires b != 0
    ensures 0 < b ==> r * b <= a * PRECISE_UNIT < r * b + b
  {
    FloorDiv(a * PRECISE_UNIT, b)
  }
}
