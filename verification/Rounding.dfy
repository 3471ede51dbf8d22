/** Integer rounding: the order-theoretic facts about floor and ceiling on which every
    fixed-point argument of the project rests. Nothing here mentions the fixed-point scale. */
module Rounding {

  /** Multiplying both sides of an inequality by a non-negative factor. */
  lemma MulLe(a: int, b: int, c: int)
    requires a <= b && 0 <= c
    ensures a * c <= b * c && c * a <= c * b
  {
  }

  lemma MulLt(a: int, b: int, c: int)
    requires a < b && 0 < c
    ensures a * c < b * c && c * a < c * b
  {
  }

  /** Cancelling a positive factor. */
  lemma CancelLe(a: int, b: int, c: int)
    requires 0 < c
    requires a * c <= b * c
    ensures a <= b
  {
  }

  lemma CancelLt(a: int, b: int, c: int)
    requires 0 <= c
    requires a * c < b * c
    ensures a < b
  {
  }

  /** Dafny's Euclidean quotient by a positive divisor is the floor. */
  lemma FloorBounds(n: int, d: int)
    requires 0 < d
    ensures n / d * d <= n < n / d * d + d
    ensures 0 <= n ==> 0 <= n / d
  {
  }

  /** Floor is the greatest quotient: the upper adjoint of multiplication. */
  lemma FloorGreatest(n: int, d: int, q: int)
    requires 0 < d
    ensures q <= n / d <==> q * d <= n
  {
    FloorBounds(n, d);
    if q <= n / d {
      MulLe(q, n / d, d);
    } else {
      MulLe(n / d + 1, q, d);
    }
  }

  /** The same, of any number that brackets the dividend. */
  lemma BracketGreatest(n: int, d: int, q: int, p: int)
    requires 0 < d
    requires q * d <= n < q * d + d
    ensures p <= q <==> p * d <= n
  {
    if p <= q { MulLe(p, q, d); } else { MulLe(q + 1, p, d); }
  }

  /** Two multiples less than one step apart are the same. */
  lemma SameMultiple(p: int, q: int, d: int)
    requires 0 < d
    requires q * d - d < p * d < q * d + d
    ensures p == q
  {
    if p < q { MulLe(p, q - 1, d); } else if q < p { MulLe(q + 1, p, d); }
  }

  /** `q` is `n` divided by `d`, rounded down. */
  predicate IsFloor(q: int, n: int, d: int)
  {
    q * d <= n < q * d + d
  }

  /** `q` is `n` divided by `d`, rounded up. */
  predicate IsCeiling(q: int, n: int, d: int)
  {
    q * d - d < n <= q * d
  }

  /** A number is the quotient exactly when it leaves a proper remainder. */
  lemma BracketUnique(n: int, d: int, q: int, p: int)
    requires 0 < d
    requires q * d <= n < q * d + d
    ensures p == q <==> 0 <= n - p * d < d
  {
    if 0 <= n - p * d < d { SameMultiple(p, q, d); }
  }

  /** The remainder of the Euclidean quotient. */
  lemma Remainder(n: int, d: int, q: int)
    requires 0 < d && q * d <= n < q * d + d
    ensures n / d == q && n % d == n - q * d
  {
    FloorBounds(n, d);
    SameMultiple(n / d, q, d);
  }

  /** The number rounded towards minus infinity when divided by a divisor of either sign. */
  function FloorDiv(n: int, d: int): (q: int)
    requires d != 0
    ensures 0 < d ==> q * d <= n < q * d + d
    ensures d < 0 ==> q * d + d < n <= q * d
  {
    FloorBounds(if 0 < d then n else -n, if 0 < d then d else -d);
    if 0 < d then n / d else -n / -d
  }

  /** The ceiling, defined by reflection. */
  function CeilDiv(n: int, d: int): (q: int)
    requires 0 < d
    ensures q * d - d < n <= q * d
    ensures 0 <= n ==> 0 <= q
  {
    FloorBounds(-n, d);
    var q := -(-n / d);
    assert q * d == -(-n / d * d);
    assert 0 <= n ==> 0 <= q by {
      if 0 <= n && q <= -1 { MulLe(q, -1, d); }
    }
    q
  }

  /** Ceiling is the least quotient: the lower adjoint of multiplication. */
  lemma CeilLeast(n: int, d: int, q: int)
    requires 0 < d
    ensures CeilDiv(n, d) <= q <==> n <= q * d
  {
    if CeilDiv(n, d) <= q {
      MulLe(CeilDiv(n, d), q, d);
    } else {
      MulLe(q, CeilDiv(n, d) - 1, d);
    }
  }

  /** Proportions compose: `q / p <= d / u` and `n / s <= u / d` give `n * q <= s * p`. */
  lemma ComposeProportions(n: int, q: int, s: int, p: int, d: int, u: int)
    requires 0 <= n && 0 <= p && 0 < u
    requires q * u <= p * d
    requires n * d <= s * u
    ensures n * q <= s * p
  {
  }

  /** The same with either premise strict. */
  lemma ComposeProportionsStrictly(n: int, q: int, s: int, p: int, d: int, u: int)
    requires 0 <= n && 0 <= p && 0 < u
    requires q * u <= p * d && n * d <= s * u
    requires (q * u < p * d && 0 < n) || (n * d < s * u && 0 < p)
    ensures n * q < s * p
  {
  }

  function Abs(x: int): (r: int)
    ensures 0 <= r && (r == x || r == -x)
  {
    if 0 <= x then x else -x
  }

  /** The sum of a sequence. */
  function Sum(xs: seq<int>): int
  {
    if |xs| == 0 then 0 else Sum(xs[..|xs| - 1]) + xs[|xs| - 1]
  }
}
