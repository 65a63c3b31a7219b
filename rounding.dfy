/** Integer stand-ins for the floating-point rounding that `swap` performs:
    `np.round(np.sqrt(n))` for the default subsystem dimensions and
    `np.round(a / d)` together with `|a / d - np.round(a / d)|` for the
    divisibility test of an integer `dim`. Each is stated over the exact real
    value the float approximates. */
module Rounding {

  function Abs(x: int): nat
  {
    if x < 0 then -x else x
  }

  /** `r` is `round(sqrt(n))`: `|r - sqrt(n)| <= 1/2`, squared (times four) so
      that it stays in the integers. For `r == 0` the lower bound is vacuous. */
  predicate IsRoundedSqrt(n: nat, r: int)
  {
    && r >= 0
    && 4 * n <= (2 * r + 1) * (2 * r + 1)
    && (r == 0 || (2 * r - 1) * (2 * r - 1) <= 4 * n)
  }

  /** The integer nearest to `sqrt(n)`. */
  function RoundSqrt(n: nat): (r: nat)
    ensures IsRoundedSqrt(n, r)
  {
    RoundSqrtFrom(n, 0)
  }

  /** Searches upwards from a candidate `r` that is not above `sqrt(n) + 1/2`. */
  function RoundSqrtFrom(n: nat, r: nat): (s: nat)
    requires r <= n
    requires r == 0 || (2 * r - 1) * (2 * r - 1) <= 4 * n
    ensures IsRoundedSqrt(n, s)
    decreases n - r
  {
    if 4 * n <= (2 * r + 1) * (2 * r + 1) then r
    else
      assert (2 * r + 1) * (2 * r + 1) == 4 * (r * r + r) + 1;
      assert r * r >= 0;
      RoundSqrtFrom(n, r + 1)
  }

  lemma SquareMonotonic(a: int, b: int)
    requires 0 <= a <= b
    ensures a * a <= b * b
  {
    assert a * a <= a * b;
    assert a * b <= b * b;
  }

  lemma OddSquare(x: int)
    ensures (2 * x + 1) * (2 * x + 1) == 4 * (x * x + x) + 1
  {
  }

  /** `sqrt(n)` is never exactly half-way between two integers, so the
      rounded square root is unique (the tie rule of `np.round` never applies). */
  lemma RoundedSqrtIsUnique(n: nat, r1: int, r2: int)
    requires IsRoundedSqrt(n, r1) && IsRoundedSqrt(n, r2)
    ensures r1 == r2
  {
    if r1 != r2 {
      var lo, hi := if r1 < r2 then r1 else r2, if r1 < r2 then r2 else r1;
      // Squeezed between the two bounds, 4 * n would equal an odd square.
      SquareMonotonic(2 * lo + 1, 2 * hi - 1);
      OddSquare(lo);
    }
  }

  /** On a perfect square the rounded square root is exact. */
  lemma RoundSqrtOfSquare(k: nat)
    ensures RoundSqrt(k * k) == k
  {
    assert (2 * k + 1) * (2 * k + 1) == 4 * (k * k) + 4 * k + 1;
    assert (2 * k - 1) * (2 * k - 1) == 4 * (k * k) - 4 * k + 1;
    assert IsRoundedSqrt(k * k, k);
    RoundedSqrtIsUnique(k * k, RoundSqrt(k * k), k);
  }

  /** `q` is `np.round(a / d)` for the exact real `a / d`: an integer nearest
      to it, the even one when `a / d` lies half-way between two integers. */
  predicate IsRoundedQuotient(a: int, d: int, q: int)
  {
    && 2 * Abs(a - d * q) <= Abs(d)
    && (2 * Abs(a - d * q) == Abs(d) ==> q % 2 == 0)
  }

  /** The rounded quotient: it is exact exactly when `d` divides `a`. */
  function RoundedQuotient(a: int, d: int): (q: int)
    requires d != 0
    ensures IsRoundedQuotient(a, d, q)
    ensures a % d == 0 <==> a == d * q
    ensures a % d == 0 ==> q == a / d
  {
    var q, m := a / d, a % d;
    var next := if d > 0 then q + 1 else q - 1;
    assert a - d * q == m;
    assert a - d * next == m - Abs(d);
    if 2 * m < Abs(d) then q
    else if 2 * m > Abs(d) then next
    else if q % 2 == 0 then q
    else next
  }

  lemma AbsScaled(d: int, k: nat)
    ensures Abs(d * k) == Abs(d) * k
  {
    if d < 0 { assert d * k == -(Abs(d) * k); }
  }

  /** Two distinct integers within half of `|d|` of `a` (in units of `1/|d|`)
      are neighbours, and `a / d` lies exactly half-way between them. */
  lemma NearQuotientsAreTied(a: int, d: int, lo: int, hi: int)
    requires d != 0 && lo < hi
    requires 2 * Abs(a - d * lo) <= Abs(d) && 2 * Abs(a - d * hi) <= Abs(d)
    ensures hi == lo + 1
    ensures 2 * Abs(a - d * lo) == Abs(d) && 2 * Abs(a - d * hi) == Abs(d)
  {
    var k, e1, e2 := hi - lo, a - d * lo, a - d * hi;
    assert e1 - e2 == d * k;
    AbsScaled(d, k);
    // |d| * k <= |e1| + |e2| <= |d|, and |d| * k >= 2 * |d| once k >= 2.
    assert Abs(d) * k <= Abs(d);
    if k > 1 {
      ScaledAtLeastTwice(Abs(d), k);
    }
  }

  lemma ScaledAtLeastTwice(x: nat, k: int)
    requires k >= 2
    ensures x * k >= 2 * x
  {
    assert x * k == 2 * x + x * (k - 2);
  }

  /** The rounded quotient is the only integer with its defining property. */
  lemma RoundedQuotientIsUnique(a: int, d: int, q1: int, q2: int)
    requires d != 0
    requires IsRoundedQuotient(a, d, q1) && IsRoundedQuotient(a, d, q2)
    ensures q1 == q2
  {
    // Two different roundings would be neighbours, and both even.
    if q1 < q2 {
      NearQuotientsAreTied(a, d, q1, q2);
    } else if q2 < q1 {
      NearQuotientsAreTied(a, d, q2, q1);
    }
  }

  /** `|a / d - np.round(a / d)|`, measured in units of `1 / |d|`: zero exactly
      when `d` divides `a`, never more than half of `|d|`. */
  function Deviation(a: int, d: int): (r: nat)
    requires d != 0
    ensures 2 * r <= Abs(d)
    ensures r == 0 <==> a % d == 0
  {
    Abs(a - d * RoundedQuotient(a, d))
  }
}
