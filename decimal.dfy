/**
 * Exact decimal arithmetic in the manner of java.math.BigDecimal: a value is
 * `unscaled / 10^scale`, and two decimals with the same value but different
 * scales are different (as with BigDecimal.equals). Only the operations the
 * shop's pricing code uses are modelled: valueOf, ZERO, add, subtract,
 * multiply, divide with HALF_EVEN rounding, setScale with HALF_EVEN rounding
 * and compareTo.
 */
module Decimal {

  function Pow10(n: nat): (r: int)
    ensures r >= 1
  {
    if n == 0 then 1 else 10 * Pow10(n - 1)
  }

  lemma {:induction false} Pow10Add(m: nat, n: nat)
    ensures Pow10(m + n) == Pow10(m) * Pow10(n)
  {
    if m > 0 {
      Pow10Add(m - 1, n);
      assert Pow10(m + n) == 10 * Pow10(m - 1 + n);
      calc {
        10 * Pow10(m - 1 + n);
        10 * (Pow10(m - 1) * Pow10(n));
        (10 * Pow10(m - 1)) * Pow10(n);
      }
    }
  }

  function Abs(x: int): nat {
    if x < 0 then -x else x
  }

  function Max(a: nat, b: nat): nat {
    if a < b then b else a
  }

  /**
   * q is the integer nearest to n / d (d > 0); when n / d lies exactly halfway
   * between two integers, q is the even one. This is RoundingMode.HALF_EVEN.
   */
  predicate NearestHalfEven(q: int, n: int, d: int) {
    && d > 0
    && 2 * Abs(q * d - n) <= d
    && (2 * Abs(q * d - n) == d ==> q % 2 == 0)
  }

  /** NearestHalfEven for a divisor of either sign, as BigDecimal.divide allows. */
  predicate NearestQuotient(q: int, n: int, d: int) {
    if d < 0 then NearestHalfEven(q, -n, -d) else NearestHalfEven(q, n, d)
  }

  /** Integer division n / d rounded half-even. */
  function RoundHalfEven(n: int, d: int): (q: int)
    requires d > 0
    ensures NearestHalfEven(q, n, d)
  {
    var f, r := n / d, n % d;
    assert n == f * d + r;
    if 2 * r < d then
      assert f * d - n == -r;
      f
    else if 2 * r > d then
      assert (f + 1) * d - n == d - r;
      f + 1
    else if f % 2 == 0 then
      assert f * d - n == -r;
      f
    else
      assert (f + 1) * d - n == d - r;
      f + 1
  }

  lemma MulPositive(a: int, d: int)
    requires a >= 1 && d > 0
    ensures a * d >= d
    ensures a * d == d ==> a == 1
  {
    if a > 1 {
      assert a * d == (a - 1) * d + d;
      assert (a - 1) * d > 0;
    }
  }

  /** Two distinct multiples of d are at least d apart, and exactly d only when adjacent. */
  lemma MultipleGap(q1: int, q2: int, d: int)
    requires q1 > q2 && d > 0
    ensures q1 * d - q2 * d >= d
    ensures q1 * d - q2 * d == d ==> q1 == q2 + 1
  {
    assert q1 * d - q2 * d == (q1 - q2) * d;
    MulPositive(q1 - q2, d);
  }

  /** Half-even rounding is monotone in the dividend. */
  lemma NearestMonotone(q1: int, n1: int, q2: int, n2: int, d: int)
    requires NearestHalfEven(q1, n1, d) && NearestHalfEven(q2, n2, d)
    requires n1 <= n2
    ensures q1 <= q2
  {
    if q1 > q2 {
      MultipleGap(q1, q2, d);
      assert false;
    }
  }

  /** There is exactly one half-even rounding of n / d. */
  lemma NearestUnique(q1: int, q2: int, n: int, d: int)
    requires NearestHalfEven(q1, n, d) && NearestHalfEven(q2, n, d)
    ensures q1 == q2
  {
    NearestMonotone(q1, n, q2, n, d);
    NearestMonotone(q2, n, q1, n, d);
  }

  lemma AbsMul(e: int, k: int)
    requires k > 0
    ensures Abs(e * k) == Abs(e) * k
  {
    if e < 0 {
      assert e * k == -((-e) * k);
      assert (-e) * k > 0;
    } else {
      assert e * k >= 0;
    }
  }

  lemma MulCancel(x: int, y: int, k: int)
    requires k > 0
    ensures x <= y <==> x * k <= y * k
    ensures x == y <==> x * k == y * k
  {
    if x < y {
      MulPositive(y - x, k);
      assert y * k - x * k == (y - x) * k;
    } else if y < x {
      MulPositive(x - y, k);
      assert x * k - y * k == (x - y) * k;
    }
  }

  /** Scaling dividend and divisor by the same positive factor changes no rounding. */
  lemma NearestScaled(q: int, n: int, d: int, k: int)
    requires k > 0
    ensures NearestHalfEven(q, n, d) <==> NearestHalfEven(q, n * k, d * k)
  {
    var e := q * d - n;
    assert q * (d * k) - n * k == e * k;
    AbsMul(e, k);
    var a := Abs(e);
    MulCancel(2 * a, d, k);
    assert (2 * a) * k == 2 * (a * k);
    MulCancel(d, 0, k);
    MulCancel(0, d, k);
  }

  /** Rounding an exact multiple returns the exact quotient. */
  lemma RoundOfMultiple(q: int, d: int)
    requires d > 0
    ensures RoundHalfEven(q * d, d) == q
  {
    assert NearestHalfEven(q, q * d, d);
    NearestUnique(q, RoundHalfEven(q * d, d), q * d, d);
  }

  lemma RoundScaled(n: int, d: int, k: int)
    requires d > 0 && k > 0
    ensures RoundHalfEven(n * k, d * k) == RoundHalfEven(n, d)
  {
    var q := RoundHalfEven(n, d);
    NearestScaled(q, n, d, k);
    NearestUnique(q, RoundHalfEven(n * k, d * k), n * k, d * k);
  }

  lemma RoundMonotone(n1: int, n2: int, d: int)
    requires d > 0 && n1 <= n2
    ensures RoundHalfEven(n1, d) <= RoundHalfEven(n2, d)
  {
    NearestMonotone(RoundHalfEven(n1, d), n1, RoundHalfEven(n2, d), n2, d);
  }

  /** A decimal number: its value is unscaled / 10^scale. */
  datatype Dec = Dec(unscaled: int, scale: nat)

  /** BigDecimal.ZERO */
  const Zero: Dec := Dec(0, 0)

  /** BigDecimal.valueOf(long) */
  function ValueOf(n: int): Dec {
    Dec(n, 0)
  }

  /** The value of x times 10^s, an integer for every s at or above x's scale. */
  function Rescale(x: Dec, s: nat): int
    requires s >= x.scale
  {
    x.unscaled * Pow10(s - x.scale)
  }

  /** BigDecimal.add: exact, at the larger of the two scales. */
  function Add(a: Dec, b: Dec): Dec {
    var s := Max(a.scale, b.scale);
    Dec(Rescale(a, s) + Rescale(b, s), s)
  }

  function Negate(a: Dec): Dec {
    Dec(-a.unscaled, a.scale)
  }

  /** BigDecimal.subtract: exact, at the larger of the two scales. */
  function Sub(a: Dec, b: Dec): Dec {
    Add(a, Negate(b))
  }

  /** BigDecimal.multiply: exact, the scales add up. */
  function Mul(a: Dec, b: Dec): Dec {
    Dec(a.unscaled * b.unscaled, a.scale + b.scale)
  }

  /**
   * BigDecimal.divide(divisor, scale, RoundingMode.HALF_EVEN): the quotient
   * x / y at scale s, rounded half-even. x / y * 10^s equals
   * x.unscaled * 10^(y.scale + s) / (y.unscaled * 10^x.scale).
   */
  function DivideToScale(x: Dec, y: Dec, s: nat): (r: Dec)
    requires y.unscaled != 0
    ensures r.scale == s
    ensures NearestQuotient(r.unscaled, x.unscaled * Pow10(y.scale + s), y.unscaled * Pow10(x.scale))
  {
    var n, d := x.unscaled * Pow10(y.scale + s), y.unscaled * Pow10(x.scale);
    if d < 0 then Dec(RoundHalfEven(-n, -d), s) else Dec(RoundHalfEven(n, d), s)
  }

  /** BigDecimal.divide(divisor, RoundingMode.HALF_EVEN): the dividend's scale is kept. */
  function Divide(x: Dec, y: Dec): (r: Dec)
    requires y.unscaled != 0
    ensures r.scale == x.scale
    ensures NearestQuotient(r.unscaled, x.unscaled * Pow10(y.scale + x.scale), y.unscaled * Pow10(x.scale))
  {
    DivideToScale(x, y, x.scale)
  }

  /**
   * BigDecimal.setScale(s, RoundingMode.HALF_EVEN): the scale-s decimal
   * nearest to x, ties to the even last digit; exact when s is not smaller
   * than x's scale.
   */
  function SetScale(x: Dec, s: nat): (r: Dec)
    ensures r.scale == s
    ensures NearestHalfEven(r.unscaled, x.unscaled * Pow10(s), Pow10(x.scale))
  {
    if s >= x.scale then
      Pow10Add(s - x.scale, x.scale);
      assert x.unscaled * Pow10(s - x.scale) * Pow10(x.scale) == x.unscaled * Pow10(s);
      Dec(x.unscaled * Pow10(s - x.scale), s)
    else
      var q := RoundHalfEven(x.unscaled, Pow10(x.scale - s));
      Pow10Add(x.scale - s, s);
      NearestScaled(q, x.unscaled, Pow10(x.scale - s), Pow10(s));
      Dec(q, s)
  }

  /** Rounding to two places keeps a value below -0.005 negative. */
  lemma SetScaleNegative(x: Dec)
    requires x.unscaled * 200 < -Pow10(x.scale)
    ensures SetScale(x, 2).unscaled < 0
  {
    var q := SetScale(x, 2).unscaled;
    assert Pow10(2) == 100;
    assert NearestHalfEven(q, x.unscaled * 100, Pow10(x.scale));
    if q >= 0 {
      assert false;
    }
  }

  function Sign(x: int): int {
    if x < 0 then -1 else if x == 0 then 0 else 1
  }

  /** BigDecimal.compareTo: compares values, ignoring scale. */
  function Cmp(a: Dec, b: Dec): int {
    var s := Max(a.scale, b.scale);
    Sign(Rescale(a, s) - Rescale(b, s))
  }

  lemma {:induction false} RescaleTwice(x: Dec, s: nat, t: nat)
    requires x.scale <= s <= t
    ensures Rescale(x, s) * Pow10(t - s) == Rescale(x, t)
  {
    Pow10Add(s - x.scale, t - s);
    assert Pow10(t - x.scale) == Pow10(s - x.scale) * Pow10(t - s);
  }

  /** Addition is exact: at every common scale, the sum's value is the sum of the values. */
  lemma AddExact(a: Dec, b: Dec, t: nat)
    requires t >= a.scale && t >= b.scale
    ensures Add(a, b).scale == Max(a.scale, b.scale)
    ensures Rescale(Add(a, b), t) == Rescale(a, t) + Rescale(b, t)
  {
    var s := Max(a.scale, b.scale);
    RescaleTwice(a, s, t);
    RescaleTwice(b, s, t);
    calc {
      Rescale(Add(a, b), t);
      (Rescale(a, s) + Rescale(b, s)) * Pow10(t - s);
      Rescale(a, s) * Pow10(t - s) + Rescale(b, s) * Pow10(t - s);
    }
  }

  lemma AddCommutative(a: Dec, b: Dec)
    ensures Add(a, b) == Add(b, a)
  {
  }

  lemma AddAssociative(a: Dec, b: Dec, c: Dec)
    ensures Add(Add(a, b), c) == Add(a, Add(b, c))
  {
    var s := Max(Max(a.scale, b.scale), c.scale);
    AddExact(Add(a, b), c, s);
    AddExact(a, b, s);
    AddExact(a, Add(b, c), s);
    AddExact(b, c, s);
    assert Pow10(0) == 1;
  }

  lemma AddZero(x: Dec)
    ensures Add(Zero, x) == x && Add(x, Zero) == x && Sub(x, Zero) == x
  {
    assert Pow10(0) == 1;
  }
}
