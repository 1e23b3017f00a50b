/**
 * The two discount calculation strategies: given a base price and a policy
 * value (either of which may be null), each computes a discount amount.
 */
module DiscountStrategies {
  import opened Decimal
  import opened Domain

  const Hundred: Dec := ValueOf(100)

  /** The value is the discount itself; a null or negative value gives ZERO. The base price is ignored. */
  function AmountDiscount(basePrice: Option<Dec>, value: Option<Dec>): (r: Dec)
    ensures value.None? ==> r == Zero
    ensures value.Some? && value.value.unscaled < 0 ==> r == Zero
    ensures value.Some? && value.value.unscaled >= 0 ==> r == value.value
  {
    if value.None? || Cmp(value.value, Zero) < 0 then Zero else value.value
  }

  /** True when the decimal p lies in [0, 100]. */
  predicate InPercentRange(p: Dec) {
    0 <= p.unscaled <= 100 * Pow10(p.scale)
  }

  /**
   * basePrice * percentageValue / 100 at scale 2, rounded half-even; ZERO when
   * either argument is null or the percentage lies outside [0, 100].
   */
  function PercentageDiscount(basePrice: Option<Dec>, percentageValue: Option<Dec>): (r: Dec)
    ensures basePrice.None? || percentageValue.None? ==> r == Zero
    ensures basePrice.Some? && percentageValue.Some? && !InPercentRange(percentageValue.value) ==> r == Zero
    ensures basePrice.Some? && percentageValue.Some? && InPercentRange(percentageValue.value) ==>
      var b, p := basePrice.value, percentageValue.value;
      r.scale == 2 && NearestHalfEven(r.unscaled, b.unscaled * p.unscaled, Pow10(b.scale + p.scale))
  {
    if basePrice.None? || percentageValue.None?
       || Cmp(percentageValue.value, Zero) < 0 || Cmp(percentageValue.value, Hundred) > 0 then
      Zero
    else
      var m := Mul(basePrice.value, percentageValue.value);
      var r := DivideToScale(m, Hundred, 2);
      assert Pow10(2) == 100;
      NearestScaled(r.unscaled, m.unscaled, Pow10(m.scale), 100);
      r
  }

  /** In range, the percentage discount is the half-even rounding of base * p / 100 to 2 places. */
  lemma PercentageIsRounded(b: Dec, p: Dec)
    requires InPercentRange(p)
    ensures PercentageDiscount(Some(b), Some(p)) == Dec(RoundHalfEven(b.unscaled * p.unscaled, Pow10(b.scale + p.scale)), 2)
  {
    var r := PercentageDiscount(Some(b), Some(p));
    NearestUnique(r.unscaled, RoundHalfEven(b.unscaled * p.unscaled, Pow10(b.scale + p.scale)),
                  b.unscaled * p.unscaled, Pow10(b.scale + p.scale));
  }

  /** Base price rounded to 2 places, as a rounded quotient. */
  lemma SetScaleTwo(b: Dec)
    ensures SetScale(b, 2).unscaled == RoundHalfEven(b.unscaled * 100, Pow10(b.scale))
  {
    assert Pow10(2) == 100;
    var s := SetScale(b, 2);
    NearestUnique(s.unscaled, RoundHalfEven(b.unscaled * 100, Pow10(b.scale)), b.unscaled * 100, Pow10(b.scale));
  }

  lemma ProductBound(bu: int, pu: int, k: int)
    requires bu >= 0 && 0 <= pu <= 100 * k
    ensures 0 <= bu * pu <= (bu * 100) * k
  {
    if bu > 0 {
      MulCancel(pu, 100 * k, bu);
      assert (bu * 100) * k == (100 * k) * bu;
    }
  }

  /** Rounding 0 / d gives 0. */
  lemma RoundZero(d: int)
    requires d > 0
    ensures RoundHalfEven(0, d) == 0
  {
    RoundOfMultiple(0, d);
  }

  /** 10^(b.scale + p.scale) splits into the two factors. */
  lemma ScaleSplit(b: Dec, p: Dec)
    ensures Pow10(b.scale + p.scale) == Pow10(b.scale) * Pow10(p.scale)
  {
    Pow10Add(b.scale, p.scale);
  }

  /** For a non-negative base price and 0 <= p <= 100, the discount lies between 0 and the base price rounded to 2 places. */
  lemma PercentageWithinBase(b: Dec, p: Dec)
    requires b.unscaled >= 0 && InPercentRange(p)
    ensures var r := PercentageDiscount(Some(b), Some(p));
      r.scale == 2 && 0 <= r.unscaled <= SetScale(b, 2).unscaled
  {
    var n := b.unscaled * p.unscaled;
    var top := (b.unscaled * 100) * Pow10(p.scale);
    var d := Pow10(b.scale + p.scale);
    PercentageIsRounded(b, p);
    ProductBound(b.unscaled, p.unscaled, Pow10(p.scale));
    RoundMonotone(0, n, d);
    RoundZero(d);
    RoundMonotone(n, top, d);
    ScaleSplit(b, p);
    RoundScaled(b.unscaled * 100, Pow10(b.scale), Pow10(p.scale));
    SetScaleTwo(b);
  }

  lemma Regroup(bu: int, k: int)
    ensures bu * (100 * k) == (bu * 100) * k
  {
  }

  /** The lower bound is inclusive: 0 % gives 0.00. */
  lemma PercentageOfZero(b: Dec, p: Dec)
    requires p.unscaled == 0
    ensures PercentageDiscount(Some(b), Some(p)) == Dec(0, 2)
  {
    PercentageIsRounded(b, p);
    assert b.unscaled * p.unscaled == 0;
    RoundZero(Pow10(b.scale + p.scale));
  }

  /** The upper bound is inclusive: 100 % gives the base price rounded to 2 places. */
  lemma PercentageOfHundred(b: Dec, p: Dec)
    requires p.unscaled == 100 * Pow10(p.scale)
    ensures PercentageDiscount(Some(b), Some(p)) == SetScale(b, 2)
  {
    PercentageIsRounded(b, p);
    Regroup(b.unscaled, Pow10(p.scale));
    ScaleSplit(b, p);
    RoundScaled(b.unscaled * 100, Pow10(b.scale), Pow10(p.scale));
    SetScaleTwo(b);
  }

  /** The amount strategy never looks at the base price. */
  lemma AmountIgnoresBasePrice(b1: Option<Dec>, b2: Option<Dec>, value: Option<Dec>)
    ensures AmountDiscount(b1, value) == AmountDiscount(b2, value)
  {
  }

  /** The amount discount is never negative, and applying the strategy to its own result returns it unchanged. */
  lemma AmountNonNegativeIdempotent(b: Option<Dec>, value: Option<Dec>)
    ensures AmountDiscount(b, value).unscaled >= 0
    ensures AmountDiscount(b, Some(AmountDiscount(b, value))) == AmountDiscount(b, value)
  {
  }

  /** DiscountCalculationStrategy: the interface both strategies implement. */
  datatype DiscountCalculationStrategy = AmountDiscountStrategy | PercentageDiscountStrategy {
    function CalculateDiscount(basePrice: Option<Dec>, value: Option<Dec>): Dec {
      match this
      case AmountDiscountStrategy => AmountDiscount(basePrice, value)
      case PercentageDiscountStrategy => PercentageDiscount(basePrice, value)
    }
  }
}
