/**
 * Worked examples of DiscountProcessingServiceImpl.calculate on a product
 * priced 100.00, using the policies of the service's unit tests.
 */
module DiscountScenarios {
  import opened Decimal
  import opened Domain
  import opened DiscountProcessing

  const Price: Dec := Dec(10000, 2)

  const TenPercentFrom5: DiscountPolicyModel := DiscountPolicyModel(1, Percentage, 5, Dec(1000, 2))
  const FiveAmountFrom3: DiscountPolicyModel := DiscountPolicyModel(2, Amount, 3, Dec(500, 2))
  const FivePercentFrom3: DiscountPolicyModel := DiscountPolicyModel(3, Percentage, 3, Dec(500, 2))
  const FifteenPercentFrom10: DiscountPolicyModel := DiscountPolicyModel(4, Percentage, 10, Dec(1500, 2))
  const SixtyPercentFrom1: DiscountPolicyModel := DiscountPolicyModel(5, Percentage, 1, Dec(6000, 2))
  const FiftyAmountFrom1: DiscountPolicyModel := DiscountPolicyModel(6, Amount, 1, Dec(5000, 2))

  /** No policies, quantity 5: 500.00, discount ZERO, final 500.00. */
  lemma NoPolicies()
    ensures Calculation(Price, [], 5) == DiscountProcessingResult(Dec(50000, 2), Zero, Dec(50000, 2))
  {
    NoApplicablePolicy(Price, [], 5);
    KeepsScaleTwo(Dec(50000, 2));
  }

  /** Quantity 3 does not reach the threshold 5: 300.00, ZERO, 300.00. */
  lemma BelowThreshold()
    ensures Calculation(Price, [TenPercentFrom5], 3) == DiscountProcessingResult(Dec(30000, 2), Zero, Dec(30000, 2))
  {
    assert !Applicable([TenPercentFrom5][0], 3);
    NoApplicablePolicy(Price, [TenPercentFrom5], 3);
    KeepsScaleTwo(Dec(30000, 2));
  }

  /** 10.00 % from 5 pieces, quantity 5: the discount is 50.0000 at the scale of total * value, and the final price 450.00. */
  lemma OnePercentage()
    ensures Calculation(Price, [TenPercentFrom5], 5) == DiscountProcessingResult(Dec(50000, 2), Dec(500000, 4), Dec(45000, 2))
  {
    var m := map[Percentage := TenPercentFrom5];
    SelectionOfOne(TenPercentFrom5, 5);
    OnePercentageDiscount(Dec(50000, 2), m);
    FinalRounding(Dec(50000, 2), Dec(500000, 4), 45000);
    Assemble(Price, [TenPercentFrom5], 5, Dec(50000, 2), m, Dec(500000, 4), Dec(45000, 2));
  }

  lemma OnePercentageDiscount(total: Dec, m: map<DiscountType, DiscountPolicyModel>)
    requires total == Dec(50000, 2) && m == map[Percentage := TenPercentFrom5]
    ensures Add(Contribution(total, m, Amount), Contribution(total, m, Percentage)) == Dec(500000, 4)
  {
    assert Contribution(total, m, Amount) == Zero;
    assert Contribution(total, m, Percentage) == Dec(500000, 4) by {
      PercentageTermIs(total, TenPercentFrom5, 500000);
    }
    AddZero(Dec(500000, 4));
  }

  /** 5.00 off from 3 pieces, quantity 5: the amount is taken verbatim; final 495.00. */
  lemma OneAmount()
    ensures Calculation(Price, [FiveAmountFrom3], 5) == DiscountProcessingResult(Dec(50000, 2), Dec(500, 2), Dec(49500, 2))
  {
    var m := map[Amount := FiveAmountFrom3];
    SelectionOfOne(FiveAmountFrom3, 5);
    OneAmountDiscount(Dec(50000, 2), m);
    SameScaleRounding(Dec(50000, 2), Dec(500, 2), 49500);
    Assemble(Price, [FiveAmountFrom3], 5, Dec(50000, 2), m, Dec(500, 2), Dec(49500, 2));
  }

  lemma OneAmountDiscount(total: Dec, m: map<DiscountType, DiscountPolicyModel>)
    requires total == Dec(50000, 2) && m == map[Amount := FiveAmountFrom3]
    ensures Add(Contribution(total, m, Amount), Contribution(total, m, Percentage)) == Dec(500, 2)
  {
    assert Contribution(total, m, Amount) == Dec(500, 2);
    assert Contribution(total, m, Percentage) == Zero;
    AddZero(Dec(500, 2));
  }

  /** Both kinds, quantity 5: 5.00 + 50.0000 = 55.0000, final 445.00. */
  lemma PercentageAndAmount()
    ensures Calculation(Price, [TenPercentFrom5, FiveAmountFrom3], 5) == DiscountProcessingResult(Dec(50000, 2), Dec(550000, 4), Dec(44500, 2))
  {
    var m := map[Percentage := TenPercentFrom5, Amount := FiveAmountFrom3];
    SelectionOfTwo(TenPercentFrom5, FiveAmountFrom3, 5);
    PercentageAndAmountDiscount(Dec(50000, 2), m);
    FinalRounding(Dec(50000, 2), Dec(550000, 4), 44500);
    Assemble(Price, [TenPercentFrom5, FiveAmountFrom3], 5, Dec(50000, 2), m, Dec(550000, 4), Dec(44500, 2));
  }

  lemma PercentageAndAmountDiscount(total: Dec, m: map<DiscountType, DiscountPolicyModel>)
    requires total == Dec(50000, 2) && m == map[Percentage := TenPercentFrom5, Amount := FiveAmountFrom3]
    ensures Add(Contribution(total, m, Amount), Contribution(total, m, Percentage)) == Dec(550000, 4)
  {
    assert Contribution(total, m, Amount) == Dec(500, 2);
    assert Contribution(total, m, Percentage) == Dec(500000, 4) by {
      PercentageTermIs(total, TenPercentFrom5, 500000);
    }
    assert Add(Dec(500, 2), Dec(500000, 4)) == Dec(550000, 4) by { assert Pow10(2) == 100; }
  }

  /** Two percentages, quantity 10: the one with the greater threshold (15.00 %) is kept; final 850.00. */
  lemma GreatestThresholdWins()
    ensures Calculation(Price, [FivePercentFrom3, FifteenPercentFrom10], 10) == DiscountProcessingResult(Dec(100000, 2), Dec(1500000, 4), Dec(85000, 2))
  {
    var m := map[Percentage := FifteenPercentFrom10];
    SelectionOfTwo(FivePercentFrom3, FifteenPercentFrom10, 10);
    GreatestThresholdDiscount(Dec(100000, 2), m);
    FinalRounding(Dec(100000, 2), Dec(1500000, 4), 85000);
    Assemble(Price, [FivePercentFrom3, FifteenPercentFrom10], 10, Dec(100000, 2), m, Dec(1500000, 4), Dec(85000, 2));
  }

  lemma GreatestThresholdDiscount(total: Dec, m: map<DiscountType, DiscountPolicyModel>)
    requires total == Dec(100000, 2) && m == map[Percentage := FifteenPercentFrom10]
    ensures Add(Contribution(total, m, Amount), Contribution(total, m, Percentage)) == Dec(1500000, 4)
  {
    assert Contribution(total, m, Amount) == Zero;
    assert Contribution(total, m, Percentage) == Dec(1500000, 4) by {
      PercentageTermIs(total, FifteenPercentFrom10, 1500000);
    }
    AddZero(Dec(1500000, 4));
  }

  /** 60.00 % plus 50.00 on a total of 100.00: the discount 110.0000 exceeds the total and the final price is -10.00, not 0. */
  lemma DiscountExceedsTotal()
    ensures Calculation(Price, [SixtyPercentFrom1, FiftyAmountFrom1], 1) == DiscountProcessingResult(Dec(10000, 2), Dec(1100000, 4), Dec(-1000, 2))
  {
    var m := map[Percentage := SixtyPercentFrom1, Amount := FiftyAmountFrom1];
    SelectionOfTwo(SixtyPercentFrom1, FiftyAmountFrom1, 1);
    DiscountExceedsTotalDiscount(Dec(10000, 2), m);
    FinalRounding(Dec(10000, 2), Dec(1100000, 4), -1000);
    Assemble(Price, [SixtyPercentFrom1, FiftyAmountFrom1], 1, Dec(10000, 2), m, Dec(1100000, 4), Dec(-1000, 2));
  }

  lemma DiscountExceedsTotalDiscount(total: Dec, m: map<DiscountType, DiscountPolicyModel>)
    requires total == Dec(10000, 2) && m == map[Percentage := SixtyPercentFrom1, Amount := FiftyAmountFrom1]
    ensures Add(Contribution(total, m, Amount), Contribution(total, m, Percentage)) == Dec(1100000, 4)
  {
    assert Contribution(total, m, Amount) == Dec(5000, 2);
    assert Contribution(total, m, Percentage) == Dec(600000, 4) by {
      PercentageTermIs(total, SixtyPercentFrom1, 600000);
    }
    assert Add(Dec(5000, 2), Dec(600000, 4)) == Dec(1100000, 4) by { assert Pow10(2) == 100; }
  }

  /** One applicable policy is kept under its type. */
  lemma SelectionOfOne(p: DiscountPolicyModel, quantity: int)
    requires Applicable(p, quantity)
    ensures Selection([p], quantity) == map[p.discountType := p]
  {
    assert [p][..0] == [];
  }

  /** Two applicable policies: of different types both are kept; of one type, the second replaces the first only on a greater threshold. */
  lemma SelectionOfTwo(p: DiscountPolicyModel, r: DiscountPolicyModel, quantity: int)
    requires Applicable(p, quantity) && Applicable(r, quantity)
    ensures p.discountType != r.discountType ==> Selection([p, r], quantity) == map[p.discountType := p, r.discountType := r]
    ensures p.discountType == r.discountType && p.threshold < r.threshold ==> Selection([p, r], quantity) == map[r.discountType := r]
    ensures p.discountType == r.discountType && r.threshold <= p.threshold ==> Selection([p, r], quantity) == map[p.discountType := p]
  {
    assert [p, r][..1] == [p];
    SelectionOfOne(p, quantity);
  }

  /** On a threshold tie within one type the policy listed first is kept, so the two listing orders select different policies. */
  lemma TieDependsOnOrder(p: DiscountPolicyModel, r: DiscountPolicyModel, quantity: int)
    requires Applicable(p, quantity) && Applicable(r, quantity)
    requires p.discountType == r.discountType && p.threshold == r.threshold && p != r
    ensures Selection([p, r], quantity) == map[p.discountType := p]
    ensures Selection([r, p], quantity) == map[p.discountType := r]
    ensures Selection([p, r], quantity) != Selection([r, p], quantity)
  {
    SelectionOfTwo(p, r, quantity);
    SelectionOfTwo(r, p, quantity);
    assert Selection([r, p], quantity)[p.discountType] == r;
  }

  /** Calculation from its pieces: the total, the selection, the two contributions and the rounded difference. */
  lemma Assemble(price: Dec, ps: seq<DiscountPolicyModel>, quantity: int, total: Dec, m: map<DiscountType, DiscountPolicyModel>, discount: Dec, finalPrice: Dec)
    requires Mul(price, ValueOf(quantity)) == total && Selection(ps, quantity) == m
    requires Add(Contribution(total, m, Amount), Contribution(total, m, Percentage)) == discount
    requires SetScale(Sub(total, discount), 2) == finalPrice
    ensures Calculation(price, ps, quantity) == DiscountProcessingResult(total, discount, finalPrice)
  {
    DiscountIsSumOfContributions(total, m);
  }

  /** A percentage term whose exact value total * value / 100 is a whole number of units in the last place. */
  lemma PercentageTermIs(total: Dec, p: DiscountPolicyModel, q: int)
    requires p.discountType == Percentage && total.unscaled * p.value.unscaled == q * 100
    ensures Term(total, p) == Dec(q, total.scale + p.value.scale)
  {
    PercentageTermRounded(total, p);
    RoundOfMultiple(q, 100);
  }

  /** A scale-2 value is kept by setScale(2). */
  lemma KeepsScaleTwo(x: Dec)
    requires x.scale == 2
    ensures SetScale(x, 2) == x
  {
    assert Pow10(0) == 1;
  }

  /** A scale-2 total less a scale-2 discount needs no rounding. */
  lemma SameScaleRounding(total: Dec, discount: Dec, q: int)
    requires total.scale == 2 && discount.scale == 2 && total.unscaled - discount.unscaled == q
    ensures SetScale(Sub(total, discount), 2) == Dec(q, 2)
  {
    assert Pow10(0) == 1;
    assert Sub(total, discount) == Dec(q, 2);
    KeepsScaleTwo(Dec(q, 2));
  }

  /** A scale-2 total less a scale-4 discount, when the difference is a whole number q of hundredths, rounds to q hundredths. */
  lemma FinalRounding(total: Dec, discount: Dec, q: int)
    requires total.scale == 2 && discount.scale == 4 && total.unscaled * 100 - discount.unscaled == q * 100
    ensures SetScale(Sub(total, discount), 2) == Dec(q, 2)
  {
    assert Pow10(2) == 100;
    assert Pow10(4) == 10000;
    var x := Sub(total, discount);
    assert x == Dec(q * 100, 4);
    var r := SetScale(x, 2);
    assert NearestHalfEven(q, x.unscaled * 100, 10000);
    NearestUnique(r.unscaled, q, x.unscaled * 100, 10000);
  }
}
