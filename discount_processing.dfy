/**
 * DiscountProcessingServiceImpl: the price of a quantity of a product after
 * its applicable discount policies, one per discount type.
 */
module DiscountProcessing {
  import opened Decimal
  import opened Domain
  import Products

  /** A policy takes part only when the quantity reaches its threshold. */
  predicate Applicable(p: DiscountPolicyModel, quantity: int) {
    quantity >= p.threshold
  }

  /** HashMap.merge with the remapping function: the candidate replaces the kept policy only on a strictly greater threshold. */
  function Merge(m: map<DiscountType, DiscountPolicyModel>, p: DiscountPolicyModel): map<DiscountType, DiscountPolicyModel> {
    if p.discountType in m && p.threshold <= m[p.discountType].threshold then m
    else m[p.discountType := p]
  }

  /** getApplicableDiscounts as a left fold over the product's policies in list order. */
  function Selection(ps: seq<DiscountPolicyModel>, quantity: int): map<DiscountType, DiscountPolicyModel> {
    if ps == [] then map[]
    else
      var m := Selection(ps[..|ps| - 1], quantity);
      if Applicable(ps[|ps| - 1], quantity) then Merge(m, ps[|ps| - 1]) else m
  }

  /** Policy i is applicable and of type t. */
  predicate Candidate(ps: seq<DiscountPolicyModel>, quantity: int, t: DiscountType, i: int) {
    0 <= i < |ps| && Applicable(ps[i], quantity) && ps[i].discountType == t
  }

  /** Policy i is the one to keep for type t: a candidate with the greatest threshold, strictly above every earlier candidate. */
  ghost predicate Winner(ps: seq<DiscountPolicyModel>, quantity: int, t: DiscountType, i: int) {
    && Candidate(ps, quantity, t, i)
    && (forall j :: Candidate(ps, quantity, t, j) ==> ps[j].threshold <= ps[i].threshold)
    && (forall j :: 0 <= j < i && Candidate(ps, quantity, t, j) ==> ps[j].threshold < ps[i].threshold)
  }

  /** The map keeps, for each type with an applicable policy and only for those, that type's winner. */
  ghost predicate IsSelection(ps: seq<DiscountPolicyModel>, quantity: int, m: map<DiscountType, DiscountPolicyModel>) {
    && (forall t :: t in m ==> exists i :: Winner(ps, quantity, t, i) && ps[i] == m[t])
    && (forall t, i :: Candidate(ps, quantity, t, i) ==> t in m)
  }

  /** At most one policy is the winner for a type. */
  lemma WinnerUnique(ps: seq<DiscountPolicyModel>, quantity: int, t: DiscountType, i: int, j: int)
    requires Winner(ps, quantity, t, i) && Winner(ps, quantity, t, j)
    ensures i == j
  {
  }

  /** IsSelection determines the map. */
  lemma SelectionDetermined(ps: seq<DiscountPolicyModel>, quantity: int, m1: map<DiscountType, DiscountPolicyModel>, m2: map<DiscountType, DiscountPolicyModel>)
    requires IsSelection(ps, quantity, m1) && IsSelection(ps, quantity, m2)
    ensures m1 == m2
  {
    forall t | t in m1
      ensures t in m2 && m2[t] == m1[t]
    {
      var i :| Winner(ps, quantity, t, i) && ps[i] == m1[t];
      assert t in m2;
      var j :| Winner(ps, quantity, t, j) && ps[j] == m2[t];
      WinnerUnique(ps, quantity, t, i, j);
    }
    forall t | t in m2
      ensures t in m1
    {
      var j :| Winner(ps, quantity, t, j) && ps[j] == m2[t];
      assert Candidate(ps, quantity, t, j);
    }
  }

  /** Candidates of the prefix are the candidates of the whole list before its last index. */
  lemma PrefixCandidates(ps: seq<DiscountPolicyModel>, quantity: int, t: DiscountType)
    requires |ps| > 0
    ensures forall j :: Candidate(ps[..|ps| - 1], quantity, t, j) <==> j < |ps| - 1 && Candidate(ps, quantity, t, j)
  {
  }

  /** The prefix's winner stays the winner when the last policy does not beat it. */
  lemma KeepWinner(ps: seq<DiscountPolicyModel>, quantity: int, t: DiscountType, i: int)
    requires |ps| > 0 && Winner(ps[..|ps| - 1], quantity, t, i)
    requires Candidate(ps, quantity, t, |ps| - 1) ==> ps[|ps| - 1].threshold <= ps[i].threshold
    ensures Winner(ps, quantity, t, i)
  {
    PrefixCandidates(ps, quantity, t);
  }

  /** The last policy is the winner when it beats every earlier candidate. */
  lemma NewWinner(ps: seq<DiscountPolicyModel>, quantity: int, t: DiscountType)
    requires |ps| > 0 && Candidate(ps, quantity, t, |ps| - 1)
    requires forall j :: Candidate(ps[..|ps| - 1], quantity, t, j) ==> ps[j].threshold < ps[|ps| - 1].threshold
    ensures Winner(ps, quantity, t, |ps| - 1)
  {
    PrefixCandidates(ps, quantity, t);
  }

  /** The last policy of type t does not beat the prefix's kept policy: the prefix's winner stays. */
  lemma StepKeeps(ps: seq<DiscountPolicyModel>, quantity: int, t: DiscountType)
    requires |ps| > 0 && IsSelection(ps[..|ps| - 1], quantity, Selection(ps[..|ps| - 1], quantity))
    requires var mp := Selection(ps[..|ps| - 1], quantity);
      t in mp && (Candidate(ps, quantity, t, |ps| - 1) ==> ps[|ps| - 1].threshold <= mp[t].threshold)
    ensures t in Selection(ps, quantity)
    ensures exists i :: Winner(ps, quantity, t, i) && ps[i] == Selection(ps, quantity)[t]
  {
    var n := |ps| - 1;
    var pre := ps[..n];
    var mp := Selection(pre, quantity);
    var m := Selection(ps, quantity);
    assert m == if Applicable(ps[n], quantity) then Merge(mp, ps[n]) else mp;
    if Applicable(ps[n], quantity) {
      assert Candidate(ps, quantity, ps[n].discountType, n);
      MergeKeeps(mp, ps[n], t);
    }
    assert t in m && m[t] == mp[t];
    var i :| Winner(pre, quantity, t, i) && pre[i] == mp[t];
    KeepWinner(ps, quantity, t, i);
    assert Winner(ps, quantity, t, i) && ps[i] == m[t];
  }

  /** Merging a policy that is not of type t, or does not beat t's kept policy, leaves t's entry alone. */
  lemma MergeKeeps(m: map<DiscountType, DiscountPolicyModel>, p: DiscountPolicyModel, t: DiscountType)
    requires t in m && (p.discountType == t ==> p.threshold <= m[t].threshold)
    ensures t in Merge(m, p) && Merge(m, p)[t] == m[t]
  {
  }

  /** The last policy is of type t and beats the prefix: it becomes the kept policy. */
  lemma StepReplaces(ps: seq<DiscountPolicyModel>, quantity: int, t: DiscountType)
    requires |ps| > 0 && IsSelection(ps[..|ps| - 1], quantity, Selection(ps[..|ps| - 1], quantity))
    requires Candidate(ps, quantity, t, |ps| - 1)
    requires var mp := Selection(ps[..|ps| - 1], quantity);
      t in mp ==> mp[t].threshold < ps[|ps| - 1].threshold
    ensures t in Selection(ps, quantity) && Selection(ps, quantity)[t] == ps[|ps| - 1]
    ensures Winner(ps, quantity, t, |ps| - 1)
  {
    var n := |ps| - 1;
    var pre := ps[..n];
    var mp := Selection(pre, quantity);
    assert Selection(ps, quantity) == Merge(mp, ps[n]);
    if t in mp {
      var i :| Winner(pre, quantity, t, i) && pre[i] == mp[t];
      assert forall j :: Candidate(pre, quantity, t, j) ==> ps[j].threshold <= ps[i].threshold;
    }
    NewWinner(ps, quantity, t);
  }

  /** One step of the fold keeps the characterisation for type t. */
  lemma SelectionStep(ps: seq<DiscountPolicyModel>, quantity: int, t: DiscountType)
    requires |ps| > 0 && IsSelection(ps[..|ps| - 1], quantity, Selection(ps[..|ps| - 1], quantity))
    ensures var m := Selection(ps, quantity);
      && (t in m ==> exists i :: Winner(ps, quantity, t, i) && ps[i] == m[t])
      && (forall i :: Candidate(ps, quantity, t, i) ==> t in m)
  {
    var n := |ps| - 1;
    var pre := ps[..n];
    var mp := Selection(pre, quantity);
    var m := Selection(ps, quantity);
    assert m == if Applicable(ps[n], quantity) then Merge(mp, ps[n]) else mp;
    assert mp.Keys <= m.Keys;
    PrefixCandidates(ps, quantity, t);
    if Candidate(ps, quantity, t, n) {
      if t in mp && ps[n].threshold <= mp[t].threshold {
        StepKeeps(ps, quantity, t);
      } else {
        StepReplaces(ps, quantity, t);
      }
    } else {
      assert t in m <==> t in mp;
      if t in mp {
        StepKeeps(ps, quantity, t);
      }
    }
  }

  /** The fold computes the selection: per type, the applicable policy with the greatest threshold, the first on a tie. */
  lemma {:induction false} SelectionCorrect(ps: seq<DiscountPolicyModel>, quantity: int)
    ensures IsSelection(ps, quantity, Selection(ps, quantity))
    decreases |ps|
  {
    if ps != [] {
      SelectionCorrect(ps[..|ps| - 1], quantity);
      forall t
        ensures var m := Selection(ps, quantity);
          && (t in m ==> exists i :: Winner(ps, quantity, t, i) && ps[i] == m[t])
          && (forall i :: Candidate(ps, quantity, t, i) ==> t in m)
      {
        SelectionStep(ps, quantity, t);
      }
    }
  }

  /** A policy the quantity does not reach, inserted anywhere, leaves the selection unchanged. */
  lemma {:induction false} SelectionIgnoresInapplicable(a: seq<DiscountPolicyModel>, p: DiscountPolicyModel, b: seq<DiscountPolicyModel>, quantity: int)
    requires !Applicable(p, quantity)
    ensures Selection(a + [p] + b, quantity) == Selection(a + b, quantity)
    decreases |b|
  {
    if b == [] {
      assert (a + [p] + b)[..|a + [p] + b| - 1] == a;
      assert a + b == a;
    } else {
      var b' := b[..|b| - 1];
      SelectionIgnoresInapplicable(a, p, b', quantity);
      assert (a + [p] + b)[..|a + [p] + b| - 1] == a + [p] + b';
      assert (a + b)[..|a + b| - 1] == a + b';
      assert (a + [p] + b)[|a + [p] + b| - 1] == b[|b| - 1] == (a + b)[|a + b| - 1];
    }
  }

  /** The discount one kept policy contributes: an amount verbatim, a percentage as total * value / 100 at the scale of total * value. */
  function Term(totalPrice: Dec, p: DiscountPolicyModel): Dec {
    match p.discountType
    case Amount => p.value
    case Percentage => Divide(Mul(totalPrice, p.value), ValueOf(100))
  }

  /** A percentage term is total * value / 100, half-even at the last place of total * value; there is no 0..100 guard. */
  lemma PercentageTermRounded(totalPrice: Dec, p: DiscountPolicyModel)
    requires p.discountType == Percentage
    ensures var r := Term(totalPrice, p);
      && r.scale == totalPrice.scale + p.value.scale
      && NearestHalfEven(r.unscaled, totalPrice.unscaled * p.value.unscaled, 100)
      && r.unscaled == RoundHalfEven(totalPrice.unscaled * p.value.unscaled, 100)
  {
    var x := Mul(totalPrice, p.value);
    var r := Term(totalPrice, p);
    assert Pow10(0) == 1;
    NearestScaled(r.unscaled, x.unscaled, 100, Pow10(x.scale));
    NearestUnique(r.unscaled, RoundHalfEven(x.unscaled, 100), x.unscaled, 100);
  }

  /** calculateDiscount's accumulator after visiting the kept policies of the given types in the given order. */
  function DiscountOver(totalPrice: Dec, m: map<DiscountType, DiscountPolicyModel>, ts: seq<DiscountType>): Dec
    requires forall t :: t in ts ==> t in m
  {
    if ts == [] then Zero
    else Add(DiscountOver(totalPrice, m, ts[..|ts| - 1]), Term(totalPrice, m[ts[|ts| - 1]]))
  }

  /** The types present in the map, in declaration order. */
  function Present(m: map<DiscountType, DiscountPolicyModel>): seq<DiscountType> {
    (if Amount in m then [Amount] else []) + (if Percentage in m then [Percentage] else [])
  }

  /** Present lists every type of the map once and nothing else. */
  lemma PresentElements(m: map<DiscountType, DiscountPolicyModel>)
    ensures forall t :: t in Present(m) <==> t in m
    ensures forall i, j :: 0 <= i < j < |Present(m)| ==> Present(m)[i] != Present(m)[j]
  {
    forall t
      ensures t in Present(m) <==> t in m
    {
      match t
      case Amount =>
      case Percentage =>
    }
  }

  /** What one type contributes to the discount: its kept policy's term, or nothing. */
  function Contribution(totalPrice: Dec, m: map<DiscountType, DiscountPolicyModel>, t: DiscountType): Dec {
    if t in m then Term(totalPrice, m[t]) else Zero
  }

  /** Visiting index i last gives the same sum as visiting it in place. */
  lemma {:induction false} DiscountOverRemove(totalPrice: Dec, m: map<DiscountType, DiscountPolicyModel>, ts: seq<DiscountType>, i: nat)
    requires forall t :: t in ts ==> t in m
    requires i < |ts|
    ensures forall t :: t in ts[..i] + ts[i + 1..] ==> t in m
    ensures DiscountOver(totalPrice, m, ts) == Add(DiscountOver(totalPrice, m, ts[..i] + ts[i + 1..]), Term(totalPrice, m[ts[i]]))
    decreases |ts|
  {
    var n := |ts| - 1;
    assert forall t :: t in ts[..i] + ts[i + 1..] ==> t in ts;
    if i == n {
      assert ts[..i] + ts[i + 1..] == ts[..n];
    } else {
      var pre := ts[..n];
      DiscountOverRemove(totalPrice, m, pre, i);
      var rest := pre[..i] + pre[i + 1..];
      assert ts[..i] + ts[i + 1..] == rest + [ts[n]];
      assert (rest + [ts[n]])[..|rest|] == rest;
      var a, b, c := DiscountOver(totalPrice, m, rest), Term(totalPrice, m[ts[i]]), Term(totalPrice, m[ts[n]]);
      calc {
        DiscountOver(totalPrice, m, ts);
        Add(Add(a, b), c);
        { AddAssociative(a, b, c); AddCommutative(b, c); AddAssociative(a, c, b); }
        Add(Add(a, c), b);
      }
    }
  }

  /** The sum depends only on which types are visited, not on the order. */
  lemma {:induction false} DiscountOverPermutation(totalPrice: Dec, m: map<DiscountType, DiscountPolicyModel>, ts: seq<DiscountType>, us: seq<DiscountType>)
    requires forall t :: t in ts ==> t in m
    requires multiset(ts) == multiset(us)
    ensures forall t :: t in us ==> t in m
    ensures DiscountOver(totalPrice, m, ts) == DiscountOver(totalPrice, m, us)
    decreases |ts|
  {
    assert forall t :: t in us ==> t in multiset(ts);
    if ts != [] {
      var n := |ts| - 1;
      assert ts[n] in multiset(us);
      var i :| 0 <= i < |us| && us[i] == ts[n];
      RemoveMatching(ts, us, i);
      DiscountOverPermutation(totalPrice, m, ts[..n], us[..i] + us[i + 1..]);
      DiscountOverRemove(totalPrice, m, us, i);
    }
  }

  /** Taking the last element off one of two permutations and a matching element off the other leaves permutations. */
  lemma RemoveMatching(ts: seq<DiscountType>, us: seq<DiscountType>, i: nat)
    requires multiset(ts) == multiset(us) && |ts| > 0
    requires i < |us| && us[i] == ts[|ts| - 1]
    ensures multiset(ts[..|ts| - 1]) == multiset(us[..i] + us[i + 1..])
  {
    var n := |ts| - 1;
    assert ts == ts[..n] + [ts[n]];
    assert us == us[..i] + [us[i]] + us[i + 1..];
    assert multiset(us) == multiset(us[..i] + us[i + 1..]) + multiset{ts[n]};
    assert multiset(ts) == multiset(ts[..n]) + multiset{ts[n]};
    assert multiset(ts[..n]) == multiset(ts) - multiset{ts[n]};
    assert multiset(us[..i] + us[i + 1..]) == multiset(us) - multiset{ts[n]};
  }

  /** A duplicate-free sequence holds each of its elements once. */
  lemma {:induction false} DistinctCount(ts: seq<DiscountType>, t: DiscountType)
    requires forall i, j :: 0 <= i < j < |ts| ==> ts[i] != ts[j]
    ensures multiset(ts)[t] == if t in ts then 1 else 0
  {
    if ts != [] {
      var n := |ts| - 1;
      assert ts == ts[..n] + [ts[n]];
      assert ts[n] !in ts[..n];
      DistinctCount(ts[..n], t);
    }
  }

  /** Two duplicate-free sequences with the same elements are permutations of each other. */
  lemma DistinctSameElements(ts: seq<DiscountType>, us: seq<DiscountType>)
    requires forall i, j :: 0 <= i < j < |ts| ==> ts[i] != ts[j]
    requires forall i, j :: 0 <= i < j < |us| ==> us[i] != us[j]
    requires forall t :: t in ts <==> t in us
    ensures multiset(ts) == multiset(us)
  {
    forall t
      ensures multiset(ts)[t] == multiset(us)[t]
    {
      DistinctCount(ts, t);
      DistinctCount(us, t);
    }
  }

  /** Visiting one type gives its term. */
  lemma DiscountOverSingle(totalPrice: Dec, m: map<DiscountType, DiscountPolicyModel>, t: DiscountType)
    requires t in m
    ensures DiscountOver(totalPrice, m, [t]) == Term(totalPrice, m[t])
  {
    assert [t][..0] == [];
    AddZero(Term(totalPrice, m[t]));
  }

  /** The total discount is the amount contribution plus the percentage contribution. */
  lemma DiscountIsSumOfContributions(totalPrice: Dec, m: map<DiscountType, DiscountPolicyModel>)
    ensures DiscountOver(totalPrice, m, Present(m))
            == Add(Contribution(totalPrice, m, Amount), Contribution(totalPrice, m, Percentage))
  {
    if Amount in m && Percentage in m {
      BothContributions(totalPrice, m);
    } else if Amount in m {
      assert Present(m) == [Amount];
      DiscountOverSingle(totalPrice, m, Amount);
      AddZero(Term(totalPrice, m[Amount]));
    } else if Percentage in m {
      assert Present(m) == [Percentage];
      DiscountOverSingle(totalPrice, m, Percentage);
      AddZero(Term(totalPrice, m[Percentage]));
    } else {
      assert Present(m) == [];
      AddZero(Zero);
    }
  }

  lemma BothContributions(totalPrice: Dec, m: map<DiscountType, DiscountPolicyModel>)
    requires Amount in m && Percentage in m
    ensures DiscountOver(totalPrice, m, Present(m)) == Add(Term(totalPrice, m[Amount]), Term(totalPrice, m[Percentage]))
  {
    assert Present(m) == [Amount, Percentage];
    assert [Amount, Percentage][..1] == [Amount];
    DiscountOverSingle(totalPrice, m, Amount);
  }

  /** DiscountProcessingServiceImpl.calculate on the product's price and policies. */
  function Calculation(price: Dec, policies: seq<DiscountPolicyModel>, quantity: int): DiscountProcessingResult {
    var totalPrice := Mul(price, ValueOf(quantity));
    var selected := Selection(policies, quantity);
    var discount := DiscountOver(totalPrice, selected, Present(selected));
    DiscountProcessingResult(totalPrice, discount, SetScale(Sub(totalPrice, discount), 2))
  }

  /**
   * The three figures: the total is exactly price * quantity at the price's scale;
   * the discount is the sum of the kept policies' terms; the final price is
   * total - discount rounded half-even to 2 places, with no clamp at zero.
   */
  lemma CalculationFormula(price: Dec, policies: seq<DiscountPolicyModel>, quantity: int)
    ensures var r := Calculation(price, policies, quantity);
      var m := Selection(policies, quantity);
      && r.totalPrice == Dec(price.unscaled * quantity, price.scale)
      && r.discount == Add(Contribution(r.totalPrice, m, Amount), Contribution(r.totalPrice, m, Percentage))
      && var diff := Sub(r.totalPrice, r.discount);
         r.finalPrice.scale == 2 && NearestHalfEven(r.finalPrice.unscaled, diff.unscaled * 100, Pow10(diff.scale))
  {
    var totalPrice := Mul(price, ValueOf(quantity));
    var m := Selection(policies, quantity);
    var discount := DiscountOver(totalPrice, m, Present(m));
    var diff := Sub(totalPrice, discount);
    assert Calculation(price, policies, quantity) == DiscountProcessingResult(totalPrice, discount, SetScale(diff, 2));
    TotalIsExact(price, quantity);
    DiscountIsSumOfContributions(totalPrice, m);
    RoundedToCents(diff);
  }

  /** The total is price * quantity exactly, at the price's scale. */
  lemma TotalIsExact(price: Dec, quantity: int)
    ensures Mul(price, ValueOf(quantity)) == Dec(price.unscaled * quantity, price.scale)
  {
  }

  /** Rounding to 2 places: scale 2 and the half-even rounding of the value in cents. */
  lemma RoundedToCents(x: Dec)
    ensures SetScale(x, 2).scale == 2
    ensures NearestHalfEven(SetScale(x, 2).unscaled, x.unscaled * 100, Pow10(x.scale))
  {
    assert Pow10(2) == 100;
  }

  /** With no policy the quantity reaches, the discount is ZERO and the final price is the total rounded to 2 places. */
  lemma NoApplicablePolicy(price: Dec, policies: seq<DiscountPolicyModel>, quantity: int)
    requires forall i :: 0 <= i < |policies| ==> !Applicable(policies[i], quantity)
    ensures var r := Calculation(price, policies, quantity);
      r.discount == Zero && r.finalPrice == SetScale(r.totalPrice, 2)
  {
    SelectionCorrect(policies, quantity);
    var m := Selection(policies, quantity);
    assert forall t :: t !in m;
    assert m == map[];
    AddZero(Mul(price, ValueOf(quantity)));
  }

  /** Inserting a policy the quantity does not reach, anywhere in the list, changes none of the three figures. */
  lemma CalculationIgnoresInapplicable(price: Dec, a: seq<DiscountPolicyModel>, p: DiscountPolicyModel, b: seq<DiscountPolicyModel>, quantity: int)
    requires !Applicable(p, quantity)
    ensures Calculation(price, a + [p] + b, quantity) == Calculation(price, a + b, quantity)
  {
    SelectionIgnoresInapplicable(a, p, b, quantity);
  }

  /**
   * No clamp: when the discount exceeds the total, the final price is not
   * positive, and once the excess is more than half a cent it is negative.
   */
  lemma NoClampAtZero(price: Dec, policies: seq<DiscountPolicyModel>, quantity: int)
    ensures var r := Calculation(price, policies, quantity);
      Sub(r.totalPrice, r.discount).unscaled < 0 ==> r.finalPrice.unscaled <= 0
    ensures var r := Calculation(price, policies, quantity);
      var diff := Sub(r.totalPrice, r.discount);
      diff.unscaled * 200 < -Pow10(diff.scale) ==> r.finalPrice.unscaled < 0
  {
    var r := Calculation(price, policies, quantity);
    var diff := Sub(r.totalPrice, r.discount);
    assert r.finalPrice == SetScale(diff, 2);
    if diff.unscaled < 0 {
      assert NearestHalfEven(0, 0, Pow10(diff.scale));
      NearestMonotone(r.finalPrice.unscaled, diff.unscaled * Pow10(2), 0, 0, Pow10(diff.scale));
    }
    if diff.unscaled * 200 < -Pow10(diff.scale) {
      SetScaleNegative(diff);
    }
  }

  /** No two different applicable policies of one type share a threshold. */
  predicate TieFree(ps: seq<DiscountPolicyModel>, quantity: int) {
    forall i, j ::
      (0 <= i < |ps| && 0 <= j < |ps| && Applicable(ps[i], quantity) && Applicable(ps[j], quantity)
       && ps[i].discountType == ps[j].discountType && ps[i].threshold == ps[j].threshold) ==> ps[i] == ps[j]
  }

  /** A type kept for one list is kept for any list holding all its policies. */
  lemma SelectedTypeKept(ps: seq<DiscountPolicyModel>, qs: seq<DiscountPolicyModel>, quantity: int, t: DiscountType)
    requires forall x :: x in ps ==> x in qs
    requires t in Selection(ps, quantity)
    ensures t in Selection(qs, quantity)
  {
    SelectionCorrect(ps, quantity);
    SelectionCorrect(qs, quantity);
    var i :| Winner(ps, quantity, t, i) && ps[i] == Selection(ps, quantity)[t];
    assert ps[i] in qs;
    var k :| 0 <= k < |qs| && qs[k] == ps[i];
    assert Candidate(qs, quantity, t, k);
  }

  /** Two lists with the same policies and no ties in the first keep the same policy for a type kept by both. */
  lemma SelectedPolicySame(ps: seq<DiscountPolicyModel>, qs: seq<DiscountPolicyModel>, quantity: int, t: DiscountType)
    requires forall x :: x in ps <==> x in qs
    requires TieFree(ps, quantity)
    requires t in Selection(ps, quantity) && t in Selection(qs, quantity)
    ensures Selection(ps, quantity)[t] == Selection(qs, quantity)[t]
  {
    SelectionCorrect(ps, quantity);
    SelectionCorrect(qs, quantity);
    var i :| Winner(ps, quantity, t, i) && ps[i] == Selection(ps, quantity)[t];
    var j :| Winner(qs, quantity, t, j) && qs[j] == Selection(qs, quantity)[t];
    assert qs[j] in ps;
    var l :| 0 <= l < |ps| && ps[l] == qs[j];
    assert Candidate(ps, quantity, t, l);
    assert ps[i] in qs;
    var k :| 0 <= k < |qs| && qs[k] == ps[i];
    assert Candidate(qs, quantity, t, k);
    assert ps[l].threshold == ps[i].threshold;
  }

  /**
   * Without threshold ties the selection does not depend on the order in
   * which the product's policies are listed.
   */
  lemma SelectionPermutation(ps: seq<DiscountPolicyModel>, qs: seq<DiscountPolicyModel>, quantity: int)
    requires multiset(ps) == multiset(qs)
    requires TieFree(ps, quantity)
    ensures Selection(ps, quantity) == Selection(qs, quantity)
  {
    forall x
      ensures x in ps <==> x in qs
    {
      assert x in ps <==> x in multiset(ps);
      assert x in qs <==> x in multiset(qs);
    }
    var m1, m2 := Selection(ps, quantity), Selection(qs, quantity);
    forall t | t in m1
      ensures t in m2 && m2[t] == m1[t]
    {
      SelectedTypeKept(ps, qs, quantity, t);
      SelectedPolicySame(ps, qs, quantity, t);
    }
    forall t | t in m2
      ensures t in m1
    {
      SelectedTypeKept(qs, ps, quantity, t);
    }
  }

  /** Without threshold ties the three figures do not depend on the order of the product's policies. */
  lemma CalculationPermutation(price: Dec, ps: seq<DiscountPolicyModel>, qs: seq<DiscountPolicyModel>, quantity: int)
    requires multiset(ps) == multiset(qs)
    requires TieFree(ps, quantity)
    ensures Calculation(price, ps, quantity) == Calculation(price, qs, quantity)
  {
    SelectionPermutation(ps, qs, quantity);
  }

  /** getApplicableDiscounts: one pass over the policies, merging each applicable one into a map by type. */
  method GetApplicableDiscounts(product: ProductModel, quantity: int) returns (applicablePolicies: map<DiscountType, DiscountPolicyModel>)
    ensures applicablePolicies == Selection(product.discountPolicies, quantity)
    ensures IsSelection(product.discountPolicies, quantity, applicablePolicies)
  {
    var ps := product.discountPolicies;
    applicablePolicies := map[];
    var i := 0;
    while i < |ps|
      invariant 0 <= i <= |ps|
      invariant applicablePolicies == Selection(ps[..i], quantity)
    {
      var policy := ps[i];
      assert ps[..i + 1][..i] == ps[..i];
      if quantity >= policy.threshold {
        if policy.discountType in applicablePolicies {
          var existing := applicablePolicies[policy.discountType];
          var kept := if policy.threshold > existing.threshold then policy else existing;
          applicablePolicies := applicablePolicies[policy.discountType := kept];
        } else {
          applicablePolicies := applicablePolicies[policy.discountType := policy];
        }
      }
      i := i + 1;
    }
    assert ps[..i] == ps;
    SelectionCorrect(ps, quantity);
  }

  /**
   * calculateDiscount: visits the kept policies in the map's iteration order,
   * which is not specified and is modelled as an arbitrary choice, adding up
   * their terms from ZERO. The result is the same for every order.
   */
  method CalculateDiscount(totalPrice: Dec, policies: map<DiscountType, DiscountPolicyModel>) returns (discount: Dec)
    ensures discount == DiscountOver(totalPrice, policies, Present(policies))
    ensures discount == Add(Contribution(totalPrice, policies, Amount), Contribution(totalPrice, policies, Percentage))
  {
    discount := Zero;
    var remaining := policies.Keys;
    ghost var visited: seq<DiscountType> := [];
    while remaining != {}
      invariant remaining <= policies.Keys
      invariant forall t :: t in visited ==> t in policies && t !in remaining
      invariant forall t :: t in policies ==> t in remaining || t in visited
      invariant forall i, j :: 0 <= i < j < |visited| ==> visited[i] != visited[j]
      invariant discount == DiscountOver(totalPrice, policies, visited)
      decreases remaining
    {
      var t :| t in remaining;
      var policy := policies[t];
      match policy.discountType {
        case Amount =>
          discount := Add(discount, policy.value);
        case Percentage =>
          var discountValue := Divide(Mul(totalPrice, policy.value), ValueOf(100));
          discount := Add(discount, discountValue);
      }
      assert (visited + [t])[..|visited|] == visited;
      visited := visited + [t];
      remaining := remaining - {t};
    }
    PresentElements(policies);
    DistinctSameElements(visited, Present(policies));
    DiscountOverPermutation(totalPrice, policies, visited, Present(policies));
    DiscountIsSumOfContributions(totalPrice, policies);
  }

  class DiscountProcessingService {
    const productService: Products.ProductService

    constructor(productService: Products.ProductService)
      ensures this.productService == productService
    {
      this.productService := productService;
    }

    /**
     * calculate: a missing product propagates ProductNotFound and nothing is
     * computed; otherwise the three figures for the stored product.
     */
    method Calculate(productId: Uuid, quantity: int) returns (r: Result<DiscountProcessingResult>)
      requires productService.Valid()
      ensures productId !in productService.products.records ==> r == Failure(ProductNotFound)
      ensures productId in productService.products.records ==>
        var product := productService.Current(productId);
        r == Success(Calculation(product.price, product.discountPolicies, quantity))
    {
      var found := productService.GetProduct(productId);
      if found.Failure? {
        return Failure(found.error);
      }
      var product := found.value;
      var discountPolicies := GetApplicableDiscounts(product, quantity);
      var totalPrice := Mul(product.price, ValueOf(quantity));
      var discount := CalculateDiscount(totalPrice, discountPolicies);
      var finalPrice := SetScale(Sub(totalPrice, discount), 2);
      r := Success(DiscountProcessingResult(totalPrice, discount, finalPrice));
    }
  }
}
