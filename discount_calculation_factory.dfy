/** The lookup table from discount type to strategy, filled on first use. */
module DiscountCalculationFactory {
  import opened Domain
  import opened DiscountStrategies

  /** The strategy registered for each discount type. */
  function StrategyFor(t: DiscountType): DiscountCalculationStrategy {
    match t
    case Amount => AmountDiscountStrategy
    case Percentage => PercentageDiscountStrategy
  }

  /** The table once initialised. */
  function FullTable(): map<DiscountType, DiscountCalculationStrategy> {
    map[Amount := AmountDiscountStrategy, Percentage := PercentageDiscountStrategy]
  }

  /** Once initialised, the table has an entry, the right one, for every discount type. */
  lemma FullTableCovers()
    ensures forall t: DiscountType :: t in FullTable() && FullTable()[t] == StrategyFor(t)
  {
    forall t: DiscountType
      ensures t in FullTable() && FullTable()[t] == StrategyFor(t)
    {
      match t
      case Amount =>
      case Percentage =>
    }
  }

  class Factory {
    /** The EnumMap `strategies`: empty until the first lookup. */
    var strategies: map<DiscountType, DiscountCalculationStrategy>

    /** The table is only ever empty or full, since only InitializeStrategies writes it. */
    ghost predicate Valid()
      reads this
    {
      strategies == map[] || strategies == FullTable()
    }

    constructor()
      ensures Valid() && strategies == map[]
    {
      strategies := map[];
    }

    method InitializeStrategies()
      modifies this
      ensures strategies == old(strategies)[Amount := AmountDiscountStrategy][Percentage := PercentageDiscountStrategy]
    {
      strategies := strategies[Amount := AmountDiscountStrategy];
      strategies := strategies[Percentage := PercentageDiscountStrategy];
    }

    /**
     * Fills the table when it is empty, then looks the type up; a type with
     * no entry fails with UnsupportedDiscountType.
     */
    method GetStrategy(discountType: DiscountType) returns (r: Result<DiscountCalculationStrategy>)
      requires Valid()
      modifies this
      ensures Valid()
      ensures old(strategies) == map[] ==> strategies == FullTable()
      ensures old(strategies) != map[] ==> strategies == old(strategies)
      ensures discountType in strategies ==> r == Success(strategies[discountType])
      ensures discountType !in strategies ==> r == Failure(UnsupportedDiscountType)
      ensures r == Success(StrategyFor(discountType))
    {
      if strategies == map[] {
        InitializeStrategies();
        assert strategies == FullTable();
      }
      FullTableCovers();
      if discountType in strategies {
        r := Success(strategies[discountType]);
      } else {
        r := Failure(UnsupportedDiscountType);
      }
    }
  }
}
