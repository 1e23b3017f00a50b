# Demo-shop discount engine, modelled in Dafny

Demo-shop is a Spring Boot service. It stores products and discount policies, and it prices an order of some quantity of one product. A discount policy has:

- a type, AMOUNT or PERCENTAGE;
- a quantity threshold;
- a decimal value.

A product carries a set of policies. This project models the core of the service and proves properties of it:

- **Pricing engine** (`DiscountProcessingServiceImpl`).
  - It keeps the policies whose threshold the quantity reaches.
  - For each type it keeps the one with the greatest threshold. On a tie it keeps the first one in list order; the source's list order is a `HashSet`'s, see "Left out".
  - The total is `price × quantity`.
  - The discount adds each kept policy's contribution: an AMOUNT verbatim, a PERCENTAGE as `total × value / 100`.
  - The final price is `total − discount` rounded to two places, half-even.
- **The two stand-alone strategies** (AMOUNT and PERCENTAGE) and the factory that looks them up lazily by type.
- **The product service.** It attaches policies to a product (with a duplicate check by type, threshold and value), detaches them by id, and does create/read/update/delete.
- **The discount-policy service.** It keeps policies unique by type, threshold and value on add and update.
- **The two mappers**: entity to model, and model to API response.

## How the model is built

- **Decimals** (`decimal.dfy`) are `java.math.BigDecimal` modelled exactly as `Dec(unscaled, scale)`, where the value is `unscaled / 10^scale`.
  - `multiply` adds the scales.
  - `add` and `subtract` align to the larger scale.
  - `divide(d, HALF_EVEN)` keeps the dividend's scale.
  - `divide(d, 2, HALF_EVEN)` and `setScale(2, HALF_EVEN)` round to the nearest value, with ties going to an even last digit.
  - Half-even rounding is specified by a predicate, `NearestHalfEven`: the error is within half a unit, and a tie gives an even quotient. The predicate is proved unique and monotone.
- **Records** (`domain.dfy`): entities, models, responses, the calculation result and the error codes are datatypes. A Java exception becomes the `Failure` case of a `Result`. A nullable argument becomes an `Option`.
- **The store** (`repositories.dfy`) is two classes. Each holds a `map` from id to record, plus a counter that hands out ids never used before. The counter stands for the generated UUID key.
  - A product row keeps its join-table entries as a duplicate-free list of policy ids.
  - Loading a product resolves those ids against the policy store. Edits to a policy are therefore visible through every product that carries it.
- **Services** are classes over those stores. Their methods state:
  - the whole new state;
  - every error path, in the order the source checks them;
  - that a failure saves nothing.
- **The engine's two loops** are methods with loop invariants. Each is proved against a specification function:
  - the selection loop against `Selection`, a left fold of `HashMap.merge`;
  - the summation loop against `DiscountOver`.
- **HashMap iteration order** is unspecified. The summation loop models it by choosing an arbitrary remaining key at each step. It is proved to give the same sum for every order.

## Model

| member | source | states |
|---|---|---|
| `Decimal.RoundHalfEven` | src/main/java/com/shop/demo/service/discountprocessing/DiscountProcessingServiceImpl.java:62-63 | the quotient n/d rounded to the nearest integer, ties to even |
| `Decimal.NearestUnique` | src/main/java/com/shop/demo/service/discountprocessing/DiscountProcessingServiceImpl.java:62-63 | at most one integer is the half-even rounding of n/d, so the rounding is determined |
| `Decimal.NearestMonotone` | src/main/java/com/shop/demo/service/discountprocessing/DiscountProcessingServiceImpl.java:30 | half-even rounding preserves order |
| `Decimal.DivideToScale` | src/main/java/com/shop/demo/service/discountprocessing/strategy/PercentageDiscountStrategy.java:19-20 | divide(divisor, scale, HALF_EVEN) gives the requested scale and the half-even rounding of the exact quotient |
| `Decimal.Divide` | src/main/java/com/shop/demo/service/discountprocessing/DiscountProcessingServiceImpl.java:63 | divide(divisor, HALF_EVEN) keeps the dividend's scale and gives the half-even rounding of the exact quotient at that scale |
| `Decimal.SetScale` | src/main/java/com/shop/demo/service/discountprocessing/DiscountProcessingServiceImpl.java:30 | setScale(s, HALF_EVEN) gives scale s and the half-even rounding of the exact value |
| `Decimal.SetScaleNegative` | src/main/java/com/shop/demo/service/discountprocessing/DiscountProcessingServiceImpl.java:30 | rounding to two places keeps a value below −0.005 negative |
| `Decimal.AddCommutative` | src/main/java/com/shop/demo/service/discountprocessing/DiscountProcessingServiceImpl.java:60-64 | decimal addition commutes exactly, scale included |
| `Decimal.AddAssociative` | src/main/java/com/shop/demo/service/discountprocessing/DiscountProcessingServiceImpl.java:60-64 | decimal addition is associative exactly, scale included |
| `Decimal.AddZero` | src/main/java/com/shop/demo/service/discountprocessing/DiscountProcessingServiceImpl.java:56 | ZERO (scale 0) is neutral for add and subtract |
| `DiscountProcessing.SelectionCorrect` | src/main/java/com/shop/demo/service/discountprocessing/DiscountProcessingServiceImpl.java:39-53 | the merge fold keeps a type exactly when some policy of that type is applicable; the kept policy is applicable, has the greatest threshold of its type, and is strictly above every earlier one (first wins on a tie) |
| `DiscountProcessing.WinnerUnique` | src/main/java/com/shop/demo/service/discountprocessing/DiscountProcessingServiceImpl.java:47 | the tie-break leaves at most one policy to keep per type |
| `DiscountProcessing.SelectionDetermined` | src/main/java/com/shop/demo/service/discountprocessing/DiscountProcessingServiceImpl.java:44-48 | the characterisation fixes the selected map completely |
| `DiscountProcessing.SelectionIgnoresInapplicable` | src/main/java/com/shop/demo/service/discountprocessing/DiscountProcessingServiceImpl.java:43 | inserting anywhere a policy whose threshold exceeds the quantity leaves the selection unchanged |
| `DiscountProcessing.CalculationIgnoresInapplicable` | src/main/java/com/shop/demo/service/discountprocessing/DiscountProcessingServiceImpl.java:24-53 | such a policy changes none of total, discount and final price |
| `DiscountProcessing.PercentageTermRounded` | src/main/java/com/shop/demo/service/discountprocessing/DiscountProcessingServiceImpl.java:61-64 | a percentage contribution has the scale of total × value and is total × value / 100 rounded half-even at that scale, with no 0..100 guard |
| `DiscountProcessing.DiscountOverPermutation` | src/main/java/com/shop/demo/service/discountprocessing/DiscountProcessingServiceImpl.java:58 | summing the kept policies in any order gives the same decimal |
| `DiscountProcessing.DistinctSameElements` | src/main/java/com/shop/demo/service/discountprocessing/DiscountProcessingServiceImpl.java:58 | two visiting orders of the map's keys are permutations of each other |
| `DiscountProcessing.DiscountIsSumOfContributions` | src/main/java/com/shop/demo/service/discountprocessing/DiscountProcessingServiceImpl.java:55-70 | the discount is the AMOUNT contribution plus the PERCENTAGE contribution, each ZERO when absent |
| `DiscountProcessing.CalculationFormula` | src/main/java/com/shop/demo/service/discountprocessing/DiscountProcessingServiceImpl.java:24-37 | total is exactly price × quantity at the price's scale; discount is the sum of contributions; final price is total − discount rounded half-even to scale 2 |
| `DiscountProcessing.NoApplicablePolicy` | src/main/java/com/shop/demo/service/discountprocessing/DiscountProcessingServiceImpl.java:28-30 | with no applicable policy the discount is ZERO and the final price is the total at scale 2 |
| `DiscountProcessing.SelectionPermutation` | src/main/java/com/shop/demo/service/discountprocessing/DiscountProcessingServiceImpl.java:42-48 | when no two different applicable policies of one type share a threshold, every ordering of the product's policies gives the same selection |
| `DiscountProcessing.CalculationPermutation` | src/main/java/com/shop/demo/service/discountprocessing/DiscountProcessingServiceImpl.java:24-53 | under the same condition, total, discount and final price do not depend on the order of the product's policies |
| `DiscountProcessing.NoClampAtZero` | src/main/java/com/shop/demo/service/discountprocessing/DiscountProcessingServiceImpl.java:30 | a discount above the total gives a final price that is not positive, and a discount more than half a cent above the total gives a negative final price: nothing clamps it at zero |
| `DiscountProcessing.GetApplicableDiscounts` | src/main/java/com/shop/demo/service/discountprocessing/DiscountProcessingServiceImpl.java:39-53 | the loop over the policies builds exactly the selection characterised above |
| `DiscountProcessing.CalculateDiscount` | src/main/java/com/shop/demo/service/discountprocessing/DiscountProcessingServiceImpl.java:55-70 | the accumulator loop, in whatever order the map yields its entries, ends at the sum of the contributions |
| `DiscountProcessing.DiscountProcessingService.Calculate` | src/main/java/com/shop/demo/service/discountprocessing/DiscountProcessingServiceImpl.java:24-37 | a missing product propagates ProductNotFound; otherwise the three figures computed from the stored product |
| `DiscountScenarios.NoPolicies` | src/test/java/com/shop/demo/service/discountprocessing/DiscountProcessingServiceTest.java:137-146 | 100.00 × 5 with no policies prices at 500.00 / 0 / 500.00 |
| `DiscountScenarios.OnePercentage` | src/test/java/com/shop/demo/service/discountprocessing/DiscountProcessingServiceTest.java:149-161 | 10.00 % on 500.00 gives the discount 50.0000 (scale 4) and the final price 450.00 |
| `DiscountScenarios.OneAmount` | src/test/java/com/shop/demo/service/discountprocessing/DiscountProcessingServiceTest.java:164-176 | 5.00 off 500.00 gives 495.00 |
| `DiscountScenarios.PercentageAndAmount` | src/test/java/com/shop/demo/service/discountprocessing/DiscountProcessingServiceTest.java:179-194 | both kinds add up: 55.0000 off, final 445.00 |
| `DiscountScenarios.GreatestThresholdWins` | src/test/java/com/shop/demo/service/discountprocessing/DiscountProcessingServiceTest.java:197-210 | of 5.00 % from 3 and 15.00 % from 10, quantity 10 keeps only the latter: final 850.00 |
| `DiscountScenarios.BelowThreshold` | src/test/java/com/shop/demo/service/discountprocessing/DiscountProcessingServiceTest.java:213-223 | quantity 3 below threshold 5 gives 300.00 / 0 / 300.00 |
| `DiscountScenarios.DiscountExceedsTotal` | src/main/java/com/shop/demo/service/discountprocessing/DiscountProcessingServiceImpl.java:30 | 60.00 % plus 50.00 on 100.00 gives the final price −10.00; the unit test at DiscountProcessingServiceTest.java:234-249 expects 0 |
| `DiscountScenarios.SelectionOfTwo` | src/main/java/com/shop/demo/service/discountprocessing/DiscountProcessingServiceImpl.java:44-48 | two applicable policies of different types are both kept; of one type, the later replaces the earlier on a greater threshold and the earlier is kept otherwise |
| `DiscountScenarios.TieDependsOnOrder` | src/main/java/com/shop/demo/service/discountprocessing/DiscountProcessingServiceImpl.java:42-48 | two different applicable policies of one type with equal thresholds: whichever is listed first is kept, so the two orders select different policies |
| `DiscountStrategies.AmountDiscount` | src/main/java/com/shop/demo/service/discountprocessing/strategy/AmountDiscountStrategy.java:9-14 | a null value gives ZERO, a negative value gives ZERO, a non-negative value is returned unchanged, scale included |
| `DiscountStrategies.AmountIgnoresBasePrice` | src/main/java/com/shop/demo/service/discountprocessing/strategy/AmountDiscountStrategy.java:9-14 | the result never depends on the base price |
| `DiscountStrategies.AmountNonNegativeIdempotent` | src/main/java/com/shop/demo/service/discountprocessing/strategy/AmountDiscountStrategy.java:10-13 | the result is never negative, and applying the strategy to its own result returns it |
| `DiscountStrategies.PercentageDiscount` | src/main/java/com/shop/demo/service/discountprocessing/strategy/PercentageDiscountStrategy.java:12-21 | a null argument or a percentage outside [0, 100] gives ZERO; otherwise scale 2 and within half a cent of base × p / 100, ties to even |
| `DiscountStrategies.PercentageIsRounded` | src/main/java/com/shop/demo/service/discountprocessing/strategy/PercentageDiscountStrategy.java:19-20 | in range, the result is exactly the half-even rounding of base × p / 100 to two places |
| `DiscountStrategies.PercentageWithinBase` | src/main/java/com/shop/demo/service/discountprocessing/strategy/PercentageDiscountStrategy.java:19-20 | for base ≥ 0 and 0 ≤ p ≤ 100 the discount lies between 0 and the base rounded to two places |
| `DiscountStrategies.PercentageOfZero` | src/main/java/com/shop/demo/service/discountprocessing/strategy/PercentageDiscountStrategy.java:14 | the lower bound is inclusive: 0 % gives 0.00 |
| `DiscountStrategies.PercentageOfHundred` | src/main/java/com/shop/demo/service/discountprocessing/strategy/PercentageDiscountStrategy.java:15 | the upper bound is inclusive: 100 % gives the base rounded to two places |
| `DiscountCalculationFactory.FullTableCovers` | src/main/java/com/shop/demo/service/discountprocessing/factory/DiscountCalculationFactory.java:34-37 | the initialised table has an entry for every discount type, each the matching strategy |
| `DiscountCalculationFactory.Factory.InitializeStrategies` | src/main/java/com/shop/demo/service/discountprocessing/factory/DiscountCalculationFactory.java:34-37 | puts the AMOUNT and PERCENTAGE entries into the table |
| `DiscountCalculationFactory.Factory.GetStrategy` | src/main/java/com/shop/demo/service/discountprocessing/factory/DiscountCalculationFactory.java:22-32 | fills an empty table, leaves a non-empty one unchanged, fails with UnsupportedDiscountType exactly when the type has no entry, and so returns the matching strategy for both types |
| `Repositories.DiscountPolicyRepository.FindByTypeAndThresholdAndDiscountValue` | src/main/java/com/shop/demo/persistence/discountpolicy/repository/DiscountPolicyRepository.java:12-14 | finds a stored record with those three fields exactly when one exists |
| `Repositories.DiscountPolicyRepository.Insert` | src/main/java/com/shop/demo/persistence/discountpolicy/entity/DiscountPolicyEntity.java:13-23 | a new policy receives an id not in use and is the only change |
| `Repositories.ProductRepository.Insert` | src/main/java/com/shop/demo/persistence/product/entity/ProductEntity.java:16-30 | a new product receives an id not in use and an empty policy set |
| `Products.ResolveMembership` | src/main/java/com/shop/demo/persistence/product/entity/ProductEntity.java:24-30 | a policy is on a loaded product exactly when its id is joined to the product and it is the stored policy of that id |
| `Products.AnyMatch` | src/main/java/com/shop/demo/service/product/ProductServiceImpl.java:93-97 | true exactly when some attached policy equals the candidate in type, threshold and value |
| `Products.CheckIfHasSamePolicy` | src/main/java/com/shop/demo/service/product/ProductServiceImpl.java:92-104 | passes exactly when no attached policy has the candidate's three fields (scale-sensitive value equality, id ignored); otherwise ProductAlreadyContainsPolicy |
| `Products.CheckPassMeansNotJoined` | src/main/java/com/shop/demo/service/product/ProductServiceImpl.java:36-38 | when the check passes, the policy is not attached yet, so adding it keeps the set duplicate-free |
| `Products.AttachAdds` | src/main/java/com/shop/demo/service/product/ProductServiceImpl.java:38-39 | after an add, the policies are the old ones plus the candidate; id, name and price are kept |
| `Products.DetachRemoves` | src/main/java/com/shop/demo/service/product/ProductServiceImpl.java:49 | after a removeIf, the policies are exactly the old ones with a different id |
| `Products.WithoutAbsent` | src/main/java/com/shop/demo/service/product/ProductServiceImpl.java:49 | removing an id that is not attached changes nothing |
| `Products.DetachUndoesAttach` | src/main/java/com/shop/demo/service/product/ProductServiceImpl.java:38-49 | removing a freshly added policy restores the product; removal is idempotent |
| `Products.ProductService.AddDiscountPolicy` | src/main/java/com/shop/demo/service/product/ProductServiceImpl.java:29-41 | ProductNotFound, then DiscountPolicyNotFound, then ProductAlreadyContainsPolicy, each saving nothing; when all three checks pass it always succeeds, joins the policy to the product and returns the saved product |
| `Products.ProductService.RemoveDiscountPolicy` | src/main/java/com/shop/demo/service/product/ProductServiceImpl.java:45-53 | a missing product gives ProductNotFound and saves nothing; otherwise every policy with the id is detached |
| `Products.ProductService.GetProduct` | src/main/java/com/shop/demo/service/product/ProductServiceImpl.java:57-61 | the stored product as a model, or ProductNotFound |
| `Products.ProductService.CreateProduct` | src/main/java/com/shop/demo/service/product/ProductServiceImpl.java:65-72 | stores a product with a fresh id, the given name and price, and no policies |
| `Products.ProductService.UpdateProduct` | src/main/java/com/shop/demo/service/product/ProductServiceImpl.java:76-84 | a missing id gives ProductNotFound and saves nothing; otherwise name and price are replaced and the policies kept |
| `Products.ProductService.DeleteProduct` | src/main/java/com/shop/demo/service/product/ProductServiceImpl.java:88-90 | removes the id with no existence check |
| `DiscountPolicies.InsertKeepsUnique` | src/main/java/com/shop/demo/service/discountpolicy/DiscountPolicyServiceImpl.java:74-82 | storing a record whose fields no stored record has keeps the store unique by (type, threshold, value) |
| `DiscountPolicies.RemoveKeepsUnique` | src/main/java/com/shop/demo/service/discountpolicy/DiscountPolicyServiceImpl.java:70-72 | deleting keeps the store unique |
| `DiscountPolicies.StoredPolicyMatchesItself` | src/main/java/com/shop/demo/service/discountpolicy/DiscountPolicyServiceImpl.java:59 | the update's duplicate search finds the record itself when threshold and value are unchanged |
| `DiscountPolicies.DiscountPolicyService.CheckIfAlreadyExists` | src/main/java/com/shop/demo/service/discountpolicy/DiscountPolicyServiceImpl.java:74-83 | fails with DiscountPolicyAlreadyExists exactly when a stored record has the three fields |
| `DiscountPolicies.DiscountPolicyService.AddDiscountPolicy` | src/main/java/com/shop/demo/service/discountpolicy/DiscountPolicyServiceImpl.java:27-36 | a duplicate gives DiscountPolicyAlreadyExists and saves nothing; otherwise exactly one new record under a fresh id; uniqueness is preserved |
| `DiscountPolicies.DiscountPolicyService.GetDiscountPolicy` | src/main/java/com/shop/demo/service/discountpolicy/DiscountPolicyServiceImpl.java:40-44 | the stored policy as a model, or DiscountPolicyNotFound |
| `DiscountPolicies.DiscountPolicyService.UpdateDiscountPolicy` | src/main/java/com/shop/demo/service/discountpolicy/DiscountPolicyServiceImpl.java:56-66 | DiscountPolicyNotFound before any uniqueness check; the check uses the stored type over all records, itself included; on success only threshold and value change; uniqueness is preserved |
| `DiscountPolicies.DiscountPolicyService.DeleteDiscountPolicy` | src/main/java/com/shop/demo/service/discountpolicy/DiscountPolicyServiceImpl.java:70-72 | removes the id, never fails, and keeps the store unique |
| `DiscountPolicyMapper.EntityToModelFields` | src/main/java/com/shop/demo/service/discountpolicy/mapper/DiscountPolicyMapper.java:12-19 | copies id, type and threshold and takes the value from discountValue |
| `DiscountPolicyMapper.ModelsToResponses` | src/main/java/com/shop/demo/service/discountpolicy/mapper/DiscountPolicyMapper.java:21-23 | the list form keeps length and order; element i is the response of model i |
| `DiscountPolicyMapper.EntityToResponseKeepsFields` | src/main/java/com/shop/demo/service/discountpolicy/mapper/DiscountPolicyMapper.java:12-32 | entity to model to response keeps all four fields |
| `DiscountPolicyMapper.ConversionsInjective` | src/main/java/com/shop/demo/service/discountpolicy/mapper/DiscountPolicyMapper.java:12-32 | neither conversion loses information |
| `ProductMapper.PolicyEntitiesToModels` | src/main/java/com/shop/demo/service/product/mapper/ProductMapper.java:17-19 | one model per attached policy, in iteration order, each the policy mapper's conversion |
| `ProductMapper.EntityToResponseKeepsFields` | src/main/java/com/shop/demo/service/product/mapper/ProductMapper.java:16-40 | entity to model to response keeps id, name and price, and gives one response per policy carrying that policy's fields |

## Where the code differs from the tests

The model follows the code. In three places the unit tests of the pricing engine expect something else:

- **The engine does not use the strategies or the factory.** Its constructor takes only the product service (`DiscountProcessingServiceImpl.java:21`), and it computes both cases inline. The test nevertheless builds it with a factory and mocks strategies.
- **There is no clamp.** The final price is negative when the discount exceeds the total (`NoClampAtZero`, `DiscountExceedsTotal`). The test at `DiscountProcessingServiceTest.java:234-249` expects 0.
- **The rounding scale differs.** The engine's percentage contribution keeps the scale of `total × value`: 50.0000 for 10.00 % of 500.00. The stand-alone strategy rounds to scale 2. The engine also has no 0..100 range guard.

## Left out

- Controllers, API interfaces, request DTOs and `GlobalExceptionHandler`. These handle HTTP routing and response envelopes, and the handler reads the clock.
- The bean-validation annotations on request DTOs (threshold ≥ 1, value ≥ 0.01, quantity > 0, price > 0). These are checked at the HTTP boundary and not by the services, so the service contracts do not assume them.
- `getAllDiscountPolicies` and product listing. Both are pagination over the store; product listing is also not declared in `ProductService`.
- JPA, transactions and foreign keys. Each service call is modelled as one atomic step on the maps.
  - Deleting a policy that is still attached to a product would, in a database, hit the join table's foreign key. Here, a product simply stops listing it.
  - The query `findByTypeAndThresholdAndDiscountValue` is modelled as exact field equality, like `BigDecimal.equals`. A database may compare numerically.
- Iteration order of the product's policy `HashSet`. The model lists a product's policies in join order, with an added policy appended.
  - Where no two different applicable policies of one type share a threshold, `CalculationPermutation` shows the order does not matter.
  - On such a tie the source keeps whichever policy the `HashSet`'s hash order yields first, and policy-store uniqueness does not rule the tie out. The model keeps the earliest attached one instead (`TieDependsOnOrder`).
  - Equality of two attached entities, as Lombok's `@Data` defines it, is not modelled further. The duplicate check already rules out attaching a policy twice.
- Null fields of stored records: a null threshold, price or value. Only the strategies' null arguments are modelled, as `Option`.
- Decimals with a negative scale, such as `1E+2`. Such a value is outside the model, because `Dec.scale` is a `nat`. A request can still carry one: the price validation accepts it. With such a price the engine's rounding scale differs. For example, with price `1E+2` a 10.55 % policy contributes 11, not 10.5500.
- Division by zero. The only divisor is the constant 100.
- The `default` branch of the engine's switch, which throws UnsupportedDiscountType. It cannot be reached for the two-valued enum, and the exhaustive `match` has no such case.
- `DiscountCalculationFactory.Factory.GetStrategy` with a null type. `EnumMap.get(null)` returns null, and that is the only way the source's UnsupportedDiscountType throw can be reached. The model's `DiscountType` has no null, so this path is not modelled.
- UUID generation. It is replaced by a counter; only freshness is relied on.
- Exception messages. The message texts are not modelled; only the error kind is.
- `ServiceErrorCode.Code` has no contract; it lists the stable codes.
