/**
 * The shop's records: persistence entities, service models, API responses,
 * the calculation result and the error codes its services raise.
 */
module Domain {
  import opened Decimal

  /** Identifiers; generated by the store on insertion. */
  type Uuid = nat

  datatype DiscountType = Amount | Percentage

  /** ServiceErrorCode: each domain exception carries one of these. */
  datatype ServiceErrorCode =
    | ProductNotFound
    | DiscountPolicyNotFound
    | DiscountPolicyAlreadyExists
    | ProductAlreadyContainsPolicy
    | UnsupportedDiscountType
    | FieldValidation
  {
    /** The stable machine-readable code sent to clients. */
    function Code(): string {
      match this
      case ProductNotFound => "product_not_found"
      case DiscountPolicyNotFound => "discount_policy_not_found"
      case DiscountPolicyAlreadyExists => "discount_policy_already_exists"
      case ProductAlreadyContainsPolicy => "product_already_contains_discount_policy"
      case UnsupportedDiscountType => "unsupported_discount_type"
      case FieldValidation => "field_validation"
    }
  }

  /** A service call either returns a value or throws the exception of an error code. */
  datatype Result<T> = Success(value: T) | Failure(error: ServiceErrorCode)

  /** A check that either passes or throws. */
  datatype Outcome = Pass | Fail(error: ServiceErrorCode)

  /** A Java reference that may be null. */
  datatype Option<T> = None | Some(value: T)

  datatype DiscountPolicyEntity = DiscountPolicyEntity(id: Uuid, discountType: DiscountType, threshold: int, discountValue: Dec)

  datatype DiscountPolicyModel = DiscountPolicyModel(id: Uuid, discountType: DiscountType, threshold: int, value: Dec)

  datatype DiscountPolicyResponse = DiscountPolicyResponse(id: Uuid, discountType: DiscountType, threshold: int, value: Dec)

  /** A product as loaded from the store, with its discount policies in the set's iteration order. */
  datatype ProductEntity = ProductEntity(id: Uuid, name: string, price: Dec, discountPolicies: seq<DiscountPolicyEntity>)

  datatype ProductModel = ProductModel(id: Uuid, name: string, price: Dec, discountPolicies: seq<DiscountPolicyModel>)

  datatype ProductResponse = ProductResponse(id: Uuid, name: string, price: Dec, discountPolicies: seq<DiscountPolicyResponse>)

  datatype DiscountProcessingResult = DiscountProcessingResult(totalPrice: Dec, discount: Dec, finalPrice: Dec)
}
