/** Conversions of a discount policy between the persistence, service and API layers. */
module DiscountPolicyMapper {
  import opened Domain

  function EntityToModel(e: DiscountPolicyEntity): DiscountPolicyModel {
    DiscountPolicyModel(e.id, e.discountType, e.threshold, e.discountValue)
  }

  function ModelToResponse(m: DiscountPolicyModel): DiscountPolicyResponse {
    DiscountPolicyResponse(m.id, m.discountType, m.threshold, m.value)
  }

  /** The list form: one response per model, in the same order. */
  function ModelsToResponses(ms: seq<DiscountPolicyModel>): (rs: seq<DiscountPolicyResponse>)
    ensures |rs| == |ms|
    ensures forall i :: 0 <= i < |ms| ==> rs[i] == ModelToResponse(ms[i])
  {
    if ms == [] then [] else [ModelToResponse(ms[0])] + ModelsToResponses(ms[1..])
  }

  /** entityToModel copies id, type and threshold and takes the value from discountValue. */
  lemma EntityToModelFields(e: DiscountPolicyEntity)
    ensures var m := EntityToModel(e);
      m.id == e.id && m.discountType == e.discountType && m.threshold == e.threshold && m.value == e.discountValue
  {
  }

  /** Entity to model to response keeps all four fields of the entity. */
  lemma EntityToResponseKeepsFields(e: DiscountPolicyEntity)
    ensures ModelToResponse(EntityToModel(e)) == DiscountPolicyResponse(e.id, e.discountType, e.threshold, e.discountValue)
  {
  }

  /** Neither conversion loses information: distinct inputs give distinct outputs. */
  lemma ConversionsInjective(e1: DiscountPolicyEntity, e2: DiscountPolicyEntity, m1: DiscountPolicyModel, m2: DiscountPolicyModel)
    ensures EntityToModel(e1) == EntityToModel(e2) ==> e1 == e2
    ensures ModelToResponse(m1) == ModelToResponse(m2) ==> m1 == m2
  {
  }
}
