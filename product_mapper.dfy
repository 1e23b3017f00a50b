/** Conversions of a product between the persistence, service and API layers. */
module ProductMapper {
  import opened Domain
  import DiscountPolicyMapper

  /** The stream over the entity's policy set: one model per entity, in iteration order. */
  function PolicyEntitiesToModels(es: seq<DiscountPolicyEntity>): (ms: seq<DiscountPolicyModel>)
    ensures |ms| == |es|
    ensures forall i :: 0 <= i < |es| ==> ms[i] == DiscountPolicyMapper.EntityToModel(es[i])
  {
    if es == [] then [] else [DiscountPolicyMapper.EntityToModel(es[0])] + PolicyEntitiesToModels(es[1..])
  }

  function EntityToModel(e: ProductEntity): ProductModel {
    ProductModel(e.id, e.name, e.price, PolicyEntitiesToModels(e.discountPolicies))
  }

  function ModelToResponse(m: ProductModel): ProductResponse {
    ProductResponse(m.id, m.name, m.price, DiscountPolicyMapper.ModelsToResponses(m.discountPolicies))
  }

  /**
   * Entity to model to response keeps id, name and price, and gives one response
   * per attached policy, in order, carrying that policy's four fields.
   */
  lemma EntityToResponseKeepsFields(e: ProductEntity)
    ensures var r := ModelToResponse(EntityToModel(e));
      && r.id == e.id && r.name == e.name && r.price == e.price
      && |r.discountPolicies| == |e.discountPolicies|
      && forall i :: 0 <= i < |e.discountPolicies| ==>
           var p := e.discountPolicies[i];
           r.discountPolicies[i] == DiscountPolicyResponse(p.id, p.discountType, p.threshold, p.discountValue)
  {
  }
}
