/**
 * DiscountPolicyServiceImpl: discount policies over the policy store, kept
 * unique by (type, threshold, value) on add and on update.
 */
module DiscountPolicies {
  import opened Decimal
  import opened Domain
  import opened Repositories
  import DiscountPolicyMapper

  /** Storing a policy whose fields no stored policy has keeps the store unique. */
  lemma InsertKeepsUnique(records: map<Uuid, DiscountPolicyEntity>, e: DiscountPolicyEntity)
    requires UniqueFields(records)
    requires !HasPolicyWith(records, e.discountType, e.threshold, e.discountValue)
    ensures UniqueFields(records[e.id := e])
  {
    var after := records[e.id := e];
    forall a, b | a in after && b in after && a != b
      ensures !SameFields(after[a], after[b].discountType, after[b].threshold, after[b].discountValue)
    {
      if a == e.id {
        assert b in records;
      } else if b == e.id {
        assert a in records;
      }
    }
  }

  /** Removing a record keeps the store unique. */
  lemma RemoveKeepsUnique(records: map<Uuid, DiscountPolicyEntity>, id: Uuid)
    requires UniqueFields(records)
    ensures UniqueFields(records - {id})
  {
  }

  /** Every stored policy matches itself, so an update to the current threshold and value is reported as a duplicate. */
  lemma StoredPolicyMatchesItself(records: map<Uuid, DiscountPolicyEntity>, id: Uuid)
    requires id in records
    ensures HasPolicyWith(records, records[id].discountType, records[id].threshold, records[id].discountValue)
  {
    assert SameFields(records[id], records[id].discountType, records[id].threshold, records[id].discountValue);
  }

  class DiscountPolicyService {
    const repository: DiscountPolicyRepository

    ghost predicate Valid()
      reads this, repository
    {
      repository.Valid()
    }

    constructor(repository: DiscountPolicyRepository)
      requires repository.Valid()
      ensures this.repository == repository && Valid()
    {
      this.repository := repository;
    }

    /** checkIfAlreadyExists: fails exactly when a stored policy has these three fields. */
    method CheckIfAlreadyExists(discountType: DiscountType, threshold: int, value: Dec) returns (o: Outcome)
      requires Valid()
      ensures o == Pass <==> !HasPolicyWith(repository.records, discountType, threshold, value)
      ensures o.Fail? ==> o.error == DiscountPolicyAlreadyExists
    {
      var similar := repository.FindByTypeAndThresholdAndDiscountValue(discountType, threshold, value);
      if similar.Some? {
        o := Fail(DiscountPolicyAlreadyExists);
      } else {
        o := Pass;
      }
    }

    /** addDiscountPolicy: a duplicate saves nothing; otherwise exactly one new record under a fresh id. */
    method AddDiscountPolicy(discountType: DiscountType, threshold: int, value: Dec) returns (r: Result<DiscountPolicyModel>)
      requires Valid()
      modifies repository
      ensures Valid()
      ensures HasPolicyWith(old(repository.records), discountType, threshold, value) ==>
        r == Failure(DiscountPolicyAlreadyExists) && repository.records == old(repository.records)
      ensures !HasPolicyWith(old(repository.records), discountType, threshold, value) ==>
        && r.Success? && r.value == DiscountPolicyModel(r.value.id, discountType, threshold, value)
        && r.value.id !in old(repository.records)
        && repository.records == old(repository.records)[r.value.id := DiscountPolicyEntity(r.value.id, discountType, threshold, value)]
      ensures old(UniqueFields(repository.records)) ==> UniqueFields(repository.records)
    {
      var check := CheckIfAlreadyExists(discountType, threshold, value);
      if check.Fail? {
        return Failure(check.error);
      }
      ghost var before := repository.records;
      var entity := repository.Insert(discountType, threshold, value);
      if UniqueFields(before) {
        InsertKeepsUnique(before, entity);
      }
      r := Success(DiscountPolicyMapper.EntityToModel(entity));
    }

    /** getDiscountPolicy: the stored policy, or DiscountPolicyNotFound. */
    method GetDiscountPolicy(id: Uuid) returns (r: Result<DiscountPolicyModel>)
      requires Valid()
      ensures id !in repository.records ==> r == Failure(DiscountPolicyNotFound)
      ensures id in repository.records ==> r == Success(DiscountPolicyMapper.EntityToModel(repository.records[id]))
    {
      if id in repository.records {
        r := Success(DiscountPolicyMapper.EntityToModel(repository.records[id]));
      } else {
        r := Failure(DiscountPolicyNotFound);
      }
    }

    /**
     * updateDiscountPolicy: a missing id fails before any uniqueness check; the
     * check uses the stored type and searches every record, this one included;
     * on success only threshold and value change.
     */
    method UpdateDiscountPolicy(id: Uuid, threshold: int, value: Dec) returns (r: Result<DiscountPolicyModel>)
      requires Valid()
      modifies repository
      ensures Valid()
      ensures id !in old(repository.records) ==>
        r == Failure(DiscountPolicyNotFound) && repository.records == old(repository.records)
      ensures id in old(repository.records) && HasPolicyWith(old(repository.records), old(repository.records)[id].discountType, threshold, value) ==>
        r == Failure(DiscountPolicyAlreadyExists) && repository.records == old(repository.records)
      ensures id in old(repository.records) && !HasPolicyWith(old(repository.records), old(repository.records)[id].discountType, threshold, value) ==>
        var updated := DiscountPolicyEntity(id, old(repository.records)[id].discountType, threshold, value);
        && repository.records == old(repository.records)[id := updated]
        && r == Success(DiscountPolicyMapper.EntityToModel(updated))
      ensures old(UniqueFields(repository.records)) ==> UniqueFields(repository.records)
    {
      if id !in repository.records {
        return Failure(DiscountPolicyNotFound);
      }
      var entity := repository.records[id];
      var check := CheckIfAlreadyExists(entity.discountType, threshold, value);
      if check.Fail? {
        return Failure(check.error);
      }
      entity := entity.(threshold := threshold, discountValue := value);
      ghost var before := repository.records;
      repository.Save(entity);
      if UniqueFields(before) {
        InsertKeepsUnique(before, entity);
      }
      r := Success(DiscountPolicyMapper.EntityToModel(entity));
    }

    /** deleteDiscountPolicy: removes by id, never fails. */
    method DeleteDiscountPolicy(id: Uuid)
      requires Valid()
      modifies repository
      ensures Valid() && repository.records == old(repository.records) - {id}
      ensures old(UniqueFields(repository.records)) ==> UniqueFields(repository.records)
    {
      repository.DeleteById(id);
    }
  }
}
