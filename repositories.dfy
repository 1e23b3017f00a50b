/**
 * The relational store behind the services, as two key-to-record maps. Each
 * inserted record gets an identifier the store has never handed out; this
 * stands for the generated UUID primary key.
 */
module Repositories {
  import opened Decimal
  import opened Domain

  predicate Distinct<T(==)>(s: seq<T>) {
    forall i, j :: 0 <= i < j < |s| ==> s[i] != s[j]
  }

  /** Two policies agree on type, threshold and value (value compared with BigDecimal.equals). */
  predicate SameFields(p: DiscountPolicyEntity, discountType: DiscountType, threshold: int, value: Dec) {
    p.discountType == discountType && p.threshold == threshold && p.discountValue == value
  }

  /** findByTypeAndThresholdAndDiscountValue finds something: some stored record has these fields. */
  predicate HasPolicyWith(records: map<Uuid, DiscountPolicyEntity>, discountType: DiscountType, threshold: int, value: Dec) {
    exists id :: id in records && SameFields(records[id], discountType, threshold, value)
  }

  /** No two stored policies share (type, threshold, value). */
  ghost predicate UniqueFields(records: map<Uuid, DiscountPolicyEntity>) {
    forall a, b :: a in records && b in records && a != b ==>
      !SameFields(records[a], records[b].discountType, records[b].threshold, records[b].discountValue)
  }

  class DiscountPolicyRepository {
    var records: map<Uuid, DiscountPolicyEntity>
    var nextId: Uuid

    /** Each record is stored under its own id, and every id in use was handed out. */
    ghost predicate Valid()
      reads this
    {
      forall id :: id in records ==> records[id].id == id && id < nextId
    }

    constructor()
      ensures Valid() && records == map[]
    {
      records, nextId := map[], 0;
    }

    /** save of a new entity: it receives a fresh id. */
    method Insert(discountType: DiscountType, threshold: int, value: Dec) returns (e: DiscountPolicyEntity)
      requires Valid()
      modifies this
      ensures Valid()
      ensures e.id !in old(records) && e == DiscountPolicyEntity(e.id, discountType, threshold, value)
      ensures records == old(records)[e.id := e]
    {
      e := DiscountPolicyEntity(nextId, discountType, threshold, value);
      records := records[nextId := e];
      nextId := nextId + 1;
    }

    /** save of an entity loaded from this store. */
    method Save(e: DiscountPolicyEntity)
      requires Valid() && e.id in records
      modifies this
      ensures Valid() && records == old(records)[e.id := e]
    {
      records := records[e.id := e];
    }

    /** deleteById: silently does nothing when the id is absent. */
    method DeleteById(id: Uuid)
      requires Valid()
      modifies this
      ensures Valid() && records == old(records) - {id}
    {
      records := records - {id};
    }

    method FindByTypeAndThresholdAndDiscountValue(discountType: DiscountType, threshold: int, value: Dec)
      returns (r: Option<DiscountPolicyEntity>)
      ensures r.None? <==> !HasPolicyWith(records, discountType, threshold, value)
      ensures r.Some? ==> r.value.id in records && records[r.value.id] == r.value
                          && SameFields(r.value, discountType, threshold, value)
      requires Valid()
    {
      if id :| id in records && SameFields(records[id], discountType, threshold, value) {
        r := Some(records[id]);
      } else {
        r := None;
      }
    }
  }

  /**
   * A product row: the products table joined with its rows of the
   * product-to-policy join table, the latter as a duplicate-free list of
   * policy ids in the order the product's policy set iterates.
   */
  datatype ProductRow = ProductRow(id: Uuid, name: string, price: Dec, policyIds: seq<Uuid>)

  class ProductRepository {
    var records: map<Uuid, ProductRow>
    var nextId: Uuid

    ghost predicate Valid()
      reads this
    {
      forall id :: id in records ==> records[id].id == id && id < nextId && Distinct(records[id].policyIds)
    }

    constructor()
      ensures Valid() && records == map[]
    {
      records, nextId := map[], 0;
    }

    /** save of a new entity: it receives a fresh id and no policies. */
    method Insert(name: string, price: Dec) returns (row: ProductRow)
      requires Valid()
      modifies this
      ensures Valid()
      ensures row.id !in old(records) && row == ProductRow(row.id, name, price, [])
      ensures records == old(records)[row.id := row]
    {
      row := ProductRow(nextId, name, price, []);
      records := records[nextId := row];
      nextId := nextId + 1;
    }

    /** save of a row loaded from this store. */
    method Save(row: ProductRow)
      requires Valid() && row.id in records && Distinct(row.policyIds)
      modifies this
      ensures Valid() && records == old(records)[row.id := row]
    {
      records := records[row.id := row];
    }

    method DeleteById(id: Uuid)
      requires Valid()
      modifies this
      ensures Valid() && records == old(records) - {id}
    {
      records := records - {id};
    }
  }
}
