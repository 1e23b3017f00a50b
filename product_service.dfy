/**
 * ProductServiceImpl: products and the set of discount policies attached to
 * each, over the product store and the policy store.
 */
module Products {
  import opened Decimal
  import opened Domain
  import opened Repositories
  import ProductMapper

  /** The join table's policy ids resolved against the policy store, in order; ids with no policy are skipped. */
  function Resolve(ids: seq<Uuid>, store: map<Uuid, DiscountPolicyEntity>): (es: seq<DiscountPolicyEntity>)
    ensures |es| <= |ids|
  {
    if ids == [] then []
    else if ids[0] in store then [store[ids[0]]] + Resolve(ids[1..], store)
    else Resolve(ids[1..], store)
  }

  /** findById: the entity a stored row stands for. */
  function Load(row: ProductRow, store: map<Uuid, DiscountPolicyEntity>): ProductEntity {
    ProductEntity(row.id, row.name, row.price, Resolve(row.policyIds, store))
  }

  /** The set's add: the policy id joins the product's join-table rows. */
  function Attach(row: ProductRow, policyId: Uuid): ProductRow {
    row.(policyIds := row.policyIds + [policyId])
  }

  /** Every id except x, in order. */
  function Without(ids: seq<Uuid>, x: Uuid): (r: seq<Uuid>)
    ensures |r| <= |ids|
  {
    if ids == [] then []
    else if ids[0] == x then Without(ids[1..], x)
    else [ids[0]] + Without(ids[1..], x)
  }

  /** The set's removeIf on the id. */
  function Detach(row: ProductRow, policyId: Uuid): ProductRow {
    row.(policyIds := Without(row.policyIds, policyId))
  }

  /** The anyMatch of checkIfHasSamePolicy: some attached policy has the candidate's type, threshold and value. */
  function AnyMatch(ps: seq<DiscountPolicyEntity>, c: DiscountPolicyEntity): (r: bool)
    ensures r <==> exists i :: 0 <= i < |ps| && SameFields(ps[i], c.discountType, c.threshold, c.discountValue)
  {
    if ps == [] then false
    else SameFields(ps[0], c.discountType, c.threshold, c.discountValue) || AnyMatch(ps[1..], c)
  }

  /**
   * checkIfHasSamePolicy: fails with ProductAlreadyContainsPolicy exactly when
   * an attached policy agrees with the candidate on all three fields, whatever its id.
   */
  function CheckIfHasSamePolicy(product: ProductEntity, policy: DiscountPolicyEntity): (o: Outcome)
    ensures o.Fail? ==> o.error == ProductAlreadyContainsPolicy
    ensures o == Pass <==> forall e :: e in product.discountPolicies ==>
      !SameFields(e, policy.discountType, policy.threshold, policy.discountValue)
  {
    if AnyMatch(product.discountPolicies, policy) then Fail(ProductAlreadyContainsPolicy) else Pass
  }

  /** A policy is on the loaded product exactly when its id is joined to the row and it is the stored policy of that id. */
  lemma {:induction false} ResolveMembership(ids: seq<Uuid>, store: map<Uuid, DiscountPolicyEntity>, e: DiscountPolicyEntity)
    ensures e in Resolve(ids, store) <==> e.id in ids && e.id in store && store[e.id] == e
    requires forall id :: id in store ==> store[id].id == id
  {
    if ids != [] {
      ResolveMembership(ids[1..], store, e);
      assert ids == [ids[0]] + ids[1..];
    }
  }

  /** Resolving an appended id appends its policy. */
  lemma {:induction false} ResolveAppend(ids: seq<Uuid>, store: map<Uuid, DiscountPolicyEntity>, x: Uuid)
    requires x in store
    ensures Resolve(ids + [x], store) == Resolve(ids, store) + [store[x]]
  {
    if ids == [] {
      assert [x][1..] == [];
    } else {
      assert (ids + [x])[1..] == ids[1..] + [x];
      ResolveAppend(ids[1..], store, x);
    }
  }

  lemma {:induction false} WithoutMembership(ids: seq<Uuid>, x: Uuid, y: Uuid)
    ensures y in Without(ids, x) <==> y in ids && y != x
  {
    if ids != [] {
      WithoutMembership(ids[1..], x, y);
      assert ids == [ids[0]] + ids[1..];
    }
  }

  lemma {:induction false} WithoutDistinct(ids: seq<Uuid>, x: Uuid)
    requires Distinct(ids)
    ensures Distinct(Without(ids, x))
  {
    if ids != [] {
      WithoutDistinct(ids[1..], x);
      if ids[0] != x {
        WithoutMembership(ids[1..], x, ids[0]);
        assert ids[0] !in ids[1..];
        var r := Without(ids[1..], x);
        assert Without(ids, x) == [ids[0]] + r;
        forall i, j | 0 <= i < j < |[ids[0]] + r|
          ensures ([ids[0]] + r)[i] != ([ids[0]] + r)[j]
        {
          if i == 0 {
            assert ([ids[0]] + r)[j] == r[j - 1];
            assert r[j - 1] in r;
          }
        }
      }
    }
  }

  /** Removing an id that is not there changes nothing. */
  lemma {:induction false} WithoutAbsent(ids: seq<Uuid>, x: Uuid)
    requires x !in ids
    ensures Without(ids, x) == ids
  {
    if ids != [] {
      assert x !in ids[1..] by { assert forall k :: 0 <= k < |ids[1..]| ==> ids[1..][k] == ids[k + 1]; }
      WithoutAbsent(ids[1..], x);
      assert ids == [ids[0]] + ids[1..];
    }
  }

  /** Detach undoes Attach of an id that was not joined, and Detach is idempotent. */
  lemma DetachUndoesAttach(row: ProductRow, x: Uuid)
    requires x !in row.policyIds
    ensures Detach(Attach(row, x), x) == row
    ensures Detach(Detach(row, x), x) == Detach(row, x)
  {
    WithoutAppend(row.policyIds, x);
    WithoutAbsent(row.policyIds, x);
    WithoutMembership(row.policyIds, x, x);
    WithoutAbsent(Without(row.policyIds, x), x);
  }

  lemma {:induction false} WithoutAppend(ids: seq<Uuid>, x: Uuid)
    ensures Without(ids + [x], x) == Without(ids, x)
  {
    if ids == [] {
      assert [x][1..] == [];
    } else {
      assert (ids + [x])[1..] == ids[1..] + [x];
      WithoutAppend(ids[1..], x);
    }
  }

  /**
   * When the duplicate check passes for a stored policy, that policy's id is not
   * yet joined to the row: the stored policy would match itself.
   */
  lemma CheckPassMeansNotJoined(row: ProductRow, store: map<Uuid, DiscountPolicyEntity>, x: Uuid)
    requires forall id :: id in store ==> store[id].id == id
    requires x in store && CheckIfHasSamePolicy(Load(row, store), store[x]) == Pass
    ensures x !in row.policyIds
  {
    if x in row.policyIds {
      ResolveMembership(row.policyIds, store, store[x]);
      assert false;
    }
  }

  /** After an attach, the loaded policies are the old ones plus the stored candidate; id, name and price are kept. */
  lemma AttachAdds(row: ProductRow, store: map<Uuid, DiscountPolicyEntity>, x: Uuid)
    requires x in store
    ensures var before, after := Load(row, store), Load(Attach(row, x), store);
      && after.id == before.id && after.name == before.name && after.price == before.price
      && after.discountPolicies == before.discountPolicies + [store[x]]
      && forall e :: e in after.discountPolicies <==> e in before.discountPolicies || e == store[x]
  {
    ResolveAppend(row.policyIds, store, x);
  }

  /** After a detach, the loaded policies are exactly the old ones whose id differs. */
  lemma DetachRemoves(row: ProductRow, store: map<Uuid, DiscountPolicyEntity>, x: Uuid)
    requires forall id :: id in store ==> store[id].id == id
    ensures var before, after := Load(row, store), Load(Detach(row, x), store);
      && after.id == before.id && after.name == before.name && after.price == before.price
      && forall e :: e in after.discountPolicies <==> e in before.discountPolicies && e.id != x
  {
    forall e
      ensures e in Resolve(Without(row.policyIds, x), store) <==> e in Resolve(row.policyIds, store) && e.id != x
    {
      ResolveMembership(Without(row.policyIds, x), store, e);
      ResolveMembership(row.policyIds, store, e);
      WithoutMembership(row.policyIds, x, e.id);
    }
  }

  class ProductService {
    const products: ProductRepository
    const policies: DiscountPolicyRepository

    ghost predicate Valid()
      reads this, products, policies
    {
      products.Valid() && policies.Valid()
    }

    constructor(products: ProductRepository, policies: DiscountPolicyRepository)
      requires products.Valid() && policies.Valid()
      ensures this.products == products && this.policies == policies && Valid()
    {
      this.products := products;
      this.policies := policies;
    }

    /** The model of the stored product with this id, as getProduct returns it. */
    ghost function Current(id: Uuid): ProductModel
      reads this, products, policies
      requires id in products.records
    {
      ProductMapper.EntityToModel(Load(products.records[id], policies.records))
    }

    /**
     * addDiscountPolicy. Checked in order: the product exists, the policy exists,
     * no attached policy has the same fields. A failure saves nothing; success
     * joins the policy to the product and returns the saved product.
     */
    method AddDiscountPolicy(productId: Uuid, discountPolicyId: Uuid) returns (r: Result<ProductModel>)
      requires Valid()
      modifies products
      ensures Valid()
      ensures productId !in old(products.records) ==>
        r == Failure(ProductNotFound) && products.records == old(products.records)
      ensures productId in old(products.records) && discountPolicyId !in policies.records ==>
        r == Failure(DiscountPolicyNotFound) && products.records == old(products.records)
      ensures productId in old(products.records) && discountPolicyId in policies.records
              && CheckIfHasSamePolicy(Load(old(products.records)[productId], policies.records), policies.records[discountPolicyId]).Fail? ==>
        r == Failure(ProductAlreadyContainsPolicy) && products.records == old(products.records)
      ensures productId in old(products.records) && discountPolicyId in policies.records
              && CheckIfHasSamePolicy(Load(old(products.records)[productId], policies.records), policies.records[discountPolicyId]) == Pass ==>
        && r.Success?
        && discountPolicyId !in old(products.records)[productId].policyIds
        && products.records == old(products.records)[productId := Attach(old(products.records)[productId], discountPolicyId)]
        && r.value == Current(productId)
      ensures r.Success? ==>
        && productId in old(products.records) && discountPolicyId in policies.records
        && CheckIfHasSamePolicy(Load(old(products.records)[productId], policies.records), policies.records[discountPolicyId]) == Pass
        && discountPolicyId !in old(products.records)[productId].policyIds
        && products.records == old(products.records)[productId := Attach(old(products.records)[productId], discountPolicyId)]
        && r.value == Current(productId)
    {
      if productId !in products.records {
        return Failure(ProductNotFound);
      }
      var product := products.records[productId];
      if discountPolicyId !in policies.records {
        return Failure(DiscountPolicyNotFound);
      }
      var discountPolicy := policies.records[discountPolicyId];
      var check := CheckIfHasSamePolicy(Load(product, policies.records), discountPolicy);
      if check.Fail? {
        return Failure(check.error);
      }
      CheckPassMeansNotJoined(product, policies.records, discountPolicyId);
      assert Distinct(product.policyIds + [discountPolicyId]);
      product := Attach(product, discountPolicyId);
      products.Save(product);
      r := Success(ProductMapper.EntityToModel(Load(product, policies.records)));
    }

    /** removeDiscountPolicy: detaches every policy with that id (none is fine); a missing product saves nothing. */
    method RemoveDiscountPolicy(productId: Uuid, discountPolicyId: Uuid) returns (r: Result<ProductModel>)
      requires Valid()
      modifies products
      ensures Valid()
      ensures productId !in old(products.records) ==>
        r == Failure(ProductNotFound) && products.records == old(products.records)
      ensures productId in old(products.records) ==>
        && products.records == old(products.records)[productId := Detach(old(products.records)[productId], discountPolicyId)]
        && r == Success(Current(productId))
    {
      if productId !in products.records {
        return Failure(ProductNotFound);
      }
      var product := products.records[productId];
      WithoutDistinct(product.policyIds, discountPolicyId);
      product := Detach(product, discountPolicyId);
      products.Save(product);
      r := Success(ProductMapper.EntityToModel(Load(product, policies.records)));
    }

    /** getProduct: the stored product, or ProductNotFound. */
    method GetProduct(id: Uuid) returns (r: Result<ProductModel>)
      requires Valid()
      ensures id !in products.records ==> r == Failure(ProductNotFound)
      ensures id in products.records ==> r == Success(Current(id))
    {
      if id in products.records {
        r := Success(ProductMapper.EntityToModel(Load(products.records[id], policies.records)));
      } else {
        r := Failure(ProductNotFound);
      }
    }

    /** createProduct: a fresh product with the given name and price and no policies. */
    method CreateProduct(name: string, price: Dec) returns (m: ProductModel)
      requires Valid()
      modifies products
      ensures Valid()
      ensures m.id !in old(products.records)
      ensures products.records == old(products.records)[m.id := ProductRow(m.id, name, price, [])]
      ensures m == ProductModel(m.id, name, price, [])
    {
      var row := products.Insert(name, price);
      m := ProductMapper.EntityToModel(Load(row, policies.records));
    }

    /** updateProduct: replaces name and price and keeps the attached policies; a missing id saves nothing. */
    method UpdateProduct(id: Uuid, name: string, price: Dec) returns (r: Result<ProductModel>)
      requires Valid()
      modifies products
      ensures Valid()
      ensures id !in old(products.records) ==>
        r == Failure(ProductNotFound) && products.records == old(products.records)
      ensures id in old(products.records) ==>
        && products.records == old(products.records)[id := old(products.records)[id].(name := name, price := price)]
        && r == Success(Current(id))
    {
      if id !in products.records {
        return Failure(ProductNotFound);
      }
      var entity := products.records[id];
      entity := entity.(name := name, price := price);
      products.Save(entity);
      r := Success(ProductMapper.EntityToModel(Load(entity, policies.records)));
    }

    /** deleteProduct: removes by id, with no existence check. */
    method DeleteProduct(id: Uuid)
      requires Valid()
      modifies products
      ensures Valid() && products.records == old(products.records) - {id}
    {
      products.DeleteById(id);
    }
  }
}
