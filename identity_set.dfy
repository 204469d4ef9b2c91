/**
 * The membership set of the notes database (service/src/IdentitySet.ts): an
 * insertion-ordered set of ids that hands out one identity object per id
 * for as long as the id stays in the set.
 */
module Identities {
  import opened Seqs

  /** An object standing for an id; two objects with the same id are still two objects. */
  class Identity<T> {
    const id: T

    constructor (id: T)
      ensures this.id == id
    {
      this.id := id;
    }
  }

  class IdentitySet<T(==, !new)> {
    /** The keys of the private `map`, in insertion order. */
    var order: seq<T>
    /** The private `map`: each present id and its identity object. */
    var identities: map<T, Identity<T>>

    ghost predicate Valid()
      reads this
    {
      && NoDuplicates(order)
      && (forall x :: x in identities <==> x in order)
      && (forall x :: x in identities ==> identities[x].id == x)
    }

    constructor ()
      ensures Valid()
      ensures order == [] && identities == map[]
    {
      order := [];
      identities := map[];
    }

    /** The number of ids in the set (`size`), which is the number of map entries. */
    function Size(): (n: nat)
      reads this
      requires Valid()
      ensures n == |identities.Keys|
    {
      DistinctCardinality(order);
      assert identities.Keys == set x | x in order;
      |order|
    }

    /** `has(id)`. */
    predicate Has(id: T)
      reads this
    {
      id in identities
    }

    /** `keys()`, `values()` and iteration: the ids in first-insertion order, each once. */
    function Keys(): (ks: seq<T>)
      reads this
      requires Valid()
      ensures NoDuplicates(ks)
      ensures forall x :: x in ks <==> Has(x)
      ensures |ks| == Size()
    {
      order
    }

    /** `add(id)`: a present id keeps its place and its identity object. */
    method Add(id: T)
      requires Valid()
      modifies this
      ensures Valid() && Has(id)
      ensures old(Has(id)) ==> order == old(order) && identities == old(identities)
      ensures !old(Has(id)) ==>
        && order == old(order) + [id]
        && id in identities && fresh(identities[id])
        && identities == old(identities)[id := identities[id]]
    {
      if id in identities {
        return;
      }
      var identity := new Identity(id);
      identities := identities[id := identity];
      order := order + [id];
    }

    /** `delete(id)`: true exactly when `id` was present; all other ids stay as they were. */
    method Delete(id: T) returns (deleted: bool)
      requires Valid()
      modifies this
      ensures Valid() && !Has(id)
      ensures deleted == old(Has(id))
      ensures order == RemoveValue(old(order), id)
      ensures identities == old(identities) - {id}
    {
      deleted := id in identities;
      identities := identities - {id};
      order := RemoveValue(order, id);
    }

    /** `clear()`. */
    method Clear()
      requires Valid()
      modifies this
      ensures Valid() && Size() == 0
      ensures forall x :: !Has(x)
    {
      identities := map[];
      order := [];
    }

    /**
     * `get(id)`: the stored identity object when `id` is present, otherwise a
     * new object on every call; the set is not changed either way.
     */
    method Get(id: T) returns (identity: Identity<T>)
      requires Valid()
      ensures identity.id == id
      ensures old(Has(id)) ==> identity == identities[id]
      ensures !old(Has(id)) ==> fresh(identity)
    {
      if id in identities {
        identity := identities[id];
      } else {
        identity := new Identity(id);
      }
    }
  }

  /** service/src/IdentitySet.test.ts: adding, re-adding, deleting and clearing. */
  method MembershipScenario() {
    var ids := new IdentitySet<string>();
    ids.Add("a");
    assert ids.Has("a") && !ids.Has("b");
    ids.Add("a");
    assert ids.Keys() == ["a"];
    var deleted := ids.Delete("a");
    assert deleted && !ids.Has("a");
    deleted := ids.Delete("b");
    assert !deleted;
    ids.Add("x");
    ids.Clear();
    assert !ids.Has("x");
  }

  /** service/src/IdentitySet.test.ts: one identity per present id, a new one per call otherwise. */
  method IdentityScenario() {
    var ids := new IdentitySet<string>();
    var fresh1 := ids.Get("a");
    var fresh2 := ids.Get("a");
    assert fresh1 != fresh2;
    ids.Add("a");
    var stable1 := ids.Get("a");
    var stable2 := ids.Get("a");
    assert stable1 == stable2;
  }

  /** service/src/IdentitySet.test.ts: iteration follows insertion order. */
  method OrderScenario() {
    var ids := new IdentitySet<string>();
    ids.Add("a");
    ids.Add("b");
    ids.Add("c");
    assert ids.order == ["a", "b", "c"];
  }
}
