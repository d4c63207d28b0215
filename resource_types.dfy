/**
  Per-type resource identities: the global `resourceCounter` and the
  function-local static of `GetResourceID<T>` (resourceloader.h).

  A C++ template argument `T` is represented by a `ResourceType` value that
  carries the two things the loader needs from it: its name (its identity)
  and `sizeof(T)`.
 */
module ResourceTypes {

  /** A resource type `T`: its name and `sizeof(T)` in bytes. */
  datatype ResourceType = ResourceType(name: string, size: nat)

  /**
    The object that `T`'s path constructor builds in a slot. File reading and
    shader compilation happen inside that constructor and are not modelled:
    the value records which type was built and from which file paths.
   */
  datatype Resource = Constructed(kind: ResourceType, paths: seq<string>)

  /**
    The identity state: the id each type received on its first request, and
    the global counter that the next new type will receive.
   */
  datatype IdTable = IdTable(ids: map<ResourceType, nat>, counter: nat)

  const NoIds := IdTable(map[], 0)

  /** Every assigned id is below the counter and no two types share an id. */
  ghost predicate Distinct(t: IdTable)
  {
    && (forall ty :: ty in t.ids ==> t.ids[ty] < t.counter)
    && (forall ty1, ty2 :: ty1 in t.ids && ty2 in t.ids && ty1 != ty2 ==> t.ids[ty1] != t.ids[ty2])
  }

  /**
    One call of `GetResourceID<T>()` for type `ty`: a type seen before gets
    its recorded id; a new type gets the counter's value, which then advances.
   */
  function AssignId(t: IdTable, ty: ResourceType): (r: (nat, IdTable))
    ensures ty in r.1.ids && r.1.ids[ty] == r.0
    ensures r.1.ids.Keys == t.ids.Keys + {ty}
    ensures forall old_ty :: old_ty in t.ids ==> old_ty in r.1.ids && r.1.ids[old_ty] == t.ids[old_ty]
    ensures ty in t.ids ==> r.1 == t
    ensures ty !in t.ids ==> r.0 == t.counter && r.1.counter == t.counter + 1
    ensures Distinct(t) ==> Distinct(r.1)
  {
    if ty in t.ids then (t.ids[ty], t)
    else (t.counter, IdTable(t.ids[ty := t.counter], t.counter + 1))
  }

  /** The ids handed out for a run of requests, in order, and the final table. */
  function AssignIds(t: IdTable, tys: seq<ResourceType>): (r: (seq<nat>, IdTable))
    ensures |r.0| == |tys|
    ensures forall i :: 0 <= i < |tys| ==> tys[i] in r.1.ids && r.1.ids[tys[i]] == r.0[i]
    ensures forall old_ty :: old_ty in t.ids ==> old_ty in r.1.ids && r.1.ids[old_ty] == t.ids[old_ty]
    ensures Distinct(t) ==> Distinct(r.1)
    decreases |tys|
  {
    if tys == [] then ([], t)
    else
      var (id, t1) := AssignId(t, tys[0]);
      var (rest, t2) := AssignIds(t1, tys[1..]);
      ([id] + rest, t2)
  }

  /**
    Identity is stable and distinguishing: over any run of requests, two
    requests receive the same id exactly when they name the same type.
   */
  lemma SameIdExactlyForSameType(t: IdTable, tys: seq<ResourceType>)
    requires Distinct(t)
    ensures var ids := AssignIds(t, tys).0;
      forall i, j :: 0 <= i < |tys| && 0 <= j < |tys| ==> (ids[i] == ids[j] <==> tys[i] == tys[j])
  {
    var (ids, final) := AssignIds(t, tys);
    assert Distinct(final);
    forall i, j | 0 <= i < |tys| && 0 <= j < |tys|
      ensures ids[i] == ids[j] <==> tys[i] == tys[j]
    {
      assert final.ids[tys[i]] == ids[i] && final.ids[tys[j]] == ids[j];
    }
  }

  /**
    Types are numbered in first-use order from 0: starting with no ids, the
    k-th distinct type requested receives id k.
   */
  lemma {:induction false} FirstUseOrder(t: IdTable, tys: seq<ResourceType>)
    requires forall i, j :: 0 <= i < j < |tys| ==> tys[i] != tys[j]
    requires forall i :: 0 <= i < |tys| ==> tys[i] !in t.ids
    ensures var (ids, final) := AssignIds(t, tys);
      && (forall i :: 0 <= i < |tys| ==> ids[i] == t.counter + i)
      && final.counter == t.counter + |tys|
    decreases |tys|
  {
    if tys != [] {
      var (id, t1) := AssignId(t, tys[0]);
      forall i | 0 <= i < |tys[1..]| ensures tys[1..][i] !in t1.ids {
        assert tys[1..][i] == tys[i + 1] && tys[i + 1] != tys[0];
      }
      FirstUseOrder(t1, tys[1..]);
    }
  }

  /** The process-wide identity registry that `GetResourceID<T>` updates. */
  class ResourceCounter {
    var ids: map<ResourceType, nat>
    var counter: nat

    ghost function Table(): IdTable
      reads this
    {
      IdTable(ids, counter)
    }

    ghost predicate Valid()
      reads this
    {
      Distinct(Table())
    }

    /** `int resourceCounter = 0;` before any type has been requested. */
    constructor ()
      ensures Valid() && Table() == NoIds
    {
      ids := map[];
      counter := 0;
    }

    /** `GetResourceID<T>()`: the memoized per-type id. */
    method GetResourceId(ty: ResourceType) returns (id: nat)
      requires Valid()
      modifies this
      ensures Valid()
      ensures (id, Table()) == AssignId(old(Table()), ty)
      ensures ty in old(ids) ==> id == old(ids[ty]) && Table() == old(Table())
      ensures ty !in old(ids) ==> id == old(counter) && counter == old(counter) + 1 && ids == old(ids)[ty := id]
    {
      if ty in ids {
        id := ids[ty];
      } else {
        id := counter;
        counter := counter + 1;
        ids := ids[ty := id];
      }
    }
  }
}
