/**
  The process-wide pool registry of resourceloader.h (class `ResourceLoader`).

  The static members `resourcePools` and `resourcePath` become the fields of
  one `ResourceLoader` object; the global `resourceCounter` is the
  `ResourceCounter` object it shares. A template call `F<T>(...)` becomes a
  call `F(ty, ...)` with `ty` the `ResourceType` for `T`.
 */
module ResourceLoaders {
  import opened Wrappers
  import opened ResourceTypes
  import opened ResourcePools

  /**
    `if (resourcePools.size() <= rid) resourcePools.resize(rid + 1, nullptr);`:
    the entries are kept and the vector is padded with null entries until
    index `rid` exists.
   */
  function Grown(pools: seq<ResourcePool?>, rid: nat): (r: seq<ResourcePool?>)
    ensures |r| == if rid < |pools| then |pools| else rid + 1
    ensures rid < |r| && r[..|pools|] == pools
    ensures forall i :: |pools| <= i < |r| ==> r[i] == null
  {
    if rid < |pools| then pools else pools + seq(rid + 1 - |pools|, _ => null)
  }

  /** `resourcePath + path` for each path: plain concatenation, no separator or normalisation. */
  function WithRoot(root: string, paths: seq<string>): (r: seq<string>)
    ensures |r| == |paths|
    ensures forall i :: 0 <= i < |r| ==> |r[i]| == |root| + |paths[i]| && r[i][..|root|] == root && r[i][|root|..] == paths[i]
  {
    seq(|paths|, i requires 0 <= i < |paths| => root + paths[i])
  }

  /** What `GetResource<T>(key)` comes to. */
  datatype Fetch =
    | AssertionFailure
      // `assert(resourceID < resourcePools.size())` fails: the program aborts (a build
      // without NDEBUG); with NDEBUG the vector is read out of range instead
    | NullPoolDereference
      // the type's entry exists but holds no pool: the source dereferences a null pointer
    | Found(slot: nat, offset: nat, content: Option<Resource>)
      // the pointer `pData + offset` into slot `slot`, and the object constructed there, if any

  class ResourceLoader {
    const typeIds: ResourceCounter
    var resourcePools: seq<ResourcePool?>
    var resourcePath: string
    ghost var Repr: set<object>

    /** Every pool present is well formed and owned by this registry alone, at one index. */
    ghost predicate Valid()
      reads this, Repr
    {
      && this in Repr && typeIds in Repr && typeIds.Valid()
      && (forall i :: 0 <= i < |resourcePools| && resourcePools[i] != null ==>
            resourcePools[i] in Repr && resourcePools[i].Valid())
      && (forall i, j :: 0 <= i < j < |resourcePools| && resourcePools[i] != null ==>
            resourcePools[i] != resourcePools[j])
    }

    /** The statics at program start: no pools, empty resource path. */
    constructor (typeIds: ResourceCounter)
      requires typeIds.Valid()
      ensures Valid() && Repr == {this, typeIds}
      ensures this.typeIds == typeIds && resourcePools == [] && resourcePath == ""
    {
      this.typeIds := typeIds;
      resourcePools := [];
      resourcePath := "";
      Repr := {this, typeIds};
    }

    /** `SetResourcePath(folder)`: the prefix for every later load. */
    method SetResourcePath(folder: string)
      requires Valid()
      modifies this`resourcePath
      ensures Valid() && resourcePath == folder
    {
      resourcePath := folder;
    }

    /**
      `GetResourcePool<T>()`: the pool at index `GetResourceID<T>()`, created
      with `sizeof(T)` on first use. An existing pool is never replaced and no
      pool's contents change.
     */
    method GetResourcePool(ty: ResourceType) returns (pool: ResourcePool, ghost rid: nat)
      requires Valid()
      modifies this, typeIds
      ensures Valid() && fresh(Repr - old(Repr))
      ensures (rid, typeIds.Table()) == AssignId(old(typeIds.Table()), ty)
      ensures resourcePools == Grown(old(resourcePools), rid)[rid := pool]
      ensures var existing := Grown(old(resourcePools), rid)[rid];
        && (existing != null ==> pool == existing)
        && (existing == null ==> fresh(pool) && pool.elementSize == ty.size && pool.State() == EmptyPool && pool.slots == map[])
      ensures resourcePath == old(resourcePath)
    {
      var resourceId := typeIds.GetResourceId(ty);
      if |resourcePools| <= resourceId {
        resourcePools := resourcePools + seq(resourceId + 1 - |resourcePools|, _ => null);
      }
      if resourcePools[resourceId] == null {
        var p := new ResourcePool(ty.size);
        resourcePools := resourcePools[resourceId := p];
        Repr := Repr + {p};
      }
      pool := resourcePools[resourceId];
      rid := resourceId;
    }

    /**
      `LoadResource<T>(key, path1)` and `LoadResource<T>(key, path1, path2)`:
      find or create the type's pool, take the slot `GetID(key)` and construct
      there a `T` from `resourcePath` prepended to each path. The slot's
      previous object, if any, is overwritten; other pools are untouched.
     */
    method LoadResource(ty: ResourceType, key: string, paths: seq<string>)
      returns (ghost pool: ResourcePool, ghost rid: nat, ghost slot: nat)
      requires Valid()
      requires |paths| == 1 || |paths| == 2
      modifies Repr
      ensures Valid() && fresh(Repr - old(Repr))
      ensures (rid, typeIds.Table()) == AssignId(old(typeIds.Table()), ty)
      ensures resourcePools == Grown(old(resourcePools), rid)[rid := pool]
      ensures var existing := Grown(old(resourcePools), rid)[rid];
        && (existing != null ==> pool == existing)
        && (existing == null ==> fresh(pool) && pool.elementSize == ty.size)
        && (slot, pool.State()) == GetIdStep(if existing != null then old(existing.State()) else EmptyPool, key)
        && pool.slots == (if existing != null then old(existing.slots) else map[])[slot := Constructed(ty, WithRoot(resourcePath, paths))]
      ensures resourcePath == old(resourcePath)
      ensures forall i :: 0 <= i < |resourcePools| && i != rid && resourcePools[i] != null ==> unchanged(resourcePools[i])
    {
      var p, r := GetResourcePool(ty);
      var id := p.GetId(key);
      p.slots := p.slots[id := Constructed(ty, WithRoot(resourcePath, paths))];
      pool, rid, slot := p, r, id;
    }

    /**
      `GetResource<T>(key)`: after the range assertion, the slot `GetID(key)`
      of the type's pool, which for a key that is not mapped may be a freshly
      allocated or recycled slot.
     */
    method GetResource(ty: ResourceType, key: string) returns (r: Fetch, ghost rid: nat)
      requires Valid()
      modifies Repr
      ensures Valid() && Repr == old(Repr)
      ensures (rid, typeIds.Table()) == AssignId(old(typeIds.Table()), ty)
      ensures resourcePools == old(resourcePools) && resourcePath == old(resourcePath)
      ensures r.AssertionFailure? <==> |resourcePools| <= rid
      ensures r.NullPoolDereference? <==> rid < |resourcePools| && resourcePools[rid] == null
      ensures r.Found? ==>
        var pool := resourcePools[rid];
        && (r.slot, pool.State()) == GetIdStep(old(pool.State()), key)
        && r.offset == pool.Get(r.slot)
        && r.content == (if r.slot in pool.slots then Some(pool.slots[r.slot]) else None)
        && pool.slots == old(pool.slots)
      ensures forall i :: 0 <= i < |resourcePools| && i != rid && resourcePools[i] != null ==> unchanged(resourcePools[i])
    {
      var resourceId := typeIds.GetResourceId(ty);
      rid := resourceId;
      if |resourcePools| <= resourceId {
        r := AssertionFailure;
      } else if resourcePools[resourceId] == null {
        r := NullPoolDereference;
      } else {
        var pool := resourcePools[resourceId];
        var id := pool.GetId(key);
        var content := if id in pool.slots then Some(pool.slots[id]) else None;
        r := Found(id, pool.Get(id), content);
      }
    }
  }

  /** The pool a registry holds for type `ty` before the type's id is requested, or null. */
  ghost function PoolOf(pools: seq<ResourcePool?>, t: IdTable, ty: ResourceType): ResourcePool?
  {
    var rid := AssignId(t, ty).0;
    if rid < |pools| then pools[rid] else null
  }

  /**
    `LoadResource<T>(key, ...)` followed by `GetResource<T>(key)`: the get
    always reaches the type's pool, and it finds the object the load
    constructed when the load created the pool, found the key mapped or
    allocated a fresh slot. When the load recycled a freed slot of a pool
    satisfying the free-list invariant, the key was left unmapped and the get
    is handed a different slot.
   */
  method LoadThenGet(loader: ResourceLoader, ty: ResourceType, key: string, paths: seq<string>)
    returns (r: Fetch, ghost loaded: nat)
    requires loader.Valid()
    requires |paths| == 1 || |paths| == 2
    modifies loader.Repr
    ensures r.Found?
    ensures var p := PoolOf(old(loader.resourcePools), old(loader.typeIds.Table()), ty);
      && (p == null || key in old(p.index) || old(p.freeIds) == [] ==>
            r.slot == loaded && r.content == Some(Constructed(ty, WithRoot(old(loader.resourcePath), paths))))
      && (p != null && Sound(old(p.State())) && key !in old(p.index) && old(p.freeIds) != [] ==>
            r.slot != loaded)
  {
    ghost var p := PoolOf(loader.resourcePools, loader.typeIds.Table(), ty);
    ghost var s0 := if p != null then p.State() else EmptyPool;
    var pool, rid, slot := loader.LoadResource(ty, key, paths);
    assert pool.State() == GetIdStep(s0, key).1;
    ghost var rid2;
    r, rid2 := loader.GetResource(ty, key);
    assert rid2 == rid && loader.resourcePools[rid] == pool;
    loaded := slot;
    if p == null || key in s0.index || s0.freeIds == [] {
      assert s0.index == map[] || key in s0.index || s0.freeIds == [];
      assert r.slot == slot;
    } else if Sound(s0) {
      RepeatedGetIdAgrees(s0, key);
    }
  }

  /** The two shader paths of the start-up load, after the resource folder is prepended. */
  lemma StartupShaderPaths()
    ensures WithRoot("Resources/", ["everything.vs", "raytracer.fs"])
         == ["Resources/everything.vs", "Resources/raytracer.fs"]
  {
    var built := WithRoot("Resources/", ["everything.vs", "raytracer.fs"]);
    assert built[0] == "Resources/" + "everything.vs" && built[1] == "Resources/" + "raytracer.fs";
    assert "Resources/" + "everything.vs" == "Resources/everything.vs";
    assert "Resources/" + "raytracer.fs" == "Resources/raytracer.fs";
  }

  /**
    The start-up sequence of the application: set the resource folder, load
    the shader from a vertex and a fragment file, and fetch it back. On a
    fresh registry the shader sits in slot 0 at offset 0, built from the two
    prefixed paths.
   */
  method LoadShaderAtStartup(loader: ResourceLoader, shader: ResourceType) returns (r: Fetch)
    requires loader.Valid() && loader.resourcePools == []
    modifies loader.Repr
    ensures r == Found(0, 0, Some(Constructed(shader, ["Resources/everything.vs", "Resources/raytracer.fs"])))
  {
    var shaderObject := Constructed(shader, ["Resources/everything.vs", "Resources/raytracer.fs"]);
    loader.SetResourcePath("Resources/");
    StartupShaderPaths();
    var pool, rid, slot := loader.LoadResource(shader, "Everything", ["everything.vs", "raytracer.fs"]);
    assert slot == 0 && pool.State() == PoolState(map["Everything" := 0], [], 1);
    assert pool.slots == map[0 := shaderObject];
    assert loader.resourcePools[rid] == pool && loader.typeIds.ids[shader] == rid;
    ghost var rid2;
    r, rid2 := loader.GetResource(shader, "Everything");
    assert rid2 == rid;
  }
}
