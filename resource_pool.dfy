/**
  The type-erased slot pool of resourceloader.h (struct `ResourcePool`).

  A pool owns a buffer of `MaxResources` slots of `elementSize` bytes, a map
  from string keys to slot indices, a stack of released indices (`freeIDS`)
  and a high-water counter (`nextID`). The bookkeeping is modelled twice: as
  the value `PoolState` with one function per operation, about which the
  lemmas below speak, and as the class `ResourcePool`, whose methods update
  its fields in place and are proved to agree with those functions.
 */
module ResourcePools {
  import opened ResourceTypes

  /** `MAX_RESOURCES`: number of slots in every pool's buffer. */
  const MaxResources: nat := 128

  /** The bookkeeping fields of a pool: key-to-slot map, stack of released slots, high-water mark. */
  datatype PoolState = PoolState(index: map<string, nat>, freeIds: seq<nat>, nextId: nat)

  /** A pool as its constructor leaves it. */
  const EmptyPool := PoolState(map[], [], 0)

  /**
    Kept by every operation, `Remove` of an absent key included: each mapped
    slot lies below the high-water mark and no two keys share a slot.
   */
  ghost predicate WellFormed(s: PoolState)
  {
    && (forall k :: k in s.index ==> s.index[k] < s.nextId)
    && (forall k1, k2 :: k1 in s.index && k2 in s.index && k1 != k2 ==> s.index[k1] != s.index[k2])
  }

  /**
    The free-list invariant: in addition to `WellFormed`, the free stack holds
    distinct slots below the high-water mark, none of them mapped to a key.
    `GetId` and `Remove` of a mapped key keep it. `Remove` of an absent key can
    break it, for example when slot 0 is mapped (see
    `RemoveAbsentKeyAliasesSlotZero`); even where it holds, it does not see
    slots handed out by recycling, which no key records (see
    `RemoveAbsentKeyReissuesRecycledSlot`).
   */
  ghost predicate Sound(s: PoolState)
  {
    && WellFormed(s)
    && (forall i :: 0 <= i < |s.freeIds| ==> s.freeIds[i] < s.nextId)
    && (forall i, j :: 0 <= i < j < |s.freeIds| ==> s.freeIds[i] != s.freeIds[j])
    && (forall i, k :: 0 <= i < |s.freeIds| && k in s.index ==> s.index[k] != s.freeIds[i])
  }

  /**
    `GetID(key)`: lookup-or-allocate. A mapped key returns its slot and
    changes nothing. An unmapped key takes a fresh slot `nextID` (and is
    recorded) when the free stack is empty, and otherwise pops the most
    recently released slot WITHOUT recording the key.
   */
  function GetIdStep(s: PoolState, key: string): (r: (nat, PoolState))
    ensures WellFormed(s) ==> WellFormed(r.1)
    ensures Sound(s) ==> Sound(r.1)
    ensures Sound(s) ==> r.0 < r.1.nextId
    ensures Sound(s) ==> forall k :: k in s.index && k != key ==> s.index[k] != r.0
    ensures r.1.index.Keys <= s.index.Keys + {key}
    ensures forall k :: k in s.index ==> k in r.1.index && r.1.index[k] == s.index[k]
  {
    if key in s.index then
      (s.index[key], s)
    else if s.freeIds == [] then
      (s.nextId, s.(index := s.index[key := s.nextId], nextId := s.nextId + 1))
    else
      (s.freeIds[|s.freeIds| - 1], s.(freeIds := s.freeIds[..|s.freeIds| - 1]))
  }

  /**
    `Remove(key)`: erase the key and push its slot on the free stack. For an
    absent key `map[key]` default-inserts 0 before the erase, so slot 0 is
    pushed.
   */
  function RemoveStep(s: PoolState, key: string): (r: PoolState)
    ensures key !in r.index && r.index.Keys == s.index.Keys - {key}
    ensures forall k :: k in r.index ==> r.index[k] == s.index[k]
    ensures r.freeIds == s.freeIds + [if key in s.index then s.index[key] else 0]
    ensures WellFormed(s) ==> WellFormed(r)
    ensures Sound(s) && key in s.index ==> Sound(r)
  {
    var id := if key in s.index then s.index[key] else 0;
    PoolState(s.index - {key}, s.freeIds + [id], s.nextId)
  }

  /** `GetID` applied to each key in turn: the slots returned and the final state. */
  function GetIdEach(s: PoolState, keys: seq<string>): (r: (seq<nat>, PoolState))
    ensures |r.0| == |keys|
    ensures forall k :: k in s.index ==> k in r.1.index && r.1.index[k] == s.index[k]
    ensures WellFormed(s) ==> WellFormed(r.1)
    decreases |keys|
  {
    if keys == [] then ([], s)
    else
      var (id, s1) := GetIdStep(s, keys[0]);
      var (rest, s2) := GetIdEach(s1, keys[1..]);
      ([id] + rest, s2)
  }

  /**
    With an empty free stack, distinct new keys receive consecutive slots
    starting at the high-water mark, and each is recorded with its slot.
   */
  lemma {:induction false} FreshKeysGetConsecutiveSlots(s: PoolState, keys: seq<string>)
    requires s.freeIds == []
    requires forall i :: 0 <= i < |keys| ==> keys[i] !in s.index
    requires forall i, j :: 0 <= i < j < |keys| ==> keys[i] != keys[j]
    ensures var (ids, t) := GetIdEach(s, keys);
      && (forall i :: 0 <= i < |keys| ==> ids[i] == s.nextId + i)
      && (forall i :: 0 <= i < |keys| ==> keys[i] in t.index && t.index[keys[i]] == s.nextId + i)
      && t.nextId == s.nextId + |keys|
      && t.freeIds == []
    decreases |keys|
  {
    if keys != [] {
      var tail := keys[1..];
      var s1 := s.(index := s.index[keys[0] := s.nextId], nextId := s.nextId + 1);
      assert GetIdStep(s, keys[0]) == (s.nextId, s1);
      forall i | 0 <= i < |tail| ensures tail[i] !in s1.index {
        assert tail[i] == keys[i + 1] && keys[i + 1] != keys[0];
      }
      FreshKeysGetConsecutiveSlots(s1, tail);
      var (rest, t) := GetIdEach(s1, tail);
      var ids := [s.nextId] + rest;
      assert GetIdEach(s, keys) == (ids, t);
      forall i | 0 <= i < |keys|
        ensures ids[i] == s.nextId + i && keys[i] in t.index && t.index[keys[i]] == s.nextId + i
      {
        if i > 0 {
          assert keys[i] == tail[i - 1] && ids[i] == rest[i - 1];
        }
      }
    }
  }

  /**
    `GetID` never checks the buffer's capacity: on a new pool, the 129th
    distinct key is handed slot `MaxResources`, which lies past the end of
    the buffer (see `ResourcePool.Get`).
   */
  lemma NoCapacityCheck(keys: seq<string>)
    requires |keys| == MaxResources + 1
    requires forall i, j :: 0 <= i < j < |keys| ==> keys[i] != keys[j]
    ensures var (ids, t) := GetIdEach(EmptyPool, keys);
      ids[MaxResources] == MaxResources && t.nextId == MaxResources + 1
  {
    FreshKeysGetConsecutiveSlots(EmptyPool, keys);
  }

  /**
    Asking twice for the same key yields the same slot, and the second call
    changes nothing, exactly when the first call did not recycle a slot. When
    it did recycle one, the key was left unmapped and the second call hands
    out a different slot.
   */
  lemma RepeatedGetIdAgrees(s: PoolState, key: string)
    requires Sound(s)
    ensures var (id, s1) := GetIdStep(s, key);
      var (id2, s2) := GetIdStep(s1, key);
      && (id2 == id <==> key in s.index || s.freeIds == [])
      && (key in s.index || s.freeIds == [] ==> s2 == s1)
  {
    if key !in s.index && s.freeIds != [] {
      var n := |s.freeIds|;
      var (id, s1) := GetIdStep(s, key);
      assert key !in s1.index;
      if n > 1 {
        assert s1.freeIds[n - 2] == s.freeIds[n - 2];
      }
    }
  }

  /**
    LIFO reuse: after `Remove` of a mapped key, the next `GetID` for a key
    that is not mapped returns the released slot, leaves that key unmapped
    and restores the free stack to what it was.
   */
  lemma RemovedSlotIsReusedNext(s: PoolState, key: string, newKey: string)
    requires key in s.index
    requires newKey == key || newKey !in s.index
    ensures GetIdStep(RemoveStep(s, key), newKey)
         == (s.index[key], PoolState(s.index - {key}, s.freeIds, s.nextId))
  {
    var r := RemoveStep(s, key);
    assert r.freeIds[..|r.freeIds| - 1] == s.freeIds;
  }

  /**
    Two releases are reused last-first: after removing `a` and then `b`, new
    keys receive `b`'s slot and then `a`'s.
   */
  lemma ReleasedSlotsReusedLastFirst(s: PoolState, a: string, b: string, n1: string, n2: string)
    requires a in s.index && b in s.index && a != b
    requires n1 !in s.index - {a, b} && n2 !in s.index - {a, b}
    ensures var s2 := RemoveStep(RemoveStep(s, a), b);
      var (first, s3) := GetIdStep(s2, n1);
      var (second, s4) := GetIdStep(s3, n2);
      first == s.index[b] && second == s.index[a] && s4.freeIds == s.freeIds
  {
    var s1 := RemoveStep(s, a);
    var s2 := RemoveStep(s1, b);
    assert s2.freeIds == s.freeIds + [s.index[a], s.index[b]];
    var (first, s3) := GetIdStep(s2, n1);
    assert s3.freeIds == s.freeIds + [s.index[a]];
  }

  /**
    The aliasing defect: `Remove` of a key that is not mapped pushes slot 0
    even while another key still owns slot 0, so the next new key is handed
    that live slot and the pool is no longer `Sound`.
   */
  lemma RemoveAbsentKeyAliasesSlotZero(s: PoolState, owner: string, absent: string, newKey: string)
    requires Sound(s)
    requires owner in s.index && s.index[owner] == 0
    requires absent !in s.index && newKey !in s.index
    ensures !Sound(RemoveStep(s, absent))
    ensures var (id, s2) := GetIdStep(RemoveStep(s, absent), newKey);
      id == s.index[owner] && owner in s2.index && s2.index[owner] == id
  {
    var r := RemoveStep(s, absent);
    assert r.freeIds[|s.freeIds|] == 0 && r.index[owner] == 0;
  }

  /**
    A recycled slot is handed out without recording the key, so the pool no
    longer knows that slot is in use: a concrete run on a new pool.
   */
  lemma RecycledSlotIsUnmapped()
    ensures var (a, s1) := GetIdStep(EmptyPool, "a");
      var s2 := RemoveStep(s1, "a");
      var (b, s3) := GetIdStep(s2, "b");
      var (b2, s4) := GetIdStep(s3, "b");
      a == 0 && b == 0 && "b" !in s3.index && b2 == 1
  {
  }

  /**
    `Remove` of an absent key can also hand out again a slot that is in use
    while the free-list invariant still holds: slot 0 is recycled to "b"
    (which stays unmapped), then `Remove("c")` pushes 0 once more, and "d" is
    handed slot 0 while "b"'s object still lives there.
   */
  lemma RemoveAbsentKeyReissuesRecycledSlot()
    ensures var (a, s1) := GetIdStep(EmptyPool, "a");
      var (b, s2) := GetIdStep(RemoveStep(s1, "a"), "b");
      var s3 := RemoveStep(s2, "c");
      var (d, s4) := GetIdStep(s3, "d");
      && b == 0 && d == 0 && "b" !in s2.index
      && s3 == PoolState(map[], [0], 1) && Sound(s3)
  {
  }

  /**
    The pool object. `pData` is represented by `slots`, the objects
    constructed in place so far, indexed by slot; the byte layout is
    represented by `Get` and `BufferSize`.
   */
  class ResourcePool {
    const elementSize: nat
    var index: map<string, nat>
    var freeIds: seq<nat>
    var nextId: nat
    var slots: map<nat, Resource>

    ghost function State(): PoolState
      reads this
    {
      PoolState(index, freeIds, nextId)
    }

    ghost predicate Valid()
      reads this
    {
      WellFormed(State())
    }

    /** Size in bytes of the buffer `new char[elementSize * MAX_RESOURCES]`. */
    function BufferSize(): nat
    {
      elementSize * MaxResources
    }

    /** `ResourcePool(elementSize)`: a buffer of `MaxResources` slots, nothing mapped or free. */
    constructor (elementSize: nat)
      ensures Valid()
      ensures this.elementSize == elementSize && BufferSize() == elementSize * MaxResources
      ensures State() == EmptyPool && slots == map[]
    {
      this.elementSize := elementSize;
      index := map[];
      freeIds := [];
      nextId := 0;
      slots := map[];
    }

    /**
      `Get(id)`: the byte offset of slot `id`. For a non-empty element type,
      the whole slot lies inside the buffer exactly when `id < MaxResources`;
      nothing checks this.
     */
    function Get(id: nat): (offset: nat)
      ensures elementSize > 0 ==> (offset + elementSize <= BufferSize() <==> id < MaxResources)
    {
      SlotEndInBuffer(id, elementSize);
      id * elementSize
    }

    /** `GetID(key)`, in place. */
    method GetId(key: string) returns (id: nat)
      requires Valid()
      modifies this
      ensures Valid() && slots == old(slots)
      ensures (id, State()) == GetIdStep(old(State()), key)
      ensures key in old(index) ==> id == old(index[key]) && State() == old(State())
      ensures key !in old(index) && old(freeIds) == [] ==>
        && id == old(nextId) && nextId == old(nextId) + 1
        && index == old(index)[key := id] && freeIds == []
      ensures key !in old(index) && old(freeIds) != [] ==>
        && id == old(freeIds[|freeIds| - 1]) && freeIds == old(freeIds[..|freeIds| - 1])
        && index == old(index) && nextId == old(nextId)
    {
      if key in index {
        id := index[key];
      } else if freeIds == [] {
        id := nextId;
        nextId := nextId + 1;
        index := index[key := id];
      } else {
        id := freeIds[|freeIds| - 1];
        freeIds := freeIds[..|freeIds| - 1];
      }
    }

    /**
      `Remove(key)`, in place. The slot's object is left in `slots`: the
      source's `delete Get(id)` is not modelled.
     */
    method Remove(key: string)
      requires Valid()
      modifies this
      ensures Valid() && slots == old(slots) && nextId == old(nextId)
      ensures State() == RemoveStep(old(State()), key)
      ensures key in old(index) ==> index == old(index) - {key} && freeIds == old(freeIds) + [old(index[key])]
      ensures key !in old(index) ==> index == old(index) && freeIds == old(freeIds) + [0]
    {
      var id := if key in index then index[key] else 0;
      index := index - {key};
      freeIds := freeIds + [id];
    }
  }

  /** Slot `id` of `size` bytes ends inside a buffer of `MaxResources` slots exactly when `id < MaxResources`. */
  lemma SlotEndInBuffer(id: nat, size: nat)
    ensures size > 0 ==> (id * size + size <= size * MaxResources <==> id < MaxResources)
  {
    if size > 0 {
      if id < MaxResources {
        assert (MaxResources - id - 1) * size >= 0;
      } else {
        assert (id - MaxResources) * size >= 0;
      }
    }
  }

  /** Distinct slots occupy disjoint byte ranges of the buffer. */
  lemma SlotsDoNotOverlap(p: ResourcePool, i: nat, j: nat)
    requires i < j
    ensures p.Get(i) + p.elementSize <= p.Get(j)
  {
    assert (j - i - 1) * p.elementSize >= 0;
  }
}
