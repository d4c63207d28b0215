# Resource pool and key table of a small OpenGL ray-tracer scaffold, in Dafny

This project models the two stateful utilities of the renderer scaffold:

- **the resource system** of `resourceloader.h`:
  - per-type resource identities (`GetResourceID<T>`, a global counter memoized per type);
  - the type-erased slot pool `ResourcePool`: a buffer of `MAX_RESOURCES` = 128 slots, a string-key-to-slot map, a stack of released slots and a high-water counter;
  - the process-wide registry `ResourceLoader`: one pool per resource type, created lazily, plus the resource root path prepended to every file path;
- **the key-state table** of `inputsystem.h`: the map from key code to the last `KeyPress` event, and the "is this key down" query.

Modules:

- `ResourceTypes` (`resource_types.dfy`): `ResourceType` stands for a C++ type `T` (its name and `sizeof(T)`). `Resource` is the object `T`'s path constructor builds. The table `IdTable` and the class `ResourceCounter` hold the per-type ids.
- `ResourcePools` (`resource_pool.dfy`): the pool's bookkeeping as a value `PoolState`, with `GetIdStep` and `RemoveStep` modelling one call each. The lemmas about multi-call behaviour are stated on these. The class `ResourcePool` updates its fields in place, and each of its methods is proved to agree with the matching step function. Two invariants are distinguished:
  - `WellFormed`: every mapped slot lies below the high-water mark, and no two keys share a slot. Every operation keeps it.
  - `Sound`, the free-list invariant: it adds that released slots are distinct, below the mark and not mapped. `GetID` keeps it, and so does `Remove` of a mapped key. `Remove` of an absent key can break it, for example when slot 0 is mapped (`RemoveAbsentKeyAliasesSlotZero`).
- `ResourceLoaders` (`resource_loader.dfy`): the class `ResourceLoader`, whose fields are the static vector of pools and the resource path. `GetResource` returns a `Fetch` with one of three outcomes:
  - the failed range assertion;
  - the null pool the source would dereference;
  - the slot with its offset and the object constructed there.
- `InputSystems` (`input_system.dfy`): `KeyPress`, the class `InputSystem` with its `pressedKeys` map, and a replay of interleaved key events and queries. The properties about sequences of events are stated on that replay.

Defects of the code that the model reproduces and states as lemmas:

- A slot recycled by `GetID` is handed out without recording the key. Asking again for the same key then yields another slot (`RepeatedGetIdAgrees`, `RecycledSlotIsUnmapped`). As a result, a get after a load can miss the loaded object (`LoadThenGet`).
- `Remove` of a key that is not mapped pushes slot 0 onto the free stack, because `map[key]` default-inserts 0. The next new key is then handed slot 0 even while another key owns it (`RemoveAbsentKeyAliasesSlotZero`). Even with no key mapped to slot 0, a slot still in use by a recycled, unmapped key can be handed out twice (`RemoveAbsentKeyReissuesRecycledSlot`).
- `GetID` never compares `nextID` with `MAX_RESOURCES`. On a new pool, the 129th distinct key receives slot 128 (`NoCapacityCheck`). That slot lies past the end of the buffer (`ResourcePool.Get`).

Further behaviour of the code that the model keeps as written:

- `GetID` has no capacity check (`NoCapacityCheck`).
- `GetResource` asserts only that the type's index is inside the vector. A null entry inside it is dereferenced, which `GetResource` reports as `NullPoolDereference`.
- `Remove` of an absent key can put a mapped slot on the free stack (`RemoveAbsentKeyAliasesSlotZero`).

## Model

| member | source | states |
|---|---|---|
| `ResourceTypes.AssignId` | resourceloader.h:12-17 | a type seen before gets its recorded id and the table is unchanged; a new type gets the counter's value, the counter advances by one, and the type is recorded with that id; ids already given stay and only `ty` is added; distinctness of ids is kept |
| `ResourceTypes.AssignIds` | resourceloader.h:12-17 | over a run of requests, every requested type ends up recorded with the id it was given, earlier ids never change, and distinctness is kept |
| `ResourceTypes.SameIdExactlyForSameType` | resourceloader.h:13-17 | two requests in a run receive the same id if and only if they name the same type |
| `ResourceTypes.FirstUseOrder` | resourceloader.h:12-17 | distinct new types are numbered consecutively from the counter in the order of first request, and the counter ends advanced by their number |
| `ResourceTypes.ResourceCounter.constructor` | resourceloader.h:12 | the counter starts at 0 with no type registered |
| `ResourceTypes.ResourceCounter.GetResourceId` | resourceloader.h:13-17 | in place: returns the memoized id of a known type with no change, or the old counter for a new type, recording it and incrementing the counter |
| `ResourcePools.GetIdStep` | resourceloader.h:41-54 | `GetID` keeps `WellFormed` and `Sound`; in a `Sound` pool the slot returned is below the high-water mark and owned by no other key; no mapping is removed or changed, and only `key` can be added |
| `ResourcePools.RemoveStep` | resourceloader.h:56-59 | the key is no longer mapped and every other key keeps its slot; the free stack becomes the old one with the key's slot pushed on top, or slot 0 when the key was absent; `WellFormed` is kept, and `Sound` is kept when the key was mapped |
| `ResourcePools.GetIdEach` | resourceloader.h:41-54 | a run of `GetID` calls returns one slot per key, keeps every existing mapping and keeps `WellFormed` |
| `ResourcePools.FreshKeysGetConsecutiveSlots` | resourceloader.h:44-48 | with an empty free stack, distinct new keys receive consecutive slots from `nextID`, each key is recorded with its slot, and `nextID` advances by the number of keys |
| `ResourcePools.NoCapacityCheck` | resourceloader.h:44-48 | on a new pool, 129 distinct keys are all granted slots; the last one is slot 128 = `MAX_RESOURCES`, and `nextID` reaches 129 |
| `ResourcePools.RepeatedGetIdAgrees` | resourceloader.h:41-53 | in a `Sound` pool, two `GetID` calls for the same key return the same slot if and only if the key was mapped or the free stack was empty; in that case the second call changes nothing |
| `ResourcePools.RemovedSlotIsReusedNext` | resourceloader.h:49-59 | after `Remove` of a mapped key, the next `GetID` for an unmapped key returns the released slot; that key stays unmapped, and the free stack returns to its prior contents |
| `ResourcePools.ReleasedSlotsReusedLastFirst` | resourceloader.h:49-59 | released slots are reused last-first: after removing `a` then `b`, new keys receive `b`'s slot and then `a`'s |
| `ResourcePools.RemoveAbsentKeyAliasesSlotZero` | resourceloader.h:56-59 | `Remove` of an absent key in a `Sound` pool where slot 0 is owned makes the pool not `Sound`, and the next new key is handed the slot another key still owns |
| `ResourcePools.RemoveAbsentKeyReissuesRecycledSlot` | resourceloader.h:49-59 | concrete run: "a" gets 0 and is removed, "b" gets the recycled 0 unmapped, `Remove("c")` pushes 0 again; the pool is still `Sound`, yet "d" is handed slot 0, which "b" still uses |
| `ResourcePools.RecycledSlotIsUnmapped` | resourceloader.h:49-53 | concrete run: "a" gets 0 and is removed; "b" then gets the recycled 0 but stays unmapped, so asking for "b" again yields slot 1 |
| `ResourcePools.ResourcePool.constructor` | resourceloader.h:28-31 | the pool has the given element size, a buffer of `elementSize * MAX_RESOURCES` bytes, no mapped key, an empty free stack, `nextID` 0 and no constructed object |
| `ResourcePools.ResourcePool.Get` | resourceloader.h:37-39 | for a non-empty element type, the slot at the returned offset ends inside the buffer if and only if `id < MAX_RESOURCES` |
| `ResourcePools.SlotEndInBuffer` | resourceloader.h:30 | slot `id` of `size > 0` bytes ends within `size * MAX_RESOURCES` bytes if and only if `id < MAX_RESOURCES` |
| `ResourcePools.SlotsDoNotOverlap` | resourceloader.h:37-39 | the byte range of a lower slot ends before the byte range of a higher slot begins |
| `ResourcePools.ResourcePool.GetId` | resourceloader.h:41-54 | in place, the three branches of `GetID`: a mapped key returns its slot and changes nothing. A new key with an empty free stack gets old `nextID`, which advances by one, and the key is recorded. Otherwise the top of the free stack is popped and returned, and the map and `nextID` are unchanged. Object contents are untouched |
| `ResourcePools.ResourcePool.Remove` | resourceloader.h:56-61 | in place: a mapped key is erased and its slot pushed; an absent key leaves the map as it was and pushes slot 0; `nextID` and the constructed objects are unchanged |
| `ResourceLoaders.Grown` | resourceloader.h:78-80 | the vector keeps its entries and is padded with null entries exactly up to index `rid` when it was too short |
| `ResourceLoaders.WithRoot` | resourceloader.h:101 | each constructor path is the resource path followed by the given path, by plain concatenation |
| `ResourceLoaders.ResourceLoader.constructor` | resourceloader.h:66-68 | no pools and an empty resource path at start |
| `ResourceLoaders.ResourceLoader.SetResourcePath` | resourceloader.h:70-72 | the resource path becomes the given folder |
| `ResourceLoaders.ResourceLoader.GetResourcePool` | resourceloader.h:115-127 | the type's id is assigned and the vector is grown to hold that index; an existing pool there is returned as is; otherwise a fresh, empty pool sized `sizeof(T)` is stored and returned; no pool's contents change |
| `ResourceLoaders.ResourceLoader.LoadResource` | resourceloader.h:74-102 | as `GetResourcePool`, then the pool takes the slot `GetID(key)` and that slot holds an object built from the resource path prepended to each of the one or two paths; other slots and other pools are unchanged |
| `ResourceLoaders.ResourceLoader.GetResource` | resourceloader.h:104-113 | the type's id is assigned. The result is an assertion failure when the id is outside the vector, and a null-pool dereference when the entry is null. Otherwise it is the slot `GetID(key)` of that pool, possibly newly allocated or recycled, with that slot's offset and the object stored there. The vector and other pools are unchanged |
| `ResourceLoaders.LoadThenGet` | resourceloader.h:74-113 | a get after a load of the same key on the registry always reaches a pool; it is handed the loaded slot and finds the object built from the resource path and the given paths when the load created the pool, found the key mapped or found the free stack empty; when the load recycled a slot of a `Sound` pool, the get is handed a different slot |
| `ResourceLoaders.StartupShaderPaths` | main.cpp:49-50 | the paths the start-up load hands the shader constructor are "Resources/everything.vs" and "Resources/raytracer.fs" |
| `ResourceLoaders.LoadShaderAtStartup` | main.cpp:49-51 | on a fresh registry, loading the shader from "everything.vs" and "raytracer.fs" under "Resources/" and fetching it back yields slot 0 at offset 0 holding the shader built from the two prefixed paths |
| `InputSystems.Held` | inputsystem.h:42-47 | a key never recorded reads as up; a key reading as down is recorded with a non-release action |
| `InputSystems.Step` | inputsystem.h:38-47 | an event or query adds only its own key to the table and changes no other key's record; a query changes the up/down answer of no key |
| `InputSystems.LastAction` | inputsystem.h:38-40 | the reported action is that of an event for the key in the run with no later event for the key; when none is reported, the run holds no event for that key |
| `InputSystems.LatestEventDecides` | inputsystem.h:38-47 | after any run of events and queries, a key reads as down if and only if the action of its most recent event is press or repeat; with no event for it, the answer is the one before the run |
| `InputSystems.ReleasedKeyStaysUp` | inputsystem.h:38-47 | after a release event for a key, it reads as up until a later press or repeat event for it, whatever other events and queries come between |
| `InputSystems.InputSystem.constructor` | inputsystem.h:84-86 | the singleton starts with no key recorded |
| `InputSystems.InputSystem.SetKey` | inputsystem.h:38-40 | in place: the record for `kp.key` becomes `kp`, and every other key's record is unchanged |
| `InputSystems.InputSystem.GetKey` | inputsystem.h:42-47 | returns true if and only if the key is recorded with action press (1) or repeat (2). A key never recorded reads as up and is then inserted with the zeroed record. The table is otherwise unchanged |
| `InputSystems.InputSystem.KeyCallback` | inputsystem.h:70-72 | the event is recorded under its key with all four fields: key, scancode, action and mods |

## Left out

- `ResourcePools.ResourcePool.GetId`: does not model the 32-bit wrap-around of `nextID` (`unsigned int`); slot numbers are unbounded. The buffer is overrun at slot 128, long before a wrap at 2^32 could happen.
- `ResourceTypes.ResourceCounter.GetResourceId`: does not model overflow of the `int` counter, which would need 2^31 distinct types.
- `ResourcePools.ResourcePool.Get`: does not model overflow of the `size_t` product `id * elementSize`.
- Raw memory is abstract. The byte buffer, placement `new` and `static_cast` are modelled as the map `slots` from slot index to constructed object, plus the offset arithmetic of `Get`. A construction at slot 128 or beyond is recorded like any other. The memory corruption it causes in the source is stated only through `Get`'s bounds property.
- `delete Get(id)` in `Remove` is not modelled. It deletes a pointer into the middle of an array, which is undefined behaviour. The released object stays in `slots`.
- The pool destructor (`delete[] pData`) is not modelled: pools live as long as the registry.
- Resource construction is opaque. `T(path)` and `T(path1, path2)` read files and compile shaders. This is modelled as the value `Constructed(type, prefixed paths)`; I/O failures inside it are not modelled. `shader.h` is not part of this model.
- The two `LoadResource` overloads are one member taking one or two paths. Its `requires` admits exactly those two arities.
- `GetResource` on a null pool entry is undefined behaviour in the source. The model reports it as `NullPoolDereference` rather than modelling what the process does next. Likewise, the failed assertion is reported as `AssertionFailure`, and the state at the point of abort is then irrelevant.
- `ResourceLoaders.ResourceLoader.GetResource`: `AssertionFailure` is what a build without NDEBUG does. With NDEBUG the `assert` is compiled out and `resourcePools[resourceID]` is read out of range; that undefined behaviour is not modelled.
- The mouse half of the input singleton is not modelled: `GetMouseAxis`, `mouse_callback`, `mouse_callback_impl`, and the fields `mouseAxis`, `lastMouseAxis`, `mouseX/Y`, `lastX/Y` and `firstMouse`. It is floating-point arithmetic on pointer positions.
- The singleton plumbing is not modelled: `GetInstance`, the static `key_callback` trampoline and the deleted copy operations. They exist only to hand the windowing library a function pointer. The `window` argument of `key_callback_impl` is unused there and is dropped.
- `main.cpp` is not modelled, apart from the start-up load (`LoadShaderAtStartup`): window and context setup, buffers and the draw loop are calls into the graphics and windowing libraries. `transform.h` is not modelled either: it is floating-point vector and matrix math.
- The GLFW action codes 0, 1 and 2 (release, press, repeat) are GLFW's published values. The GLFW headers are not part of this model.
