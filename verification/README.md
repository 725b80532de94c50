# neat-headers in Dafny

A model of the header-only C++ utility library *neat-headers* and of the
properties its code and its own test programs promise:

- **Type lists** (`types.dfy`, module `NeatTypes`): the compile-time
  predicates over template parameter packs of `include/neat/types.hpp` —
  `is_one_of`, `are_all_same`, `are_all_classes`, `is_subset_of`,
  `get_index`, `remove_all_t` and `are_same_underlying_types`. A C++ type is a
  value of the datatype `Ty`, a pack is a sequence of them. `neat_types.hpp`
  is a byte-for-byte copy of `include/neat/types.hpp`, so every row citing
  `include/neat/types.hpp` applies to the same lines of `neat_types.hpp`.
- **ECS typing** (`ecs_typing.dfy`, module `EcsTyping`): the `typing`
  helpers of `neat_ecs.hpp` that decide which column a component type is
  stored in, and the fact that with unique registered types the column of
  the i-th type is i. That fact is why the engine below names component
  types by column index.
- **Entity-component system** (`ecs.dfy`, module `NeatEcs`): the
  `componentlist` class (a tag vector and a value vector indexed by entity
  id) and the `engine` with its entity, component and system parts: entity
  creation from a free-id queue, removal, iteration, queries for entities
  holding a set of components, component get/add/remove/first/allocate, and
  `execute`, which runs a system on every matching entity. `execute` is
  specified by a pure function `Run` over a snapshot of the column values,
  and lemmas state which calls are made, what is written and what stays
  untouched.
- **Scenarios** (`ecs_scenarios.dfy`, module `EcsScenarios`): the
  repository's ECS test programs replayed on the model, with their
  assertions as postconditions.
- **Earlier ECS** (`ecs_legacy.dfy`, module `LegacyEcs`): the older
  `ecs.hpp` engine, which scans for the lowest dead id, keeps a component's
  value when its tag is cleared, and checks no liveness in `has`.
- **Allocators** (`allocators.dfy`, module `Allocators`): the fixed-size
  `arena<T>` (a cursor that walks a buffer of `count` slots) and the `bump`
  allocator (a growing table of blocks, first-fit allocation). Addresses are
  modelled as (block, offset) pairs; `malloc`/`realloc` success is an input.
- **Math** (`math.dfy`, module `NeatMath`): the integer functions of
  `neat_math.hpp` — `approach`, `abs`, `sign`, `clamp`, `abs_diff`,
  `factorial`, `binomial_coefficient`, `polynomial`, `within`, `overlap`,
  and the integer collision tests (point/rectangle, point/circle,
  circle/circle, rectangle/rectangle).
- **Lua nested names** (`lua_names.dfy`, module `LuaNames`): the
  splitting of a dotted Lua name such as `"a.b.c"` into its table names
  and variable, and the checks `__luaN_pushglobaltable` makes on the table
  names before touching the Lua state.

## Model

| member | source | states |
|---|---|---|
| `NeatTypes.IsOneOf` | include/neat/types.hpp:9 | true exactly when the type occurs in the pack; false for an empty pack |
| `NeatTypes.AreAllSame` | include/neat/types.hpp:10 | true exactly when every pack element equals the type (vacuously for an empty pack) |
| `NeatTypes.AreAllClasses` | include/neat/types.hpp:11 | true exactly when every pack element is a class type |
| `NeatTypes.AllOneOf` | include/neat/types.hpp:14 | the fold over a subset pack holds exactly when each of its elements is in the superset pack |
| `NeatTypes.IsSubsetOf` | include/neat/types.hpp:13-14 | for two tuples, elementwise membership (the empty tuple is a subset of any tuple); for anything else, type equality |
| `NeatTypes.GetIndex` | include/neat/types.hpp:16-29 | -1 exactly when the type is absent; otherwise the position of its first occurrence |
| `NeatTypes.GetIndexIffOneOf` | include/neat/types.hpp:16-29 | `get_index` is non-negative exactly when `is_one_of` holds, and then names a position holding the type |
| `NeatTypes.RemoveAll` | include/neat/types.hpp:33-40 | the result has no reference, pointer, const or volatile layer on top, and the input is the result under some stack of such layers |
| `NeatTypes.RemoveAllIdempotent` | include/neat/types.hpp:33-40 | stripping twice is stripping once |
| `NeatTypes.RemoveAllWrap` | include/neat/types.hpp:33-40 | any stack of layers over a type strips to what the type itself strips to |
| `NeatTypes.SameUnderlyingIsEquivalence` | include/neat/types.hpp:42 | `are_same_underlying_types` is reflexive, symmetric and transitive, and relates every type to its `remove_all_t` |
| `NeatTypes.AreSameUnderlyingTypes` | include/neat/types.hpp:42 | two types with no outer layer are related exactly when they are the same type |
| `NeatTypes.PackAssertions` | tests/types.cpp:23-66 | every `is_one_of` assertion (lines 23-28) and every `are_all_same` assertion (lines 61-66) of the test program holds of the model, `uint8_t` being the same type as `unsigned char` |
| `NeatTypes.SubsetAssertions` | tests/types.cpp:32-36 | the test program's `is_subset_of` assertions on tuples and classes hold of the model |
| `NeatTypes.ClassAssertions` | tests/types.cpp:39-43 | `are_all_classes` holds of classes and of the empty pack, and fails with a primitive or a pointer in the pack |
| `NeatTypes.GetIndexAssertions` | tests/types.cpp:51-52 | `get_index` picks the first of repeated matches and finds no match among `const A`, `A&`, `A*` |
| `NeatTypes.RemoveAllAssertions` | tests/types.cpp:70-73 | `remove_all_t` of `const int` and of `const volatile int*&` is `int`, and of `char` is not |
| `NeatTypes.SameUnderlyingAssertions` | tests/types.cpp:78-81 | `are_same_underlying_types` relates `const int` to `int` and `const volatile int* const&` to `int&`, and does not relate `char` to `int` |
| `EcsTyping.AreUniqueTypes` | neat_ecs.hpp:15-19 | true exactly when the registered types are pairwise distinct |
| `EcsTyping.RegisteredIndex` | neat_ecs.hpp:24-32 | for a registered type (the static assertion), the position of its first occurrence |
| `EcsTyping.IsRequestSubset` | neat_ecs.hpp:39-41 | only a pair of tuples qualifies, and then exactly when every requested type is registered |
| `EcsTyping.RegisteredIndexIsPosition` | neat_ecs.hpp:24-32 | with unique registered types, the index of the i-th type is i |
| `EcsTyping.RegisteredIndexAgrees` | neat_ecs.hpp:24-32 | the ECS index agrees with the general `get_index` on registered types |
| `NeatEcs.Column.constructor` | neat_ecs.hpp:147-151 | a new column is empty |
| `NeatEcs.Column.Get` | neat_ecs.hpp:164-169 | null exactly when the entity has no tag; otherwise the entity's own slot |
| `NeatEcs.Column.Add` | neat_ecs.hpp:171-183 | grows both vectors to cover the entity, new slots untagged and default, then tags the entity and stores the value; every other tag and value unchanged; untagged slots still hold the default |
| `NeatEcs.Column.Remove` | neat_ecs.hpp:185-192 | true exactly when the entity had the component; then its tag is cleared and its slot holds the default again, otherwise nothing changes; no other entity's tag changes |
| `NeatEcs.Column.First` | neat_ecs.hpp:194-202 | the lowest tagged entity and its slot, or `invalid_entity` and null when nothing is tagged |
| `NeatEcs.Column.Allocate` | neat_ecs.hpp:204-213 | false and no change when the new size is below the current one; otherwise true, with both vectors resized to it and the new slots untagged and default |
| `NeatEcs.Column.Store` | tests/ecs.cpp:61 | a write through a component pointer changes that one value and no tag |
| `NeatEcs.Args` | neat_ecs.hpp:292-302 | the arguments of one call are the values of the requested columns at the entity, in request order |
| `NeatEcs.WriteRow` | neat_ecs.hpp:453-459 | writing back one call keeps the shape of the storage |
| `NeatEcs.WriteRowAt` | neat_ecs.hpp:453-459 | with distinct requested types, the j-th requested column holds the j-th written value |
| `NeatEcs.WriteRowFrame` | neat_ecs.hpp:453-459 | a column that was not requested, or another entity's slot, is left as it was |
| `NeatEcs.Run` | neat_ecs.hpp:453-459 | running a system over a list of entities keeps the shape of the storage and makes one call per entity with one argument per requested type |
| `NeatEcs.RunFrame` | neat_ecs.hpp:453-459 | a run leaves unrequested columns and unlisted entities untouched |
| `NeatEcs.RunCalls` | neat_ecs.hpp:453-459 | over ascending ids, the m-th call is made for the m-th entity with the values stored before the run |
| `NeatEcs.RunWrites` | neat_ecs.hpp:453-459 | over ascending ids with distinct requested types, each requested slot ends up holding what the system returned for that entity |
| `NeatEcs.Engine.constructor` | neat_ecs.hpp:219-224 | one empty column per registered type, no entities, an empty free queue |
| `NeatEcs.Engine.QuerySound` | neat_ecs.hpp:270-290 | every entity the query lists is live and has every requested component |
| `NeatEcs.Engine.QueryComplete` | neat_ecs.hpp:270-290 | every live entity with every requested component is listed |
| `NeatEcs.Engine.QueryAscending` | neat_ecs.hpp:270-290 | the query lists entities in strictly ascending order |
| `NeatEcs.Engine.Create` | neat_ecs.hpp:312-324 | pops the oldest freed id, or appends a new id equal to the old size when the queue is empty; the id was dead and is now live, nothing else changes, and the engine invariant (tags belong to live entities, the free queue holds exactly the dead ids, once each) is kept |
| `NeatEcs.Engine.Exists` | neat_ecs.hpp:337-344 | false for an id at or past the size of the liveness vector, otherwise that id's liveness flag |
| `NeatEcs.Engine.ExistsIffNotFree` | neat_ecs.hpp:312-335 | under the engine invariant that `create` and `remove` keep, an id below the size exists exactly when the free queue does not hold it |
| `NeatEcs.Engine.RemoveFromColumns` | neat_ecs.hpp:330-331 | every column's `remove`: the entity's tag is cleared and its slot reset in every column, nothing else changes |
| `NeatEcs.Engine.RemoveEntity` | neat_ecs.hpp:326-335 | false and no change for a dead id; otherwise the entity loses every component, dies and joins the back of the free queue; afterwards it does not exist either way, and tags still belong to live entities and the free queue still holds exactly the dead ids |
| `NeatEcs.Engine.Last` | neat_ecs.hpp:346-355 | the highest live id, or 0 when no entity is live |
| `NeatEcs.Engine.All` | neat_ecs.hpp:357-366 | exactly the live ids, strictly ascending: the query with no requested type |
| `NeatEcs.Engine.EntitiesWith` | neat_ecs.hpp:268-290 | exactly the query: the live entities holding every requested component, ascending |
| `NeatEcs.Engine.Iterate` | neat_ecs.hpp:229-243 | one tuple per entity of the query, in its order, pairing the entity with a pointer to its own slot in every requested column |
| `NeatEcs.Engine.IterateComponents` | neat_ecs.hpp:245-259 | one tuple per entity of the query, in its order, holding a pointer to the entity's slot in every requested column |
| `NeatEcs.Engine.Pointers` | neat_ecs.hpp:292-302 | for an entity holding every requested component, one pointer per requested column, each the column's `get` of the entity |
| `NeatEcs.Engine.GetComponent` | neat_ecs.hpp:376-383 | null for a dead entity or a missing component, otherwise the entity's slot |
| `NeatEcs.Engine.HasComponent` | neat_ecs.hpp:406-413 | true exactly when the entity is live and tagged in the column |
| `NeatEcs.Engine.GuardRedundant` | neat_ecs.hpp:406-413 | while tags belong to live entities, the liveness check in `has` never changes its answer |
| `NeatEcs.Engine.GetMany` | neat_ecs.hpp:385-395 | answers entity by entity as the single-entity `get` |
| `NeatEcs.Engine.AddComponent` | neat_ecs.hpp:397-404 | null and no change for a dead entity; otherwise the column's `add`, after which `get` returns the new slot; the engine invariant is kept |
| `NeatEcs.Engine.RemoveComponent` | neat_ecs.hpp:415-422 | false and no change for a dead entity; otherwise the column's `remove`; true exactly when `has` held before, and `has` is false after |
| `NeatEcs.Engine.FirstComponent` | neat_ecs.hpp:424-429 | the column's `first`, with no liveness check; an entity it finds is live because of the engine invariant |
| `NeatEcs.Engine.AllocateComponent` | neat_ecs.hpp:431-436 | the column's `allocate`: refuses to shrink, otherwise resizes with untagged default slots; the engine invariant is kept |
| `NeatEcs.Engine.AllocateAll` | neat_ecs.hpp:438-443 | true exactly when some column can grow to the new size; because `||` short-circuits, only the first such column is resized and every other column is unchanged |
| `NeatEcs.Engine.EffectCalls` | neat_ecs.hpp:453-459 | `execute` calls the system once per matching entity, ascending, with the values stored at the start |
| `NeatEcs.Engine.EffectWrites` | neat_ecs.hpp:453-459 | with distinct requested types, each matching entity's requested slots end up holding what the system wrote |
| `NeatEcs.Engine.EffectFrame` | neat_ecs.hpp:453-459 | `execute` leaves unrequested columns and non-matching entities untouched |
| `NeatEcs.Engine.InvokeAll` | neat_ecs.hpp:455-458 | the loop over entities leaves the storage and call list `Run` describes |
| `NeatEcs.Engine.Execute` | neat_ecs.hpp:453-459 | the storage and calls after `execute` with an id-taking system are the `Run` of the query over the storage before it; tags and liveness unchanged |
| `NeatEcs.Engine.ExecuteComponents` | neat_ecs.hpp:461-467 | the same for a system taking only component pointers, which sees no id |
| `EcsScenarios.DeletedEntityNoLongerExists` | tests/ecs.cpp:19-40 | removing three of six entities succeeds, and exactly those stop existing |
| `EcsScenarios.DeletedEntityCantBeDeletedAgain` | tests/ecs.cpp:42-51 | a second removal of the same entity fails |
| `EcsScenarios.GetComponentReturnsSame` | tests/ecs.cpp:53-63 | `get` returns the added value, and a write through it is what the next `get` sees |
| `EcsScenarios.GetMultipleComponents` | tests/ecs.cpp:65-87 | the many-entity `get` answers as three single `get`s |
| `EcsScenarios.ExecuteAdd` | tests/ecs.cpp:89-91 | a system on `A*` adds its increment to the entity's A |
| `EcsScenarios.ExecuteAddWithId` | tests/ecs.cpp:93-95 | a system on an id and `A*` adds its increment to the entity's A |
| `EcsScenarios.SystemTypes` | tests/ecs.cpp:105-118 | four systems adding 1, 2, 4 and 8 leave 15 in the entity's A |
| `LegacyEcs.LegacyColumn.constructor` | ecs.hpp:49-52 | a new column is empty and remembers its default value |
| `LegacyEcs.LegacyColumn.Has` | ecs.hpp:54-58 | false past the end of the tags, otherwise the tag |
| `LegacyEcs.LegacyColumn.Get` | ecs.hpp:60-64 | null exactly when `has` is false; otherwise the entity's slot |
| `LegacyEcs.LegacyColumn.Add` | ecs.hpp:66-77 | grows both vectors to cover the entity, tags it and stores the value; other tags and values unchanged, added slots hold the default |
| `LegacyEcs.LegacyColumn.Remove` | ecs.hpp:79-84 | true exactly when the entity had the component; clears the tag and keeps the stored value |
| `LegacyEcs.LegacyColumn.Clear` | ecs.hpp:86-89 | empties both vectors, so no entity has the component |
| `LegacyEcs.LegacyEngine.constructor` | ecs.hpp:104-109 | one empty column per registered type and no entities |
| `LegacyEcs.LegacyEngine.Create` | ecs.hpp:118-128 | the lowest dead id is revived, or a new id appended when all are live; every other entity keeps its liveness |
| `LegacyEcs.LegacyEngine.Exists` | ecs.hpp:137-142 | false for an id at or past the size of the liveness vector, otherwise that id's liveness flag |
| `LegacyEcs.LegacyEngine.RemoveEntity` | ecs.hpp:130-132 | a dead id is refused with false |
| `LegacyEcs.LegacyEngine.GetComponent` | ecs.hpp:152-158 | null for a dead entity or a missing tag, otherwise the entity's slot |
| `LegacyEcs.LegacyEngine.HasComponent` | ecs.hpp:169-172 | the column's `has` with no liveness check: false past the end of the column's tags, otherwise the entity's tag; its reads clause leaves out the liveness vector |
| `LegacyEcs.LegacyEngine.HasAgreesWithGet` | ecs.hpp:169-172 | while tags belong to live entities, the unguarded `has` answers as the guarded `get` |
| `LegacyEcs.LegacyEngine.AddComponent` | ecs.hpp:160-167 | null and no change for a dead entity; otherwise the column's `add` |
| `LegacyEcs.LegacyEngine.RemoveComponent` | ecs.hpp:174-180 | false for a dead entity; otherwise the column's `remove`; the stored values never change |
| `Allocators.Arena.constructor` | neat_allocators.hpp:66-78 | with memory, the cursor at slot 0 and no failure; without, a null cursor and the failure flag up |
| `Allocators.Arena.Failure` | neat_allocators.hpp:102-105 | true exactly when the cursor is null |
| `Allocators.Arena.Allocate` | neat_allocators.hpp:87-100 | while a slot is left, hands it out and advances the cursor; otherwise null, with the cursor null and the flag up; once failed, always null |
| `Allocators.ArenaSmallInts` | tests/tests_allocators.cpp:4-24 | four allocations from an arena of four succeed at consecutive slots, the fifth fails and `failure()` turns true |
| `Allocators.DrainArena` | neat_allocators.hpp:87-105 | n allocations from a fresh arena of `count` slots: the i-th gets slot i while i < count, the rest get null, and failure follows exactly when n > count |
| `Allocators.FirstFit` | neat_allocators.hpp:128-135 | the earliest block with enough space left, or none |
| `Allocators.FirstFitAt` | neat_allocators.hpp:128-135 | a block with room and no earlier block with room is the one chosen |
| `Allocators.Bump.constructor` | neat_allocators.hpp:110-115 | an allocator with the given block size and no blocks |
| `Allocators.Bump.BlockCount` | neat_allocators.hpp:176-178 | the number of blocks in use, never above the table's capacity |
| `Allocators.Bump.AddBlock` | neat_allocators.hpp:151-174 | a full table grows 0 to 1 or doubles (capacity stays 0 or a power of two) when `realloc` succeeds; then, when `malloc` succeeds, an empty block of the block size is appended; otherwise no block is added |
| `Allocators.Bump.FindBlock` | neat_allocators.hpp:128-135 | the scan returns the earliest block in use with enough bytes left, or none |
| `Allocators.Bump.Allocate` | neat_allocators.hpp:124-144 | a request larger than a block gets null and changes nothing; otherwise the earliest block with room hands out its current offset and advances by the size, others unchanged; with no such block, a new block is added and used, or null when that fails; used plus remaining bytes stay the block size |
| `Allocators.BumpOneBlockEach` | tests/tests_allocators.cpp:26-40 | five 4-byte allocations in 5-byte blocks all succeed, each at the start of a block of its own, and `block_count()` is 5 |
| `Allocators.BumpSmallChars` | tests/tests_allocators.cpp:42-60 | 4-byte allocations in 3-byte blocks fail and add no block, after which three 1-byte allocations share one block |
| `NeatMath.Approach` | neat_math.hpp:77-86 | the target when it is closer than `abs(max)`; otherwise a value exactly `abs(max)` from the start and that much closer to the target, so it never passes it |
| `NeatMath.Abs` | neat_math.hpp:88-93 | non-negative, and equal to the argument or its negation |
| `NeatMath.Sign` | neat_math.hpp:95-100 | -1, 0 or 1, positive and negative exactly when the argument is, and `sign(v) * abs(v) == v` |
| `NeatMath.Clamp` | neat_math.hpp:102-111 | lies between the bounds taken in either order; the value itself when it is between them, otherwise the bound it passed |
| `NeatMath.ClampSymmetric` | neat_math.hpp:102-104 | swapping the bounds does not change the result |
| `NeatMath.AbsDiff` | neat_math.hpp:129-134 | equals `abs(a - b)` |
| `NeatMath.AbsDiffSymmetric` | neat_math.hpp:129-134 | does not depend on the argument order, and is never negative |
| `NeatMath.Factorial` | neat_math.hpp:136-141 | the loop computes n!, with 0! = 1! = 1 |
| `NeatMath.PascalFactorials` | neat_math.hpp:143-145 | n! equals C(n, k)·k!·(n−k)! for the binomial coefficients of Pascal's triangle |
| `NeatMath.BinomialCoefficient` | neat_math.hpp:143-145 | the factorial quotient is the binomial coefficient C(n, k) |
| `NeatMath.Polynomial` | neat_math.hpp:147-158 | the loop over the coefficients from the last one evaluates the polynomial whose coefficients are given highest degree first |
| `NeatMath.PolyHorner` | neat_math.hpp:147-158 | appending a lowest-degree coefficient c turns the value P into t·P + c |
| `NeatMath.Within` | neat_math.hpp:164-169 | true exactly when the value lies in the closed interval between the two ends, taken in either order |
| `NeatMath.WithinSymmetric` | neat_math.hpp:164-169 | swapping the ends does not change `within` |
| `NeatMath.Overlap` | neat_math.hpp:171-178 | the larger of the lower ends is at most the smaller of the upper ends, each interval's ends taken in either order |
| `NeatMath.OverlapIffCommonPoint` | neat_math.hpp:171-178 | `overlap` holds exactly when some value is `within` both intervals, and swapping either interval's ends changes nothing |
| `NeatMath.CollidePointRectAsWritten` | neat_math.hpp:188-190 | what the code as written computes: strictly inside on x, and on y strictly inside a band whose height is shifted by `r.x - r.y`; it agrees with the corrected test whenever `r.x == r.y` |
| `NeatMath.CollidePointRectAsWrittenMisses` | neat_math.hpp:188-190 | the code as written says the point (-9, 1) is outside the rectangle at (-10, 0) of size 2 by 2 although it lies inside |
| `NeatMath.CollidePointRect` | neat_math.hpp:188-190 | corrected: the point lies strictly inside the rectangle |
| `NeatMath.CollidePointRectTranspose` | neat_math.hpp:188-190 | the corrected test is unchanged when x and y are swapped in both shapes |
| `NeatMath.CollideCirclesAsWritten` | neat_math.hpp:200-205 | what the code as written computes: the corrected test after moving the second circle's centre to the first one's height; it agrees with the corrected test whenever the centres share a y coordinate |
| `NeatMath.CollideCirclesAsWrittenIgnoresY` | neat_math.hpp:200-205 | the code as written says circles of radius 1 at (0, 0) and (0, 100) collide |
| `NeatMath.CollideCircles` | neat_math.hpp:200-205 | corrected: the circles collide exactly when the squared distance of the centres is below the squared sum of the radii |
| `NeatMath.CollidePointCircle` | neat_math.hpp:192-194 | the squared distance of the point from the centre is below the squared radius |
| `NeatMath.PointCircleIsCircleCircle` | neat_math.hpp:192-194 | the point/circle test is the corrected circle/circle test with the point as a circle of radius 0 |
| `NeatMath.Length2` | neat_math.hpp:184-186 | the squared length of a point is never negative |
| `NeatMath.Length2ZeroAtOrigin` | neat_math.hpp:184-186 | the squared length is zero exactly at the origin |
| `NeatMath.CollideRects` | neat_math.hpp:235-240 | for rectangles of positive size, their open extents intersect on both axes |
| `NeatMath.CollideRectsSymmetric` | neat_math.hpp:235-240 | does not depend on the order of the rectangles or on which axis is which |
| `NeatMath.MathAssertions` | tests/tests_math.cpp:6-23 | the test program's integer assertions on `abs`, `approach` and point/rectangle `collide` hold of the model |
| `NeatMath.CollideCirclesSymmetric` | neat_math.hpp:200-205 | the corrected test does not depend on the order of the circles or on which axis is which |
| `LuaNames.Find` | include/neat/lua.hpp:342 | `std::string::find`: the first delimiter at or after the start, or none |
| `LuaNames.SplitNestedName` | include/neat/lua.hpp:334-350 | the loop returns the table names and the variable that `Split` describes |
| `LuaNames.SplitJoin` | include/neat/lua.hpp:342-349 | joining the table names and the variable with '.' gives back the name |
| `LuaNames.SplitPieces` | include/neat/lua.hpp:342-348 | no piece holds a '.', and there are as many table names as dots |
| `LuaNames.JoinSplit` | include/neat/lua.hpp:342-349 | splitting the join of dot-free pieces gives back those pieces |
| `LuaNames.NoDelimiterNoTables` | include/neat/lua.hpp:334-349 | a name has no table names exactly when it holds no '.', and then the variable is the whole name |
| `LuaNames.CheckTableNames` | include/neat/lua.hpp:355-369 | no error exactly when there is at least one table name and none is empty; an empty list is reported first, then the first empty name |
| `LuaNames.EmptyPieceRefused` | include/neat/lua.hpp:342-369 | a name with a leading '.' or a '..' splits into table names that the checks refuse |

## Left out

- The Lua bindings of `include/neat/lua.hpp` apart from name splitting and the table-name checks: every call into the Lua C API (pushing, reading and registering values, functions and tables) is foreign code. The error of `__luaN_pushglobaltable` is modelled as a returned error value, not as a thrown exception with a message.
- `neat_test.hpp` (test-running macros and statistics) and the example programs: they print and time, and model no library behaviour.
- Floating point: `pi`, `lerp`, `normalize`, `rescale`, the epsilon `equals`, `length` (a square root), the `smoothstep` and `smoothstep::inverse` curves and the `angle` conversions of `neat_math.hpp`. The remaining math functions are modelled on unbounded integers only; their unsigned and floating-point instantiations are not modelled.
- `clip` (neat_math.hpp:113-115) only forwards to `clamp`, and the `collide` overloads that swap their arguments (neat_math.hpp:196-198, 227-233) only forward to the ones modelled; neither has a member of its own.
- The circle/rectangle `collide` (neat_math.hpp:209-225) computes with `float` temporaries and is left out with the other floating-point code.
- `is_derived_from` in `include/neat/types.hpp`: the model of a C++ type has no inheritance.
- Type identity: `Ty` keeps apart values that C++ collapses into one type, so `IsOneOf`, `GetIndex`, `AreAllSame` and `IsSubsetOf` can answer differently from C++ on them. These are the cv-qualifier order (`Const(Volatile(t))` and `Volatile(Const(t))`), a repeated qualifier (`Const(Const(t))`), reference collapsing (`Ref(Ref(t))` is `t&` in C++), and cv-qualifiers on a reference (`Const(Ref(t))` is `t&` in C++). The model has no canonical form for these.
- Static assertions (registered component types unique and classes, requested types registered, component types default-constructible) are preconditions or hold by construction.
- Component types are column indices with one value type `V` for every column; the C++ engine stores a different struct type per column.
- A pointer to a component is modelled as the entity id, which is the slot index in both engines. Pointer invalidation when a vector grows is not modelled.
- A system callback is modelled as a function from the id and the current values of the requested components to the values it writes back through its pointers. With a component type requested twice, the later write wins; the write lemmas require distinct requested types.
- The `execute` overloads that pass the engine to the system are modelled as the ones without it. A system that creates or removes entities, or adds components, while `execute` runs is not modelled.
- Allocators: no real memory. An address is a (block, offset) pair or an arena slot index; `allocate<T>` takes `sizeof(T)` as a byte size; alignment is not modelled; `malloc` and `realloc` success are boolean inputs; `free` in the destructors is not modelled.
- `size_t` arithmetic: all integers are unbounded, so overflow of `factorial` or of the bump allocator's sizes is not modelled.
- `NeatMath.BinomialCoefficient`: requires k ≤ n; for k > n the C++ `n - k` wraps around, which is not modelled.
- `LegacyEcs.LegacyEngine.RemoveEntity`: requires a dead id. For a live id the C++ code falls off the end of a function returning `bool`, which is undefined behaviour.
- `NeatEcs.Column.Has` has no contract of its own; `Get`, `Remove` and `First` state what it answers.

## Findings

| source | as written | input that shows it | evidently intended | confidence | as-written member | corrected member |
|---|---|---|---|---|---|---|
| neat_math.hpp:189 | the upper bound for `p.y` is `r.x + r.height` | point (-9, 1), rectangle at (-10, 0) with width 2 and height 2: strictly inside, but reported outside | the upper bound `r.y + r.height` | high, not executed | `NeatMath.CollidePointRectAsWrittenMisses` | `NeatMath.CollidePointRect` |
| neat_math.hpp:202 | `dy` is `absdiff(a.y, a.y)`, which is always 0 | circles of radius 1 at (0, 0) and (0, 100): far apart, but reported colliding | `dy = absdiff(a.y, b.y)` | high, not executed | `NeatMath.CollideCirclesAsWrittenIgnoresY` | `NeatMath.CollideCircles` |
