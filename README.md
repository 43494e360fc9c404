# CS381 entity–component bookkeeping, modelled in Dafny

This project models the C++ game-framework code of the CS381 assignments. It covers three parts.

**The entity–component–system engine of `as8/src/ECS.hpp`:**
- the per-type component id registry (`GetComponentID`);
- the dense `ComponentStorage`, a buffer indexed by entity id;
- the packed `SkiplistComponentStorage`, a buffer plus an entity-to-offset table with SIZE_MAX meaning "absent";
- `Scene`, with per-entity component masks and one storage per component id. It is instantiated once with each storage (`DenseScene.Scene` and `PackedScene.Scene`);
- `SceneView` and its iterator. These walk the packed scene and yield the entities that hold every requested component type.

**The flag-array bookkeeping of the assignment 8 and 9 games (`as8/src/as8.cpp`, `as9/src/as9.cpp`):**
- entity creation;
- car, rocket and goal registration;
- round-robin TAB selection;
- the SPACE brake;
- the setup in `main`;
- in as9, the five-message chat log, the chat line editor and the score latch of `GoalSystem`.

**The object-oriented component lists of assignments 6 and 7 (`as6/src/CO.hpp`, `as7/src/CO.hpp`):**
- an `Entity` owning `Component` objects;
- transform-at-slot-0 lookup;
- move semantics that re-point the owners;
- first-match `GetComponent` over the class hierarchy.

Modelling choices:
- A component type is `ComponentType(name, size, init)`. These are its identity, its `sizeof` and the value its default constructor builds.
- Storages hold typed element sequences. A reference into a storage is a byte offset, element index × element size, as in the source.
- The process-wide `globalComponentCounter` and the function-local statics of `GetComponentID` form a `Registry` object. Every scene operation receives it.
- The source's mutable objects are classes with `Valid()` invariants. The games' global vectors are fields of one `World`/`Game` object.
- Key polls (`IsKeyPressed`, `GetCharPressed`) and the goal distance test are parameters.
- The run-time class hierarchy behind `dynamic_cast` is a `ClassTag`. It holds a class's name followed by its base classes.

## Model

| member | source | states |
|---|---|---|
| ComponentRegistry.Registry.constructor | as8/src/ECS.hpp:15 | no type has an id yet and the counter holds its initial value |
| ComponentRegistry.Registry.GetComponentID | as8/src/ECS.hpp:19-23 | a known type gets its id back and nothing changes; a new type gets the counter's value and the counter moves on by one; issued ids stay distinct and below the counter |
| EcsTypes.OffsetOf | as8/src/ECS.hpp:42 | the byte offset `k * size` of element `k` divides back to `k` with no remainder |
| EcsTypes.LastByteOf | as8/src/ECS.hpp:149 | the offset of the last byte of element `k` divides back to `k`, so `(data.size() - 1) / elementSize` is the new element's index |
| Common.Repeat | as8/src/ECS.hpp:50 | `insert(end, n, x)` appends exactly `n` copies of `x` |
| Common.Cover | as8/src/ECS.hpp:63-64 | growing a sequence to cover index `i` keeps the old prefix, fills the gap with the fill value, and leaves an already covering sequence unchanged |
| Common.CoverTwice | as8/src/ECS.hpp:59-66 | growing to `a` and then to `b` gives the same sequence as growing once to the larger of the two |
| Common.DivModUnique | as8/src/ECS.hpp:149 | a quotient and remainder in range are the ones integer division gives |
| DenseStorage.ComponentStorage.Unbound | as8/src/ECS.hpp:32 | the default storage has element size SIZE_MAX and no element |
| DenseStorage.ComponentStorage.OfType | as8/src/ECS.hpp:33-36 | the typed storage has the type's size and no element |
| DenseStorage.ComponentStorage.Get | as8/src/ECS.hpp:38-43 | under the size and bound asserts, the result is a reference to element `e` |
| DenseStorage.ComponentStorage.Allocate | as8/src/ECS.hpp:45-57 | appends exactly `count` default elements, keeps the old ones, returns a reference to the last new element and the new total count |
| DenseStorage.ComponentStorage.GetOrAllocate | as8/src/ECS.hpp:59-66 | the elements become the old ones grown with defaults just far enough to cover `e`; the result references element `e` |
| SkiplistStorage.SkiplistComponentStorage.Unbound | as8/src/ECS.hpp:129 | the default storage is unbound, with one "absent" table entry and no element |
| SkiplistStorage.SkiplistComponentStorage.OfType | as8/src/ECS.hpp:130-133 | the typed storage has the type's size, an empty table and no element |
| SkiplistStorage.SkiplistComponentStorage.Get | as8/src/ECS.hpp:135-141 | under the three asserts, returns `e`'s recorded offset; it references an element and no other entity holds it |
| SkiplistStorage.SkiplistComponentStorage.AllocateOne | as8/src/ECS.hpp:143-151 | appends one default element; returns its index (computed from the byte count) and the offset index × size |
| SkiplistStorage.SkiplistComponentStorage.AllocateFor | as8/src/ECS.hpp:153-158 | allocates one element and records its offset for `e`; offsets stay distinct |
| SkiplistStorage.SkiplistComponentStorage.GetOrAllocate | as8/src/ECS.hpp:160-168 | the first call for `e` extends the table with "absent" markers, appends one element and records its offset; later calls change nothing and return the same offset |
| Masks.SetBit | as8/src/ECS.hpp:94-97 | bit `id` becomes set, a short mask grows with `false` to `id + 1` bits, and every other bit reads as before |
| Masks.ClearBit | as8/src/ECS.hpp:104-106 | bit `id` reads clear, the length is kept, other bits are unchanged, and a short mask is left alone |
| Masks.RegisterKeepsAllOf | as8/src/ECS.hpp:19-23 | issuing an id to a new type does not change which entities hold all of a list of types |
| StorageTable.GrowthAsWritten | as8/src/ECS.hpp:78-79 | the source's `max(id - size, 1)` appends at least one storage |
| StorageTable.GrowthAsWrittenMissesId | as8/src/ECS.hpp:78-79 | after that growth, `id` is in range exactly when `id == size`; for `id > size` the new size is `id` |
| StorageTable.GrowthAsWrittenFreshScene | as8/src/ECS.hpp:73-79 | a fresh scene (one storage) whose first stored type has id 2 grows to two storages, so index 2 is out of range |
| StorageTable.Growth | as8/src/ECS.hpp:78-79 | the corrected growth makes `id` a valid index and adds no storage beyond it |
| DenseScene.CoveredPadded | as8/src/ECS.hpp:79 | appending empty storages keeps "a set bit has an element" |
| DenseScene.CoveredAdd | as8/src/ECS.hpp:92-99 | setting bit `id` of `e` while storage `id` grows to cover `e` keeps the invariant |
| DenseScene.CoveredRemove | as8/src/ECS.hpp:101-107 | clearing a bit keeps the invariant |
| DenseScene.CoveredCreate | as8/src/ECS.hpp:85-89 | appending the mask `[false]` keeps the invariant |
| DenseScene.CoveredBitsBelow | as8/src/ECS.hpp:72-73 | every set bit is an id below the registry's counter |
| DenseScene.Scene.constructor | as8/src/ECS.hpp:72-73 | a new scene has no entity and one unbound storage |
| DenseScene.Scene.GetStorage | as8/src/ECS.hpp:75-83 | (corrected growth) the type's storage exists, is bound to the type's size, and no element of any storage changes |
| DenseScene.Scene.CreateEntity | as8/src/ECS.hpp:85-89 | returns the old mask count truncated to 8 bits and appends `[false]` |
| DenseScene.Scene.AddComponent | as8/src/ECS.hpp:91-99 | sets the type's bit, makes `HasComponent` true, grows only that type's storage (existing elements keep their values) and returns a reference to `e`'s element |
| DenseScene.Scene.RemoveComponent | as8/src/ECS.hpp:101-107 | clears the type's bit (a no-op on a short mask), makes `HasComponent` false, and leaves the storages untouched |
| DenseScene.Scene.GetComponent | as8/src/ECS.hpp:109-114 | with the bit set, returns a reference to `e`'s element and changes no mask or storage |
| DenseScene.Scene.HasComponent | as8/src/ECS.hpp:116-120 | the answer is whether the mask is long enough and the bit is set; registering the type on the way does not change it |
| PackedScene.Place | as8/src/ECS.hpp:160-168 | `GetOrAllocate` on values: unchanged when `e` already has an element |
| PackedScene.PlaceKeepsOthers | as8/src/ECS.hpp:160-168 | afterwards `e` has an element, other entities keep their offsets, old elements are not moved, and nothing changes iff `e` already had one |
| PackedScene.CoveredPadded | as8/src/ECS.hpp:79 | appending empty storages keeps "a set bit has a recorded offset" |
| PackedScene.CoveredAdd | as8/src/ECS.hpp:92-99 | setting bit `id` of `e` while placing `e` in storage `id` keeps the invariant |
| PackedScene.CoveredRemove | as8/src/ECS.hpp:101-107 | clearing a bit keeps the invariant |
| PackedScene.CoveredCreate | as8/src/ECS.hpp:85-89 | appending `[false]` keeps the invariant |
| PackedScene.CoveredBitsBelow | as8/src/ECS.hpp:72-73 | every set bit is an id below the registry's counter |
| PackedScene.Scene.constructor | as8/src/ECS.hpp:72-73 | a new scene has no entity and one unbound storage |
| PackedScene.Scene.GetStorage | as8/src/ECS.hpp:75-83 | (corrected growth) the type's storage exists and is bound to the type's size; no offset or element of any storage changes |
| PackedScene.Scene.CreateEntity | as8/src/ECS.hpp:85-89 | returns the old mask count truncated to 8 bits and appends `[false]` |
| PackedScene.Scene.AddComponent | as8/src/ECS.hpp:91-99 | sets the bit, makes `HasComponent` true, places `e` in only that type's storage (an existing element is kept) and returns `e`'s recorded offset |
| PackedScene.Scene.RemoveComponent | as8/src/ECS.hpp:101-107 | clears the bit, makes `HasComponent` false, leaves the storages untouched |
| PackedScene.Scene.GetComponent | as8/src/ECS.hpp:109-114 | with the bit set, returns `e`'s recorded offset (the one `AddComponent` returned) and changes no mask or storage |
| PackedScene.Scene.HasComponent | as8/src/ECS.hpp:116-120 | the answer is whether the mask is long enough and the bit is set; it does not depend on the registration it performs |
| Views.Selection | as8/src/ECS.hpp:183 | one "valid" flag per entity |
| Views.NextMatch | as8/src/ECS.hpp:187-192 | the first entity at or after `k` that holds every type, or the entity count; every entity skipped lacks one |
| Views.NextMatchUnique | as8/src/ECS.hpp:187-192 | any position with those properties is `NextMatch` |
| Views.NextMatchSkip | as8/src/ECS.hpp:188-190 | skipping an entity that lacks a type does not change the next match |
| Views.WalkSkip | as8/src/ECS.hpp:204-208 | a walk starting at a non-matching entity equals the walk from the next match |
| Views.WalkStep | as8/src/ECS.hpp:187-192 | a walk from a matching entity yields it and continues from the next match |
| Views.WalkExact | as8/src/ECS.hpp:174-209 | a walk visits exactly the matching entities from its start, in strictly ascending id order |
| Views.SelectionOfEmptyPack | as8/src/ECS.hpp:183 | for the empty pack `SceneView<>` the fold `valid()` is true for every entity |
| Views.ScanAsWrittenIs | as8/src/ECS.hpp:188-190 | the source's loop stops at the next match; when none is left, a non-empty pack reads the mask at index `size` and the empty pack stops at the end |
| Views.AdvanceAsWrittenReadsPastEnd | as8/src/ECS.hpp:188-190 | advancing past the last matching entity reads `entityMasks[size]` for a non-empty pack, and stops at the end for the empty pack |
| Views.AdvanceAsWrittenLastEntity | as8/src/ECS.hpp:188-190 | a one-entity scene: advancing from entity 0 reads index 1 for a non-empty pack, and stops at 1 for the empty pack |
| Views.BeginAsWrittenEmpty | as8/src/ECS.hpp:204-208 | `begin()` on a scene without entities reads `entityMasks[0]` for a non-empty pack, and is at the end for the empty pack |
| Views.BeginAsWrittenIs | as8/src/ECS.hpp:204-208 | on a non-empty scene, `begin()` as written stops at the first match when there is one; otherwise a non-empty pack reads `entityMasks[size]` and the empty pack stops at the end |
| Views.WrapNeverEnds | as8/src/ECS.hpp:181-190 | with 256 or more entities the `uint8_t` entity is never at or past the size, so the sentinel test never holds; with no match among entities 0..255 every round of the do-while goes on |
| Views.WrapNeverEndsAt256 | as8/src/ECS.hpp:181-190 | 256 entities without a match: the do-while goes on from entity 255 |
| Views.SelectionKept | as8/src/ECS.hpp:183 | the registrations `valid()` performs do not change the selection |
| Views.AllOfExtend | as8/src/ECS.hpp:183 | the fold `(HasComponent<Ts>(e) && ...)` extended by one type |
| Views.Iterator.constructor | as8/src/ECS.hpp:180-181 | the iterator holds the given scene and entity |
| Views.Iterator.IsValid | as8/src/ECS.hpp:183 | `valid()` is true iff `e` holds every requested type, and the selection is unchanged |
| Views.Iterator.Query | as8/src/ECS.hpp:183 | one `HasComponent<T>(e)` of the fold: answers the mask bit and only adds ids |
| Views.Iterator.Probe | as8/src/ECS.hpp:188-190 | one round of the corrected loop: `e` moves on by one and the loop stops at the end or at a match |
| Views.Iterator.Advance | as8/src/ECS.hpp:187-192 | (corrected bound check) `e` becomes the next match after the old `e`, or the entity count |
| Views.Iterator.Drain | as8/src/ECS.hpp:185-192 | advancing until the sentinel test holds yields exactly the walk from the current entity |
| Views.Iterator.PreIncrementAsWritten | as8/src/ECS.hpp:194-198 | advances, but returns a fresh null-scene iterator that already equals the sentinel |
| Views.Iterator.PreIncrement | as8/src/ECS.hpp:194-198 | advances and returns a copy of the iterator before the step, which is not at the end |
| Views.Iterator.Deref | as8/src/ECS.hpp:201 | one recorded offset per requested type, each the entity's element in that type's storage; nothing changes |
| Views.SceneView.constructor | as8/src/ECS.hpp:176 | the view holds its scene and types |
| Views.SceneView.Begin | as8/src/ECS.hpp:204-208 | (corrected) the first iterator stands at the first matching entity, or at the end |
| Views.SceneView.Collect | as8/src/ECS.hpp:204-209 | the range-for from `begin()` to `end()` visits exactly the matching entities, in ascending order |
| RoundRobin.NextIndex | as8/src/as8.cpp:159 | the next index is in range, wraps to 0 exactly from the last index, and is otherwise one more |
| RoundRobin.Presses | as9/src/as9.cpp:168 | any number of TAB presses keeps the index in range |
| RoundRobin.PressesIs | as9/src/as9.cpp:168 | `k` presses from `i` land on `(i + k) mod n` |
| RoundRobin.ModSucc | as9/src/as9.cpp:168 | taking the remainder before adding one does not change the result |
| RoundRobin.PressesVisitAll | as8/src/as8.cpp:156-162 | every index is reached from every other within `n` presses, and `n` presses come back |
| RoundRobin.MoveSelection | as8/src/as8.cpp:158-160 | clearing the old flag and setting the new one keeps exactly one entity selected |
| As8Game.FirstIds | as8/src/as8.cpp:178-187 | the sequence 0..n-1 |
| As8Game.World.constructor | as8/src/as8.cpp:65-66 | empty order, index 0, no entity selected |
| As8Game.World.CreateEntity | as8/src/as8.cpp:13-16 | returns the counter and bumps it, so ids are 0, 1, 2, … |
| As8Game.World.CreateCar | as8/src/as8.cpp:68-77 | sets Transform, Render, Velocity and Physics2D for the new id, leaves Physics3D clear, appends the id; no entity gets both physics flags |
| As8Game.World.CreateRocket | as8/src/as8.cpp:79-88 | sets Transform, Render, Velocity and Physics3D, leaves Physics2D clear, appends the id |
| As8Game.World.SelectionSystem | as8/src/as8.cpp:156-162 | without TAB nothing changes; with TAB the index advances cyclically and the flag moves; "exactly one selected" is preserved |
| As8Game.World.InputSystem | as8/src/as8.cpp:131-154 | the selected entity has a velocity, so the early return never fires; SPACE zeroes its speed and nothing else changes |
| As8Game.World.Setup | as8/src/as8.cpp:178-189 | the order is ids 0..9, cars 0..4 have only Physics2D, rockets 5..9 only Physics3D, and only entity 0 is selected |
| As9Game.PushMessage | as9/src/as9.cpp:207-210 | appends the message and drops the oldest when the log would exceed five |
| As9Game.Newest | as9/src/as9.cpp:18 | the newest messages of a history, never more than five |
| As9Game.LogIsNewestFive | as9/src/as9.cpp:207-210 | after any sequence of sends the log is exactly the newest five sent messages, in order |
| As9Game.PushNewest | as9/src/as9.cpp:207-210 | pushing onto the newest five of a history gives the newest five of the extended history |
| As9Game.Drained | as9/src/as9.cpp:217-223 | the key queue up to (not including) the first non-positive code |
| As9Game.Accepted | as9/src/as9.cpp:219-221 | only codes 32..125 become characters, and no more characters than keys |
| As9Game.AcceptedAppend | as9/src/as9.cpp:218-222 | typing two key runs one after the other appends what each appends, in arrival order |
| As9Game.AcceptedOne | as9/src/as9.cpp:219-221 | a single key appends its character exactly when its code is in 32..125 |
| As9Game.AcceptedAll | as9/src/as9.cpp:219-221 | when every key is printable, each becomes its character, in arrival order |
| As9Game.AcceptedNone | as9/src/as9.cpp:219-221 | when no key is printable, nothing is appended |
| As9Game.DrainedStops | as9/src/as9.cpp:218-222 | the drain ends exactly at the first non-positive code |
| As9Game.Erase | as9/src/as9.cpp:225-227 | backspace on a non-empty line removes exactly its last character, otherwise the line is unchanged |
| As9Game.GoalStep | as9/src/as9.cpp:190-201 | the latch follows the in-range test and the score rises by at most one |
| As9Game.ScoreCountsEntries | as9/src/as9.cpp:190-201 | over any run of frames, the score rises by exactly the number of entries into range and the latch ends at the last frame's test |
| As9Game.Game.constructor | as9/src/as9.cpp:15-18 | no entity, nothing selected, score 0, empty chat, chat inactive |
| As9Game.Game.CreateEntity | as9/src/as9.cpp:23-26 | returns the counter and bumps it |
| As9Game.Game.CreateCar | as9/src/as9.cpp:77-88 | sets all four flags for the new id and appends it to the order |
| As9Game.Game.CreateGoal | as9/src/as9.cpp:90-96 | sets only Transform and Render and leaves the order alone |
| As9Game.Game.SelectionSystem | as9/src/as9.cpp:165-171 | without TAB nothing changes; with TAB the index advances cyclically and "exactly one selected" is preserved |
| As9Game.Game.GoalSystem | as9/src/as9.cpp:173-202 | the score and latch take one `GoalStep` |
| As9Game.Game.ChatSystem | as9/src/as9.cpp:204-229 | Enter toggles the chat and commits a non-empty active line to the log; while active, the drained printable keys are appended and then backspace applies; nothing changes the line while inactive |
| As9Game.Game.Enter | as9/src/as9.cpp:205-214 | toggles the chat; an active non-empty line is pushed and cleared |
| As9Game.Game.TypeLine | as9/src/as9.cpp:215-227 | while active: the accepted keys of the queue are appended in arrival order, then Backspace drops the last character of a non-empty line; the line stays printable |
| As9Game.Game.TypeKeys | as9/src/as9.cpp:217-223 | the polling loop appends exactly the accepted prefix of the key queue |
| As9Game.Game.Setup | as9/src/as9.cpp:267-270 | one car in the order, selected alone; the goal has Transform and Render but no velocity |
| RuntimeTypes.FirstFrom | as7/src/CO.hpp:102-107 | the first index from `k` whose class is or derives from the target, or none when there is no such index |
| RuntimeTypes.FirstMatch | as6/src/CO.hpp:59-71 | the first index whose class is or derives from the target, or none |
| RuntimeTypes.FirstMatchUnique | as6/src/CO.hpp:60-64 | a matching index preceded only by non-matches is the first match |
| RuntimeTypes.FirstMatchAppend | as7/src/CO.hpp:82-85 | appending a component keeps an existing first match, and otherwise the new component matches or nothing does |
| As7Objects.Tags | as7/src/CO.hpp:47 | the classes of the component list, in order |
| As7Objects.EnabledOnes | as7/src/CO.hpp:68-72 | the enabled components of the list: all of them, and only them |
| As7Objects.EnabledOnesAppend | as7/src/CO.hpp:68-72 | ticking two lists one after the other ticks the enabled ones of each, in list order |
| As7Objects.EnabledOnesOne | as7/src/CO.hpp:70-71 | a single component is ticked exactly when it is enabled |
| As7Objects.Component.constructor | as7/src/CO.hpp:22-24 | a component is owned by its entity and starts enabled |
| As7Objects.Component.WithEnabled | as7/src/CO.hpp:25 | the explicit `enabled` argument is kept |
| As7Objects.Component.Transform | as7/src/CO.hpp:123 | returns the owner's slot-0 transform |
| As7Objects.Entity.constructor | as7/src/CO.hpp:49 | a new entity has exactly one component, an enabled transform at slot 0 |
| As7Objects.Entity.AddComponent | as7/src/CO.hpp:81-86 | appends a fresh component owned by this entity, returns its index (the old size) and keeps the earlier components and the invariant |
| As7Objects.Entity.Adopt | as7/src/CO.hpp:52-53 | every component's owner becomes this entity, with its enabled flag unchanged |
| As7Objects.Entity.MoveFrom | as7/src/CO.hpp:51-54 | the list moves over, the source is left empty, and every owner is re-pointed |
| As7Objects.Entity.MoveAssign | as7/src/CO.hpp:57-62 | the same for move assignment |
| As7Objects.Entity.Tick | as7/src/CO.hpp:68-72 | ticks exactly the enabled components, in list order (the order fixed by `EnabledOnesAppend` and `EnabledOnesOne`) |
| As7Objects.Entity.GetComponent | as7/src/CO.hpp:95-108 | the first component whose class is or derives from the target, or none; the transform fast path agrees |
| As7Objects.Entity.Transform | as7/src/CO.hpp:115 | on a valid entity, returns the slot-0 transform |
| As6Objects.Tags | as6/src/CO.hpp:38 | the classes of the component list, in order |
| As6Objects.Component.constructor | as6/src/CO.hpp:21 | the owner is the entity the component was built for |
| As6Objects.Entity.constructor | as6/src/CO.hpp:41-43 | a new entity holds exactly one component, a transform |
| As6Objects.Entity.AddComponentAsWritten | as6/src/CO.hpp:46-55 | appends only to a list without a transform, so on a constructed entity every call changes nothing |
| As6Objects.Entity.AddComponent | as6/src/CO.hpp:46-55 | (corrected guard) refuses a second transform, appends any other component, and keeps exactly one transform |
| As6Objects.Entity.GetComponent | as6/src/CO.hpp:57-72 | the first component whose class is or derives from the target, or none |
| As6Objects.Entity.Update | as6/src/CO.hpp:74-79 | every component is updated once, in list order |
| As6Objects.PhysicsDroppedAsWritten | as6/src/CO.hpp:41-72 | a new entity given a `PhysicsComponent` finds none afterwards |
| As6Objects.PhysicsKept | as6/src/CO.hpp:41-72 | with the corrected guard the physics component is found |

## Left out

- Raw bytes, placement new and pointer casts: storages hold typed values. A byte offset is kept only as index × element size.
- The 64-bit width of `size_t` is not modelled. SIZE_MAX appears only as the element size of an unbound storage and as the skiplist "absent" marker. `SkiplistStorage.SkiplistComponentStorage.GetOrAllocate` requires its buffer to stay below SIZE_MAX bytes so that a fresh offset cannot equal the marker.
- `DenseStorage.ComponentStorage.Allocate` requires `1 <= count`. With `count == 0` the source's `count - 1` wraps around to SIZE_MAX. `GetOrAllocate` never passes 0.
- `DenseStorage.ComponentStorage.GetOrAllocate` requires `e` to be fewer than 99 elements past the end, because that is what `Allocate`'s `count < 100` assert allows.
- `DenseScene.Scene.GetStorage` and `PackedScene.Scene.GetStorage` use the corrected growth. The source's growth is modelled separately (see Findings).
- `Views.Iterator.Advance`, `Views.Iterator.Drain`, `Views.SceneView.Begin` and `Views.SceneView.Collect` require fewer than 256 entities, because the iterator's `uint8_t` entity would wrap around (see Findings). They use the corrected bound check (see Findings).
- `Views.Iterator.Deref` states each result as the entity's recorded offset in its type's storage. The storage's invariant makes such an offset a valid reference.
- `GetComponentID`'s counter starts at a value given to the registry's constructor. `globalComponentCounter` is defined outside these files.
- The `Sentinel`/`end()` pair is the predicate `Views.Iterator.AtEnd`. It has no contract of its own.
- `SceneView` over `Scene<ComponentStorage>` is not modelled: the source hard-wires the view to the packed scene.
- `As8Game.World.InputSystem`: does not model the W/S/A/D/R/F/Q/E speed, heading and angular updates, because they are float arithmetic scaled by the frame time. Only the SPACE brake is modelled.
- as9 `InputSystem` is not modelled at all: it is float steering only.
- `As9Game.Game.GoalSystem`: the distance computation becomes the `inRange` parameter, and the random respawn of the goal is not modelled (random, float).
- The systems' physics, kinematics, rendering, camera, skybox, audio and UI drawing are not modelled. They are float arithmetic or calls into the graphics and audio libraries.
- The per-frame system threads and the mutex of as9 are not modelled. The systems are modelled as running one after another.
- Component `Tick`/`Update` overrides (physics, rendering, input components) are not modelled, because they are float motion and drawing. `Tick` and `Update` return the components they would call, in order.
- The diagnostic output on stdout/stderr in as6 `AddComponent` and `GetComponent` is not modelled.
- As7Objects.Entity.MoveAssign: states that the moved-from entity is left with an empty list, what the common standard-library vectors do; the C++ standard promises only a valid but unspecified state. Self-move assignment (`e = std::move(e)`) is excluded by `other != this`, since a self-moved vector's contents are unspecified as well.
- The as6 `Entity` declares no move operations, and the implicit move of its `unique_ptr` list is not modelled.
- `std::optional<reference_wrapper<T>>` becomes `Option<Component>`. `dynamic_cast<T*>` becomes a test that the component's class lineage contains `T`.

## Findings

| source | as written | input that shows it | evidently intended | confidence | as-written member | corrected member |
|---|---|---|---|---|---|---|
| as8/src/ECS.hpp:78-79 | `GetStorage` grows the storages by `max(id - size, 1)`, which covers `id` only when `id == size` | a fresh scene (one storage) whose first stored type received id 2: it grows to 2 storages and `storages[2]` is out of range | grow by `id + 1 - size` so `storages[id]` exists | high, not executed | StorageTable.GrowthAsWrittenFreshScene | StorageTable.Growth |
| as8/src/ECS.hpp:188-190 | for a non-empty component pack, the do-while evaluates `valid()` before `e < size`, so the step past the last entity reads `entityMasks[size]` | a non-empty pack over a one-entity scene in which entity 0 matches: advancing from 0 reads index 1 | test `e < size` first | high, not executed | Views.AdvanceAsWrittenLastEntity | Views.Iterator.Advance |
| as8/src/ECS.hpp:204-208 | for a non-empty component pack, `begin()` calls `valid()` on entity 0 even when there is no entity | a non-empty pack over a scene without entities: `begin()` reads `entityMasks[0]` | check for the end before `valid()` | high, not executed | Views.BeginAsWrittenEmpty | Views.SceneView.Begin |
| as8/src/ECS.hpp:194-198 | prefix `++` returns a default-constructed iterator with a null scene | any iterator not at the end: the returned value already equals the sentinel | return a copy of the iterator before the step | high, not executed | Views.Iterator.PreIncrementAsWritten | Views.Iterator.PreIncrement |
| as6/src/CO.hpp:49-52 | `AddComponent` appends only when no existing component is a transform, whatever the added type | `Entity e; e.AddComponent<PhysicsComponent>(10, 2); e.GetComponent<PhysicsComponent>()` is empty, because the constructor's transform makes the add a no-op | refuse only a second transform | high, not executed | As6Objects.PhysicsDroppedAsWritten | As6Objects.PhysicsKept |
| as8/src/ECS.hpp:181-190 | the entity is `uint8_t`, so with 256 or more entities it wraps to 0 after 255; `e < size` always holds and the sentinel test `e >= size` never does | 256 entities, none holding the requested types: `++` from any entity never returns, and a range-for over any view never ends | an entity type wide enough for the entity count | high, not executed | Views.WrapNeverEndsAt256 | Views.WalkExact |
