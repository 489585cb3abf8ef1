# Melkam core in Dafny

A model of the core of Melkam, a small C++ game engine built on raylib. The
model covers the entity/component scene store, its parent/child hierarchy and
the swept-AABB collision layer built on top of it. It also covers four smaller
pure pieces around them: the fixed-step 2D physics loop, the named-action
input table, the scene-switch state machine of the engine, and the arithmetic
of the immediate-mode UI layer. Each piece is written as immutable data and
pure functions. Every mutating operation of the source becomes a function that
returns the new state, and the lemmas state what the source promises about
those operations.

| file | module | models |
|---|---|---|
| wrappers.dfy | Wrappers | `Option`, standing in for nullable pointers and "not found" results |
| components.dfy | Components | the component structs and their defaults, `EntityId` and `InvalidEntity`, and the tagged union the type-erased store holds |
| seqs.dfy | Seqs | sequence helpers (erase/remove, filtering, counting) |
| hierarchy.dfy | Hierarchy | the Node links rewired by `setParent` and `destroyEntity`, with the consistency and acyclicity they keep under caller discipline |
| scene.dfy | SceneStore | the scene: id counter, per-kind component tables, creation order and live set, `view`, systems, `update` as a trace of system calls and pre/post hooks, `rebuild` and `clear` |
| entity.dfy | EntityHandle | the `(scene, id)` handle and its null-scene-guarded forwarding |
| geometry.dfy | Geometry | vectors, boxes, strict intersection, the penetration normal and the per-axis sweep |
| collider.dfy | Collision | AABB derivation from a body's shape, the layer/mask filter, contact classification and queries, slide settings, the candidate sweep and `MoveAndCollide` in 2D and 3D |
| slide.dfy | Sliding | the slide loop of `MoveAndSlide` in 2D and 3D, with the normals it hit |
| physics2d.dfy | Physics2D | the fixed-step accumulator and the per-step steering and X-then-Y static resolution |
| input.dfy | InputActions | the action table, the action queries and strength, the 2D axis and the mouse mode |
| engine.dfy | EngineLoop | scene creation, deferred change and reload requests, the end-of-frame switch and the run loop's states |
| ui_tree.dfy | UiTree | rectangles, the inclusive hit test and the UI's upward walk through valid ancestors |
| ui_layout.dfy | UiLayout | `resolveRect`: anchored and clamped rects, VBox/HBox layout, and the scroll clamp |
| ui_order.dfy | UiOrder | `resolveLayer` and `resolveDepth`, the (layer, depth) sort of the draw and text-edit lists, focus on mouse press, and the button callback registry |
| ui_text.dfy | UiText | the `;` split of tab items and `packColor` |
| ui_theme.dfy | UiTheme | `applyStylePath`, `applyStyleFor`, `SetUiThemeStyle`, `SetUiThemeMelkam` and its deferral until the window is ready, with style loads returned as a list |

Floating-point values are `real`. The collision sweep's ±infinity entry and
exit times are the three-case value `Geometry.Time` (`NegInf`, `At(t)`,
`PosInf`). Bit masks and colours are `bv32`. Systems and builders are labels,
and their effect on the scene is a parameter. Keyboard state is passed to each
query as three key sets. The window, the clock and rendering are parameters or
are left out. Walks up or down the hierarchy take a `fuel` bound, because the
source does not check for cycles and would loop forever on one.

## Model

| member | source | states |
|---|---|---|
| SceneStore.ZeroNeverLive | src/Melkam/scene/Scene.cpp:18-22 | ids are issued from 1 upward, so the reserved id 0 is never live in a well-formed scene |
| SceneStore.TryGetComponent | include/Melkam/scene/Scene.hpp:78-107 | a lookup finds a component exactly when the kind's table exists and holds the id, and what it finds is of the asked kind |
| SceneStore.AddComponent | include/Melkam/scene/Scene.hpp:66-76 | after adding, the id holds exactly the given component of its kind (an existing one is overwritten); every other (kind, id) slot, the entity list and the systems are unchanged |
| SceneStore.RemoveComponent | include/Melkam/scene/Scene.hpp:109-117 | the id no longer holds that kind; removing what is absent (or from a table never created) changes nothing; every other slot is unchanged |
| SceneStore.NodeWrites | src/Melkam/scene/Scene.cpp:104-121 | the three in-place edits of Node components act on the scene's link map exactly as the pure link edits do |
| SceneStore.ClearParentsInEffect | src/Melkam/scene/Scene.cpp:59-66 | clearing the parent field of each listed child acts on the link map as the pure clear does |
| SceneStore.CreateEntity | src/Melkam/scene/Scene.cpp:18-29 | the new id is one past the last issued, above every live id, appended to the creation order; it gets exactly a Name with the given text (by default "Entity", as the header declares), a root Node and an identity Transform; nothing else changes |
| SceneStore.CreateKeepsValid | src/Melkam/scene/Scene.cpp:18-29 | creating an entity keeps the scene well formed (order and live set agree, no duplicates, ids below the counter) |
| SceneStore.CreateKeepsConsistent | src/Melkam/scene/Scene.cpp:18-29 | a freshly created root cannot break the parent/child links |
| SceneStore.EffectiveParent | src/Melkam/scene/Scene.cpp:86-91 | the parent actually used is the given one when it is live and 0 otherwise, in both directions |
| SceneStore.SetParent | src/Melkam/scene/Scene.cpp:78-124 | only Node components change; an invalid child or one without a Node leaves the scene as it was |
| SceneStore.SetParentNodes | src/Melkam/scene/Scene.cpp:93-123 | for a live child with a Node, the links change exactly as detaching from the old parent, pointing at the effective parent and appending to its child list |
| SceneStore.SetParentLinks | src/Melkam/scene/Scene.cpp:78-124 | after setParent the child points at the effective parent, and that parent, alone, lists it |
| SceneStore.SetParentKeepsForest | src/Melkam/scene/Scene.cpp:78-124 | when the new parent is not below the child, setParent keeps the links consistent and free of cycles |
| SceneStore.SetParentIdempotent | src/Melkam/scene/Scene.cpp:99-102 | setting the same parent twice is the same as once (the second call hits the early return) |
| SceneStore.CreateChild | src/Melkam/scene/Scene.cpp:31-36 | the child gets the id and the name (by default "Entity") createEntity would give it and is live with a Node; its parent is the given one when that is live, and 0 when it is not |
| SceneStore.EraseEverywhere | src/Melkam/scene/Scene.cpp:69-72 | the id is removed from every table and no other slot changes |
| SceneStore.DestroyEntity | src/Melkam/scene/Scene.cpp:38-76 | an invalid handle changes nothing; otherwise the id leaves the live set and the order list, loses every component, and no other entity's components except Nodes change |
| SceneStore.DestroyIdempotent | src/Melkam/scene/Scene.cpp:38-43 | destroying twice is destroying once |
| SceneStore.DestroyKeepsValid | src/Melkam/scene/Scene.cpp:38-76 | destroying keeps the scene well formed |
| SceneStore.DestroyNodes | src/Melkam/scene/Scene.cpp:45-72 | on the link map, destroy detaches from the parent, orphans the children and erases the Node |
| SceneStore.UnlinkNodes | src/Melkam/scene/Scene.cpp:45-67 | the rewiring before erasure acts on the link map as the pure unlink does |
| SceneStore.EraseNodes | src/Melkam/scene/Scene.cpp:69-72 | erasing an id removes exactly its Node from the link map |
| SceneStore.View | include/Melkam/scene/Scene.hpp:52-64 | a view lists exactly the entities in creation order holding every asked kind, as a subsequence of the creation order |
| SceneStore.ViewDistinctLive | include/Melkam/scene/Scene.hpp:52-64 | a view lists each entity once, and only live ones |
| SceneStore.ViewSkipsDead | include/Melkam/scene/Scene.hpp:52-64 | a destroyed id is never in a view |
| SceneStore.RootEntities | src/Melkam/scene/Scene.cpp:126-138 | the roots are exactly the entities in creation order whose Node has parent 0, kept in creation order |
| SceneStore.Walk | src/Melkam/scene/Scene.cpp:220-250 | a live entity's visit opens with its pre-visit, closes with its post-visit and enters every live child; an entity that is not live, or out of fuel, is not visited; only live entities are visited |
| SceneStore.WalkEach | src/Melkam/scene/Scene.cpp:237-243 | the walk of a child list enters every live id of it, visits only live entities, and is empty for an empty list |
| SceneStore.Traverse | src/Melkam/scene/Scene.cpp:164-172 | the traversal enters every live root and visits only live entities |
| SceneStore.WalkEachIsFlatten | src/Melkam/scene/Scene.cpp:237-243 | the walk of a child list is the walks of its live ids laid end to end in list order, the ids that are not live contributing nothing |
| SceneStore.WalkUnfolds | src/Melkam/scene/Scene.cpp:220-250 | a live entity's walk is its pre-visit, then the walk of each live child in child-list order, then its post-visit |
| SceneStore.WalkEachAppend | src/Melkam/scene/Scene.cpp:237-243 | walking a list split in two is walking the first part and then the second |
| SceneStore.WalkEachOrder | src/Melkam/scene/Scene.cpp:237-243 | each id of a child list is walked in its place, after everything its predecessors produce and before everything its successors produce |
| SceneStore.TraverseRootsInOrder | src/Melkam/scene/Scene.cpp:164-172 | the traversal is the walks of the roots laid end to end in creation order |
| SceneStore.TraverseEntersReachable | src/Melkam/scene/Scene.cpp:164-250 | with consistent, acyclic links and enough fuel, the traversal enters an entity exactly when it is live and its chain of parents is live up to a root, and enters each entity once |
| SceneStore.ReplayAppend | src/Melkam/scene/Scene.cpp:220-250 | replaying two visit sequences in a row is replaying the first and then the second from the stack it leaves |
| SceneStore.WalkNested | src/Melkam/scene/Scene.cpp:220-250 | the visits of one subtree are properly nested: every post-visit closes the most recent open pre-visit |
| SceneStore.WalkEachNested | src/Melkam/scene/Scene.cpp:237-243 | visits of a list of subtrees are properly nested |
| SceneStore.TraverseNested | src/Melkam/scene/Scene.cpp:164-172 | the whole traversal is properly nested, pre before post for every entity |
| SceneStore.Broadcast | src/Melkam/scene/Scene.cpp:148-160 | one hook call per system, in system order, for the given visit |
| SceneStore.Hooks | src/Melkam/scene/Scene.cpp:147-161 | the hook calls are, for each visit in trace order, every system's pre hook (on an entry) or post hook (on an exit) in registration order; there are systems times visits of them |
| SceneStore.Update | src/Melkam/scene/Scene.cpp:140-162 | update first calls every system's onUpdate in registration order, then exactly the hook calls of the traversal, all on live entities |
| SceneStore.UpdateEntersFirstRoot | src/Melkam/scene/Scene.cpp:140-172 | right after the onUpdate calls come the pre hooks of the first live root, one per system in registration order |
| SceneStore.AddSystem | src/Melkam/scene/Scene.cpp:174-182 | a null system is ignored; otherwise it is appended at the end; the name, builder, entities, tables and id counter are unchanged |
| SceneStore.AddSystemRunsLast | src/Melkam/scene/Scene.cpp:140-145 | a system added last gets its onUpdate call after every earlier system's |
| SceneStore.ClearSystems | src/Melkam/scene/Scene.cpp:184-187 | the system list becomes empty and the entities stay |
| SceneStore.ClearSystemsSilencesUpdate | src/Melkam/scene/Scene.cpp:140-162 | with no systems, update makes no calls at all |
| SceneStore.SetBuilder | src/Melkam/scene/Scene.cpp:189-192 | the builder becomes the given one; the name, systems, tables, entities and id counter are unchanged |
| SceneStore.Clear | src/Melkam/scene/Scene.cpp:206-213 | every table, the entity lists and the systems are emptied and the id counter is reset, keeping the name and builder |
| SceneStore.IdsRestartAfterClear | src/Melkam/scene/Scene.cpp:206-213 | after clear, the next entity gets id 1 again |
| SceneStore.Rebuild | src/Melkam/scene/Scene.cpp:194-204 | rebuild reports success exactly when a builder is set; without one the scene is untouched, with one it is the builder applied to the cleared scene |
| SceneStore.RebuildStartsAfresh | src/Melkam/scene/Scene.cpp:194-204 | a builder that creates one entity leaves a scene holding only that entity, numbered 1 |
| EntityHandle.NullNeverValid | src/Melkam/scene/Entity.cpp:18-21 | the default handle is never valid |
| EntityHandle.Name | src/Melkam/scene/Entity.cpp:23-33 | an unbound handle, or one without a Name, reads as the empty string; otherwise exactly the text of the stored Name component |
| EntityHandle.SetName | src/Melkam/scene/Entity.cpp:35-51 | an unbound handle changes nothing; otherwise only the Name slot of that id changes |
| EntityHandle.SetNameThenName | src/Melkam/scene/Entity.cpp:23-51 | reading back a name just set gives that name, whether the Name component existed or not |
| EntityHandle.Parent | src/Melkam/scene/Entity.cpp:53-67 | the parent handle is null when unbound, without a Node, or when the Node's parent is 0; otherwise it is bound to exactly the Node's parent id, live or not |
| EntityHandle.Children | src/Melkam/scene/Entity.cpp:69-89 | one bound handle per id of the Node's child list, in order; none for an unbound handle |
| EntityHandle.ChildrenMatchParent | src/Melkam/scene/Entity.cpp:53-89 | with consistent links, an entity lists a child exactly when that child's parent handle names it |
| EntityHandle.SetParentThenParent | src/Melkam/scene/Scene.cpp:78-124 | after setParent, the child's parent handle names the new parent if it is live and is null otherwise |
| EntityHandle.AddComponentVia | include/Melkam/scene/Entity.inl:5-9 | through a bound handle (the source dereferences the scene pointer unchecked) the handle then finds exactly the given component; every other (kind, id) slot, the entity lists and the id counter are unchanged |
| EntityHandle.HasComponentVia | include/Melkam/scene/Entity.inl:11-15 | a handle has a component exactly when a lookup through it finds one, so never when unbound |
| EntityHandle.TryGetComponentVia | include/Melkam/scene/Entity.inl:17-27 | nothing through an unbound handle; through a bound one a component is found exactly when the scene holds one for (kind, id), and it is the stored value |
| EntityHandle.RemoveComponentVia | include/Melkam/scene/Entity.inl:29-36 | afterwards the handle has no component of the kind; an unbound handle changes nothing; every other (kind, id) slot, the entity lists and the id counter are unchanged |
| EntityHandle.ForwardingAgrees | include/Melkam/scene/Entity.inl:5-36 | through a bound handle, add, has, tryGet and remove give exactly what the scene's own operations give on the handle's id |
| EntityHandle.UnboundIsInert | include/Melkam/scene/Entity.inl:11-36 | an unbound handle has no component, finds none, and removing through it leaves the scene as it was |
| EntityHandle.AddThenRemove | include/Melkam/scene/Entity.inl:5-36 | removing what was just added leaves the entity without that kind |
| Hierarchy.ClearParentsEffect | src/Melkam/scene/Scene.cpp:59-66 | clearing children's parents sets exactly the listed ids' parent to 0 and leaves every child list alone |
| Hierarchy.ReparentShape | src/Melkam/scene/Scene.cpp:104-123 | after reparenting only the child's parent field changes, and child lists change only by dropping the child from the old parent and appending it to the new |
| Hierarchy.DetachEffect | src/Melkam/scene/Scene.cpp:106-111 | detaching removes the child from one list and nothing else |
| Hierarchy.WithParentEffect | src/Melkam/scene/Scene.cpp:114 | only the child's parent field is overwritten |
| Hierarchy.AttachEffect | src/Melkam/scene/Scene.cpp:116-123 | attaching appends the child to the parent's list and nothing else |
| Hierarchy.AddRootKeepsConsistent | src/Melkam/scene/Scene.cpp:18-29 | a fresh root with no children cannot break the links |
| Hierarchy.ReparentLinksBothWays | src/Melkam/scene/Scene.cpp:104-123 | after reparenting under a Node, the child points at the parent, the parent lists it, and no other Node lists it |
| Hierarchy.ReparentKeepsParentsList | src/Melkam/scene/Scene.cpp:104-123 | every non-root still appears in its parent's list |
| Hierarchy.ReparentKeepsPointBack | src/Melkam/scene/Scene.cpp:104-123 | every listed child still points back at the lister |
| Hierarchy.ReparentKeepsDistinct | src/Melkam/scene/Scene.cpp:104-123 | child lists stay free of duplicates |
| Hierarchy.ReparentKeepsConsistent | src/Melkam/scene/Scene.cpp:104-123 | reparenting under a live parent other than the child keeps the links consistent |
| Hierarchy.ReparentKeepsRanked | src/Melkam/scene/Scene.cpp:104-123 | reparenting under an entity not below the child keeps the links acyclic |
| Hierarchy.DestroyShape | src/Melkam/scene/Scene.cpp:45-72 | destroying removes the Node, orphans exactly the former children, and removes the id from its parent's list |
| Hierarchy.DestroyKeepsConsistent | src/Melkam/scene/Scene.cpp:45-72 | destroying leaves the remaining links consistent |
| Hierarchy.DestroyKeepsRanked | src/Melkam/scene/Scene.cpp:45-72 | destroying keeps the links acyclic |
| Hierarchy.DestroyForgetsId | src/Melkam/scene/Scene.cpp:45-72 | no remaining Node mentions the destroyed id as parent or child |
| InputActions.AddAction | src/Melkam/platform/Input.cpp:75-78 | the action exists afterwards; a new action starts with no bindings and an existing one keeps its bindings; no other action and not the mouse mode changes |
| InputActions.ClearAction | src/Melkam/platform/Input.cpp:80-87 | an existing action loses all its bindings; an unknown action is not created; the other actions are untouched |
| InputActions.BindKey | src/Melkam/platform/Input.cpp:89-93 | the binding is appended after the action's existing ones, creating the action when absent; the other actions are untouched |
| InputActions.AddActionIdempotent | src/Melkam/platform/Input.cpp:75-78 | adding an action twice is adding it once, and adding a known action changes nothing |
| InputActions.AddActionKeepsBindings | src/Melkam/platform/Input.cpp:75-93 | adding an action after binding a key to it does not discard the binding |
| InputActions.AnyBound | src/Melkam/platform/Input.cpp:103-110 | the early-exit scan answers true exactly when some binding's key is in the set |
| InputActions.ActionQueries | src/Melkam/platform/Input.cpp:95-147 | each of the three queries is false for an unknown action and otherwise true exactly when some binding's key is down, went down, or came up |
| InputActions.SumHeldAppend | src/Melkam/platform/Input.cpp:157-164 | the running sum over bindings grows by a binding's scale exactly when its key is held |
| InputActions.SumHeldNoneHeld | src/Melkam/platform/Input.cpp:157-164 | with no bound key held the sum is zero |
| InputActions.ClampAxis | src/Melkam/platform/Input.cpp:69-72 | the result lies in [-1, 1], equals the input inside that range and the nearer end outside it |
| InputActions.GetActionStrength | src/Melkam/platform/Input.cpp:149-166 | the strength lies in [-1, 1]; it is 0 for an unknown action and otherwise the clamped sum of the scales of held bindings |
| InputActions.IdleActionIsZero | src/Melkam/platform/Input.cpp:95-166 | an action that is not pressed has strength 0 |
| InputActions.ClearedActionIsIdle | src/Melkam/platform/Input.cpp:80-166 | a cleared action is never pressed and has strength 0 |
| InputActions.BindKeyAddsStrength | src/Melkam/platform/Input.cpp:89-166 | binding a key adds its scale to the raw sum when held, and a held bound key makes the action pressed |
| InputActions.StrengthExamples | src/Melkam/platform/Input.cpp:149-166 | a held key bound with scale 1 or 2 gives strength 1; with scale -0.5 it gives -0.5 |
| InputActions.RawAxis2D | src/Melkam/platform/Input.cpp:171-173 | each component is positive minus negative strength, so it lies in [-2, 2] |
| InputActions.AboveOne | src/Melkam/platform/Input.cpp:174-175 | for a non-negative length, the test length > 1 is the test on its square |
| InputActions.Normalise | src/Melkam/platform/Input.cpp:174-180 | an axis of length at most 1 is returned unchanged; a longer one is divided by its length and comes out of length exactly 1 |
| InputActions.UnitAfterDivide | src/Melkam/platform/Input.cpp:177-178 | dividing both components by a length above 1 gives unit length and is undone by multiplying back |
| InputActions.GetActionAxis2D | src/Melkam/platform/Input.cpp:168-181 | the result never has length above 1 and is the raw axis whenever that is already within the unit disc |
| InputActions.SetMouseMode | src/Melkam/platform/Input.cpp:235-259 | the same mode makes no cursor calls; a new mode is recorded and its calls leave any cursor enabled/shown as the mode means |
| InputActions.ModeTracksCursor | src/Melkam/platform/Input.cpp:235-264 | if the recorded mode matched the cursor before, it still matches after any setMouseMode |
| InputActions.InitialCursorMatches | src/Melkam/platform/Input.cpp:235-264 | the initial Visible mode matches the window's initial enabled, shown cursor |
| EngineLoop.NewEngine | src/Melkam/core/Engine.cpp:8-12 | a new engine is Uninitialized with no active or pending scene and no reload requested |
| EngineLoop.Shutdown | src/Melkam/core/Engine.cpp:29-33 | the state becomes ShuttingDown and the scenes and requests are kept |
| EngineLoop.CreateScene | src/Melkam/core/Engine.cpp:79-87 | a fresh empty scene with the name joins the store; it becomes active only when no scene is active, and an active scene is never displaced |
| EngineLoop.SetActiveScene | src/Melkam/core/Engine.cpp:89-92 | the switch is immediate; requests and scenes are untouched |
| EngineLoop.RequestSceneChange | src/Melkam/core/Engine.cpp:99-102 | only the pending scene is recorded (a null request clears it); the active scene is untouched |
| EngineLoop.RequestSceneReload | src/Melkam/core/Engine.cpp:104-107 | only the reload flag is raised |
| EngineLoop.EndOfFrame | src/Melkam/core/Engine.cpp:61-71 | a pending scene becomes active and cancels the reload; otherwise a reload with an active scene rebuilds it and lowers the flag; otherwise nothing changes; no request is left pending |
| EngineLoop.EndOfFrameSettles | src/Melkam/core/Engine.cpp:61-71 | after the switch nothing is left to do: a second switch changes nothing |
| EngineLoop.RequestsAreDeferred | src/Melkam/core/Engine.cpp:99-107 | right after a change or reload request the active scene is still the old one |
| EngineLoop.ChangeBeatsReload | src/Melkam/core/Engine.cpp:61-71 | a change and a reload requested in the same frame, in either order, switch to the new scene unrebuilt and drop the reload |
| EngineLoop.FirstSceneIsActive | src/Melkam/core/Engine.cpp:79-87 | the first scene created becomes active and a second one does not displace it |
| EngineLoop.PerformAll | src/Melkam/core/Engine.cpp:29-33 | the engine calls made during one update, in order: only a stop changes the state (to ShuttingDown), a reload request leaves the flag raised, the last change request decides the pending scene and the last immediate switch the active one; with none of a kind that field is unchanged; the store is untouched |
| EngineLoop.PerformAllAppend | src/Melkam/core/Engine.cpp:89-107 | making two runs of engine calls one after the other is making them together |
| EngineLoop.LastChangeWins | src/Melkam/core/Engine.cpp:99-102 | of several change requests in one update the last one is the pending scene, whatever other calls follow it |
| EngineLoop.LastActivateWins | src/Melkam/core/Engine.cpp:89-92 | of several immediate switches in one update the last one is the active scene, whatever other calls follow it |
| EngineLoop.Frame | src/Melkam/core/Engine.cpp:54-71 | a pass updates the active scene (no calls without one), the engine calls made during that update are applied, and then the end-of-frame switch runs |
| EngineLoop.Frames | src/Melkam/core/Engine.cpp:48-74 | the loop stops as soon as the state is no longer Running or the frames run out, making no calls; after at least one pass no change is left pending |
| EngineLoop.FramesStep | src/Melkam/core/Engine.cpp:48-74 | while Running, the run's calls are the first pass's calls followed by those of the later passes, which start from the engine the first pass leaves |
| EngineLoop.ChangeTakesEffectNextFrame | src/Melkam/core/Engine.cpp:56-66 | a change requested during frame k (and not stopped) makes frame k + 1 update the requested scene: the run's calls are frame k's, then that scene's update, then the later frames' |
| EngineLoop.StopEndsRun | src/Melkam/core/Engine.cpp:29-33 | a shutdown called during a frame's update ends the loop after that frame's switch; later frames make no calls and change nothing |
| EngineLoop.QuietFrameSettles | src/Melkam/core/Engine.cpp:61-71 | a pass with no engine calls from inside the update leaves no request pending or unconsumed and keeps the state |
| EngineLoop.Run | src/Melkam/core/Engine.cpp:35-77 | the run always ends ShuttingDown; a window that does not open ends it at once with no frame; otherwise the calls returned and the final engine are exactly those of the passes over the frames from the Running engine, followed by shutdown, and no change is left pending after any pass |
| Physics2D.Blend | src/Melkam/scene/Systems2D.cpp:125-127 | the blend factor `min(1, max(acceleration, 0) * dt)` lies in [0, 1], is 1 once the step's acceleration reaches the target and 0 without acceleration |
| Physics2D.DampFactor | src/Melkam/scene/Systems2D.cpp:129-132 | the damping scale lies in (0, 1] and is 1 without damping |
| Physics2D.ScaleDown | src/Melkam/scene/Systems2D.cpp:126-132 | scaling by a factor in [0, 1] keeps the sign and never grows the magnitude |
| Physics2D.BlendBetween | src/Melkam/scene/Systems2D.cpp:126-127 | blending by a factor in [0, 1] gives a speed no larger than the larger of the current and target speeds |
| Physics2D.SteerAxisBounded | src/Melkam/scene/Systems2D.cpp:126-132 | blend then damp never makes a component faster than both the current and the target value |
| Physics2D.Steer | src/Melkam/scene/Systems2D.cpp:120-133 | each steered component is bounded by the larger of its current speed and the target `direction * maxSpeed` |
| Physics2D.SteerReachesTarget | src/Melkam/scene/Systems2D.cpp:120-133 | without damping, enough acceleration for the step lands exactly on the target velocity |
| Physics2D.SteerOnlyDamps | src/Melkam/scene/Systems2D.cpp:120-133 | without acceleration only the damping scale acts |
| Physics2D.BoxAt | src/Melkam/scene/Systems2D.cpp:24-31 | the step's box is centred on the position with the shape's size |
| Physics2D.BoxAtAgreesWithCollider | src/Melkam/scene/Systems2D.cpp:24-31 | the step's box is the same box the collision layer derives for a box-shaped entity |
| Physics2D.WithAxis | src/Melkam/scene/Systems2D.cpp:141-202 | writing one axis of a position leaves the others |
| Physics2D.Stop | src/Melkam/scene/Systems2D.cpp:169-170 | zeroing one velocity component keeps the other |
| Physics2D.SetVelocity2D | src/Melkam/scene/Systems2D.cpp:126-132 | the velocity write stores the new velocity, keeps the transform and touches nothing else |
| Physics2D.Place | src/Melkam/scene/Systems2D.cpp:141-174 | a position write keeps rotation, scale and velocity and touches nothing else |
| Physics2D.Push | src/Melkam/scene/Systems2D.cpp:166-171 | a push moves the mover on one axis by the given amount and zeroes that axis's velocity, changing only its transform and velocity |
| Physics2D.PushFrom | src/Melkam/scene/Systems2D.cpp:145-171 | a static that is layer-compatible and strictly intersecting moves the mover by the signed overlap resolve on the axis and stops it there; any other static leaves the scene as it is |
| Physics2D.ResolveAxis | src/Melkam/scene/Systems2D.cpp:143-172 | a pass over the statics changes only the mover's position on that axis and its velocity; the axis velocity ends zero whenever the position moved |
| Physics2D.ResolveAxisClear | src/Melkam/scene/Systems2D.cpp:143-172 | with no static blocking the mover, the pass changes nothing |
| Physics2D.FirstBlockStops | src/Melkam/scene/Systems2D.cpp:160-170 | a static that blocks first stops the mover on that axis whatever comes after it |
| Physics2D.SteeredVelocity | src/Melkam/scene/Systems2D.cpp:120-133 | without both a controller and an input the velocity is not steered |
| Physics2D.Pass | src/Melkam/scene/Systems2D.cpp:141-172 | the X pass keeps Y position and velocity, and the Y pass keeps X; only the mover's body changes |
| Physics2D.MoveBody | src/Melkam/scene/Systems2D.cpp:107-206 | an entity missing a transform, box or velocity is skipped; otherwise only its transform and velocity change |
| Physics2D.Advance | src/Melkam/scene/Systems2D.cpp:138-206 | both passes change only the mover's transform and velocity |
| Physics2D.Travel | src/Melkam/scene/Systems2D.cpp:141-205 | with displacements taken before the X pass, the two passes change only the mover's body |
| Physics2D.UnblockedFrame | src/Melkam/scene/Systems2D.cpp:143-205 | writes to the mover do not change which statics block a box |
| Physics2D.PassClear | src/Melkam/scene/Systems2D.cpp:141-172 | a pass whose target box nothing blocks is a plain move |
| Physics2D.NudgeBoth | src/Melkam/scene/Systems2D.cpp:141-174 | the X move then the Y move add both displacements |
| Physics2D.TravelClear | src/Melkam/scene/Systems2D.cpp:141-205 | with both targets unblocked the mover ends at position plus displacement with its velocity intact |
| Physics2D.AdvanceClear | src/Melkam/scene/Systems2D.cpp:138-205 | an unblocked advance moves by velocity times dt on each axis and keeps the velocity |
| Physics2D.MoveBodySteps | src/Melkam/scene/Systems2D.cpp:107-206 | a mover's step is the steered velocity written, then the advance with it |
| Physics2D.VelocityWriteKeepsView | src/Melkam/scene/Systems2D.cpp:126-143 | writing the velocity does not change what the passes read of the statics and the mover's box |
| Physics2D.WriteThenAdvance | src/Melkam/scene/Systems2D.cpp:126-205 | with the new velocity unblocked at both targets, the mover moves by it and keeps it |
| Physics2D.MoveBodyFree | src/Melkam/scene/Systems2D.cpp:107-206 | an unblocked mover ends at position plus steered velocity times dt, with the steered velocity |
| Physics2D.OnlyBodiesCons | src/Melkam/scene/Systems2D.cpp:107-206 | changes to one mover and then the rest change only the bodies of the list |
| Physics2D.MoveAll | src/Melkam/scene/Systems2D.cpp:107-206 | moving every mover in turn changes only the listed movers' transforms and velocities |
| Physics2D.Step | src/Melkam/scene/Systems2D.cpp:103-207 | a step changes only the transforms and velocities of entities with a transform, a box and a velocity; the entity lists stay |
| Physics2D.StepClearPath | src/Melkam/scene/Systems2D.cpp:103-207 | a mover whose own steered move meets none of the step's static bodies ends the step displaced by exactly steered velocity times dt, with the steered velocity, whatever the other movers do |
| Physics2D.MoveAllClear | src/Melkam/scene/Systems2D.cpp:107-206 | in the mover loop, a listed mover with a clear path ends at its own free move, because the other movers' moves leave its transform, velocity, steering and obstacles as they were |
| Physics2D.StaticsStayPut | src/Melkam/scene/Systems2D.cpp:103-207 | a body without a velocity keeps its transform and box through a step |
| Physics2D.RunSteps | src/Melkam/scene/Systems2D.cpp:93-99 | the loop runs at most five steps, subtracts one fixed step per run, and stops with less than a step banked or at the cap; a non-negative bank stays non-negative |
| Physics2D.OnUpdate | src/Melkam/scene/Systems2D.cpp:87-100 | onUpdate banks dt and runs some n ≤ 5 steps, leaving the bank reduced by n fixed steps and below one step unless capped |
| Physics2D.StepCountIsWholeSteps | src/Melkam/scene/Systems2D.cpp:87-100 | the step count is the number of whole fixed steps banked, capped at five |
| Physics2D.LongFrameBanksSurplus | src/Melkam/scene/Systems2D.cpp:90-99 | a frame with six or more steps banked leaves at least one step in the bank |
| Geometry.Around | src/Melkam/physics/Collider.cpp:56-111 | the box built from a centre and half-extents is centred on it with each side twice the half-extent |
| Geometry.ApartIsNotOverlap | src/Melkam/physics/Collider.cpp:232-240 | the sweep's early exit for a still axis (`max <= min` or `min >= max`) is exactly the negation of strict overlap |
| Geometry.IntersectsSymmetric | src/Melkam/physics/Collider.cpp:46-54 | strict box intersection in 2D and 3D does not depend on argument order |
| Geometry.TouchingIsNotIntersecting | src/Melkam/physics/Collider.cpp:46-54 | boxes sharing only a face or edge do not intersect |
| Geometry.Resolve | src/Melkam/physics/Collider.cpp:159-165 | on overlapping spans the push is negative exactly when the overlap seen from the mover's low side is the smaller one |
| Geometry.ResolveIsSmallestOverlap | src/Melkam/physics/Collider.cpp:159-165 | on overlapping spans the push's magnitude is the smaller of the two overlaps and is positive |
| Geometry.PushStaysInside | src/Melkam/physics/Collider.cpp:159-165 | applying the push leaves the spans touching, and still overlapping unless the two overlaps were equal: it moves the mover inward, never apart |
| Geometry.InwardPushExample | src/Melkam/physics/Collider.cpp:159-161 | mover [0,2] against target [1,5] is pushed by +1 to [1,3], further inside |
| Geometry.OverlapNormal2 | src/Melkam/physics/Collider.cpp:152-178 | a normal exists exactly when the boxes intersect; it is the unit axis of strictly smaller push magnitude, with the push's sign, ties going to Y |
| Geometry.OverlapNormal3 | src/Melkam/physics/Collider.cpp:180-222 | a normal exists exactly when the boxes intersect; it lies on an axis of smallest push magnitude, ties going to X and then Y |
| Geometry.TieBreaksDiffer | src/Melkam/physics/Collider.cpp:167-175 | on equal X and Y pushes the 2D normal is on Y while the 3D normal is on X |
| Geometry.Latest | src/Melkam/physics/Collider.cpp:280 | `std::max` on extended times is an upper bound of both arguments and one of them |
| Geometry.Earliest | src/Melkam/physics/Collider.cpp:281 | `std::min` on extended times is a lower bound of both arguments and one of them |
| Geometry.Entry | src/Melkam/physics/Collider.cpp:253-275 | an axis' entry time is the -infinity sentinel exactly when the mover does not move on it |
| Geometry.Exit | src/Melkam/physics/Collider.cpp:253-276 | an axis' exit time is the +infinity sentinel exactly when the mover does not move on it |
| Geometry.AxisTimes | src/Melkam/physics/Collider.cpp:253-278 | on a moving axis the span shifted by fraction u of the motion overlaps the target exactly when u is strictly between entry and exit, and touches it exactly when u is between them inclusively |
| Geometry.AxisInside | src/Melkam/physics/Collider.cpp:253-278 | a span meeting the target at fraction w lies in the axis' open window, and a still axis meets only when it already overlaps |
| Geometry.AxisEnters | src/Melkam/physics/Collider.cpp:253-278 | inside the open window (and, for a still axis, already overlapping) the shifted span meets the target |
| Geometry.Entry2 | src/Melkam/physics/Collider.cpp:280 | the combined 2D entry is the later of the two axis entries |
| Geometry.Exit2 | src/Melkam/physics/Collider.cpp:281 | the combined 2D exit is the earlier of the two axis exits |
| Geometry.Swept2 | src/Melkam/physics/Collider.cpp:275-300 | a hit at time t exactly when the combined entry is t, lies in [0,1] and is not after the combined exit; its normal opposes the motion on the axis entering last, ties going to Y |
| Geometry.Sweep2 | src/Melkam/physics/Collider.cpp:224-301 | no hit without motion or when a still axis is apart; time 0 with the penetration normal for intersecting boxes; otherwise the entry/exit result |
| Geometry.SweepExamples2 | src/Melkam/physics/Collider.cpp:224-301 | a unit box moving 5 right toward a box 3 away hits at 0.4 with normal (-1,0); moving 2 it hits at 1; moving 1 it misses |
| Geometry.SweptTouches2 | src/Melkam/physics/Collider.cpp:275-300 | at a reported entry time the moved mover touches the target on both axes |
| Geometry.SweptIsEarliest2 | src/Melkam/physics/Collider.cpp:275-300 | no fraction before a reported entry time makes the mover strictly intersect the target |
| Geometry.SweepFindsEveryHit2 | src/Melkam/physics/Collider.cpp:224-301 | any motion that strictly intersects the target at some fraction in [0,1] is reported as a hit |
| Geometry.LastAxisNormal3 | src/Melkam/physics/Collider.cpp:387-404 | the 3D sweep normal opposes the motion on a moving axis whose entry is not before either other entry, ties going to X and then Y |
| Geometry.Swept3 | src/Melkam/physics/Collider.cpp:372-407 | a hit exactly when the combined 3D entry is a real time in [0,1] not after the combined exit; its time is that entry and its normal is LastAxisNormal3 |
| Geometry.Sweep3 | src/Melkam/physics/Collider.cpp:303-408 | the 3D sweep's early exits, time-0 penetration case and entry/exit stage, as in 2D over three axes |
| Geometry.WindowTouches3 | src/Melkam/physics/Collider.cpp:372-382 | inside the combined closed 3D window the moved mover touches the target on every axis |
| Geometry.SweptTouches3 | src/Melkam/physics/Collider.cpp:372-407 | at a reported 3D entry time the moved mover touches the target on every axis |
| Geometry.MissesBeforeEntry3 | src/Melkam/physics/Collider.cpp:379-385 | before the combined 3D entry the moved mover misses the target on some axis |
| Geometry.SweptIsEarliest3 | src/Melkam/physics/Collider.cpp:372-407 | no fraction before a reported 3D entry time makes the mover strictly intersect the target |
| Geometry.SweepFindsEveryHit3 | src/Melkam/physics/Collider.cpp:303-408 | any 3D motion that strictly intersects the target at some fraction in [0,1] is reported as a hit |
| Collision.GetAabb | src/Melkam/physics/Collider.cpp:56-111 | a box exists exactly when the entity has a shape of the variant; a box shape wins over a circle or sphere, and the box is centred on the position with the shape's size (diameter for round shapes) on each axis |
| Collision.SweepIn | src/Melkam/physics/Collider.cpp:224-408 | every sweep hit lies within the move (time in [0,1]) and reports a unit normal along one axis, flat in 2D |
| Collision.LayerOrDefault | src/Melkam/physics/Collider.cpp:115-118 | a missing layer component reads as layer 1 with mask 0xFFFFFFFF |
| Collision.ShouldCollideSymmetric | src/Melkam/physics/Collider.cpp:113-120 | the layer/mask filter gives the same answer for either order of the pair |
| Collision.MissingLayerIsDefault | src/Melkam/physics/Collider.cpp:113-120 | a missing layer component behaves exactly as a default one on either side |
| Collision.LayerExamples | src/Melkam/physics/Collider.cpp:113-120 | two defaults collide; layers that are each outside the other's mask do not; a one-sided mask match is not enough; a mutual match collides |
| Collision.ClearContact | src/Melkam/physics/Collider.cpp:122-130 | clearing zeroes the normal and all three flags and keeps `is2D` and `isTrigger` |
| Collision.UpdateContact | src/Melkam/physics/Collider.cpp:132-150 | after an update the cached normal is the given one and each flag agrees with the 2D or 3D classification of that normal |
| Collision.UpdateForgetsPrevious | src/Melkam/physics/Collider.cpp:132-150 | an update's result does not depend on the previous contact state |
| Collision.FloorAndCeilingExclusive | src/Melkam/physics/Collider.cpp:138-149 | no normal is both floor and ceiling; the 2D tests are the 3D tests with Y flipped |
| Collision.AxisNormalContacts | src/Melkam/physics/Collider.cpp:138-149 | an up normal is floor in 3D and ceiling in 2D and the reverse for a down normal; an X normal is a wall in 2D and a Z normal is a wall only in 3D |
| Collision.DefaultSettingsOk | src/Melkam/physics/Collider.cpp:37-42 | the default settings (epsilon 0.001, 4 slides) satisfy the bounds that SetSlideSettings enforces |
| Collision.SetSlideSettings | src/Melkam/physics/Collider.cpp:575-579 | epsilon is clamped up to 0.00001 and the slide count up to 1, and values above the bounds are kept unchanged |
| Collision.TargetBox | src/Melkam/physics/Collider.cpp:621-644 | a candidate is swept exactly when it is not the mover, has a collider of the same variant and a transform, passes the layer filter and has a shape; its box is taken at its own position |
| Collision.Probe | src/Melkam/physics/Collider.cpp:621-652 | a candidate yields a contact exactly when it is a target and the sweep hits it; the contact names it and lies within the move |
| Collision.Scan | src/Melkam/physics/Collider.cpp:615-662 | the best contact so far only gets earlier; no probe is strictly earlier than the result; the result is the start or a strictly earlier probe |
| Collision.ScanPicksFirst | src/Melkam/physics/Collider.cpp:654-661 | among equally early hits the first in iteration order wins: no earlier candidate reaches the winning time |
| Collision.EarliestContact | src/Melkam/physics/Collider.cpp:594-662 | a reported contact comes from a candidate of the view, lies strictly before the end of the move, and no candidate's probe is strictly earlier |
| Collision.Depenetrate | src/Melkam/physics/Collider.cpp:680-705 | a push exists exactly when the boxes intersect; it is the overlap normal scaled by the smallest push magnitude and leaves the boxes touching |
| Collision.Depenetrate2 | src/Melkam/physics/Collider.cpp:682-705 | the 2D push lies on the overlap normal's axis, has the smaller push magnitude, and leaves the boxes touching |
| Collision.Depenetrate3 | src/Melkam/physics/Collider.cpp:836-876 | the 3D push lies on the overlap normal's axis, has the smallest push magnitude, and leaves the boxes touching |
| Collision.SlideRemovesNormal | src/Melkam/physics/Collider.cpp:711-713 | sliding along a unit axis normal removes exactly the velocity on that axis and keeps the other components |
| Collision.SlideAcrossAxis | src/Melkam/physics/Collider.cpp:711-713 | the slid velocity is orthogonal to the normal and stays flat in 2D |
| Collision.SlideExample | src/Melkam/physics/Collider.cpp:711-713 | velocity (5,-5) against an up normal slides to (5,0) |
| Collision.Settle | src/Melkam/physics/Collider.cpp:672-706 | the mover advances to the time of impact; after a hit later than 0 it is nudged epsilon along the contact normal, which is reported; after a hit at 0 that still overlaps it is pushed out by the depenetration step, whose axis normal is reported; otherwise the contact normal is reported where it stopped; a unit-axis normal stays a unit axis |
| Sliding.Shrink | src/Melkam/physics/Collider.cpp:714 | the unused fraction of the move after a hit stays between 0 and its previous value |
| Sliding.AfterHit | src/Melkam/physics/Collider.cpp:672-719 | a round with a hit puts the mover where Settle says, records that normal in the collider's contact state, appends it to the hits, slides the velocity along it (so the velocity is orthogonal to it), shrinks the remaining fraction by the time of impact, and goes on exactly while that fraction exceeds epsilon |
| Sliding.Round | src/Melkam/physics/Collider.cpp:602-719 | one pass changes only the mover's transform and collider, keeps the loop state consistent, adds at most one unit-axis hit along which the velocity is slid, and gives up only when the mover has no shape, leaving the scene as it was |
| Sliding.SlideLoop | src/Melkam/physics/Collider.cpp:600-720 | the loop runs at most maxSlides rounds, changes only the mover's transform and collider, never grows the remaining fraction, and leaves a shapeless mover unmoved; the hits only grow, by at most one a round, the velocity is the starting one slid along the new hits in order, and the reported normal is the newest hit |
| Sliding.RunSlide | src/Melkam/physics/Collider.cpp:592-720 | starting from a cleared contact state, the loop runs at most maxSlides rounds and records at most that many unit-axis hits; the final velocity is the starting one slid along every hit in order and the reported normal is the last hit, or zero with none; without a shape it gives up with the mover in place |
| Sliding.SlideAllSnoc | src/Melkam/physics/Collider.cpp:711-713 | sliding along one more normal slides the result of the earlier ones |
| Sliding.OneThenMany | src/Melkam/physics/Collider.cpp:600-720 | one round's hit followed by any further rounds is again a run of rounds: the hit list, velocity and normal compose |
| Sliding.MoveAndSlide | src/Melkam/physics/Collider.cpp:581-725 | an entity missing a transform, velocity or collider of the variant, or a non-positive step, changes nothing and reports false; otherwise only the mover's transform, collider and velocity change and the flags agree with the cached normal; with a shape, the stored velocity is the starting one slid along each hit normal in turn (at most maxSlides unit-axis normals), and the cached normal is the last of them |
| Collision.ProbeIgnoresMoverBody | src/Melkam/physics/Collider.cpp:621-652 | writing the mover's own transform, collider or velocity does not change any candidate's probe |
| Sliding.NegligibleRound | src/Melkam/physics/Collider.cpp:602-607 | a move within epsilon on every axis ends the loop without moving |
| Sliding.SlideStandsStill | src/Melkam/physics/Collider.cpp:581-725 | with zero velocity the mover stays put, reports no movement, keeps zero velocity and has its contact state cleared |
| Sliding.StillResult | src/Melkam/physics/Collider.cpp:581-725 | with zero velocity the whole call amounts to clearing the contact state and writing the velocity back |
| Sliding.FreeRound | src/Melkam/physics/Collider.cpp:664-670 | a round that hits nothing moves the mover by the full displacement and ends the loop |
| Sliding.FreeSlide | src/Melkam/physics/Collider.cpp:592-670 | with nothing in the way the loop makes one full move and stops |
| Sliding.SlideFreeFlight | src/Melkam/physics/Collider.cpp:581-725 | with nothing in the way the mover travels velocity times step, reports a move and keeps its velocity |
| Collision.LengthSq | src/Melkam/physics/Collider.cpp:1035 | the squared travel length is never negative |
| Collision.ShorterWhenScaled | src/Melkam/physics/Collider.cpp:1035 | scaling a motion by a fraction in [0,1] scales its squared length by the square of that fraction, and never lengthens it |
| Collision.CollideHit | src/Melkam/physics/Collider.cpp:992-1036 | after a hit only the mover's transform and collider change; the collider records the reported normal; the info names the hit entity, a unit normal and a travel no longer than the motion |
| Collision.MoveAndCollide | src/Melkam/physics/Collider.cpp:912-1037 | a not-ready entity changes nothing and reports no collision; the result flag equals `info.hit`, a miss leaves the default info; a hit names another entity of the scene and caches its normal; a shapeless mover stays put; travel never exceeds the motion |
| Collision.CollideFreeMotion | src/Melkam/physics/Collider.cpp:985-990 | with nothing in the way the mover travels the whole motion and no collision is reported |
| Collision.CollideReportsEarliest | src/Melkam/physics/Collider.cpp:936-983 | a reported collision is the candidate whose probe is earliest, and the reported travel is the motion up to that time |
| Collision.OutsideViewNoProbe | src/Melkam/physics/Collider.cpp:928-953 | an entity without both a transform and a collider is never hit |
| Collision.ColliderOf | src/Melkam/physics/Collider.cpp:1192 | the collider is read only through a bound handle |
| Collision.IsOnFloor | src/Melkam/physics/Collider.cpp:1190-1194 | the collider's stored floor flag; false for an entity without a collider |
| Collision.IsOnWall | src/Melkam/physics/Collider.cpp:1196-1200 | the collider's stored wall flag; false for an entity without a collider |
| Collision.IsOnCeiling | src/Melkam/physics/Collider.cpp:1202-1206 | the collider's stored ceiling flag; false for an entity without a collider |
| Collision.GetFloorNormal | src/Melkam/physics/Collider.cpp:1208-1227 | the collider's stored last contact normal; the zero normal for an entity without a collider |
| Collision.QueriesClassifyNormal | src/Melkam/physics/Collider.cpp:1190-1227 | on a consistent collider the three queries are the classification of the reported normal, and floor and ceiling never hold together |
| Sliding.QueriesAfterMove | src/Melkam/physics/Collider.cpp:1190-1227 | after either move the queries agree with the reported normal; after move-and-collide that normal is the hit's normal, or zero on a miss |
| UiTree.ContainsEdges | src/Melkam/ui/Ui.cpp:397-400 | the hit test is inclusive: all four corners of a rectangle of non-negative size are inside, and any point past an edge is outside |
| UiTree.EmptyRectHitsItsOrigin | src/Melkam/ui/Ui.cpp:397-400 | a zero-size rectangle contains exactly its origin point |
| UiTree.Ancestry | src/Melkam/ui/Ui.cpp:173-184 | the upward walk visits only valid entities, starts at the entity itself when it is valid, and is empty when it is not |
| UiTree.AncestryFollowsParents | src/Melkam/ui/Ui.cpp:176-183 | each id the walk visits after the first is the stored parent of the previous one |
| UiTree.FirstWhere | src/Melkam/ui/Ui.cpp:176-184 | the search returns the first element satisfying the test, none before it satisfying it, or nothing when no element does |
| UiLayout.Anchored | src/Melkam/ui/Ui.cpp:371-377 | the anchored rectangle is at least the control's minimum size |
| UiLayout.ClampTo | src/Melkam/ui/Ui.cpp:380-385 | the clamp moves the origin into the parent's top-left corner, never grows the size, keeps a size that fits, ends a non-empty extent within the parent, and leaves a rectangle already inside the parent unchanged |
| UiLayout.ClampFixedPoints | src/Melkam/ui/Ui.cpp:380-385 | the clamp leaves a rectangle unchanged exactly when it already meets the clamp's guarantees, so clamping twice is clamping once |
| UiLayout.AnchorRect | src/Melkam/ui/Ui.cpp:367-391 | a control outside a container ends up within its parent, keeps its minimum size when the parent has room for it, and keeps its anchored rectangle when that already fits |
| UiLayout.ClampBeatsMinimumSize | src/Melkam/ui/Ui.cpp:376-385 | the minimum size is applied before the clamp: a 200-wide minimum in a 50-wide parent ends up 50 wide |
| UiLayout.FullAnchorsCoverParent | src/Melkam/ui/Ui.cpp:371-385 | a control anchored to all four edges with no offsets covers its parent exactly |
| UiLayout.BaseSize | src/Melkam/ui/Ui.cpp:244-261 | a child's base extent is its minimum, never negative |
| UiLayout.TotalBase | src/Melkam/ui/Ui.cpp:234-262 | the children's base extents add up to a non-negative total |
| UiLayout.ExpandCount | src/Melkam/ui/Ui.cpp:234-262 | the number of expanding children is at most the number of children |
| UiLayout.SpreadIsProduct | src/Melkam/ui/Ui.cpp:264-271 | per-child shares and spacings summed child by child equal the products the source computes |
| UiLayout.ExtraPer | src/Melkam/ui/Ui.cpp:264-271 | each expanding child's extra is non-negative, is zero without expanding children, and the extras together are exactly the room left after the fixed part |
| UiLayout.MainSize | src/Melkam/ui/Ui.cpp:284-314 | a child's extent along the stack is at least its base extent |
| UiLayout.CrossSize | src/Melkam/ui/Ui.cpp:293-326 | a child that fills or expands across the stack gets the whole available breadth, and so does one whose minimum there is not positive |
| UiLayout.Slots | src/Melkam/ui/Ui.cpp:276-330 | one slot per child with that child's extent; the first starts at the cursor and each next one starts one spacing after the previous one ends |
| UiLayout.SlotsEnd | src/Melkam/ui/Ui.cpp:276-330 | the stack ends at the cursor plus all extents plus the spacing between children |
| UiLayout.SumMainSplits | src/Melkam/ui/Ui.cpp:276-330 | the extents add up to the base extents plus one share of extra per expanding child |
| UiLayout.StackLength | src/Melkam/ui/Ui.cpp:234-330 | with an expanding child the stack reaches the end of the available room, or of its fixed part if that is longer; without one it is exactly its fixed part |
| UiLayout.Avail | src/Melkam/ui/Ui.cpp:221-222 | the room inside the padding is never negative |
| UiLayout.Plan | src/Melkam/ui/Ui.cpp:219-330 | the container's plan holds one slot per child |
| UiLayout.Placed | src/Melkam/ui/Ui.cpp:284-330 | each child's rectangle follows the plan along the stack and, across it, starts at the padding with its cross extent |
| UiLayout.PlacedStacks | src/Melkam/ui/Ui.cpp:284-330 | children start at the padding, follow each other at one spacing, keep at least their base extent, and an expanding child gets exactly one share more |
| UiLayout.FarEdge | src/Melkam/ui/Ui.cpp:273-329 | the running maximum is at least its start and every edge, and is one of them |
| UiLayout.Shifted | src/Melkam/ui/Ui.cpp:332-336 | without a scroll container the rectangles are unchanged; with one every rectangle moves back by its offset and keeps its size |
| UiLayout.Content | src/Melkam/ui/Ui.cpp:341-345 | the content size is non-negative and reaches every child's right and bottom edge measured from the parent's origin |
| UiLayout.BoxLayout | src/Melkam/ui/Ui.cpp:219-345 | the layout gives one rectangle per child, the placed rectangles shifted by the scroll offset, and content measured before the shift |
| UiLayout.ControlChildren | src/Melkam/ui/Ui.cpp:224-232 | a container lays out exactly those of its children that have a Control |
| UiLayout.FindScroll | src/Melkam/ui/Ui.cpp:173-185 | the scroll container found is the first entity on the upward walk that has one |
| UiLayout.ResolveRect | src/Melkam/ui/Ui.cpp:187-395 | a control inside a VBox/HBox container gets its slot in the container laid out within the parent's rectangle; any other control is anchored into the rectangle of its parent control, or into the viewport; an entity without a Control gets that rectangle itself |
| UiLayout.ContainerSlot | src/Melkam/ui/Ui.cpp:347-363 | a child of a VBox or HBox gets the rectangle its parent's layout assigns at the child's position among the Control children |
| UiLayout.ContainerLayout | src/Melkam/ui/Ui.cpp:206-345 | a container's layout has one rectangle per Control child; VBox wins when both are present |
| UiLayout.ResolvedWithinParent | src/Melkam/ui/Ui.cpp:379-385 | a resolved control outside a container never leaves its parent rectangle through the top or left, and a non-empty one ends within it |
| UiLayout.MaxScroll | src/Melkam/ui/Ui.cpp:551 | the largest scroll offset is never negative |
| UiLayout.ClampScroll | src/Melkam/ui/Ui.cpp:551-552 | the clamped offset lies in [0, max], equals the input when that is in range, and saturates at the nearer bound otherwise |
| UiLayout.WheelScroll | src/Melkam/ui/Ui.cpp:533-553 | a wheel move of at most 0.001, or the mouse outside the container, changes nothing; otherwise the offset moves by wheel times speed and is clamped |
| UiLayout.WheelKeepsRange | src/Melkam/ui/Ui.cpp:533-553 | an in-range offset stays in range; a wheel step over the container always lands in range; only the vertical offset changes |
| UiLayout.ClampScrollIdempotent | src/Melkam/ui/Ui.cpp:551-552 | clamping an already clamped offset changes nothing |
| UiOrder.ResolveLayer | src/Melkam/ui/Ui.cpp:402-414 | the layer is that of the first entity on the upward walk that has a CanvasLayer, or 0 when there is none |
| UiOrder.CountValid | src/Melkam/ui/Ui.cpp:416-426 | the count of valid handles up the tree equals the length of the upward walk |
| UiOrder.ResolveDepth | src/Melkam/ui/Ui.cpp:416-426 | a valid entity's depth is one less than the length of its upward walk: the number of valid ancestors above it |
| UiOrder.ChildIsOneDeeper | src/Melkam/ui/Ui.cpp:416-426 | a child of a valid parent lies one level deeper than the parent; a root lies at depth 0 |
| UiOrder.LayerIsInherited | src/Melkam/ui/Ui.cpp:402-414 | an entity's own CanvasLayer decides its layer; without one it takes its parent's |
| UiOrder.Insert | src/Melkam/ui/Ui.cpp:508-515 | inserting into a list sorted by (layer, depth) keeps it sorted and adds exactly the one item |
| UiOrder.SortItems | src/Melkam/ui/Ui.cpp:586-593 | the sort's result is ordered by (layer, depth) and is a permutation of its input |
| UiOrder.SortedKeysAgree | src/Melkam/ui/Ui.cpp:586-593 | any two sorted arrangements of the same items have the same length and the same (layer, depth) at every position, whatever order the unstable sort gives equal keys |
| UiOrder.DrawItems | src/Melkam/ui/Ui.cpp:568-584 | the draw list holds exactly the scene's visible controls, each with its resolved rectangle, layer and depth |
| UiOrder.TextEditItems | src/Melkam/ui/Ui.cpp:494-506 | the text-edit list holds exactly the visible controls that also have a TextEdit, each with its resolved rectangle, layer and depth |
| UiOrder.ItemsOf | src/Melkam/ui/Ui.cpp:576-578 | one item per id, in order, each carrying the scene's rectangle, layer and depth for that id |
| UiOrder.LastHit | src/Melkam/ui/Ui.cpp:523-529 | the chosen position contains the mouse and no later item does; with no choice, no item contains it |
| UiOrder.Focus | src/Melkam/ui/Ui.cpp:517-531 | without a click focus is unchanged; a click focuses the last item under the mouse, or no entity when there is none |
| UiOrder.FocusIsOnTop | src/Melkam/ui/Ui.cpp:508-531 | in a sorted list the focused item has the greatest (layer, depth) of the items under the mouse |
| UiOrder.FocusKeyIsDetermined | src/Melkam/ui/Ui.cpp:508-531 | every sorted arrangement of the same items focuses something or nothing alike, and the focused item's (layer, depth) is the same |
| UiOrder.ConnectButtonPressed | src/Melkam/ui/Ui.cpp:1055-1063 | an invalid button registers nothing; a valid one gets the callback appended to its list and every other button's list is unchanged |
| UiOrder.CallbacksKeepOrder | src/Melkam/ui/Ui.cpp:1062 | callbacks connected one after another are kept in that order |
| UiText.SplitItems | src/Melkam/ui/Ui.cpp:757-775 | the parts joined with `;` give back the item string, no part contains `;`, and there are no parts for the empty string and one more than the separators otherwise |
| UiText.JoinUnique | src/Melkam/ui/Ui.cpp:757-775 | separator-free part lists of the same length that join to the same string are equal, so the split's result is fully determined by its contract |
| UiText.PackColor | src/Melkam/ui/Ui.cpp:73-77 | the packed word unpacks to the four bytes, red first |
| UiText.PackUnpack | src/Melkam/ui/Ui.cpp:73-77 | every 32-bit word is the packing of its own four bytes |
| UiText.Int32Of | src/Melkam/ui/Ui.cpp:73-77 | the signed reading lies in the 32-bit range, is negative exactly when the top bit is set, and differs from the unsigned value by 2^32 when negative |
| UiText.NegativeWhenRedHigh | src/Melkam/ui/Ui.cpp:73-77 | a packed colour reads as a negative `int` exactly when its red byte is at least 128 |
| UiText.ThemeColours | src/Melkam/ui/Ui.cpp:1109-1113 | the theme's text colour packs to -0x17130A01 and its pressed colour to 0x387AD6FF |
| UiTheme.ApplyStylePath | src/Melkam/ui/Ui.cpp:111-130 | the global path is never touched; at most one load is issued, exactly when the current style changes; an empty request does nothing; otherwise the request becomes current; no file load names "" or "default" |
| UiTheme.ApplyStylePathIdempotent | src/Melkam/ui/Ui.cpp:111-130 | applying the same request twice loads nothing the second time |
| UiTheme.DefaultByNameOrFlag | src/Melkam/ui/Ui.cpp:113 | asking for "default" by name and by flag has the same effect |
| UiTheme.StyleOf | src/Melkam/ui/Ui.cpp:137-147 | the style request is the UiStyle of the first entity on the upward walk that has one, or an empty request |
| UiTheme.ApplyStyleFor | src/Melkam/ui/Ui.cpp:132-155 | the nearest styled entity's request is applied when it names a path or the default; otherwise the global path is applied; the global path is unchanged |
| UiTheme.UnstyledUsesGlobal | src/Melkam/ui/Ui.cpp:149-154 | an unstyled entity loads the global style, or nothing when no global style is set |
| UiTheme.OwnStyleWins | src/Melkam/ui/Ui.cpp:137-145 | an entity's own non-empty style decides whatever its ancestors hold |
| UiTheme.SetUiThemeStyle | src/Melkam/ui/Ui.cpp:1087-1096 | the global path is recorded; an empty one loads nothing; a non-empty one becomes the current style |
| UiTheme.GlobalStyleIsSticky | src/Melkam/ui/Ui.cpp:1087-1096 | once a global style is set, drawing an unstyled control loads nothing more |
| UiTheme.SetUiThemeMelkam | src/Melkam/ui/Ui.cpp:1098-1160 | before the window is ready only the pending flag is raised and nothing loads; once it is, the Melkam style is loaded once, the global path is cleared and "melkam" becomes current |
| UiTheme.ApplyPendingMelkam | src/Melkam/ui/Ui.cpp:157-171 | a pending request with a ready window applies the Melkam style and lowers the flag; with no request or no window nothing changes |
| UiTheme.DeferredMelkamCatchesUp | src/Melkam/ui/Ui.cpp:157-171 | a request deferred for want of a window ends, on the first UI pass after the window opens, in the same state and with the same loads as a request made with the window ready |
| UiTheme.PendingWaitsForWindow | src/Melkam/ui/Ui.cpp:164-167 | while the window is not ready a pending request stays pending and loads nothing |
| UiTheme.MelkamStaysForUnstyled | src/Melkam/ui/Ui.cpp:149-154 | after the Melkam theme, whose global path is empty, a control with no style of its own keeps the Melkam style and loads nothing |

## Left out

- Entity ids are 64-bit unsigned counters in the source. Here they are unbounded naturals, so wrap-around of the counter is not modelled.
- IEEE-754 rounding and NaN are not modelled; floats are `real`. The literal ±infinity sentinels of the sweep become `Geometry.Time`.
- Square roots are not modelled. `Collision.MoveAndCollide` reports the squared travel `travelSq` instead of `|d|·t`.
- `InputActions.GetActionAxis2D` takes the vector length as a parameter instead of computing the square root. The caller must pass the non-negative number whose square is the squared length.
- Fuel bounds: the pre/post traversal of `update`, `resolveDepth`, `resolveLayer` and the UI's upward walks stop after `fuel` steps. The source walks the links unbounded and does not terminate on a cyclic hierarchy, which `setParent` does not prevent.
- Rendering and widgets: `Render3DSystem` (src/Melkam/physics/Collider.cpp:410-573), `Render2DSystem` and `PlayerInputSystem` (src/Melkam/scene/Systems2D.cpp:38-82, 212-248) are left out. The widget bodies of `DrawUi` (src/Melkam/ui/Ui.cpp:595-1053) are left out too. They are raylib/raygui calls with no stated result.
- Texture, font and theme loading (src/Melkam/ui/Ui.cpp:79-109) are foreign calls and are left out. The font and palette `SetUiThemeMelkam` writes into raygui's style table (src/Melkam/ui/Ui.cpp:1105-1156) are one opaque load, `UiTheme.LoadMelkam`; its effect on the two style paths and the deferred-theme flag is modelled. A style file that fails to load is not modelled; the model assumes every load succeeds.
- The orchestration of `UpdateUi` and `DrawUi` is left out: writing resolved rects and scroll content sizes back into components, and the calls into raygui (src/Melkam/ui/Ui.cpp:428-593). The model keeps the pieces those functions compute: rects, order, focus and the scroll clamp. The per-frame caches of `resolveRect` only avoid recomputation and are not modelled.
- The window, the logger, wall-clock `dt` and window polling in `Engine::run` are OS and console I/O. The run loop takes the frame times and the window-close signal as inputs.
- EngineLoop.Run: the engine calls made by code running inside `update` (button callbacks calling `requestSceneChange`, as src/main.cpp:270-281 does, or `requestSceneReload`, `setActiveScene` and `shutdown`) are an input per frame, applied after that frame's update calls and before its end-of-frame switch; where among the update's own calls they happen is not modelled, since the update calls do not depend on the engine. `createScene` called from inside a frame is not modelled: the store keeps its size during a run.
- EngineLoop.Run: `shutdown` releases the window (src/Melkam/core/Engine.cpp:29-33), and the frame that called it still ends with `m_window->swapBuffers()` (line 73). The model has no window, so that call on a released window is not represented; the loop simply ends after the frame's switch.
- `Application::Run`, `src/main.cpp` and the `docs/` programs are demo builders and are left out.
- The `Vector` and `Quaternion` math types are left out. The model uses its own `Vec3` with the few operations collision needs.
- Systems' `onUpdate` bodies and the pre/post hook bodies are code the model cannot see. `update` returns the trace of calls in order and does not apply their effects. A system that changes the scene's entities or components during `update` is not modelled; its calls on the engine are, as `EngineLoop.Request`s.
- An entity handle records only whether it points at a scene. Handles into another scene than the one passed in are not modelled.
- The 2D and 3D variants of collision are merged into one function with an `is2D` flag. In 2D the z coordinate is zero.
- `Collision.SetSlideSettings` returns the settings, and the slide functions take them as a parameter instead of reading a global.
- Null `motion` and `outNormal` pointers of `MoveAndCollide` and the slide functions are not modelled.
- `Collision.MoveAndCollide`: a hit on entity id 0 would be reported as no hit, because the source tests the hit id against `InvalidEntity`. Id 0 is never live, so this case cannot arise.
- Circle shapes take no part in the 2D physics step, as in the source, which iterates box shapes only.
- `UiOrder.SortItems` states the sorted order and that the result is a permutation. The tie order of the source's unstable `std::sort` is unspecified; `UiOrder.SortedKeysAgree` states what any two sorted permutations share.
- The penetration push follows the code as written: `resolve = o1 < o2 ? -o1 : o2` moves the mover toward the target's interior. The lemmas state the axis choice and magnitude, not separation after the push.
- SceneStore.Walk, SceneStore.WalkEach and SceneStore.Traverse: their own contracts state the entry and exit visits, that every live child or root is entered and that only live entities are visited. The exact order, children in list order and roots in creation order, is stated by `SceneStore.WalkUnfolds`, `SceneStore.WalkEachIsFlatten` and `SceneStore.TraverseRootsInOrder` instead.
- Physics2D.Step: its own contract is the frame (only movers' transforms and velocities change). What a step does to a mover whose path no static body blocks, and that only the step-start static-body view are obstacles, is stated by `Physics2D.StepClearPath`; the per-mover resolution against statics by the `Physics2D.MoveBody` lemmas.
- `StaticBody2DComponent` and `StaticBody3DComponent` (include/Melkam/scene/Components.hpp:122-128) are separate empty markers that no modelled operation reads; the 2D step's obstacles are the entities holding `StaticBodyComponent` (line 51), the model's `StaticBodyC`. An entity marked only with `StaticBody2DComponent` is not an obstacle, in the source or the model.
- Physics2D.StepClearPath takes static bodies not to carry a 2D velocity. An entity holding both would be moved as a mover and act as an obstacle in the same step; that case is not covered by the lemma.
- `SceneStore.SetParent` with an invalid parent detaches the child to the root, as the code does (src/Melkam/scene/Scene.cpp:86, 99-114). It is not rejected.
