# VR interaction core: Voronoi breaking, break areas, light switch, throwing

A Dafny model of the gameplay scripts of a Unity VR scene:

- **VoronoiBreakable** breaks its game object when damaged. It draws one
  random seed per fragment inside the collider's bounds. For every seed in
  turn, each surviving fragment is cut along the bisector plane between that
  seed and every other seed, and only the piece nearest the seed is followed.
  Each slice is checked before it is kept: it must have a mesh, enough
  vertices and triangles, a large enough bounding box, and vertices that are
  not all in one place. A kept slice gets a Rigidbody and a collider. That
  collider is a convex MeshCollider when the de-duplicated vertices span a
  volume and PhysX accepts the mesh, and a BoxCollider fitted to the mesh
  bounds otherwise. The losing pieces are queued, and destroyed at the end of
  the break, after the last seed; the original object is then deactivated.
- **BreakArea** turns a collision with a damageable object into a
  `DamageInfo`, provided the relative speed reaches the threshold. The force
  is the speed times `breakForce`, but never less than `breakForce`.
- **DamageInfo** is the damage record, with its declared defaults.
- **LightOnOffEventController** keeps one on/off flag and mirrors it onto
  every child Light.
- **VRThrowSystemAdvanced** starts a throw on the rising edge of the
  controller button while the object is held. It picks the hand from the
  interactor's name and the direction from the controller, the camera or the
  world, in that order.

## Files

- `wrappers.dfy` (`Wrappers`): `Option`.
- `geometry.dfy` (`Geometry`): `Vector3` and `Bounds` over the reals.
  Distances are compared squared, so no square root is ever taken.
- `damage_info.dfy` (`DamageSystem`): `DamageType`, `ForceMode` and
  `DamageInfo`.
- `break_area.dfy` (`BreakAreas`): `OnCollisionEnter`, as a function from the
  collision to its outcome.
- `mesh_checks.dfy` (`MeshChecks`): the fragment and collider tests. Each is a
  method with the source's loop, proved equal to a predicate. Lemmas then
  state what those predicates mean.
- `voronoi_planes.dfy` (`VoronoiPlanes`): seed generation and the bisector
  planes.
- `voronoi_breakable.dfy` (`Breakable`): the nearest-piece selection, the
  collider fallback chain, and the class `VoronoiBreakable` over an arena of
  game objects.
- `light_controller.dfy` (`LightSwitch`) and `vr_throw.dfy` (`VRThrow`): the
  two remaining components, as classes.

### How the engine appears in the model

- **Game objects.** They are entries of `objects`, indexed by id. `Destroy`
  is deferred in Unity, so it only marks an entry `destroyed`.
  `Destroy(obj, t)` records a pending `lifetime`, and the earlier of two
  timers wins. New objects are appended; nothing is ever removed.
- **External capabilities.** The mesh slicer, the PhysX convex test and the
  outcome of switching a MeshCollider to convex are function-typed fields of
  an `Engine` value passed in.
- **Random numbers.** `Random.Range` is fed from a sequence of draws in
  [0, 1]. The collider's bounds are a parameter.
- **Controller input and transforms.** The button state, the controller
  velocity, the toolkit's "is selected" flag, and the forward vectors of the
  holding interactor's and the camera's transforms in the current frame are
  parameters of `Update` and `ThrowObject`.

### Consequences of the code worth knowing

- **Fragment count.** Although one seed is drawn per fragment, the loop in
  `VoronoiBreak` carries a single fragment from seed to seed and keeps only
  the piece nearest each seed. So at most one fragment survives a break
  (`VoronoiBreak` ensures `|fragments| <= 1`), and with one seed or none it
  is the original object.
- **Coincident seeds.** A plane between two coincident seeds is not skipped.
  It is built with the zero normal that `normalized` returns
  (`CoincidentSeedsZeroNormal`).
- **Distance.** "Nearest" is measured from each piece's `transform.position`,
  not from its mesh centroid.
- **Losing pieces.** Only the pieces that lose a cut are queued for
  destruction. A piece chosen by one cut and then cut again is never queued.
  It stays in the scene, alive, with its fragment lifetime.

### What a break computes

`Cut` is one slice of a fragment followed by the choice of the nearest piece.
`CarveAlong` folds `Cut` over the planes of one seed. `CarveAll` carves every
fragment of a pass. `BreakPasses` folds the passes over the seeds.
`FinalScene` then flushes the destruction queue and deactivates the object.
The methods are proved to compute exactly these functions, and the lemmas
about the functions state what a break leaves behind.

## Model

| member | source | states |
|---|---|---|
| DamageSystem.NewDamageInfo | Assets/Scripts/DamageInfo.cs:12-21 | a new record holds the declared defaults: zero amounts and vectors, `Impulse`, `Shoot`, no dismemberment, no sender |
| BreakAreas.BreakArea.OnCollisionEnter | Assets/Scripts/BreakArea.cs:10-35 | no damageable ⇒ nothing; speed below `minimumBreakVelocity` ⇒ nothing; no contact ⇒ the exception case; otherwise damage with the first contact point, the normalised direction to the other object, and force `max(breakForce, speed·breakForce)`; every other field is left at its default |
| BreakAreas.ForceProportionalToSpeed | Assets/Scripts/BreakArea.cs:15-29 | with a threshold of at least 1 and a non-negative `breakForce`, the force dealt is exactly speed·`breakForce` |
| BreakAreas.DefaultThreshold | Assets/Scripts/BreakArea.cs:7-16 | with the serialized defaults, damage happens exactly for a damageable object, a contact, and a speed of at least 5 |
| MeshChecks.IsValidFragment | Assets/Scripts/VoronoiBreakable.cs:187-239 | the result is true exactly when the mesh exists, has enough vertices and at least 12 triangle indices, is not below the minimum size, and does not have all its vertices within 0.001 of the first |
| MeshChecks.GetUniqueVertices | Assets/Scripts/VoronoiBreakable.cs:275-297 | the nested loop returns `Unique(vertices)`: a left-to-right pass that drops each vertex within 0.001 of one already kept |
| MeshChecks.UniqueGrows | Assets/Scripts/VoronoiBreakable.cs:280-294 | the vertices kept for a prefix of the input are a prefix of those kept for the whole input |
| MeshChecks.UniqueIsSubsequence | Assets/Scripts/VoronoiBreakable.cs:275-297 | de-duplication selects vertices of the input in their order, so it never returns more vertices than it was given |
| MeshChecks.UniqueKeepsFirst | Assets/Scripts/VoronoiBreakable.cs:280-294 | the first vertex is always kept, in first place |
| MeshChecks.UniqueSeparated | Assets/Scripts/VoronoiBreakable.cs:283-293 | every kept vertex is at least 0.001 from each vertex kept before it |
| MeshChecks.UniquePairwiseApart | Assets/Scripts/VoronoiBreakable.cs:278-293 | any two kept vertices are at least 0.001 apart |
| MeshChecks.UniqueCovers | Assets/Scripts/VoronoiBreakable.cs:280-294 | every input vertex lies within 0.001 of some kept vertex |
| MeshChecks.SeparatedIsFixpoint | Assets/Scripts/VoronoiBreakable.cs:280-294 | a list whose points are already 0.001 apart is returned unchanged |
| MeshChecks.UniqueIdempotent | Assets/Scripts/VoronoiBreakable.cs:275-297 | de-duplicating twice gives the same result as de-duplicating once |
| MeshChecks.IsVolumeMesh | Assets/Scripts/VoronoiBreakable.cs:300-322 | true exactly when there are at least four points, the normal of the first three is longer than 1e-5 (a shorter one normalises to zero), and a point from the fourth on is more than 0.01 off their plane |
| MeshChecks.OffPlaneIsNormalizedTest | Assets/Scripts/VoronoiBreakable.cs:309-317 | the squared off-plane test agrees with `|Dot(d, normal.normalized)| > 0.01` for Unity's normalisation, including the zero vector it returns for normals no longer than 1e-5 |
| MeshChecks.VolumeHasNormal | Assets/Scripts/VoronoiBreakable.cs:305-321 | a point set judged to have volume has first three points that are not even nearly collinear: their normal is longer than 1e-5 |
| MeshChecks.IsValidMeshForCollider | Assets/Scripts/VoronoiBreakable.cs:242-272 | true exactly when the mesh exists and has 4 or more vertices and at least 12 triangle indices, 4 or more vertices survive de-duplication, those have volume, and the PhysX test accepts the mesh |
| MeshChecks.ColliderMeshHasSpread | Assets/Scripts/VoronoiBreakable.cs:242-272 | a mesh accepted for a convex collider has at least four vertices taken in order from its own, pairwise 0.001 apart, the first three not even nearly collinear: their normal is longer than 1e-5 |
| VoronoiPlanes.RangeWithin | Assets/Scripts/VoronoiBreakable.cs:117-121 | a draw in [0, 1] maps into [min, max] |
| VoronoiPlanes.SeedsFor | Assets/Scripts/VoronoiBreakable.cs:111-124 | there are exactly `count` seeds, one per draw |
| VoronoiPlanes.GenerateVoronoiSeeds | Assets/Scripts/VoronoiBreakable.cs:109-125 | the array holds `SeedsFor(bounds, draws, count)`: `count` seeds, seed k taken from draw k on each axis; for well-formed bounds every seed lies inside them |
| VoronoiPlanes.OtherSeed | Assets/Scripts/VoronoiBreakable.cs:133-135 | the j-th index visited is never the current seed, and is j or j + 1 |
| VoronoiPlanes.OtherSeedEnumerates | Assets/Scripts/VoronoiBreakable.cs:133-142 | every other seed index gets a plane, at a position below the plane count |
| VoronoiPlanes.OtherSeedIncreasing | Assets/Scripts/VoronoiBreakable.cs:133-142 | planes come in increasing order of the other seed's index |
| VoronoiPlanes.BisectorSide | Assets/Scripts/VoronoiBreakable.cs:137-141 | twice the side of a point is its squared distance to the other seed less its squared distance to the current seed |
| VoronoiPlanes.BisectorSeparates | Assets/Scripts/VoronoiBreakable.cs:137-141 | a point is strictly on the normal's side exactly when it is nearer the current seed, and on the plane exactly when it is equally far from both seeds; the midpoint is on the plane |
| VoronoiPlanes.CoincidentSeedsZeroNormal | Assets/Scripts/VoronoiBreakable.cs:137-139 | for coincident seeds the plane passes through the seed with a zero normal |
| VoronoiPlanes.SlicePlanesFor | Assets/Scripts/VoronoiBreakable.cs:129-142 | there is one plane fewer than there are seeds |
| VoronoiPlanes.SingleSeedNoPlanes | Assets/Scripts/VoronoiBreakable.cs:133-135 | with a single seed there is no plane to cut along |
| VoronoiPlanes.GetSlicePlanesForSeed | Assets/Scripts/VoronoiBreakable.cs:127-145 | the list is `SlicePlanesFor(seeds, current)`: one plane per other seed, in index order, each the bisector of the current seed and that seed |
| Breakable.ClosestOf | Assets/Scripts/VoronoiBreakable.cs:352-370 | the choice is null or one of the given fragments |
| Breakable.ClosestOfNull | Assets/Scripts/VoronoiBreakable.cs:352-370 | null is returned exactly when every entry is null |
| Breakable.ClosestOfPrefix | Assets/Scripts/VoronoiBreakable.cs:357-367 | after any number of steps, a non-null choice is the nearest non-null entry so far, the first such on a tie |
| Breakable.ClosestOfIsClosest | Assets/Scripts/VoronoiBreakable.cs:352-370 | a non-null choice is the nearest non-null fragment, the first such on a tie |
| Breakable.SelectClosestFragment | Assets/Scripts/VoronoiBreakable.cs:352-370 | the loop with its running minimum (none standing for `float.MaxValue`) returns `ClosestOf` |
| Breakable.ClosestIsUnique | Assets/Scripts/VoronoiBreakable.cs:362-366 | the strict comparison makes the nearest fragment unique |
| Breakable.ClosestIsMinimal | Assets/Scripts/VoronoiBreakable.cs:357-367 | the chosen fragment is no farther than any non-null fragment |
| Breakable.Without | Assets/Scripts/VoronoiBreakable.cs:74-78 | the pieces queued after a cut are exactly the pieces other than the chosen one |
| Breakable.BoxFallback | Assets/Scripts/VoronoiBreakable.cs:439-454 | a box collider is always there afterwards; it is fitted to the mesh bounds when there is a mesh, and otherwise an existing box is kept |
| Breakable.SafeColliderExactlyOne | Assets/Scripts/VoronoiBreakable.cs:395-407 | on an object with no collider, it ends with a mesh collider exactly when it ends without a box |
| Breakable.SafeColliderBranches | Assets/Scripts/VoronoiBreakable.cs:395-437 | a mesh collider is there afterwards exactly when both checks passed, or when one was there before and the mesh failed the first check; otherwise the box is fitted; nothing else changes |
| Breakable.FlatOrTinyMeshGetsBox | Assets/Scripts/VoronoiBreakable.cs:250-268 | fewer than four distinct vertices, or all of them near one plane, lead to the box fitted to the mesh bounds |
| Breakable.Schedule | Assets/Scripts/VoronoiBreakable.cs:391 | the pending destruction becomes the earlier of the new delay and the one already pending: it is one of the two and no later than either |
| Breakable.VoronoiBreakable.constructor | Assets/Scripts/VoronoiBreakable.cs:22-28 | the component starts with its configuration and an empty destruction queue |
| Breakable.VoronoiBreakable.AfterSetup | Assets/Scripts/VoronoiBreakable.cs:372-392 | the object always gets a Rigidbody; it is destroyed exactly when its mesh is not a valid fragment (or it was already destroyed); a valid one gets the fragment lifetime, and if it had no collider it ends with exactly one: a mesh collider or a box |
| Breakable.VoronoiBreakable.KeptRefsAreLive | Assets/Scripts/VoronoiBreakable.cs:147-184 | a cut returns at most two new objects, upper first, alive and with a Rigidbody; the other new objects are destroyed; each new object is destroyed or settled: the fragment lifetime, a Rigidbody and exactly one collider |
| Breakable.VoronoiBreakable.HullOutcomeSettles | Assets/Scripts/VoronoiBreakable.cs:157-181 | a hull piece stays alive exactly when its mesh is a valid fragment; alive, it has a Rigidbody; either way it is settled |
| Breakable.VoronoiBreakable.SetupAlternativeCollider | Assets/Scripts/VoronoiBreakable.cs:439-454 | only this object's box changes, to `BoxFallback` |
| Breakable.VoronoiBreakable.TrySetupMeshCollider | Assets/Scripts/VoronoiBreakable.cs:410-437 | success is the engine's convex verdict, and the object has a mesh collider afterwards exactly on success |
| Breakable.VoronoiBreakable.SetupSafeCollider | Assets/Scripts/VoronoiBreakable.cs:395-407 | the object becomes `WithSafeCollider` of itself; nothing else changes |
| Breakable.VoronoiBreakable.SetupFragment | Assets/Scripts/VoronoiBreakable.cs:372-392 | the object becomes `AfterSetup` of itself; nothing else changes |
| Breakable.VoronoiBreakable.AddHull | Assets/Scripts/VoronoiBreakable.cs:157-167 | a hull is appended and set up when valid, destroyed when not; it is returned only when valid |
| Breakable.VoronoiBreakable.SliceWithPlane | Assets/Scripts/VoronoiBreakable.cs:147-184 | the scene grows by the slicer's hulls; the valid ones are returned, upper first, alive and with a Rigidbody; every new object is destroyed or settled (lifetime, Rigidbody, exactly one collider); no existing object changes |
| Breakable.VoronoiBreakable.QueueAllBut | Assets/Scripts/VoronoiBreakable.cs:74-78 | the queue grows by every piece but the chosen one, in order |
| Breakable.VoronoiBreakable.Cut | Assets/Scripts/VoronoiBreakable.cs:66-79 | the piece followed and the pieces queued are objects of the scene the cut leaves, which keeps all the old ones |
| Breakable.VoronoiBreakable.CutSettles | Assets/Scripts/VoronoiBreakable.cs:66-79 | a cut keeps the old objects, follows the fragment itself or a live new piece, queues only new pieces other than that one, and settles every object it creates |
| Breakable.VoronoiBreakable.CarveAlong | Assets/Scripts/VoronoiBreakable.cs:62-80 | the fragment a run of cuts ends with and the pieces it queued are objects of the scene it leaves |
| Breakable.VoronoiBreakable.CarveAlongSettles | Assets/Scripts/VoronoiBreakable.cs:62-80 | after any number of planes the old objects are kept, the fragment followed is the original or a live new piece, the queued pieces are new and not that fragment, and every new object is settled |
| Breakable.VoronoiBreakable.CarveAll | Assets/Scripts/VoronoiBreakable.cs:53-84 | the fragments kept and the pieces queued by a pass are objects of the scene it leaves |
| Breakable.VoronoiBreakable.CarveAllSettles | Assets/Scripts/VoronoiBreakable.cs:53-84 | a pass over at most one fragment keeps at most one, the old one or a live new piece; queued pieces are new and not kept; old objects are untouched; new objects are settled |
| Breakable.VoronoiBreakable.BreakPasses | Assets/Scripts/VoronoiBreakable.cs:49-87 | the fragments and the pieces queued after any number of passes are objects of the scene |
| Breakable.VoronoiBreakable.BreakPassesSettle | Assets/Scripts/VoronoiBreakable.cs:49-87 | after any number of passes at most one fragment is left, the object itself or a live new piece; queued pieces are new and not kept; old objects are untouched; new objects are settled |
| Breakable.VoronoiBreakable.SingleSeedKeepsObject | Assets/Scripts/VoronoiBreakable.cs:49-87 | with one seed or none nothing is cut: the scene is unchanged, nothing is queued and the object is the only fragment |
| Breakable.VoronoiBreakable.CleanedUp | Assets/Scripts/VoronoiBreakable.cs:99-107 | flushing the queue keeps the number of objects |
| Breakable.VoronoiBreakable.FinalScene | Assets/Scripts/VoronoiBreakable.cs:43-97 | a break never removes an object from the scene |
| Breakable.VoronoiBreakable.FinalSceneFacts | Assets/Scripts/VoronoiBreakable.cs:43-97 | after a break the object is deactivated and otherwise unchanged; other old objects are destroyed exactly when queued before; new objects are settled; at most one fragment is left, the object or a live, settled new piece, and the object whenever there is at most one seed |
| Breakable.VoronoiBreakable.CutAndKeepClosest | Assets/Scripts/VoronoiBreakable.cs:66-79 | the scene grows by the slicer's hulls of the current fragment and the pieces are the valid ones; the outcome is exactly `Cut` of the old scene: with no pieces the fragment stays, otherwise it becomes the piece nearest the seed and the queue grows by the other pieces |
| Breakable.VoronoiBreakable.CarveStep | Assets/Scripts/VoronoiBreakable.cs:64-79 | the cut along the next plane continues `CarveAlong` by that plane, and the queue grows by what the cut queued |
| Breakable.VoronoiBreakable.CarveCell | Assets/Scripts/VoronoiBreakable.cs:60-80 | the scene, the fragment followed and the pieces queued are exactly `CarveAlong` over the seed's planes `SlicePlanesFor(seeds, i)`; the queue grows by those pieces |
| Breakable.VoronoiBreakable.CleanupObjects | Assets/Scripts/VoronoiBreakable.cs:99-107 | the scene becomes `CleanedUp` of the old scene and queue: every queued object other than this one is destroyed, nothing else changes; the queue is emptied |
| Breakable.VoronoiBreakable.CarvePass | Assets/Scripts/VoronoiBreakable.cs:53-84 | the scene, the new fragments and the pieces queued are exactly `CarveAll`: every non-null fragment carved in turn and replaced by the piece it ends with |
| Breakable.VoronoiBreakable.MakePasses | Assets/Scripts/VoronoiBreakable.cs:49-87 | the scene, the fragments and the queue are exactly `BreakPasses` over all the seeds, starting from the object alone |
| Breakable.VoronoiBreakable.VoronoiBreak | Assets/Scripts/VoronoiBreakable.cs:43-97 | the fragments are those of `BreakPasses` over the seeds `SeedsFor` draws from the bounds, and the scene is `FinalScene`; so at most one fragment survives, the original object or a live, settled new piece, and with at most one seed it is the original; the original is deactivated; other existing objects are destroyed exactly when they were queued before; every new object is destroyed or settled; the queue ends empty |
| LightSwitch.LightOnOffEventController.constructor | Assets/Scripts/LightOnOffEventController.cs:6-7 | no lights collected yet, switched off |
| LightSwitch.LightOnOffEventController.Start | Assets/Scripts/LightOnOffEventController.cs:9-16 | the found lights are collected in order and each shows the current state |
| LightSwitch.LightOnOffEventController.Toggle | Assets/Scripts/LightOnOffEventController.cs:18-25 | the state flips and every light shows the new state; the collection is unchanged |
| LightSwitch.LightOnOffEventController.ToggleTwice | Assets/Scripts/LightOnOffEventController.cs:18-25 | two toggles restore the state and every light's flag |
| VRThrow.LowerChar | Assets/Scripts/VRThrowSystemAdvanced.cs:95 | upper-case ASCII letters move down 32 code points; all other characters are unchanged; no upper-case letter is left |
| VRThrow.Lower | Assets/Scripts/VRThrowSystemAdvanced.cs:95 | the lower-cased name has the same length and is lower-cased character by character |
| VRThrow.Contains | Assets/Scripts/VRThrowSystemAdvanced.cs:96-101 | true exactly when the word occurs in the string at some position |
| VRThrow.UnitIsNormalized | Assets/Scripts/VRThrowSystemAdvanced.cs:166 | normalising a unit vector returns it unchanged |
| VRThrow.VRThrowSystemAdvanced.constructor | Assets/Scripts/VRThrowSystemAdvanced.cs:15-50 | the serialized force, direction mode (controller or camera) and hand are stored as given, with whether Start found the components and a camera; nothing is held, the button is up, no throw has started |
| VRThrow.VRThrowSystemAdvanced.IsGrabbed | Assets/Scripts/VRThrowSystemAdvanced.cs:118-121 | held exactly when there is a grab interactable, it is selected, and an interactor is stored |
| VRThrow.VRThrowSystemAdvanced.GetThrowDirection | Assets/Scripts/VRThrowSystemAdvanced.cs:137-154 | the holding interactor's forward vector in this frame when configured and held, else the camera's forward vector in this frame, else world forward |
| VRThrow.VRThrowSystemAdvanced.HeldThrowDirection | Assets/Scripts/VRThrowSystemAdvanced.cs:118-154 | while the object is held, a throw goes along the controller when so configured, and otherwise along the camera or, without one, world forward |
| VRThrow.VRThrowSystemAdvanced.ThrowDirectionIsUnit | Assets/Scripts/VRThrowSystemAdvanced.cs:137-166 | with unit transform forwards the throw direction has length 1, so `.normalized` leaves it unchanged |
| VRThrow.VRThrowSystemAdvanced.OnGrabbed | Assets/Scripts/VRThrowSystemAdvanced.cs:87-107 | the interactor is stored; a lower-cased name containing "left" selects the left hand, else one containing "right" selects the right hand, else the hand is unchanged |
| VRThrow.VRThrowSystemAdvanced.OnReleased | Assets/Scripts/VRThrowSystemAdvanced.cs:110-115 | the interactor and the button memory are cleared, so the object is no longer held |
| VRThrow.VRThrowSystemAdvanced.ThrowObject | Assets/Scripts/VRThrowSystemAdvanced.cs:157-182 | a throw starts exactly when the object is held and has a Rigidbody; it caches the normalised direction of the transforms in the frame of the throw, a unit vector, and the controller velocity; otherwise nothing changes |
| VRThrow.VRThrowSystemAdvanced.Update | Assets/Scripts/VRThrowSystemAdvanced.cs:55-84 | nothing happens unless the object is held; a throw happens exactly on a press not already seen last frame (and with a Rigidbody); the button state is remembered |
| VRThrow.VRThrowSystemAdvanced.HoldButtonTwoFrames | Assets/Scripts/VRThrowSystemAdvanced.cs:55-70 | holding the button for two frames throws once, along where the controller pointed in the first frame |
| VRThrow.VRThrowSystemAdvanced.SetControllerNode | Assets/Scripts/VRThrowSystemAdvanced.cs:265-269 | only the node changes |
| VRThrow.VRThrowSystemAdvanced.SetThrowForce | Assets/Scripts/VRThrowSystemAdvanced.cs:279-283 | the force becomes `max(0, newForce)` |
| VRThrow.NameWithLeft | Assets/Scripts/VRThrowSystemAdvanced.cs:95-100 | any name with "Left" in it counts as left-handed |
| VRThrow.NameWithRight | Assets/Scripts/VRThrowSystemAdvanced.cs:95-105 | any name with "Right" in it contains "right" once lower-cased |

## Left out

- DoDamage and DelayedVoronoiBreak (VoronoiBreakable.cs:30-41) only wait one frame in a coroutine before calling VoronoiBreak. The model calls `VoronoiBreak` directly.
- ApplyFragmentPhysics (VoronoiBreakable.cs:456-472) applies an explosion force and a random torque, which is physics and randomness. `VoronoiBreak` returns the fragments it would act on.
- The mesh slicer (`Slice`, `CreateUpperHull`, `CreateLowerHull`) is external code. It appears as the oracle `Engine.slice`, so the geometry of the pieces and the cross-section material are not modelled.
- TestPhysXConvexCreation (VoronoiBreakable.cs:325-350) builds a temporary object and relies on PhysX throwing. It appears as the oracle `Engine.physxTest`, and the convex switch in TrySetupMeshCollider as `Engine.convexOk`.
- Destroy timers: the model records the delay a `Destroy(obj, t)` sets but not the later removal. DestroyImmediate of a temporary object or a failed collider is modelled as the collider being absent.
- `Random.Range` and `GetComponent<Collider>().bounds` are parameters of `VoronoiBreak`.
- VoronoiBreak on an object without a Collider: `GetComponent<Collider>().bounds` throws (VoronoiBreakable.cs:112) before anything is cut or deactivated. The model takes the bounds as given and does not model that failure.
- VoronoiBreak with a negative `fragmentCount`: `new Vector3[count]` throws (VoronoiBreakable.cs:111). The model's `fragmentCount` is a `nat`, so that failure is not modelled.
- VoronoiPlanes.GetSlicePlanesForSeed: the normal is `current - other`, without `.normalized`. Scaling by a positive number moves no point across the plane, and the zero normal arises for exactly coincident seeds in both. Unity's `.normalized` also returns zero for differences shorter than 1e-5; the model keeps the short non-zero normal there. The unused `fragmentCenter` argument is kept.
- MeshChecks.IsValidFragment and MeshChecks.IsVolumeMesh: distances are compared squared against squared thresholds, and the 1e-5 cut-off of `.normalized` as a squared length. Single-precision rounding is not modelled.
- MeshChecks.IsValidFragment: `mesh.vertexCount` and `mesh.vertices.Length` are both taken as the length of the vertex list.
- BreakAreas.BreakArea.OnCollisionEnter takes `relativeVelocity.magnitude` as a given speed tied to the velocity by its square. It takes `.normalized` as a given direction that meets the contract of `NormalizedOf`. The `Debug.Log` line is not modelled.
- OnTriggerEnter in BreakArea.cs has an empty body.
- LightSwitch.LightOnOffEventController.Toggle requires that Start has run. Before Start, `_lights` is null and the source's loop throws.
- VRThrow.LowerChar: `ToLower` is modelled for ASCII letters only. Culture-specific and non-ASCII case mapping are not modelled.
- VRThrow.VRThrowSystemAdvanced.ThrowObject:
  - CancelInteractableSelection and `Invoke(ApplyThrowForce, 0.02)` are counted in `throwsStarted`, not executed;
  - the toolkit's resulting call to OnReleased is not modelled.
- ApplyThrowForce (VRThrowSystemAdvanced.cs:202-224) is physics with a random torque.
- These are XR device and debug plumbing: IsControllerButtonPressed, GetControllerVelocity, DisplayControllerDebugInfo, the debug rays and OnDrawGizmosSelected. The button state, the velocity and the transforms' forward vectors are parameters of `Update`.
- The following are not modelled: Start's component and camera lookup (parameters of the constructor) and the listener registration in Start and OnDestroy.
- SetThrowButton only stores a device usage that the model never reads.
- TestThrow is an editor hook that calls ThrowObject.
- The `forceMode` and `showDebugRay`/`showControllerInfo` settings affect only physics and display.
- DoorEventManager.cs is not part of this model.
