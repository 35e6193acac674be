/** VoronoiBreakable: breaks its game object along bisector planes between
    random seeds, keeping one piece per cut and scheduling the others for
    destruction.

    Game objects live in an arena, `objects`, indexed by id; a reference is
    an id or null. Unity's Destroy is deferred to the end of the frame, so
    destroying an object only marks it: nothing is ever removed from the
    arena and new objects are appended. The mesh slicer and the two PhysX
    checks are oracles the model is given (Engine). */
module Breakable {
  import opened Wrappers
  import opened Geometry
  import opened MeshChecks
  import opened VoronoiPlanes
  import opened DamageSystem

  /** A GameObject reference. */
  datatype Ref = Null | Obj(id: nat)

  /** The BoxCollider of an object: absent, or present and either fitted to
      given bounds or left at the size Unity gives a new one. */
  datatype BoxCollider = NoBox | Box(fit: Option<Bounds>)

  /** The state of one game object that the break reads or changes.
      `lifetime` is the delay of a pending Destroy(obj, t). */
  datatype Entity = Entity(
    mesh: Option<Mesh>,
    position: Vec3,
    hasRigidbody: bool,
    meshCollider: bool,
    box: BoxCollider,
    active: bool,
    destroyed: bool,
    lifetime: Option<real>)

  /** A hull the slicer builds: a new object with a mesh at a position. */
  datatype Piece = Piece(mesh: Mesh, position: Vec3)

  /** The slicer's answer: no hull at all, or up to two pieces. */
  datatype SlicedHull = NoHull | SlicedHull(upper: Option<Piece>, lower: Option<Piece>)

  /** What the model does not compute itself: the mesh slicer (given the
      object's mesh and position and the plane), the PhysX convex test on a
      temporary object, and whether switching a new MeshCollider to convex
      succeeds on the object's mesh. */
  datatype Engine = Engine(
    slice: (Option<Mesh>, Vec3, SlicePlane) -> SlicedHull,
    physxTest: Mesh -> bool,
    convexOk: Option<Mesh> -> bool)

  /** The object the slicer creates for a piece: active, with no components
      beyond its mesh. */
  function NewPiece(p: Piece): Entity {
    Entity(Some(p.mesh), p.position, false, false, NoBox, true, false, None)
  }

  predicate ValidRef(r: Ref, objects: seq<Entity>) {
    r.Null? || r.id < |objects|
  }

  predicate AllValidRefs(rs: seq<Ref>, objects: seq<Entity>) {
    forall k :: 0 <= k < |rs| ==> ValidRef(rs[k], objects)
  }

  /** Squared distance from an object's position to a point. */
  function DistanceTo(r: Ref, target: Vec3, objects: seq<Entity>): real
    requires r.Obj? && r.id < |objects|
  {
    SqrDist(objects[r.id].position, target)
  }

  // ---------------------------------------------------------------------------
  // SelectClosestFragment

  /** fragments[k] is the nearest non-null entry among the first n, and no
      earlier non-null entry is as near. */
  predicate ClosestAmong(fragments: seq<Ref>, target: Vec3, objects: seq<Entity>, k: nat, n: nat)
    requires AllValidRefs(fragments, objects) && n <= |fragments|
  {
    && k < n
    && fragments[k].Obj?
    && (forall j :: 0 <= j < k && fragments[j].Obj? ==>
          DistanceTo(fragments[j], target, objects) > DistanceTo(fragments[k], target, objects))
    && (forall j :: k < j < n && fragments[j].Obj? ==>
          DistanceTo(fragments[j], target, objects) >= DistanceTo(fragments[k], target, objects))
  }

  /** The fragment SelectClosestFragment picks, scanning left to right and
      replacing the candidate only by a strictly nearer one. */
  function ClosestOf(fragments: seq<Ref>, target: Vec3, objects: seq<Entity>): (r: Ref)
    requires AllValidRefs(fragments, objects)
    ensures r.Null? || r in fragments
  {
    if fragments == [] then Null
    else
      var prefix := fragments[..|fragments| - 1];
      var last := fragments[|fragments| - 1];
      var c := ClosestOf(prefix, target, objects);
      if last.Null? then c
      else if c.Null? || DistanceTo(last, target, objects) < DistanceTo(c, target, objects) then last
      else c
  }

  /** ClosestOf is null exactly when every entry is null. */
  lemma {:induction false} ClosestOfNull(fragments: seq<Ref>, target: Vec3, objects: seq<Entity>)
    requires AllValidRefs(fragments, objects)
    ensures ClosestOf(fragments, target, objects).Null? <==>
      forall j :: 0 <= j < |fragments| ==> fragments[j].Null?
    decreases |fragments|
  {
    if fragments != [] {
      var prefix := fragments[..|fragments| - 1];
      ClosestOfNull(prefix, target, objects);
      assert forall j :: 0 <= j < |prefix| ==> prefix[j] == fragments[j];
    }
  }

  /** ClosestOf on the first n entries is the nearest non-null one among
      them, the first one on a tie. */
  lemma {:induction false} ClosestOfPrefix(fragments: seq<Ref>, target: Vec3, objects: seq<Entity>, n: nat)
    requires AllValidRefs(fragments, objects) && n <= |fragments|
    ensures ClosestOf(fragments[..n], target, objects).Obj? ==>
      exists k: nat :: ClosestAmong(fragments, target, objects, k, n) &&
        fragments[k] == ClosestOf(fragments[..n], target, objects)
  {
    if n > 0 {
      var last := fragments[n - 1];
      assert fragments[..n][..n - 1] == fragments[..n - 1];
      ClosestOfPrefix(fragments, target, objects, n - 1);
      var c := ClosestOf(fragments[..n - 1], target, objects);
      if c.Obj? {
        var k: nat :| ClosestAmong(fragments, target, objects, k, n - 1) && fragments[k] == c;
        if last.Obj? && DistanceTo(last, target, objects) < DistanceTo(c, target, objects) {
          NearerLastTakesOver(fragments, target, objects, k, n);
        } else {
          CandidateSurvives(fragments, target, objects, k, n);
        }
      } else if last.Obj? {
        ClosestOfNull(fragments[..n - 1], target, objects);
        assert forall j :: 0 <= j < n - 1 ==> fragments[..n - 1][j] == fragments[j];
        assert ClosestAmong(fragments, target, objects, n - 1, n);
      }
    }
  }

  /** A candidate for the first n - 1 entries stays one for the first n when
      the n-th entry is null or no nearer. */
  lemma CandidateSurvives(fragments: seq<Ref>, target: Vec3, objects: seq<Entity>, k: nat, n: nat)
    requires AllValidRefs(fragments, objects) && 0 < n <= |fragments|
    requires ClosestAmong(fragments, target, objects, k, n - 1)
    requires fragments[n - 1].Obj? ==>
      !(DistanceTo(fragments[n - 1], target, objects) < DistanceTo(fragments[k], target, objects))
    ensures ClosestAmong(fragments, target, objects, k, n)
  {
  }

  /** A strictly nearer n-th entry replaces the candidate. */
  lemma NearerLastTakesOver(fragments: seq<Ref>, target: Vec3, objects: seq<Entity>, k: nat, n: nat)
    requires AllValidRefs(fragments, objects) && 0 < n <= |fragments|
    requires ClosestAmong(fragments, target, objects, k, n - 1)
    requires fragments[n - 1].Obj?
    requires DistanceTo(fragments[n - 1], target, objects) < DistanceTo(fragments[k], target, objects)
    ensures ClosestAmong(fragments, target, objects, n - 1, n)
  {
    var dl := DistanceTo(fragments[n - 1], target, objects);
    var dk := DistanceTo(fragments[k], target, objects);
    forall j | 0 <= j < n - 1 && fragments[j].Obj?
      ensures DistanceTo(fragments[j], target, objects) > dl
    {
      assert DistanceTo(fragments[j], target, objects) >= dk;
    }
  }

  /** A non-null ClosestOf is the nearest non-null entry, the first one on
      a tie. */
  lemma ClosestOfIsClosest(fragments: seq<Ref>, target: Vec3, objects: seq<Entity>)
    requires AllValidRefs(fragments, objects)
    ensures ClosestOf(fragments, target, objects).Obj? ==>
      exists k: nat :: ClosestAmong(fragments, target, objects, k, |fragments|) &&
        fragments[k] == ClosestOf(fragments, target, objects)
  {
    ClosestOfPrefix(fragments, target, objects, |fragments|);
    assert fragments[..|fragments|] == fragments;
  }

  /** SelectClosestFragment. */
  method SelectClosestFragment(fragments: seq<Ref>, targetPoint: Vec3, objects: seq<Entity>)
    returns (closest: Ref)
    requires AllValidRefs(fragments, objects)
    ensures closest == ClosestOf(fragments, targetPoint, objects)
  {
    closest := Null;
    var minDistance: Option<real> := None;  // float.MaxValue
    for i := 0 to |fragments|
      invariant closest == ClosestOf(fragments[..i], targetPoint, objects)
      invariant closest.Null? <==> minDistance.None?
      invariant closest.Obj? ==> minDistance == Some(DistanceTo(closest, targetPoint, objects))
    {
      assert fragments[..i + 1][..i] == fragments[..i];
      var fragment := fragments[i];
      if fragment == Null {
        continue;
      }
      var distance := SqrDist(objects[fragment.id].position, targetPoint);
      if minDistance.None? || distance < minDistance.value {
        minDistance := Some(distance);
        closest := fragment;
      }
    }
    assert fragments[..|fragments|] == fragments;
  }

  /** The tie rule makes the choice unique. */
  lemma ClosestIsUnique(fragments: seq<Ref>, target: Vec3, objects: seq<Entity>, k1: nat, k2: nat)
    requires AllValidRefs(fragments, objects)
    requires ClosestAmong(fragments, target, objects, k1, |fragments|)
    requires ClosestAmong(fragments, target, objects, k2, |fragments|)
    ensures k1 == k2
  {
  }

  /** The chosen fragment is at least as near as every non-null one. */
  lemma ClosestIsMinimal(fragments: seq<Ref>, target: Vec3, objects: seq<Entity>, k: nat, j: nat)
    requires AllValidRefs(fragments, objects)
    requires ClosestAmong(fragments, target, objects, k, |fragments|)
    requires j < |fragments| && fragments[j].Obj?
    ensures DistanceTo(fragments[k], target, objects) <= DistanceTo(fragments[j], target, objects)
  {
  }

  /** The pieces of a cut other than the chosen one, in order. */
  function Without(pieces: seq<Ref>, chosen: Ref): (rest: seq<Ref>)
    ensures |rest| <= |pieces|
    ensures forall q :: q in rest <==> q in pieces && q != chosen
  {
    if |pieces| == 0 then []
    else
      var last := pieces[|pieces| - 1];
      Without(pieces[..|pieces| - 1], chosen) + (if last != chosen then [last] else [])
  }

  // ---------------------------------------------------------------------------
  // Collider set-up, as functions of the object's state

  /** SetupAlternativeCollider: reuse or add a BoxCollider, and fit it to the
      mesh bounds when there is a mesh. */
  function BoxFallback(e: Entity): (box: BoxCollider)
    ensures box.Box?
    ensures e.mesh.Some? ==> box == Box(Some(e.mesh.value.bounds))
    ensures e.mesh.None? && e.box.Box? ==> box == e.box
  {
    if e.mesh.Some? then Box(Some(e.mesh.value.bounds))
    else if e.box.NoBox? then Box(None)
    else e.box
  }

  /** SetupSafeCollider: a convex MeshCollider when the mesh passes the
      collider checks and PhysX accepts it, a fitted BoxCollider otherwise. */
  function WithSafeCollider(e: Entity, engine: Engine): Entity {
    var meshOk := MeshColliderOk(e.mesh, engine.physxTest);
    if meshOk && engine.convexOk(e.mesh) then e.(meshCollider := true)
    else if meshOk then e.(meshCollider := false, box := BoxFallback(e))
    else e.(box := BoxFallback(e))
  }

  /** On an object with no collider yet, exactly one of the two branches
      is taken. */
  lemma SafeColliderExactlyOne(e: Entity, engine: Engine)
    requires !e.meshCollider && e.box.NoBox?
    ensures WithSafeCollider(e, engine).meshCollider <==> WithSafeCollider(e, engine).box.NoBox?
  {
  }

  /** The mesh collider is there afterwards exactly when both checks
      passed, or when it was there before and the mesh failed the first
      check; otherwise the box is fitted to the mesh. Nothing else changes. */
  lemma {:induction false} SafeColliderBranches(e: Entity, engine: Engine)
    ensures var r := WithSafeCollider(e, engine);
      var meshOk := MeshColliderOk(e.mesh, engine.physxTest);
      && (r.meshCollider <==> (meshOk && engine.convexOk(e.mesh)) || (e.meshCollider && !meshOk))
      && (meshOk && engine.convexOk(e.mesh) ==> r.box == e.box)
      && (!(meshOk && engine.convexOk(e.mesh)) ==> r.box == BoxFallback(e))
      && r.(meshCollider := e.meshCollider, box := e.box) == e
  {
    var meshOk := MeshColliderOk(e.mesh, engine.physxTest);
    if meshOk && engine.convexOk(e.mesh) {
      assert WithSafeCollider(e, engine) == e.(meshCollider := true);
    } else if meshOk {
      assert WithSafeCollider(e, engine) == e.(meshCollider := false, box := BoxFallback(e));
    } else {
      assert WithSafeCollider(e, engine) == e.(box := BoxFallback(e));
    }
  }

  /** Fewer than four distinct vertices, or all of them near one plane,
      sends the object to the box branch. */
  lemma {:induction false} FlatOrTinyMeshGetsBox(e: Entity, engine: Engine)
    requires e.mesh.Some? && !e.meshCollider
    requires |Unique(e.mesh.value.vertices)| < 4 || !IsVolume(Unique(e.mesh.value.vertices))
    ensures !WithSafeCollider(e, engine).meshCollider
    ensures WithSafeCollider(e, engine).box == Box(Some(e.mesh.value.bounds))
  {
    assert !MeshColliderOk(e.mesh, engine.physxTest);
  }

  /** Destroy(obj, t) on an object: the earliest pending destruction wins. */
  function Schedule(lifetime: Option<real>, t: real): (r: Option<real>)
    ensures r.Some? && r.value <= t
    ensures lifetime.Some? ==> r.value <= lifetime.value
    ensures r.value == t || (lifetime.Some? && r.value == lifetime.value)
  {
    if lifetime.Some? && lifetime.value <= t then lifetime else Some(t)
  }

  /** The scene after a run of cuts, the fragment the run follows, and the
      pieces it queued for destruction. */
  datatype Carved = Carved(objects: seq<Entity>, cell: Ref, queued: seq<Ref>)

  /** The scene after one or more passes over the fragments, the fragments
      kept, and the pieces queued for destruction. */
  datatype Pass = Pass(objects: seq<Entity>, fragments: seq<Ref>, queued: seq<Ref>)

  class VoronoiBreakable {
    /** The id of the object this component is attached to. */
    const gameObject: nat
    const fragmentCount: nat
    const fragmentLifetime: real
    const minimumFragmentSize: real
    const minimumVertexCount: int

    /** The scene. */
    var objects: seq<Entity>
    var objectsToDestroy: seq<Ref>

    ghost predicate Valid()
      reads this
    {
      gameObject < |objects| && forall q :: q in objectsToDestroy ==> ValidRef(q, objects)
    }

    /** A piece the break created is either destroyed, or it carries the
        fragment lifetime, a Rigidbody and exactly one collider. */
    predicate Settled(e: Entity) {
      e.destroyed || (e.lifetime == Some(fragmentLifetime) && e.hasRigidbody && (e.meshCollider <==> e.box.NoBox?))
    }

    /** The serialized defaults are 8 fragments, a lifetime of 1, a minimum
        size of 0.1 and a minimum of 8 vertices. */
    constructor (scene: seq<Entity>, gameObject: nat, fragmentCount: nat, fragmentLifetime: real,
                 minimumFragmentSize: real, minimumVertexCount: int)
      requires gameObject < |scene|
      ensures Valid()
      ensures objects == scene && objectsToDestroy == []
      ensures this.gameObject == gameObject && this.fragmentCount == fragmentCount
      ensures this.fragmentLifetime == fragmentLifetime && this.minimumFragmentSize == minimumFragmentSize
      ensures this.minimumVertexCount == minimumVertexCount
    {
      this.gameObject := gameObject;
      this.fragmentCount := fragmentCount;
      this.fragmentLifetime := fragmentLifetime;
      this.minimumFragmentSize := minimumFragmentSize;
      this.minimumVertexCount := minimumVertexCount;
      objects := scene;
      objectsToDestroy := [];
    }

    /** SetupFragment: add a Rigidbody, destroy the object if its mesh is not
        a valid fragment, else give it a collider and its lifetime. */
    function AfterSetup(e: Entity, engine: Engine): (r: Entity)
      ensures r.hasRigidbody
      ensures r.destroyed <==> e.destroyed || !ValidFragment(e.mesh, minimumVertexCount, minimumFragmentSize)
      ensures ValidFragment(e.mesh, minimumVertexCount, minimumFragmentSize) ==>
        r.lifetime == Schedule(e.lifetime, fragmentLifetime)
      ensures ValidFragment(e.mesh, minimumVertexCount, minimumFragmentSize) && !e.meshCollider && e.box.NoBox? ==>
        (r.meshCollider <==> r.box.NoBox?)
    {
      var e := e.(hasRigidbody := true);
      if !ValidFragment(e.mesh, minimumVertexCount, minimumFragmentSize) then e.(destroyed := true)
      else
        var c := WithSafeCollider(e, engine);
        c.(lifetime := Schedule(c.lifetime, fragmentLifetime))
    }

    /** The object a hull piece ends up as. */
    function HullOutcome(p: Piece, engine: Engine): Entity {
      var e := NewPiece(p);
      if ValidFragment(e.mesh, minimumVertexCount, minimumFragmentSize) then AfterSetup(e, engine)
      else e.(destroyed := true)
    }

    function HullPart(p: Option<Piece>, engine: Engine): seq<Entity> {
      if p.Some? then [HullOutcome(p.value, engine)] else []
    }

    function KeptPart(p: Option<Piece>, id: nat): seq<Ref> {
      if p.Some? && ValidFragment(Some(p.value.mesh), minimumVertexCount, minimumFragmentSize) then [Obj(id)] else []
    }

    /** The objects a slice appends to an arena. */
    function HullEntities(h: SlicedHull, engine: Engine): seq<Entity> {
      if h.NoHull? then [] else HullPart(h.upper, engine) + HullPart(h.lower, engine)
    }

    /** The pieces a slice returns when the arena had `base` objects. */
    function KeptRefs(h: SlicedHull, base: nat, engine: Engine): seq<Ref> {
      if h.NoHull? then []
      else KeptPart(h.upper, base) + KeptPart(h.lower, base + |HullPart(h.upper, engine)|)
    }

    /** What the slicer returns for an object cut along a plane. */
    function SliceOf(e: Entity, plane: SlicePlane, engine: Engine): SlicedHull {
      engine.slice(e.mesh, e.position, plane)
    }

    /** A hull piece ends up alive exactly when its mesh is a valid
        fragment, and settled either way. */
    lemma HullOutcomeSettles(p: Piece, engine: Engine)
      ensures var e := HullOutcome(p, engine);
        && (!e.destroyed <==> ValidFragment(Some(p.mesh), minimumVertexCount, minimumFragmentSize))
        && (!e.destroyed ==> e.hasRigidbody)
        && Settled(e)
    {
    }

    /** Every piece a slice returns is one of the new objects, alive, with a
        Rigidbody; the others it created are destroyed; each new object is
        destroyed or carries the fragment lifetime and exactly one collider. */
    lemma {:induction false} KeptRefsAreLive(h: SlicedHull, before: seq<Entity>, engine: Engine)
      ensures var kept := KeptRefs(h, |before|, engine);
        var after := before + HullEntities(h, engine);
        && |kept| <= 2
        && (forall k :: 0 <= k < |kept| ==>
              kept[k].Obj? && |before| <= kept[k].id < |after| &&
              !after[kept[k].id].destroyed && after[kept[k].id].hasRigidbody)
        && (forall k1, k2 :: 0 <= k1 < k2 < |kept| ==> kept[k1].id < kept[k2].id)
        && (forall k :: |before| <= k < |after| && Obj(k) !in kept ==> after[k].destroyed)
        && (forall k :: |before| <= k < |after| ==> Settled(after[k]))
    {
      if h.SlicedHull? {
        var n := |before|;
        var up := HullPart(h.upper, engine);
        var after := before + HullEntities(h, engine);
        if h.upper.Some? {
          assert after[n] == HullOutcome(h.upper.value, engine);
          HullOutcomeSettles(h.upper.value, engine);
        }
        if h.lower.Some? {
          assert after[n + |up|] == HullOutcome(h.lower.value, engine);
          HullOutcomeSettles(h.lower.value, engine);
        }
      }
    }

    /** SetupAlternativeCollider. */
    method SetupAlternativeCollider(fragment: Ref)
      requires Valid() && fragment.Obj? && fragment.id < |objects|
      modifies this
      ensures Valid()
      ensures objects == old(objects)[fragment.id := old(objects)[fragment.id].(box := BoxFallback(old(objects)[fragment.id]))]
      ensures objectsToDestroy == old(objectsToDestroy)
    {
      var e := objects[fragment.id];
      var boxCol := e.box;
      if boxCol.NoBox? {
        boxCol := Box(None);
      }
      if e.mesh.Some? {
        boxCol := Box(Some(e.mesh.value.bounds));
      }
      objects := objects[fragment.id := e.(box := boxCol)];
    }

    /** TrySetupMeshCollider: replace any MeshCollider by a convex one; when
        PhysX refuses the mesh the new collider is removed again. */
    method TrySetupMeshCollider(fragment: Ref, engine: Engine) returns (success: bool)
      requires Valid() && fragment.Obj? && fragment.id < |objects|
      modifies this
      ensures Valid()
      ensures success == engine.convexOk(old(objects)[fragment.id].mesh)
      ensures objects == old(objects)[fragment.id := old(objects)[fragment.id].(meshCollider := success)]
      ensures objectsToDestroy == old(objectsToDestroy)
    {
      var e := objects[fragment.id].(meshCollider := false);
      if engine.convexOk(e.mesh) {
        objects := objects[fragment.id := e.(meshCollider := true)];
        success := true;
      } else {
        objects := objects[fragment.id := e];
        success := false;
      }
    }

    /** SetupSafeCollider. */
    method SetupSafeCollider(fragment: Ref, engine: Engine)
      requires Valid() && fragment.Obj? && fragment.id < |objects|
      modifies this
      ensures Valid()
      ensures objects == old(objects)[fragment.id := WithSafeCollider(old(objects)[fragment.id], engine)]
      ensures objectsToDestroy == old(objectsToDestroy)
    {
      var ok := IsValidMeshForCollider(objects[fragment.id].mesh, engine.physxTest);
      if ok {
        var success := TrySetupMeshCollider(fragment, engine);
        if success {
          return;
        }
      }
      SetupAlternativeCollider(fragment);
    }

    /** SetupFragment. */
    method SetupFragment(fragment: Ref, engine: Engine)
      requires Valid() && fragment.Obj? && fragment.id < |objects|
      modifies this
      ensures Valid()
      ensures objects == old(objects)[fragment.id := AfterSetup(old(objects)[fragment.id], engine)]
      ensures objectsToDestroy == old(objectsToDestroy)
    {
      objects := objects[fragment.id := objects[fragment.id].(hasRigidbody := true)];
      var valid := IsValidFragment(objects[fragment.id].mesh, minimumVertexCount, minimumFragmentSize);
      if !valid {
        objects := objects[fragment.id := objects[fragment.id].(destroyed := true)];
        return;
      }
      SetupSafeCollider(fragment, engine);
      objects := objects[fragment.id := objects[fragment.id].(lifetime := Schedule(objects[fragment.id].lifetime, fragmentLifetime))];
    }

    /** One hull of SliceWithPlane: add it to the scene, then set it up if
        it is a valid fragment, else destroy it. */
    method AddHull(piece: Option<Piece>, engine: Engine) returns (kept: seq<Ref>)
      requires Valid()
      modifies this
      ensures Valid()
      ensures objects == old(objects) + HullPart(piece, engine)
      ensures kept == KeptPart(piece, |old(objects)|)
      ensures objectsToDestroy == old(objectsToDestroy)
    {
      kept := [];
      if piece.None? {
        return;
      }
      var hull := Obj(|objects|);
      objects := objects + [NewPiece(piece.value)];
      var valid := IsValidFragment(objects[hull.id].mesh, minimumVertexCount, minimumFragmentSize);
      if valid {
        SetupFragment(hull, engine);
        kept := [hull];
      } else {
        objects := objects[hull.id := objects[hull.id].(destroyed := true)];
      }
    }

    /** SliceWithPlane: the valid pieces of a cut, upper first. */
    method SliceWithPlane(obj: Ref, planePoint: Vec3, planeNormal: Vec3, engine: Engine)
      returns (results: seq<Ref>)
      requires Valid() && obj.Obj? && obj.id < |objects|
      modifies this
      ensures Valid()
      ensures var hull := SliceOf(old(objects)[obj.id], SlicePlane(planePoint, planeNormal), engine);
        && objects == old(objects) + HullEntities(hull, engine)
        && results == KeptRefs(hull, |old(objects)|, engine)
      ensures objectsToDestroy == old(objectsToDestroy)
      ensures forall k :: old(|objects|) <= k < |objects| ==> Settled(objects[k])
      ensures |results| <= 2
      ensures forall k :: 0 <= k < |results| ==>
        && results[k].Obj? && old(|objects|) <= results[k].id < |objects|
        && !objects[results[k].id].destroyed && objects[results[k].id].hasRigidbody
      ensures forall k1, k2 :: 0 <= k1 < k2 < |results| ==> results[k1].id < results[k2].id
      ensures forall k :: old(|objects|) <= k < |objects| && Obj(k) !in results ==> objects[k].destroyed
    {
      var hull := SliceOf(objects[obj.id], SlicePlane(planePoint, planeNormal), engine);
      KeptRefsAreLive(hull, objects, engine);
      results := [];
      if hull.SlicedHull? {
        var upper := AddHull(hull.upper, engine);
        var lower := AddHull(hull.lower, engine);
        results := upper + lower;
      }
    }

    /** The queueing loop of a cut: every piece but the chosen one goes on
        objectsToDestroy, in order. */
    method QueueAllBut(pieces: seq<Ref>, chosen: Ref)
      requires Valid() && AllValidRefs(pieces, objects)
      modifies this
      ensures Valid() && objects == old(objects)
      ensures objectsToDestroy == old(objectsToDestroy) + Without(pieces, chosen)
    {
      for k := 0 to |pieces|
        invariant objects == old(objects) && Valid()
        invariant objectsToDestroy == old(objectsToDestroy) + Without(pieces[..k], chosen)
      {
        assert pieces[..k + 1][..k] == pieces[..k];
        if pieces[k] != chosen {
          objectsToDestroy := objectsToDestroy + [pieces[k]];
        }
      }
      assert pieces[..|pieces|] == pieces;
    }


    // -------------------------------------------------------------------------
    // What a break computes

    /** One cut of VoronoiBreak's innermost loop on the scene `objects`: the
        slicer's hulls are added, the piece nearest the seed is followed and
        the other pieces are queued; with no pieces the fragment stays. */
    function Cut(objects: seq<Entity>, current: Ref, plane: SlicePlane, seed: Vec3, engine: Engine): (r: Carved)
      requires current.Obj? && current.id < |objects|
      ensures r.cell.Obj? && r.cell.id < |r.objects| && |objects| <= |r.objects|
      ensures AllValidRefs(r.queued, r.objects)
    {
      var hull := SliceOf(objects[current.id], plane, engine);
      var after := objects + HullEntities(hull, engine);
      var pieces := KeptRefs(hull, |objects|, engine);
      KeptRefsAreLive(hull, objects, engine);
      if |pieces| == 0 then Carved(after, current, [])
      else
        ClosestOfNull(pieces, seed, after);
        assert pieces[0].Obj?;
        var next := ClosestOf(pieces, seed, after);
        var rest := Without(pieces, next);
        assert forall k :: 0 <= k < |rest| ==> rest[k] in pieces;
        Carved(after, next, rest)
    }

    /** The cuts along `planes`, in order, each on the piece the previous
        one kept. */
    function CarveAlong(objects: seq<Entity>, fragment: Ref, planes: seq<SlicePlane>, seed: Vec3, engine: Engine): (r: Carved)
      requires fragment.Obj? && fragment.id < |objects|
      ensures r.cell.Obj? && r.cell.id < |r.objects| && |objects| <= |r.objects|
      ensures AllValidRefs(r.queued, r.objects)
      decreases |planes|
    {
      if planes == [] then Carved(objects, fragment, [])
      else
        var c := CarveAlong(objects, fragment, planes[..|planes| - 1], seed, engine);
        var d := Cut(c.objects, c.cell, planes[|planes| - 1], seed, engine);
        Carved(d.objects, d.cell, c.queued + d.queued)
    }

    /** Carving along one more plane is one more cut. */
    lemma CarveAlongStep(objects: seq<Entity>, fragment: Ref, planes: seq<SlicePlane>, p: nat, seed: Vec3, engine: Engine)
      requires fragment.Obj? && fragment.id < |objects| && p < |planes|
      ensures var c := CarveAlong(objects, fragment, planes[..p], seed, engine);
        var d := Cut(c.objects, c.cell, planes[p], seed, engine);
        CarveAlong(objects, fragment, planes[..p + 1], seed, engine) == Carved(d.objects, d.cell, c.queued + d.queued)
    {
      assert planes[..p + 1][..p] == planes[..p];
    }

    lemma AppendAssociates(a: seq<Ref>, b: seq<Ref>, c: seq<Ref>)
      ensures (a + b) + c == a + (b + c)
    {
    }

    /** One pass of VoronoiBreak's outer loop, for seed i: each non-null
        fragment in turn is carved along the seed's planes and replaced by
        the piece it ends with. */
    function CarveAll(objects: seq<Entity>, fragments: seq<Ref>, seeds: seq<Vec3>, i: nat, engine: Engine): (r: Pass)
      requires i < |seeds| && AllValidRefs(fragments, objects)
      ensures |objects| <= |r.objects|
      ensures AllValidRefs(r.fragments, r.objects) && AllValidRefs(r.queued, r.objects)
      decreases |fragments|
    {
      if fragments == [] then Pass(objects, [], [])
      else
        var p := CarveAll(objects, fragments[..|fragments| - 1], seeds, i, engine);
        var f := fragments[|fragments| - 1];
        if f.Null? then p
        else
          var c := CarveAlong(p.objects, f, SlicePlanesFor(seeds, i), seeds[i], engine);
          Pass(c.objects, p.fragments + [c.cell], p.queued + c.queued)
    }

    /** A pass over one more fragment carves that fragment too, unless it
        is null. */
    lemma CarveAllStep(objects: seq<Entity>, fragments: seq<Ref>, seeds: seq<Vec3>, i: nat, j: nat, engine: Engine)
      requires i < |seeds| && AllValidRefs(fragments, objects) && j < |fragments|
      ensures AllValidRefs(fragments[..j], objects)
      ensures var p := CarveAll(objects, fragments[..j], seeds, i, engine);
        var f := fragments[j];
        CarveAll(objects, fragments[..j + 1], seeds, i, engine) ==
          if f.Null? then p
          else
            var c := CarveAlong(p.objects, f, SlicePlanesFor(seeds, i), seeds[i], engine);
            Pass(c.objects, p.fragments + [c.cell], p.queued + c.queued)
    {
      assert fragments[..j + 1][..j] == fragments[..j];
    }

    /** The first n passes of VoronoiBreak, starting from the object alone. */
    function BreakPasses(objects: seq<Entity>, start: Ref, seeds: seq<Vec3>, n: nat, engine: Engine): (r: Pass)
      requires start.Obj? && start.id < |objects| && n <= |seeds|
      ensures |objects| <= |r.objects|
      ensures AllValidRefs(r.fragments, r.objects) && AllValidRefs(r.queued, r.objects)
    {
      if n == 0 then Pass(objects, [start], [])
      else
        var p := BreakPasses(objects, start, seeds, n - 1, engine);
        var q := CarveAll(p.objects, p.fragments, seeds, n - 1, engine);
        Pass(q.objects, q.fragments, p.queued + q.queued)
    }

    /** The scene after CleanupObjects: every queued object other than this
        one is destroyed. */
    function CleanedUp(objects: seq<Entity>, queue: seq<Ref>): (r: seq<Entity>)
      ensures |r| == |objects|
    {
      seq(|objects|, k requires 0 <= k < |objects| =>
        if Obj(k) in queue && k != gameObject then objects[k].(destroyed := true) else objects[k])
    }

    /** The scene VoronoiBreak leaves: every pass made, the queue flushed,
        this object deactivated. */
    function FinalScene(objects: seq<Entity>, queue: seq<Ref>, seeds: seq<Vec3>, engine: Engine): (s: seq<Entity>)
      requires gameObject < |objects|
      ensures |objects| <= |s|
    {
      var r := BreakPasses(objects, Obj(gameObject), seeds, |seeds|, engine);
      var c := CleanedUp(r.objects, queue + r.queued);
      c[gameObject := c[gameObject].(active := false)]
    }

    // -------------------------------------------------------------------------
    // What a break guarantees

    /** A run of cuts from `objects` on `fragment`: the old objects are kept,
        the piece followed is the fragment itself or a live new one, the
        queued pieces are new and not the one followed, and every new object
        is settled. */
    ghost predicate CarvedFrom(objects: seq<Entity>, fragment: Ref, r: Carved) {
      && |objects| <= |r.objects|
      && (forall k :: 0 <= k < |objects| ==> r.objects[k] == objects[k])
      && (r.cell == fragment ||
          (r.cell.Obj? && |objects| <= r.cell.id < |r.objects| && !r.objects[r.cell.id].destroyed))
      && (forall q :: q in r.queued ==> q.Obj? && |objects| <= q.id < |r.objects| && q != r.cell)
      && (forall k :: |objects| <= k < |r.objects| ==> Settled(r.objects[k]))
    }

    lemma CutSettles(objects: seq<Entity>, current: Ref, plane: SlicePlane, seed: Vec3, engine: Engine)
      requires current.Obj? && current.id < |objects|
      ensures CarvedFrom(objects, current, Cut(objects, current, plane, seed, engine))
    {
      var hull := SliceOf(objects[current.id], plane, engine);
      KeptRefsAreLive(hull, objects, engine);
    }

    /** Two runs of cuts in a row make one. */
    lemma CarvedChain(objects: seq<Entity>, fragment: Ref, c: Carved, d: Carved)
      requires CarvedFrom(objects, fragment, c) && CarvedFrom(c.objects, c.cell, d)
      ensures CarvedFrom(objects, fragment, Carved(d.objects, d.cell, c.queued + d.queued))
    {
    }

    /** However many planes a seed has, carving a fragment keeps the old
        objects, follows the fragment or a live new piece, queues only new
        pieces other than that one, and settles every object it creates. */
    lemma {:induction false} CarveAlongSettles(objects: seq<Entity>, fragment: Ref, planes: seq<SlicePlane>, seed: Vec3, engine: Engine)
      requires fragment.Obj? && fragment.id < |objects|
      ensures CarvedFrom(objects, fragment, CarveAlong(objects, fragment, planes, seed, engine))
      decreases |planes|
    {
      if planes != [] {
        var c := CarveAlong(objects, fragment, planes[..|planes| - 1], seed, engine);
        CarveAlongSettles(objects, fragment, planes[..|planes| - 1], seed, engine);
        CutSettles(c.objects, c.cell, planes[|planes| - 1], seed, engine);
        CarvedChain(objects, fragment, c, Cut(c.objects, c.cell, planes[|planes| - 1], seed, engine));
      }
    }

    /** What the passes of a break leave, relative to the scene `objects`
        they start from: at most one fragment, `start` itself or a live new
        piece; queued pieces that are new and not kept; new objects settled. */
    ghost predicate PassFrom(objects: seq<Entity>, start: Ref, r: Pass) {
      && |objects| <= |r.objects|
      && (forall k :: 0 <= k < |objects| ==> r.objects[k] == objects[k])
      && |r.fragments| <= 1
      && (forall f :: f in r.fragments ==>
            f == start || (f.Obj? && |objects| <= f.id < |r.objects| && !r.objects[f.id].destroyed))
      && (forall q :: q in r.queued ==> q.Obj? && |objects| <= q.id < |r.objects| && q !in r.fragments)
      && (forall k :: |objects| <= k < |r.objects| ==> Settled(r.objects[k]))
    }

    /** One pass from the scene `objects` over `fragments`: no more
        fragments than before, each an old one or a live new piece; queued
        pieces new and not kept; old objects untouched; new objects settled. */
    ghost predicate PassOver(objects: seq<Entity>, fragments: seq<Ref>, r: Pass) {
      && |objects| <= |r.objects|
      && |r.fragments| <= |fragments|
      && (forall k :: 0 <= k < |objects| ==> r.objects[k] == objects[k])
      && (forall f :: f in r.fragments ==>
            f in fragments || (f.Obj? && |objects| <= f.id < |r.objects| && !r.objects[f.id].destroyed))
      && (forall q :: q in r.queued ==> q.Obj? && |objects| <= q.id < |r.objects| && q !in r.fragments)
      && (forall k :: |objects| <= k < |r.objects| ==> Settled(r.objects[k]))
    }

    /** A pass over at most one fragment replaces it by the piece its cuts
        end with. */
    lemma CarveAllSettles(objects: seq<Entity>, fragments: seq<Ref>, seeds: seq<Vec3>, i: nat, engine: Engine)
      requires i < |seeds| && AllValidRefs(fragments, objects) && |fragments| <= 1
      ensures PassOver(objects, fragments, CarveAll(objects, fragments, seeds, i, engine))
    {
      if fragments != [] {
        assert fragments[..0] == [];
        var f := fragments[0];
        if f.Obj? {
          CarveAlongSettles(objects, f, SlicePlanesFor(seeds, i), seeds[i], engine);
        }
      }
    }

    /** The passes so far followed by one more pass. */
    lemma PassChain(objects: seq<Entity>, start: Ref, p: Pass, q: Pass)
      requires PassFrom(objects, start, p) && PassOver(p.objects, p.fragments, q)
      ensures PassFrom(objects, start, Pass(q.objects, q.fragments, p.queued + q.queued))
    {
    }

    /** Every number of passes keeps at most one fragment: the object itself
        or a live new piece. The pieces queued are new and not kept, the old
        objects are untouched and every new object is settled. */
    lemma {:induction false} BreakPassesSettle(objects: seq<Entity>, start: Ref, seeds: seq<Vec3>, n: nat, engine: Engine)
      requires start.Obj? && start.id < |objects| && n <= |seeds|
      ensures PassFrom(objects, start, BreakPasses(objects, start, seeds, n, engine))
    {
      if n > 0 {
        var p := BreakPasses(objects, start, seeds, n - 1, engine);
        BreakPassesSettle(objects, start, seeds, n - 1, engine);
        CarveAllSettles(p.objects, p.fragments, seeds, n - 1, engine);
        PassChain(objects, start, p, CarveAll(p.objects, p.fragments, seeds, n - 1, engine));
      }
    }

    /** With one seed or none nothing is cut: the object is the only
        fragment. */
    lemma SingleSeedKeepsObject(objects: seq<Entity>, start: Ref, seeds: seq<Vec3>, engine: Engine)
      requires start.Obj? && start.id < |objects| && |seeds| <= 1
      ensures BreakPasses(objects, start, seeds, |seeds|, engine) == Pass(objects, [start], [])
    {
      if |seeds| == 1 {
        SingleSeedNoPlanes(seeds);
        assert BreakPasses(objects, start, seeds, 0, engine) == Pass(objects, [start], []);
        assert CarveAll(objects, [start][..0], seeds, 0, engine) == Pass(objects, [], []);
        assert CarveAlong(objects, start, [], seeds[0], engine) == Carved(objects, start, []);
        assert CarveAll(objects, [start], seeds, 0, engine) == Pass(objects, [start], []) by {
          assert [start][..0] == [];
        }
      }
    }

    /** What VoronoiBreak leaves behind: this object deactivated and
        otherwise unchanged; the other old objects destroyed exactly when they
        were queued before the break; every new object settled; at most one
        fragment, this object or a live new piece, and this object whenever
        there is at most one seed. */
    lemma FinalSceneFacts(objects: seq<Entity>, queue: seq<Ref>, seeds: seq<Vec3>, engine: Engine)
      requires gameObject < |objects| && forall q :: q in queue ==> ValidRef(q, objects)
      ensures var r := BreakPasses(objects, Obj(gameObject), seeds, |seeds|, engine);
        var s := FinalScene(objects, queue, seeds, engine);
        && s[gameObject] == objects[gameObject].(active := false)
        && (forall k :: 0 <= k < |objects| && k != gameObject ==>
              s[k] == if Obj(k) in queue then objects[k].(destroyed := true) else objects[k])
        && (forall k :: |objects| <= k < |s| ==> Settled(s[k]))
        && |r.fragments| <= 1
        && (forall f :: f in r.fragments ==>
              f == Obj(gameObject) || (f.Obj? && |objects| <= f.id < |s| && !s[f.id].destroyed && Settled(s[f.id])))
        && (|seeds| <= 1 ==> r.fragments == [Obj(gameObject)])
    {
      var r := BreakPasses(objects, Obj(gameObject), seeds, |seeds|, engine);
      BreakPassesSettle(objects, Obj(gameObject), seeds, |seeds|, engine);
      if |seeds| <= 1 {
        SingleSeedKeepsObject(objects, Obj(gameObject), seeds, engine);
      }
      forall k | 0 <= k < |objects|
        ensures Obj(k) in queue + r.queued <==> Obj(k) in queue
      {
      }
      forall f | f in r.fragments && f != Obj(gameObject)
        ensures Obj(f.id) !in queue + r.queued
      {
      }
    }

    // -------------------------------------------------------------------------
    // The break itself

    /** One cut of VoronoiBreak's innermost loop: slice the current fragment,
        keep the piece nearest the seed and queue the others. */
    method CutAndKeepClosest(current: Ref, plane: SlicePlane, seed: Vec3, engine: Engine)
      returns (next: Ref, pieces: seq<Ref>, ghost cut: Carved)
      requires Valid() && current.Obj? && current.id < |objects|
      modifies this
      ensures Valid()
      ensures var hull := SliceOf(old(objects)[current.id], plane, engine);
        && objects == old(objects) + HullEntities(hull, engine)
        && pieces == KeptRefs(hull, old(|objects|), engine)
      ensures cut == Cut(old(objects), current, plane, seed, engine)
      ensures objects == cut.objects && next == cut.cell && cut.queued == Without(pieces, next)
      ensures objectsToDestroy == old(objectsToDestroy) + cut.queued
    {
      pieces := SliceWithPlane(current, plane.point, plane.normal, engine);
      next := current;
      if |pieces| > 0 {
        next := SelectClosestFragment(pieces, seed, objects);
        QueueAllBut(pieces, next);
      }
      cut := Cut(old(objects), current, plane, seed, engine);
    }

    /** One turn of the innermost loop: the cut along planes[p] continues the
        run of cuts made along the planes before it. */
    method CarveStep(ghost start: seq<Entity>, fragment: Ref, planes: seq<SlicePlane>, p: nat, seed: Vec3,
                     engine: Engine, cell: Ref, ghost queued: seq<Ref>, ghost q0: seq<Ref>)
      returns (next: Ref, ghost queuedNext: seq<Ref>)
      requires Valid() && fragment.Obj? && fragment.id < |start| && p < |planes|
      requires var c := CarveAlong(start, fragment, planes[..p], seed, engine);
        objects == c.objects && cell == c.cell && queued == c.queued
      requires objectsToDestroy == q0 + queued
      modifies this
      ensures Valid()
      ensures var c := CarveAlong(start, fragment, planes[..p + 1], seed, engine);
        objects == c.objects && next == c.cell && queuedNext == c.queued
      ensures objectsToDestroy == q0 + queuedNext
    {
      CarveAlongStep(start, fragment, planes, p, seed, engine);
      var pieces;
      ghost var cut;
      next, pieces, cut := CutAndKeepClosest(cell, planes[p], seed, engine);
      queuedNext := queued + cut.queued;
      AppendAssociates(q0, queued, cut.queued);
    }

    /** The innermost loop of VoronoiBreak for one fragment and one seed:
        cut along every plane of the seed, following the kept piece. */
    method CarveCell(fragment: Ref, seedPoints: seq<Vec3>, i: nat, engine: Engine)
      returns (cell: Ref, ghost queued: seq<Ref>)
      requires Valid() && fragment.Obj? && fragment.id < |objects| && i < |seedPoints|
      modifies this
      ensures Valid()
      ensures var c := CarveAlong(old(objects), fragment, SlicePlanesFor(seedPoints, i), seedPoints[i], engine);
        objects == c.objects && cell == c.cell && queued == c.queued
      ensures objectsToDestroy == old(objectsToDestroy) + queued
    {
      var slicePlanes := GetSlicePlanesForSeed(seedPoints, i, objects[fragment.id].position);
      cell := fragment;
      queued := [];
      assert slicePlanes[..0] == [];
      for p := 0 to |slicePlanes|
        invariant Valid()
        invariant var c := CarveAlong(old(objects), fragment, slicePlanes[..p], seedPoints[i], engine);
          objects == c.objects && cell == c.cell && queued == c.queued
        invariant objectsToDestroy == old(objectsToDestroy) + queued
      {
        cell, queued := CarveStep(old(objects), fragment, slicePlanes, p, seedPoints[i], engine, cell, queued, old(objectsToDestroy));
      }
      assert slicePlanes[..|slicePlanes|] == slicePlanes;
    }

    /** CleanupObjects: destroy every queued object except this one, then
        empty the queue. */
    method CleanupObjects()
      requires Valid()
      modifies this
      ensures Valid()
      ensures objectsToDestroy == []
      ensures objects == CleanedUp(old(objects), old(objectsToDestroy))
      ensures forall k :: 0 <= k < |objects| ==>
        objects[k] == if Obj(k) in old(objectsToDestroy) && k != gameObject
                      then old(objects[k]).(destroyed := true) else old(objects[k])
    {
      for i := 0 to |objectsToDestroy|
        invariant Valid()
        invariant |objects| == old(|objects|) && objectsToDestroy == old(objectsToDestroy)
        invariant forall k :: 0 <= k < |objects| ==>
          objects[k] == if Obj(k) in objectsToDestroy[..i] && k != gameObject
                        then old(objects[k]).(destroyed := true) else old(objects[k])
      {
        var obj := objectsToDestroy[i];
        assert obj in objectsToDestroy;
        assert objectsToDestroy[..i + 1] == objectsToDestroy[..i] + [obj];
        if obj != Null && obj != Obj(gameObject) {
          objects := objects[obj.id := objects[obj.id].(destroyed := true)];
        }
      }
      assert objectsToDestroy[..|objectsToDestroy|] == objectsToDestroy;
      assert objects == CleanedUp(old(objects), old(objectsToDestroy));
      objectsToDestroy := [];
    }

    /** The middle loop of VoronoiBreak for seed i: carve every non-null
        fragment and collect the pieces the carving ends with. */
    method CarvePass(fragments: seq<Ref>, seedPoints: seq<Vec3>, i: nat, engine: Engine)
      returns (newFragments: seq<Ref>, ghost queued: seq<Ref>)
      requires Valid() && i < |seedPoints| && AllValidRefs(fragments, objects)
      modifies this
      ensures Valid()
      ensures var q := CarveAll(old(objects), fragments, seedPoints, i, engine);
        objects == q.objects && newFragments == q.fragments && queued == q.queued
      ensures objectsToDestroy == old(objectsToDestroy) + queued
    {
      newFragments, queued := [], [];
      assert fragments[..0] == [];
      for j := 0 to |fragments|
        invariant Valid()
        invariant var q := CarveAll(old(objects), fragments[..j], seedPoints, i, engine);
          objects == q.objects && newFragments == q.fragments && queued == q.queued
        invariant objectsToDestroy == old(objectsToDestroy) + queued
      {
        CarveAllStep(old(objects), fragments, seedPoints, i, j, engine);
        var fragment := fragments[j];
        if fragment == Null {
          continue;
        }
        var currentFragment, dropped := CarveCell(fragment, seedPoints, i, engine);
        if currentFragment != Null {
          newFragments := newFragments + [currentFragment];
        }
        AppendAssociates(old(objectsToDestroy), queued, dropped);
        queued := queued + dropped;
      }
      assert fragments[..|fragments|] == fragments;
    }

    /** The outer loop of VoronoiBreak: one pass per seed, starting from
        this object alone. */
    method MakePasses(seeds: seq<Vec3>, engine: Engine) returns (fragments: seq<Ref>)
      requires Valid()
      modifies this
      ensures Valid()
      ensures var r := BreakPasses(old(objects), Obj(gameObject), seeds, |seeds|, engine);
        objects == r.objects && fragments == r.fragments && objectsToDestroy == old(objectsToDestroy) + r.queued
    {
      fragments := [Obj(gameObject)];
      for i := 0 to |seeds|
        invariant Valid()
        invariant var r := BreakPasses(old(objects), Obj(gameObject), seeds, i, engine);
          objects == r.objects && fragments == r.fragments && objectsToDestroy == old(objectsToDestroy) + r.queued
      {
        ghost var r := BreakPasses(old(objects), Obj(gameObject), seeds, i, engine);
        var newFragments, queuedNow := CarvePass(fragments, seeds, i, engine);
        AppendAssociates(old(objectsToDestroy), r.queued, queuedNow);
        fragments := newFragments;
      }
    }

    /** VoronoiBreak, up to the physics it applies to the result: the
        fragments left at the end are returned. `colliderBounds` are the
        bounds of this object's collider and `draws` the random source. */
    method VoronoiBreak(info: DamageInfo, colliderBounds: Bounds, draws: seq<Vec3>, engine: Engine)
      returns (fragments: seq<Ref>)
      requires Valid()
      requires |draws| >= fragmentCount && forall k :: 0 <= k < |draws| ==> UnitDraw(draws[k])
      modifies this
      ensures Valid()
      ensures var seeds := SeedsFor(colliderBounds, draws, fragmentCount);
        && fragments == BreakPasses(old(objects), Obj(gameObject), seeds, |seeds|, engine).fragments
        && objects == FinalScene(old(objects), old(objectsToDestroy), seeds, engine)
      ensures objectsToDestroy == []
      ensures |fragments| <= 1
      ensures fragmentCount <= 1 ==> fragments == [Obj(gameObject)]
      ensures forall f :: f in fragments ==>
        f == Obj(gameObject) ||
        (f.Obj? && old(|objects|) <= f.id < |objects| && !objects[f.id].destroyed && Settled(objects[f.id]))
      ensures objects[gameObject] == old(objects[gameObject]).(active := false)
      ensures forall k :: 0 <= k < old(|objects|) && k != gameObject ==>
        objects[k] == if Obj(k) in old(objectsToDestroy) then old(objects[k]).(destroyed := true) else old(objects[k])
      ensures forall k :: old(|objects|) <= k < |objects| ==> Settled(objects[k])
    {
      var seedPoints := GenerateVoronoiSeeds(info.hitPoint, fragmentCount, colliderBounds, draws);
      ghost var seeds := seedPoints[..];
      ghost var o0, q0 := objects, objectsToDestroy;
      fragments := MakePasses(seedPoints[..], engine);
      CleanupObjects();
      objects := objects[gameObject := objects[gameObject].(active := false)];
      FinalSceneFacts(o0, q0, seeds, engine);
    }
  }
}
