/** The geometric tests VoronoiBreakable applies to a slice before keeping it
    and before giving it a convex mesh collider: the fragment validator, the
    order-preserving vertex de-duplication, and the flatness test. Each test is
    a method with the source's loop, proved equal to a predicate that says
    what the test decides; the lemmas below state what those predicates mean. */
module MeshChecks {
  import opened Wrappers
  import opened Geometry

  /** A Unity mesh as the tests see it: vertices, the flat triangle index
      list, and the stored bounds. */
  datatype Mesh = Mesh(vertices: seq<Vec3>, triangles: seq<int>, bounds: Bounds)

  /** 0.001 units, squared: vertices closer than this are one point. */
  const SameVertexSqr: real := 0.000001

  /** 0.01 units, squared: a vertex at least this far off a plane gives volume. */
  const OffPlaneSqr: real := 0.0001

  /** Four triangles of three indices each. */
  const MinTriangleIndices: int := 12

  /** Vector3.Distance(a, b) < 0.001 */
  predicate Near(a: Vec3, b: Vec3) {
    SqrDist(a, b) < SameVertexSqr
  }

  lemma NearSymmetric(a: Vec3, b: Vec3)
    ensures Near(a, b) <==> Near(b, a)
  {
    SqrDistSymmetric(a, b);
  }

  // ---------------------------------------------------------------------------
  // IsValidFragment

  /** No vertex after the first lies more than 0.001 from the first. */
  predicate AllNearFirst(vs: seq<Vec3>)
    requires |vs| > 0
  {
    forall i :: 1 <= i < |vs| ==> SqrDist(vs[i], vs[0]) <= SameVertexSqr
  }

  /** bounds.size.magnitude < minimumFragmentSize, compared squared: a length
      is never negative, so nothing is too small for a bound of 0 or less. */
  predicate TooSmall(size: Vec3, minimumFragmentSize: real) {
    minimumFragmentSize > 0.0 && SqrLen(size) < minimumFragmentSize * minimumFragmentSize
  }

  /** A slice is kept unless one of five things holds: it has no mesh, too
      few vertices, fewer than 12 triangle indices, a bounds diagonal below
      the minimum size, or all its vertices within 0.001 of the first. */
  predicate ValidFragment(mesh: Option<Mesh>, minimumVertexCount: int, minimumFragmentSize: real) {
    && mesh.Some?
    && |mesh.value.vertices| >= minimumVertexCount
    && |mesh.value.triangles| >= MinTriangleIndices
    && !TooSmall(mesh.value.bounds.Size(), minimumFragmentSize)
    && !(|mesh.value.vertices| > 0 && AllNearFirst(mesh.value.vertices))
  }

  method IsValidFragment(mesh: Option<Mesh>, minimumVertexCount: int, minimumFragmentSize: real)
    returns (valid: bool)
    ensures valid <==> ValidFragment(mesh, minimumVertexCount, minimumFragmentSize)
  {
    if mesh.None? {
      return false;
    }
    var m := mesh.value;
    if |m.vertices| < minimumVertexCount {
      return false;
    }
    if |m.triangles| < MinTriangleIndices {
      return false;
    }
    if TooSmall(m.bounds.Size(), minimumFragmentSize) {
      return false;
    }
    var vertices := m.vertices;
    if |vertices| > 0 {
      var firstVertex := vertices[0];
      var allSamePosition := true;
      var i := 1;
      while i < |vertices|
        invariant 1 <= i <= |vertices|
        invariant allSamePosition
        invariant forall k :: 1 <= k < i ==> SqrDist(vertices[k], firstVertex) <= SameVertexSqr
      {
        if SqrDist(vertices[i], firstVertex) > SameVertexSqr {
          allSamePosition := false;
          break;
        }
        i := i + 1;
      }
      if allSamePosition {
        return false;
      }
    }
    return true;
  }

  // ---------------------------------------------------------------------------
  // GetUniqueVertices

  /** Some vertex of u lies within 0.001 of v. */
  predicate NearAny(v: Vec3, u: seq<Vec3>) {
    exists k :: 0 <= k < |u| && Near(v, u[k])
  }

  /** The vertices kept by one left-to-right pass that drops every vertex
      within 0.001 of one already kept. */
  function Unique(vs: seq<Vec3>): seq<Vec3>
    decreases |vs|
  {
    if vs == [] then []
    else
      var kept := Unique(vs[..|vs| - 1]);
      if NearAny(vs[|vs| - 1], kept) then kept else kept + [vs[|vs| - 1]]
  }

  method GetUniqueVertices(vertices: seq<Vec3>) returns (unique: seq<Vec3>)
    ensures unique == Unique(vertices)
  {
    unique := [];
    var i := 0;
    while i < |vertices|
      invariant 0 <= i <= |vertices|
      invariant unique == Unique(vertices[..i])
    {
      var vertex := vertices[i];
      var isDuplicate := false;
      var j := 0;
      while j < |unique|
        invariant 0 <= j <= |unique|
        invariant !isDuplicate
        invariant forall k :: 0 <= k < j ==> !Near(vertex, unique[k])
      {
        if SqrDist(vertex, unique[j]) < SameVertexSqr {
          isDuplicate := true;
          break;
        }
        j := j + 1;
      }
      assert isDuplicate <==> NearAny(vertex, unique);
      assert vertices[..i + 1][..i] == vertices[..i];
      if !isDuplicate {
        unique := unique + [vertex];
      }
      i := i + 1;
    }
    assert vertices[..i] == vertices;
  }

  /** a is b with some elements left out, in the same order. */
  predicate IsSubsequence(a: seq<Vec3>, b: seq<Vec3>)
    decreases |b|
  {
    a == [] ||
    (b != [] &&
     ((a[|a| - 1] == b[|b| - 1] && IsSubsequence(a[..|a| - 1], b[..|b| - 1])) ||
      IsSubsequence(a, b[..|b| - 1])))
  }

  lemma {:induction false} SubsequenceNoLonger(a: seq<Vec3>, b: seq<Vec3>)
    requires IsSubsequence(a, b)
    ensures |a| <= |b|
    decreases |b|
  {
    if a != [] {
      if a[|a| - 1] == b[|b| - 1] && IsSubsequence(a[..|a| - 1], b[..|b| - 1]) {
        SubsequenceNoLonger(a[..|a| - 1], b[..|b| - 1]);
      } else {
        SubsequenceNoLonger(a, b[..|b| - 1]);
      }
    }
  }

  /** Unique(vs) keeps a prefix of what it kept for any longer input. */
  lemma {:induction false} UniqueGrows(vs: seq<Vec3>, n: nat)
    requires n <= |vs|
    ensures |Unique(vs[..n])| <= |Unique(vs)|
    ensures Unique(vs[..n]) == Unique(vs)[..|Unique(vs[..n])|]
    decreases |vs|
  {
    if n < |vs| {
      var p := vs[..|vs| - 1];
      assert p[..n] == vs[..n];
      UniqueGrows(p, n);
    } else {
      assert vs[..n] == vs;
    }
  }

  /** De-duplication returns an order-preserving selection of its input,
      hence never a longer one. */
  lemma {:induction false} UniqueIsSubsequence(vs: seq<Vec3>)
    ensures IsSubsequence(Unique(vs), vs)
    ensures |Unique(vs)| <= |vs|
    decreases |vs|
  {
    if vs != [] {
      var p := vs[..|vs| - 1];
      UniqueIsSubsequence(p);
      var kept := Unique(p);
      if NearAny(vs[|vs| - 1], kept) {
        assert IsSubsequence(kept, vs);
      } else {
        assert (kept + [vs[|vs| - 1]])[..|kept|] == kept;
        assert IsSubsequence(kept + [vs[|vs| - 1]], vs);
      }
      SubsequenceNoLonger(Unique(vs), vs);
    }
  }

  /** The first vertex is always kept, in first place. */
  lemma {:induction false} UniqueKeepsFirst(vs: seq<Vec3>)
    requires |vs| > 0
    ensures |Unique(vs)| > 0 && Unique(vs)[0] == vs[0]
  {
    UniqueGrows(vs, 1);
    var one := vs[..1];
    assert one[..0] == [];
    assert !NearAny(vs[0], Unique(one[..0]));
  }

  /** Every kept vertex lies at least 0.001 from every vertex kept before it. */
  predicate Separated(u: seq<Vec3>) {
    forall i, j :: 0 <= i < j < |u| ==> !Near(u[j], u[i])
  }

  lemma {:induction false} UniqueSeparated(vs: seq<Vec3>)
    ensures Separated(Unique(vs))
    decreases |vs|
  {
    if vs != [] {
      UniqueSeparated(vs[..|vs| - 1]);
    }
  }

  /** Kept vertices are pairwise at least 0.001 apart, in either order. */
  lemma UniquePairwiseApart(vs: seq<Vec3>, i: nat, j: nat)
    requires i < |Unique(vs)| && j < |Unique(vs)| && i != j
    ensures !Near(Unique(vs)[i], Unique(vs)[j])
  {
    UniqueSeparated(vs);
    var u := Unique(vs);
    if i < j {
      NearSymmetric(u[i], u[j]);
    }
  }

  /** Every input vertex lies within 0.001 of some kept vertex. */
  lemma {:induction false} UniqueCovers(vs: seq<Vec3>, i: nat)
    requires i < |vs|
    ensures NearAny(vs[i], Unique(vs))
    decreases |vs|
  {
    var last := |vs| - 1;
    var kept := Unique(vs[..last]);
    if i < last {
      UniqueCovers(vs[..last], i);
      var k :| 0 <= k < |kept| && Near(vs[..last][i], kept[k]);
      assert Unique(vs)[k] == kept[k];
    } else if !NearAny(vs[i], kept) {
      assert Near(vs[i], Unique(vs)[|kept|]);
    }
  }

  /** A separated sequence is left as it is. */
  lemma {:induction false} SeparatedIsFixpoint(s: seq<Vec3>)
    requires Separated(s)
    ensures Unique(s) == s
    decreases |s|
  {
    if s != [] {
      var p, last := s[..|s| - 1], s[|s| - 1];
      assert Separated(p);
      SeparatedIsFixpoint(p);
      forall k | 0 <= k < |p|
        ensures !Near(last, p[k])
      {
        assert p[k] == s[k];
      }
      assert !NearAny(last, p);
      assert Unique(s) == Unique(p) + [last];
      assert p + [last] == s;
    }
  }

  /** De-duplicating twice gives what de-duplicating once gives. */
  lemma UniqueIdempotent(vs: seq<Vec3>)
    ensures Unique(Unique(vs)) == Unique(vs)
  {
    UniqueSeparated(vs);
    SeparatedIsFixpoint(Unique(vs));
  }

  // ---------------------------------------------------------------------------
  // IsVolumeMesh

  /** The normal of the plane through the first three points, before its
      length is made 1. */
  function PlaneNormal(vs: seq<Vec3>): Vec3
    requires |vs| >= 3
  {
    Cross(Sub(vs[1], vs[0]), Sub(vs[2], vs[0]))
  }

  /** |Dot(d, n.normalized)| > 0.01, compared squared. A normal no longer
      than 1e-5 normalises to the zero vector and so never passes. */
  predicate OffPlane(d: Vec3, n: Vec3) {
    SqrLen(n) > NormalizeMinSqr && Dot(d, n) * Dot(d, n) > OffPlaneSqr * SqrLen(n)
  }

  lemma ScaleLength(n: Vec3, k: real)
    ensures SqrLen(Scale(n, k)) == (k * k) * SqrLen(n)
  {
    assert (n.x * k) * (n.x * k) == (k * k) * (n.x * n.x);
    assert (n.y * k) * (n.y * k) == (k * k) * (n.y * n.y);
    assert (n.z * k) * (n.z * k) == (k * k) * (n.z * n.z);
  }

  lemma ScaleDot(d: Vec3, n: Vec3, k: real)
    ensures Dot(d, Scale(n, k)) == k * Dot(d, n)
  {
  }

  /** The squared test is the source's test on Unity's normalised normal u,
      whichever u that is. */
  lemma OffPlaneIsNormalizedTest(d: Vec3, n: Vec3, u: Vec3)
    requires NormalizedOf(u, n)
    ensures OffPlane(d, n) <==> Dot(d, u) * Dot(d, u) > OffPlaneSqr
  {
    if SqrLen(n) > NormalizeMinSqr {
      var k: real :| k > 0.0 && u == Scale(n, k);
      var a := Dot(d, n) * Dot(d, n);
      ScaleLength(n, k);
      ScaleDot(d, n, k);
      assert Dot(d, u) * Dot(d, u) == (k * k) * a;
      assert (k * k) * SqrLen(n) == 1.0;
      assert (k * k) * a * SqrLen(n) == a * ((k * k) * SqrLen(n));
    } else {
      assert u == Zero;
    }
  }

  /** At least four points, and one from the fourth on stands more than 0.01
      off the plane of the first three. */
  predicate IsVolume(vs: seq<Vec3>) {
    |vs| >= 4 && exists i :: 3 <= i < |vs| && OffPlane(Sub(vs[i], vs[0]), PlaneNormal(vs))
  }

  method IsVolumeMesh(vertices: seq<Vec3>) returns (volume: bool)
    ensures volume == IsVolume(vertices)
  {
    if |vertices| < 4 {
      return false;
    }
    var v1 := vertices[0];
    var normal := PlaneNormal(vertices);
    var i := 3;
    while i < |vertices|
      invariant 3 <= i <= |vertices|
      invariant forall k :: 3 <= k < i ==> !OffPlane(Sub(vertices[k], v1), normal)
    {
      if OffPlane(Sub(vertices[i], v1), normal) {
        return true;
      }
      i := i + 1;
    }
    return false;
  }

  /** A mesh found to have volume has three leading points that are not
      even nearly collinear: their normal is longer than 1e-5, since a
      shorter one normalises to zero and no point is then off the plane. */
  lemma VolumeHasNormal(vs: seq<Vec3>)
    requires IsVolume(vs)
    ensures SqrLen(PlaneNormal(vs)) > NormalizeMinSqr
    ensures PlaneNormal(vs) != Zero
  {
    var i :| 3 <= i < |vs| && OffPlane(Sub(vs[i], vs[0]), PlaneNormal(vs));
  }

  // ---------------------------------------------------------------------------
  // IsValidMeshForCollider

  /** The mesh may get a convex MeshCollider: it exists, has at least 4
      vertices and 12 triangle indices, at least 4 vertices survive
      de-duplication, those have volume, and the engine's own convex test
      accepts it. */
  predicate MeshColliderOk(mesh: Option<Mesh>, physxTest: Mesh -> bool) {
    && mesh.Some?
    && |mesh.value.vertices| >= 4
    && |mesh.value.triangles| >= MinTriangleIndices
    && |Unique(mesh.value.vertices)| >= 4
    && IsVolume(Unique(mesh.value.vertices))
    && physxTest(mesh.value)
  }

  method IsValidMeshForCollider(mesh: Option<Mesh>, physxTest: Mesh -> bool) returns (ok: bool)
    ensures ok == MeshColliderOk(mesh, physxTest)
  {
    if mesh.None? {
      return false;
    }
    var m := mesh.value;
    if |m.vertices| < 4 || |m.triangles| < MinTriangleIndices {
      return false;
    }
    var uniqueVertices := GetUniqueVertices(m.vertices);
    if |uniqueVertices| < 4 {
      return false;
    }
    var volume := IsVolumeMesh(uniqueVertices);
    if !volume {
      return false;
    }
    ok := physxTest(m);
  }

  /** A mesh accepted for a convex collider has at least four vertices,
      taken in order from its own, pairwise at least 0.001 apart, the first
      three of them not collinear. */
  lemma ColliderMeshHasSpread(m: Mesh, physxTest: Mesh -> bool)
    requires MeshColliderOk(Some(m), physxTest)
    ensures var u := Unique(m.vertices);
      && 4 <= |u| <= |m.vertices|
      && IsSubsequence(u, m.vertices)
      && Separated(u)
      && SqrLen(PlaneNormal(u)) > NormalizeMinSqr
  {
    UniqueIsSubsequence(m.vertices);
    UniqueSeparated(m.vertices);
    VolumeHasNormal(Unique(m.vertices));
  }
}
