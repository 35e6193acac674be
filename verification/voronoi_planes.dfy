/** Seed placement and the bisector planes between seeds: the first two steps
    of VoronoiBreakable's approximate Voronoi break. */
module VoronoiPlanes {
  import opened Geometry

  /** VoronoiBreakable.SlicePlane. The normal is kept at the length of the
      difference of the two seeds; Unity makes it unit length, which moves no
      point from one side of the plane to the other. */
  datatype SlicePlane = SlicePlane(point: Vec3, normal: Vec3)

  // ---------------------------------------------------------------------------
  // GenerateVoronoiSeeds

  /** A draw of the random source: one number in [0, 1] per axis. */
  predicate UnitDraw(t: Vec3) {
    0.0 <= t.x <= 1.0 && 0.0 <= t.y <= 1.0 && 0.0 <= t.z <= 1.0
  }

  /** Random.Range(lo, hi) for the draw t. */
  function Range(lo: real, hi: real, t: real): real {
    lo + t * (hi - lo)
  }

  /** A draw in [0, 1] lands between the two ends of the range. */
  lemma RangeWithin(lo: real, hi: real, t: real)
    requires lo <= hi && 0.0 <= t <= 1.0
    ensures lo <= Range(lo, hi, t) <= hi
  {
    ProductNonNegative(t, hi - lo);
    assert (hi - lo) - t * (hi - lo) == (1.0 - t) * (hi - lo);
    ProductNonNegative(1.0 - t, hi - lo);
  }

  /** The seed the source builds from one draw: a point of the bounds. */
  function SeedFromDraw(bounds: Bounds, t: Vec3): Vec3 {
    Vec3(Range(bounds.Min().x, bounds.Max().x, t.x),
         Range(bounds.Min().y, bounds.Max().y, t.y),
         Range(bounds.Min().z, bounds.Max().z, t.z))
  }

  /** The seeds drawn for `count` fragments: seed k comes from draw k. */
  function SeedsFor(bounds: Bounds, draws: seq<Vec3>, count: nat): (seeds: seq<Vec3>)
    requires |draws| >= count
    ensures |seeds| == count
  {
    seq(count, k requires 0 <= k < count => SeedFromDraw(bounds, draws[k]))
  }

  /** Fills a new array with `count` seeds drawn inside the collider bounds.
      `center` is not used, as in the source; `draws` is the random source. */
  method GenerateVoronoiSeeds(center: Vec3, count: nat, bounds: Bounds, draws: seq<Vec3>)
    returns (seeds: array<Vec3>)
    requires |draws| >= count
    requires forall k :: 0 <= k < |draws| ==> UnitDraw(draws[k])
    ensures seeds.Length == count && seeds[..] == SeedsFor(bounds, draws, count)
    ensures bounds.WellFormed() ==> forall k :: 0 <= k < count ==> bounds.Contains(seeds[k])
  {
    seeds := new Vec3[count];
    for i := 0 to count
      invariant forall k :: 0 <= k < i ==> seeds[k] == SeedFromDraw(bounds, draws[k])
      invariant bounds.WellFormed() ==> forall k :: 0 <= k < i ==> bounds.Contains(seeds[k])
    {
      seeds[i] := Vec3(
        Range(bounds.Min().x, bounds.Max().x, draws[i].x),
        Range(bounds.Min().y, bounds.Max().y, draws[i].y),
        Range(bounds.Min().z, bounds.Max().z, draws[i].z));
      if bounds.WellFormed() {
        RangeWithin(bounds.Min().x, bounds.Max().x, draws[i].x);
        RangeWithin(bounds.Min().y, bounds.Max().y, draws[i].y);
        RangeWithin(bounds.Min().z, bounds.Max().z, draws[i].z);
      }
    }
    assert seeds[..] == SeedsFor(bounds, draws, count);
  }

  // ---------------------------------------------------------------------------
  // GetSlicePlanesForSeed

  /** The j-th seed index other than `current`, counting up from 0. */
  function OtherSeed(current: nat, j: nat): (k: nat)
    ensures k != current
    ensures k == j || k == j + 1
  {
    if j < current then j else j + 1
  }

  /** Every index other than `current` below n is reached by exactly one j,
      and larger j reach larger indices. */
  lemma OtherSeedEnumerates(current: nat, n: nat, k: nat)
    requires current < n && k < n && k != current
    ensures var j := if k < current then k else k - 1;
      j < n - 1 && OtherSeed(current, j) == k
  {
  }

  lemma OtherSeedIncreasing(current: nat, j1: nat, j2: nat)
    requires j1 < j2
    ensures OtherSeed(current, j1) < OtherSeed(current, j2)
  {
  }

  /** The plane half way between a and b, its normal pointing from b to a. */
  function Bisector(a: Vec3, b: Vec3): SlicePlane {
    SlicePlane(Midpoint(a, b), Sub(a, b))
  }

  /** Which side of the plane p is on, scaled by the normal's length. */
  function Side(p: Vec3, plane: SlicePlane): real {
    Dot(Sub(p, plane.point), plane.normal)
  }

  /** The bisector splits space by nearness: twice the side of any point is
      its squared distance to b less its squared distance to a. */
  lemma BisectorSide(a: Vec3, b: Vec3, p: Vec3)
    ensures 2.0 * Side(p, Bisector(a, b)) == SqrDist(p, b) - SqrDist(p, a)
  {
    var m := Midpoint(a, b);
    assert (p.x - m.x) * (a.x - b.x) * 2.0 == (p.x - b.x) * (p.x - b.x) - (p.x - a.x) * (p.x - a.x);
    assert (p.y - m.y) * (a.y - b.y) * 2.0 == (p.y - b.y) * (p.y - b.y) - (p.y - a.y) * (p.y - a.y);
    assert (p.z - m.z) * (a.z - b.z) * 2.0 == (p.z - b.z) * (p.z - b.z) - (p.z - a.z) * (p.z - a.z);
  }

  /** Points strictly on the normal's side are exactly those nearer to a than
      to b; the plane itself holds the points equally far from both. */
  lemma BisectorSeparates(a: Vec3, b: Vec3, p: Vec3)
    ensures Side(p, Bisector(a, b)) > 0.0 <==> SqrDist(p, a) < SqrDist(p, b)
    ensures Side(p, Bisector(a, b)) == 0.0 <==> SqrDist(p, a) == SqrDist(p, b)
    ensures Side(Midpoint(a, b), Bisector(a, b)) == 0.0
  {
    BisectorSide(a, b, p);
    BisectorSide(a, b, Midpoint(a, b));
  }

  /** Coincident seeds are not skipped: their plane has a zero normal. */
  lemma CoincidentSeedsZeroNormal(a: Vec3)
    ensures Bisector(a, a).normal == Zero && Bisector(a, a).point == a
  {
  }

  /** The planes cut for seed `current`: the bisector with every other seed,
      in index order. */
  function SlicePlanesFor(seeds: seq<Vec3>, current: nat): (planes: seq<SlicePlane>)
    requires current < |seeds|
    ensures |planes| == |seeds| - 1
  {
    seq(|seeds| - 1, j requires 0 <= j < |seeds| - 1 => Bisector(seeds[current], seeds[OtherSeed(current, j)]))
  }

  /** A single seed has no other seed to cut against. */
  lemma SingleSeedNoPlanes(seeds: seq<Vec3>)
    requires |seeds| == 1
    ensures SlicePlanesFor(seeds, 0) == []
  {
  }

  /** The planes for seed `currentSeedIndex`: one per other seed, in index
      order. `fragmentCenter` is not used, as in the source. */
  method GetSlicePlanesForSeed(seeds: seq<Vec3>, currentSeedIndex: nat, fragmentCenter: Vec3)
    returns (planes: seq<SlicePlane>)
    requires currentSeedIndex < |seeds|
    ensures planes == SlicePlanesFor(seeds, currentSeedIndex)
  {
    planes := [];
    var currentSeed := seeds[currentSeedIndex];
    for i := 0 to |seeds|
      invariant |planes| == if i <= currentSeedIndex then i else i - 1
      invariant forall j :: 0 <= j < |planes| ==>
        planes[j] == Bisector(currentSeed, seeds[OtherSeed(currentSeedIndex, j)])
    {
      if i == currentSeedIndex {
        continue;
      }
      var otherSeed := seeds[i];
      var midPoint := Scale(Add(currentSeed, otherSeed), 0.5);
      var normal := Sub(currentSeed, otherSeed);
      planes := planes + [SlicePlane(midPoint, normal)];
    }
    assert planes == SlicePlanesFor(seeds, currentSeedIndex);
  }
}
