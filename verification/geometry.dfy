/** Vectors and axis-aligned boxes over the reals, standing in for Unity's
    Vector3 and Bounds. Lengths are never taken: every comparison of a
    distance with a threshold is made between squares. */
module Geometry {

  datatype Vec3 = Vec3(x: real, y: real, z: real)

  const Zero: Vec3 := Vec3(0.0, 0.0, 0.0)

  /** Unity's Vector3.forward. */
  const Forward: Vec3 := Vec3(0.0, 0.0, 1.0)

  function Add(a: Vec3, b: Vec3): Vec3 {
    Vec3(a.x + b.x, a.y + b.y, a.z + b.z)
  }

  function Sub(a: Vec3, b: Vec3): Vec3 {
    Vec3(a.x - b.x, a.y - b.y, a.z - b.z)
  }

  function Scale(a: Vec3, k: real): Vec3 {
    Vec3(a.x * k, a.y * k, a.z * k)
  }

  function Dot(a: Vec3, b: Vec3): real {
    a.x * b.x + a.y * b.y + a.z * b.z
  }

  function Cross(a: Vec3, b: Vec3): Vec3 {
    Vec3(a.y * b.z - a.z * b.y, a.z * b.x - a.x * b.z, a.x * b.y - a.y * b.x)
  }

  /** The square of Vector3.magnitude. */
  function SqrLen(a: Vec3): real {
    Dot(a, a)
  }

  /** The square of Vector3.Distance. */
  function SqrDist(a: Vec3, b: Vec3): real {
    SqrLen(Sub(a, b))
  }

  /** (a + b) * 0.5 */
  function Midpoint(a: Vec3, b: Vec3): Vec3 {
    Scale(Add(a, b), 0.5)
  }

  /** A product of two non-negative reals is non-negative. */
  lemma ProductNonNegative(t: real, d: real)
    requires 0.0 <= t && 0.0 <= d
    ensures 0.0 <= t * d
  {
  }

  /** 1e-5 units, squared: Vector3.normalized returns the zero vector for
      anything no longer than this. */
  const NormalizeMinSqr: real := 0.0000000001

  /** u is what Unity's Vector3.normalized gives for d: the zero vector when
      d is no longer than 1e-5, otherwise a positive multiple of d of length 1. */
  ghost predicate NormalizedOf(u: Vec3, d: Vec3) {
    if SqrLen(d) > NormalizeMinSqr then
      SqrLen(u) == 1.0 && exists k: real :: k > 0.0 && u == Scale(d, k)
    else
      u == Zero
  }

  lemma SqrDistSymmetric(a: Vec3, b: Vec3)
    ensures SqrDist(a, b) == SqrDist(b, a)
  {
    assert (a.x - b.x) * (a.x - b.x) == (b.x - a.x) * (b.x - a.x);
    assert (a.y - b.y) * (a.y - b.y) == (b.y - a.y) * (b.y - a.y);
    assert (a.z - b.z) * (a.z - b.z) == (b.z - a.z) * (b.z - a.z);
  }

  /** Unity's Bounds: a centre and non-negative half-sizes. */
  datatype Bounds = Bounds(center: Vec3, extents: Vec3) {
    predicate WellFormed() {
      extents.x >= 0.0 && extents.y >= 0.0 && extents.z >= 0.0
    }

    function Min(): Vec3 { Sub(center, extents) }

    function Max(): Vec3 { Add(center, extents) }

    /** Bounds.size, twice the extents. */
    function Size(): Vec3 { Scale(extents, 2.0) }

    predicate Contains(p: Vec3) {
      && Min().x <= p.x <= Max().x
      && Min().y <= p.y <= Max().y
      && Min().z <= p.z <= Max().z
    }
  }
}
