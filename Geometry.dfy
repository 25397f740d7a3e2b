/** The vector values the subdivision works on. UV coordinates are plain
    arithmetic and are computed exactly (as reals); sphere points need a square
    root for `.normalized`, so a point is kept as the term that computes it. */
module Geometry {

  /** A Unity Vector3 given by literal coordinates (the icosahedron corners). */
  datatype Vector3 = Vector3(x: real, y: real, z: real)

  /** A Unity Vector2 texture coordinate. */
  datatype Vector2 = Vector2(u: real, v: real)

  /** A point emitted on the sphere: either a literal corner, or
      `(a + b).normalized`, the unit vector through the sum of two points. */
  datatype Point = Corner(position: Vector3) | NormalizedSum(a: Point, b: Point)

  function SquaredLength(p: Vector3): real
  {
    p.x * p.x + p.y * p.y + p.z * p.z
  }

  /** The texture atlas spans the unit square. */
  predicate InUnitSquare(uv: Vector2)
  {
    0.0 <= uv.u <= 1.0 && 0.0 <= uv.v <= 1.0
  }

  /** `(a + b) / 2f`, the planar midpoint of two texture coordinates. */
  function UvMidpoint(a: Vector2, b: Vector2): (r: Vector2)
    ensures r.u - a.u == b.u - r.u && r.v - a.v == b.v - r.v
    ensures InUnitSquare(a) && InUnitSquare(b) ==> InUnitSquare(r)
  {
    Vector2((a.u + b.u) / 2.0, (a.v + b.v) / 2.0)
  }
}
