/** The fixed base solid of HexSphereService: the 12 icosahedron corners, the
    22-entry texture atlas and the 20 faces, each given by three corner indices
    and by three atlas coordinates. */
module Icosahedron {
  import opened Geometry

  const X: real := 0.525731112119133606
  const Z: real := 0.850650808352039932
  const NbIcosahedronFaces: int := 20

  const IcosahedronVertices: seq<Vector3> := [
    Vector3(0.0, Z, X), Vector3(0.0, Z, -X), Vector3(Z, X, 0.0), Vector3(X, 0.0, Z),
    Vector3(-X, 0.0, Z), Vector3(-Z, X, 0.0), Vector3(-X, 0.0, -Z), Vector3(X, 0.0, -Z),
    Vector3(Z, -X, 0.0), Vector3(0.0, -Z, X), Vector3(-Z, -X, 0.0), Vector3(0.0, -Z, -X)
  ]

  const HalfTriangleX: real := 1.0 / 11.0
  const TriangleHeight: real := 1.0 / 3.0

  /** The atlas lays the 20 faces out as a strip of five columns; corners that
      the strip cuts apart (0, 1, 6 and 11) appear several times. */
  const IcosahedronUvs: seq<Vector2> := [
    Vector2(HalfTriangleX * 2.0, 1.0),              // 0A
    Vector2(HalfTriangleX, TriangleHeight * 2.0),   // 1A
    Vector2(HalfTriangleX * 3.0, TriangleHeight * 2.0),
    Vector2(HalfTriangleX * 5.0, TriangleHeight * 2.0),
    Vector2(HalfTriangleX * 7.0, TriangleHeight * 2.0),
    Vector2(HalfTriangleX * 9.0, TriangleHeight * 2.0),
    Vector2(0.0, TriangleHeight),                   // 6A
    Vector2(HalfTriangleX * 2.0, TriangleHeight),
    Vector2(HalfTriangleX * 4.0, TriangleHeight),
    Vector2(HalfTriangleX * 6.0, TriangleHeight),
    Vector2(HalfTriangleX * 8.0, TriangleHeight),
    Vector2(HalfTriangleX, 0.0),                    // 11A
    Vector2(HalfTriangleX * 3.0, 0.0),              // 11B
    Vector2(HalfTriangleX * 5.0, 0.0),              // 11C
    Vector2(HalfTriangleX * 7.0, 0.0),              // 11D
    Vector2(HalfTriangleX * 9.0, 0.0),              // 11E
    Vector2(HalfTriangleX * 4.0, 1.0),              // 0B
    Vector2(HalfTriangleX * 6.0, 1.0),              // 0C
    Vector2(HalfTriangleX * 8.0, 1.0),              // 0D
    Vector2(HalfTriangleX * 10.0, 1.0),             // 0E
    Vector2(1.0, TriangleHeight * 2.0),             // 1B
    Vector2(HalfTriangleX * 10.0, TriangleHeight)   // 6B
  ]

  /** Atlas indices of each face's three texture corners. */
  const IcosahedronTriangleUvIndices: seq<seq<int>> := [
    [1, 2, 0], [2, 3, 16], [3, 4, 17], [4, 5, 18], [5, 20, 19],
    [6, 7, 1], [7, 2, 1], [7, 8, 2], [8, 3, 2], [8, 9, 3],
    [9, 4, 3], [9, 10, 4], [10, 5, 4], [10, 21, 5], [21, 20, 5],
    [11, 7, 6], [12, 8, 7], [13, 9, 8], [14, 10, 9], [15, 21, 10]
  ]

  /** Corner indices of each face, wound the same way round on every face. */
  const IcosahedronTriangles: seq<seq<int>> := [
    [1, 2, 0], [2, 3, 0], [3, 4, 0], [4, 5, 0], [5, 1, 0],
    [6, 7, 1], [7, 2, 1], [7, 8, 2], [8, 3, 2], [8, 9, 3],
    [9, 4, 3], [9, 10, 4], [10, 5, 4], [10, 6, 5], [6, 1, 5],
    [11, 7, 6], [11, 8, 7], [11, 9, 8], [11, 10, 9], [11, 6, 10]
  ]

  /** Three distinct indices into a table of n entries. */
  predicate IsTriple(t: seq<int>, n: int)
  {
    |t| == 3 && 0 <= t[0] < n && 0 <= t[1] < n && 0 <= t[2] < n
    && t[0] != t[1] && t[1] != t[2] && t[2] != t[0]
  }

  /** `IcosahedronTriangleUvs[face][corner]`: the atlas coordinate of one corner of a face. */
  function FaceUv(face: int, corner: int): (uv: Vector2)
    requires 0 <= face < NbIcosahedronFaces && 0 <= corner < 3
    ensures uv in IcosahedronUvs
  {
    IcosahedronUvs[IcosahedronTriangleUvIndices[face][corner]]
  }

  /** `IsocahedronVertices[IsocahedronTriangles[face][corner]]`: one corner of a face. */
  function FaceVertex(face: int, corner: int): (p: Vector3)
    requires 0 <= face < NbIcosahedronFaces && 0 <= corner < 3
    ensures p in IcosahedronVertices
  {
    IcosahedronVertices[IcosahedronTriangles[face][corner]]
  }

  /** The tables are well formed: 12 corners at the same distance from the
      centre, 20 faces of three distinct corners, 20 texture triples of three
      distinct atlas entries, and an atlas inside the unit square. */
  lemma TablesWellFormed()
    ensures |IcosahedronVertices| == 12
    ensures forall i :: 0 <= i < 12 ==> SquaredLength(IcosahedronVertices[i]) == X * X + Z * Z
    ensures |IcosahedronTriangles| == NbIcosahedronFaces
    ensures forall i :: 0 <= i < NbIcosahedronFaces ==> IsTriple(IcosahedronTriangles[i], 12)
    ensures |IcosahedronUvs| == 22
    ensures forall k :: 0 <= k < 22 ==> InUnitSquare(IcosahedronUvs[k])
    ensures |IcosahedronTriangleUvIndices| == NbIcosahedronFaces
    ensures forall i :: 0 <= i < NbIcosahedronFaces ==> IsTriple(IcosahedronTriangleUvIndices[i], 22)
  {
  }
}
