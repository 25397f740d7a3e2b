# HexSphere geodesic buffer builder, in Dafny

This project models the geodesic-sphere builder of `HexSphereService`
(`project/Assets/Scripts/Service/HexSphereService.cs`). The service starts
from an icosahedron and splits each of its 20 faces into four triangles,
again and again, down to `Resolution` levels. Each level adds the three
edge midpoints, pushed back onto the sphere. For every leaf triangle the
service appends three points and three texture coordinates to shared
buffers. For some leaves it also appends an index triple. Finally it cuts
the buffers into mesh-sized slices, and all slices share the one index
buffer.

The model has five modules:

- `Numerics`: exact powers of four, which stand for `(int)Mathf.Pow(4, k)`,
  and the 32-bit wrap-around of a C# `int`.
- `Geometry`: the vector values. Texture coordinates are exact reals, and
  the UV midpoint is `(a + b) / 2`. A point on the sphere is kept as the term
  that computes it (`Corner(v)` or `NormalizedSum(a, b)`), because
  `.normalized` needs a square root.
- `Icosahedron`: the 12 corners, the 22-entry texture atlas, and the 20
  faces as corner-index and atlas-index triples.
- `Subdivision`: the leaf triangles of a subdivision in emission order
  (`Leaves`), the points and texture coordinates they emit (`Points`,
  `Uvs`), and the index triples the add-triangles flag produces
  (`IndexedLeaves`, `IndexTriples`).
- `HexSphere`: the class `HexSphereService`. Its fields are `Resolution`,
  `nbVertices` and the three buffers, which are `seq` fields that the
  methods reassign. `Subdivide` is a recursive method with `decreases depth`.
  `InitService` computes the sizes, runs the 20-face loop, then runs the
  slice loop. It returns the slices as `MeshSlice` values.

Each method is proved against specification functions:

- `Subdivide` appends exactly `Points(Leaves(t, depth))`,
  `Uvs(Leaves(t, depth))` and `IndexTriples(n, IndexedLeaves(depth, addTris))`,
  where `n` is the point count before the call.
- `InitService` leaves behind `SpherePoints(R)`, `SphereUvs(R)` and
  `SphereTris(R)`, plus `nbMeshSubdivisions` slices of `verticesPerMesh`
  vertices each.

Lemmas about those functions state what the source promises:

- the sizes (`3·4^d` per subdivision, `60·4^R` in all);
- the order (the first emitted point is `v1`);
- the add-triangles quirk: only the first child keeps the flag above depth 7,
  so exactly the first `4^min(d, 7)` leaves are indexed;
- the shape of the shared index buffer, whose indices all lie in
  `[0, verticesPerMesh)`;
- the fact that the slices fit in the buffers and exactly cover them;
- the texture coordinates staying in the atlas's unit square.

The same file is sometimes described as building a nine-slot triangle tree
with neighbour links and hexagonal cells. `DebugService.cs` refers to such
types, but `HexSphereService.cs` contains none of them. This model follows
the code: a four-way midpoint subdivision that fills flat buffers.

## Model

| member | source | states |
|---|---|---|
| Numerics.Pow4 | project/Assets/Scripts/Service/HexSphereService.cs:99 | 4^k is at least 1, and at least 4 once k ≥ 1 (the exact value of `(int)Mathf.Pow(4, k)`) |
| Numerics.Pow4Add | project/Assets/Scripts/Service/HexSphereService.cs:101-103 | 4^(a+b) = 4^a · 4^b, which splits 4^R into the slice count and the slice size |
| Numerics.Pow4Monotone | project/Assets/Scripts/Service/HexSphereService.cs:99 | powers of four grow strictly with the exponent |
| Numerics.Pow4Values | project/Assets/Scripts/Service/HexSphereService.cs:99 | the values of 4^12 … 4^15 around the 32-bit limit |
| Numerics.SliceArithmetic | project/Assets/Scripts/Service/HexSphereService.cs:100-103 | cutting a face's 3p vertices into d slices gives slices of 3q vertices when p = d·q, and 20·d such slices hold all 60·p vertices |
| Numerics.Wrap32 | project/Assets/Scripts/Service/HexSphereService.cs:99 | the C# `int` result lies in [-2^31, 2^31), is congruent to the exact value modulo 2^32, and equals it when the exact value fits |
| Geometry.UvMidpoint | project/Assets/Scripts/Service/HexSphereService.cs:175-177 | the midpoint is equidistant from both ends on each axis, and stays in the unit square when both ends are in it |
| Icosahedron.FaceUv | project/Assets/Scripts/Service/HexSphereService.cs:47-69 | each texture corner of a face is an entry of the 22-entry atlas |
| Icosahedron.FaceVertex | project/Assets/Scripts/Service/HexSphereService.cs:117-119 | each corner of a face is one of the 12 icosahedron corners |
| Icosahedron.TablesWellFormed | project/Assets/Scripts/Service/HexSphereService.cs:12-77 | 12 corners, all at the same distance from the centre; 20 faces of three distinct corner indices in [0, 12); 20 texture triples of three distinct atlas indices in [0, 22); every atlas entry in the unit square |
| Subdivision.IndexTriples | project/Assets/Scripts/Service/HexSphereService.cs:163-168 | a run of `count` indexed leaves appends 3·count indices |
| Subdivision.LeavesCount | project/Assets/Scripts/Service/HexSphereService.cs:171-183 | a subdivision of depth d has exactly 4^d leaves |
| Subdivision.FirstLeaf | project/Assets/Scripts/Service/HexSphereService.cs:180 | the first leaf of any subdivision has the triangle's own v1 and uv1 as its first corner, because the corner-v1 child is always visited first |
| Subdivision.SingleLeaf | project/Assets/Scripts/Service/HexSphereService.cs:153-161 | at depth 0 the triangle emits v1, v2, v3 and uv1, uv2, uv3 in that order |
| Subdivision.PointsAppend | project/Assets/Scripts/Service/HexSphereService.cs:155-157 | the points of two runs of leaves are the first run's points followed by the second's |
| Subdivision.UvsAppend | project/Assets/Scripts/Service/HexSphereService.cs:159-161 | the same for texture coordinates |
| Subdivision.EmittedCount | project/Assets/Scripts/Service/HexSphereService.cs:155-161 | n leaves emit 3n points and 3n texture coordinates, so the two buffers stay the same length |
| Subdivision.EmittedAt | project/Assets/Scripts/Service/HexSphereService.cs:155-161 | leaf k owns positions 3k, 3k+1 and 3k+2 of both buffers, holding its corners in order |
| Subdivision.EmittedSplit | project/Assets/Scripts/Service/HexSphereService.cs:180-183 | a subdivision emits the points and texture coordinates of its four children in call order |
| Subdivision.EmitStep | project/Assets/Scripts/Service/HexSphereService.cs:171-183 | what the four recursive calls append to the point and texture buffers, joined, is the whole subdivision's output |
| Subdivision.IndexTriplesSingle | project/Assets/Scripts/Service/HexSphereService.cs:163-168 | an indexed leaf whose points start at n appends (n+2, n+1, n); an unindexed leaf appends nothing |
| Subdivision.IndexTriplesAt | project/Assets/Scripts/Service/HexSphereService.cs:165-167 | triple j of a run starting at base is (base+3j+2, base+3j+1, base+3j): leaf j's own points in reverse order |
| Subdivision.IndexTriplesAppend | project/Assets/Scripts/Service/HexSphereService.cs:163-168 | two runs of triples, the second starting where the first run's points end, form one run |
| Subdivision.IndexedLeavesSplit | project/Assets/Scripts/Service/HexSphereService.cs:179-183 | with the first child inheriting the flag and the other three keeping it only while depth ≤ 7, the four children's triples join into the triples of the first 4^min(d, 7) leaves (none when the flag is clear) |
| Subdivision.IndexStep | project/Assets/Scripts/Service/HexSphereService.cs:179-183 | what the four recursive calls append to the index buffer, joined, is the whole subdivision's triples |
| Subdivision.LeafUvsInUnitSquare | project/Assets/Scripts/Service/HexSphereService.cs:175-183 | if a triangle's texture corners lie in the unit square, so do those of every leaf of its subdivision |
| Subdivision.UvsOfLeavesInUnitSquare | project/Assets/Scripts/Service/HexSphereService.cs:159-161 | leaves with texture corners in the unit square emit only texture coordinates in the unit square |
| HexSphere.HexSphereService.Subdivide | project/Assets/Scripts/Service/HexSphereService.cs:151-184 | appends exactly the subdivision's points and texture coordinates (3·4^depth of each) after the unchanged old contents, and appends to the index buffer exactly the triples of the first IndexedLeaves(depth, addTris) leaves |
| HexSphere.HexSphereService.AddTriangle | project/Assets/Scripts/Service/HexSphereService.cs:153-169 | depth 0 appends v1, v2, v3 and uv1, uv2, uv3; it appends (n+2, n+1, n) to the index buffer when addTris holds and leaves that buffer unchanged otherwise |
| HexSphere.HexSphereService.InitService | project/Assets/Scripts/Service/HexSphereService.cs:92-135 | sets the vertex count to 60·4^R; leaves the sphere's points, texture coordinates and shared index buffer in the three fields (both vertex buffers of the vertex count, the index buffer of verticesPerMesh in-range indices); returns nbMeshSubdivisions slices, slice i being the verticesPerMesh vertices from StartIndex(i) |
| HexSphere.HexSphereService.BuildBuffers | project/Assets/Scripts/Service/HexSphereService.cs:110-124 | the face loop leaves the points and texture coordinates of the 20 faces' subdivisions in face order, and the triples of the leaves of the faces asked to add them (face 0, or all faces in single-mesh mode) |
| HexSphere.HexSphereService.CutMeshes | project/Assets/Scripts/Service/HexSphereService.cs:127-135 | the slice loop returns one slice per subdivision index, each the range from its start index together with the whole index buffer |
| HexSphere.LayoutSizes | project/Assets/Scripts/Service/HexSphereService.cs:97-103 | 60·4^R vertices and 3·4^R per face; single-mesh mode exactly when R ≤ 5, with one slice of everything; otherwise 20·4^max(0, R-7) slices of 3·4^min(R, 7) vertices; slice count × slice size = vertex count |
| HexSphere.NbVerticesFitsInt32 | project/Assets/Scripts/Service/HexSphereService.cs:99 | the C# `int` vertex count equals 60·4^R exactly when R ≤ 12; at R = 13 and 14 it wraps to a negative value, and at R = 15 to 0 |
| HexSphere.FaceArguments | project/Assets/Scripts/Service/HexSphereService.cs:115-123 | face i of the face list has the corners and texture corners the loop reads from the tables for face i |
| HexSphere.FacesCount | project/Assets/Scripts/Service/HexSphereService.cs:115-124 | the first n faces emit FaceOffset(R, n) leaves |
| HexSphere.FaceOffsetValue | project/Assets/Scripts/Service/HexSphereService.cs:115-124 | FaceOffset(R, i) = i·4^R, so face i's points start at 3·i·4^R |
| HexSphere.FacesIndexedClosedForm | project/Assets/Scripts/Service/HexSphereService.cs:115-123 | with the per-face flag `i == 0 \|\| isSingleMesh`, the first n faces index every leaf in single-mesh mode, and otherwise only the first 4^min(R, 7) leaves of face 0 |
| HexSphere.FacesIndexedTotal | project/Assets/Scripts/Service/HexSphereService.cs:112-123 | after the loop, exactly IndexedLeafCount(R) leaves have added triples |
| HexSphere.FaceLoopStep | project/Assets/Scripts/Service/HexSphereService.cs:115-124 | one turn of the face loop extends the buffers of the first i faces to those of the first i+1 faces |
| HexSphere.SphereBufferSizes | project/Assets/Scripts/Service/HexSphereService.cs:99-124 | after the face loop, the point and texture buffers each hold exactly the vertex count 60·4^R |
| HexSphere.IcosahedronFacesInUnitSquare | project/Assets/Scripts/Service/HexSphereService.cs:21-69 | every face's texture corners lie in the unit square |
| HexSphere.FacesUvsInUnitSquare | project/Assets/Scripts/Service/HexSphereService.cs:115-124 | the subdivided faces' leaves keep their texture corners in the unit square |
| HexSphere.SphereUvsInUnitSquare | project/Assets/Scripts/Service/HexSphereService.cs:115-124 | every texture coordinate the sphere emits lies in the atlas's unit square |
| HexSphere.SphereTrisShape | project/Assets/Scripts/Service/HexSphereService.cs:97-135 | the shared index buffer has verticesPerMesh entries, triple j is (3j+2, 3j+1, 3j), and every index lies in [0, verticesPerMesh), so it is valid for every slice |
| HexSphere.BuiltBuffers | project/Assets/Scripts/Service/HexSphereService.cs:99-135 | what the face loop leaves behind is the sphere's buffers, with the sizes, index range and slice bounds the slice loop relies on |
| HexSphere.SlicesInBounds | project/Assets/Scripts/Service/HexSphereService.cs:127-134 | slice i starts at i·verticesPerMesh (0 in single-mesh mode) and ends at or before the vertex count |

## Left out

- Floating point: `X`, `Z` and the atlas constants are exact reals, and `(uv1 + uv2) / 2f` is an exact midpoint without single-precision rounding. `(v1 + v2).normalized` is kept as the term `NormalizedSum(v1, v2)`, so the model makes no unit-length or distance claims.
- `CalculateMeshTangents` (lines 186-258) is not modelled: it is float accumulation through Unity's vector operations.
- Unity plumbing is not modelled: the `GameObject`, `Mesh`, `MeshRenderer` and `MeshFilter` construction, their names, `RecalculateNormals`, `RecalculateBounds`, `Optimize`, and the material and parent transform. A slice is returned as a `MeshSlice` value (vertices, uv, triangles) instead.
- The `Debug.Log` calls (lines 105-108) and the commented-out timers are not modelled.
- The `Service<HexSphereService>` base class is not part of this model. `InitService` is modelled as a plain method.
- `DebugService.cs` and `MobileApp.cs` are not modelled. They hold input handling, gizmo drawing and app lifecycle, and depend on tree and cell types that `HexSphereService.cs` does not define.
- HexSphere.HexSphereService.InitService: requires `0 <= Resolution <= 12`. A negative resolution never reaches the `depth == 0` case of `Subdivide`, so the source does not terminate on it. Above 12, the C# `int` vertex count wraps around; `HexSphere.NbVerticesFitsInt32` states how.
- HexSphere.HexSphereService.Subdivide: `depth` is a `nat`, for the same reason: the source recurses forever on a negative depth.
- The source's spelling `Isocahedron…` becomes `Icosahedron…`. Its `IsocahedronTriangleUvs` table of `Vector2` triples becomes `IcosahedronTriangleUvIndices`, a table of indices into the atlas. The indices are the ones the source's entries name.
- `InitService`'s two loops are split into the methods `BuildBuffers` (the face loop) and `CutMeshes` (the slice loop). The depth-0 branch of `Subdivide` is the method `AddTriangle`. The behaviour and order of the buffer updates are the same.
- `BuildBuffers` receives the face list `IcosahedronFaces()` as a parameter instead of indexing the static tables itself; `HexSphere.FaceArguments` ties each face of that list to the table entries.
- `GetRange` throws on an out-of-range slice. `CutMeshes` requires that every slice is in range instead, and `HexSphere.SlicesInBounds` proves that the layout always meets this requirement.
- The capacity arguments of `new List<…>(capacity)` are not modelled; they affect only allocation.
