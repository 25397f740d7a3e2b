/** HexSphereService: builds the point, texture-coordinate and index buffers
    of a geodesic sphere by subdividing each of the 20 icosahedron faces, then
    cuts the buffers into mesh-sized slices that all share one index buffer. */
module HexSphere {
  import opened Numerics
  import opened Geometry
  import opened Icosahedron
  import opened Subdivision

  const MaxResolutionWithSingleMesh: int := 5
  const MaxResolutionBeforeMeshSubdivision: int := 7

  /** The sizes InitService derives from the resolution before building. */
  datatype MeshLayout = MeshLayout(
    isSingleMesh: bool,
    nbVertices: int,
    verticesPerFace: int,
    meshSubdivisionDepth: int,
    nbMeshSubdivisions: int,
    verticesPerMesh: int)

  /** One mesh handed to the renderer: a slice of the point and texture
      buffers together with the whole shared index buffer. */
  datatype MeshSlice = MeshSlice(vertices: seq<Point>, uv: seq<Vector2>, triangles: seq<int>)

  /** The sizing arithmetic of InitService, in exact integers (every
      operand is non-negative, so C# truncating division agrees with `/`). */
  function Layout(resolution: nat): MeshLayout
  {
    var isSingleMesh := resolution <= MaxResolutionWithSingleMesh;
    var nbVertices := NbIcosahedronFaces * 3 * Pow4(resolution);
    var verticesPerFace := nbVertices / NbIcosahedronFaces;
    var meshSubdivisionDepth := Pow4(Max(0, resolution - MaxResolutionBeforeMeshSubdivision));
    var nbMeshSubdivisions := if isSingleMesh then 1 else NbIcosahedronFaces * meshSubdivisionDepth;
    var verticesPerMesh := if isSingleMesh then nbVertices else verticesPerFace / meshSubdivisionDepth;
    MeshLayout(isSingleMesh, nbVertices, verticesPerFace, meshSubdivisionDepth, nbMeshSubdivisions, verticesPerMesh)
  }

  /** Where slice i of the buffers starts. */
  function StartIndex(layout: MeshLayout, i: int): int
  {
    if layout.isSingleMesh then 0 else i * layout.verticesPerMesh
  }

  /** The number of leaves whose index triples end up in the shared index
      buffer: all of them in single-mesh mode, otherwise the first
      4^min(R, 7) leaves of face 0. */
  function IndexedLeafCount(resolution: nat): nat
  {
    if resolution <= MaxResolutionWithSingleMesh then NbIcosahedronFaces * Pow4(resolution)
    else Pow4(Min(resolution, MaxAddTrisDepth))
  }

  /** The i-th face of the icosahedron as the arguments InitService passes to Subdivide. */
  function IcoFace(i: int): Triangle
    requires 0 <= i < NbIcosahedronFaces
  {
    Triangle(Corner(FaceVertex(i, 0)), Corner(FaceVertex(i, 1)), Corner(FaceVertex(i, 2)),
             FaceUv(i, 0), FaceUv(i, 1), FaceUv(i, 2))
  }

  /** The 20 faces, in the order the face loop visits them. */
  function IcosahedronFaces(): seq<Triangle>
  {
    seq(NbIcosahedronFaces, i requires 0 <= i < NbIcosahedronFaces => IcoFace(i))
  }

  /** How many leaves the faces before face i emit: 4^R each. */
  function FaceOffset(resolution: nat, i: nat): nat
  {
    if i == 0 then 0 else FaceOffset(resolution, i - 1) + Pow4(resolution)
  }

  /** Whether InitService asks face i to add index triples. */
  predicate FaceAddsTris(resolution: nat, i: int)
  {
    i == 0 || resolution <= MaxResolutionWithSingleMesh
  }

  /** The leaves of the first n of the given faces, in emission order. */
  function FacesLeaves(faces: seq<Triangle>, resolution: nat, n: nat): seq<Triangle>
    requires n <= |faces|
  {
    if n == 0 then [] else FacesLeaves(faces, resolution, n - 1) + Leaves(faces[n - 1], resolution)
  }

  /** How many leaves of the first n faces add index triples: face i
      indexes IndexedLeaves(R, FaceAddsTris(R, i)) of its leaves. */
  function FacesIndexed(resolution: nat, n: nat): nat
    requires n <= NbIcosahedronFaces
  {
    if n == 0 then 0 else FacesIndexed(resolution, n - 1) + IndexedLeaves(resolution, FaceAddsTris(resolution, n - 1))
  }

  /** The buffers after the 20-face loop. */
  function SpherePoints(resolution: nat): seq<Point>
  {
    Points(FacesLeaves(IcosahedronFaces(), resolution, NbIcosahedronFaces))
  }

  function SphereUvs(resolution: nat): seq<Vector2>
  {
    Uvs(FacesLeaves(IcosahedronFaces(), resolution, NbIcosahedronFaces))
  }

  function SphereTris(resolution: nat): seq<int>
  {
    IndexTriples(0, IndexedLeafCount(resolution))
  }

  /** mesh is the count vertices from start of the point and texture
      buffers, within bounds, together with the whole index buffer. */
  predicate IsSlice(mesh: MeshSlice, points: seq<Point>, uvs: seq<Vector2>, tris: seq<int>, start: int, count: int)
  {
    0 <= start && 0 <= count && start + count <= |points| && start + count <= |uvs| &&
    mesh == MeshSlice(points[start..start + count], uvs[start..start + count], tris)
  }

  class HexSphereService {
    var Resolution: int
    var nbVertices: int
    var spherePoints: seq<Point>
    var sphereUvs: seq<Vector2>
    var sphereTris: seq<int>

    /** Appends the leaves of a depth-`depth` midpoint subdivision of the
        triangle (v1, v2, v3) to the point and texture buffers, and the index
        triples of the leaves the add-triangles flag reaches to the index
        buffer. */
    method Subdivide(v1: Point, v2: Point, v3: Point, uv1: Vector2, uv2: Vector2, uv3: Vector2,
                     depth: nat, addTris: bool)
      modifies this`spherePoints, this`sphereUvs, this`sphereTris
      ensures spherePoints == old(spherePoints) + Points(Leaves(Triangle(v1, v2, v3, uv1, uv2, uv3), depth))
      ensures sphereUvs == old(sphereUvs) + Uvs(Leaves(Triangle(v1, v2, v3, uv1, uv2, uv3), depth))
      ensures sphereTris == old(sphereTris) + IndexTriples(|old(spherePoints)|, IndexedLeaves(depth, addTris))
      ensures |spherePoints| == |old(spherePoints)| + 3 * Pow4(depth)
      decreases depth
    {
      if depth == 0 {
        AddTriangle(v1, v2, v3, uv1, uv2, uv3, addTris);
        SingleLeaf(v1, v2, v3, uv1, uv2, uv3);
        IndexTriplesSingle(|old(spherePoints)|);
        return;
      }
      var v12 := NormalizedSum(v1, v2);
      var v23 := NormalizedSum(v2, v3);
      var v31 := NormalizedSum(v3, v1);

      var uv12 := UvMidpoint(uv1, uv2);
      var uv23 := UvMidpoint(uv2, uv3);
      var uv31 := UvMidpoint(uv3, uv1);

      var addTrisDepth := addTris && depth <= MaxAddTrisDepth;
      Subdivide(v1, v12, v31, uv1, uv12, uv31, depth - 1, addTris);
      ghost var p1, u1, t1 := spherePoints, sphereUvs, sphereTris;
      Subdivide(v2, v23, v12, uv2, uv23, uv12, depth - 1, addTrisDepth);
      ghost var p2, u2, t2 := spherePoints, sphereUvs, sphereTris;
      Subdivide(v3, v31, v23, uv3, uv31, uv23, depth - 1, addTrisDepth);
      ghost var p3, u3, t3 := spherePoints, sphereUvs, sphereTris;
      Subdivide(v12, v23, v31, uv12, uv23, uv31, depth - 1, addTrisDepth);

      EmitStep(Triangle(v1, v2, v3, uv1, uv2, uv3),
               Triangle(v1, v12, v31, uv1, uv12, uv31), Triangle(v2, v23, v12, uv2, uv23, uv12),
               Triangle(v3, v31, v23, uv3, uv31, uv23), Triangle(v12, v23, v31, uv12, uv23, uv31),
               depth, old(spherePoints), p1, p2, p3, spherePoints, old(sphereUvs), u1, u2, u3, sphereUvs);
      IndexStep(old(sphereTris), t1, t2, t3, sphereTris, |old(spherePoints)|, |p1|, |p2|, |p3|, depth, addTris);
    }

    /** The depth-0 branch of Subdivide: appends the three corners and
        their texture coordinates, and, when asked, the triangle's index
        triple in reverse corner order (v3, v2, v1). */
    method AddTriangle(v1: Point, v2: Point, v3: Point, uv1: Vector2, uv2: Vector2, uv3: Vector2, addTris: bool)
      modifies this`spherePoints, this`sphereUvs, this`sphereTris
      ensures spherePoints == old(spherePoints) + [v1, v2, v3]
      ensures sphereUvs == old(sphereUvs) + [uv1, uv2, uv3]
      ensures sphereTris == old(sphereTris) + (if addTris then [|old(spherePoints)| + 2, |old(spherePoints)| + 1, |old(spherePoints)|] else [])
    {
      spherePoints := spherePoints + [v1];
      spherePoints := spherePoints + [v2];
      spherePoints := spherePoints + [v3];

      sphereUvs := sphereUvs + [uv1];
      sphereUvs := sphereUvs + [uv2];
      sphereUvs := sphereUvs + [uv3];

      if addTris {
        sphereTris := sphereTris + [|spherePoints| - 1];
        sphereTris := sphereTris + [|spherePoints| - 2];
        sphereTris := sphereTris + [|spherePoints| - 3];
      }
    }

    /** Sizes the sphere for the current resolution, builds its buffers
        and cuts them into the meshes handed to the renderer. */
    method InitService() returns (meshes: seq<MeshSlice>)
      requires 0 <= Resolution <= 12
      modifies this`nbVertices, this`spherePoints, this`sphereUvs, this`sphereTris
      ensures nbVertices == Layout(Resolution).nbVertices
      ensures spherePoints == SpherePoints(Resolution)
      ensures sphereUvs == SphereUvs(Resolution)
      ensures sphereTris == SphereTris(Resolution)
      ensures |spherePoints| == |sphereUvs| == nbVertices
      ensures |sphereTris| == Layout(Resolution).verticesPerMesh
      ensures forall k :: 0 <= k < |sphereTris| ==> 0 <= sphereTris[k] < Layout(Resolution).verticesPerMesh
      ensures |meshes| == Layout(Resolution).nbMeshSubdivisions
      ensures forall i :: 0 <= i < |meshes| ==>
        IsSlice(meshes[i], spherePoints, sphereUvs, sphereTris,
                StartIndex(Layout(Resolution), i), Layout(Resolution).verticesPerMesh)
    {
      var resolution: nat := Resolution;
      var layout := Layout(resolution);
      nbVertices := layout.nbVertices;
      BuildBuffers(resolution, layout.isSingleMesh, IcosahedronFaces());
      BuiltBuffers(resolution, spherePoints, sphereUvs, sphereTris);
      meshes := CutMeshes(layout);
    }

    /** The buffer-building part of InitService: fresh buffers, then the
        icosahedron's faces (IcosahedronFaces reads them from the tables)
        subdivided in table order to depth resolution, face 0 always
        adding index triples and the others only in single-mesh mode. */
    method BuildBuffers(resolution: nat, isSingleMesh: bool, faces: seq<Triangle>)
      requires isSingleMesh <==> resolution <= MaxResolutionWithSingleMesh
      requires |faces| == NbIcosahedronFaces
      modifies this`spherePoints, this`sphereUvs, this`sphereTris
      ensures spherePoints == Points(FacesLeaves(faces, resolution, NbIcosahedronFaces))
      ensures sphereUvs == Uvs(FacesLeaves(faces, resolution, NbIcosahedronFaces))
      ensures sphereTris == IndexTriples(0, FacesIndexed(resolution, NbIcosahedronFaces))
    {
      spherePoints := [];
      sphereUvs := [];
      sphereTris := [];

      var i := 0;
      while i < NbIcosahedronFaces
        invariant 0 <= i <= NbIcosahedronFaces
        invariant spherePoints == Points(FacesLeaves(faces, resolution, i))
        invariant sphereUvs == Uvs(FacesLeaves(faces, resolution, i))
        invariant |spherePoints| == 3 * FaceOffset(resolution, i)
        invariant sphereTris == IndexTriples(0, FacesIndexed(resolution, i))
      {
        ghost var p0, u0, t0 := spherePoints, sphereUvs, sphereTris;
        var face := faces[i];
        Subdivide(face.v1, face.v2, face.v3, face.uv1, face.uv2, face.uv3,
                  resolution, i == 0 || isSingleMesh);
        FaceLoopStep(faces, resolution, i, isSingleMesh,
                     Triangle(face.v1, face.v2, face.v3, face.uv1, face.uv2, face.uv3),
                     p0, spherePoints, u0, sphereUvs, t0, sphereTris);
        i := i + 1;
      }
    }

    /** The slicing part of InitService: one mesh per slice of the layout,
        each the verticesPerMesh points and texture coordinates from the
        slice's start, sharing the whole index buffer. Every range must lie
        inside the buffers, as List.GetRange demands. */
    method CutMeshes(layout: MeshLayout) returns (meshes: seq<MeshSlice>)
      requires 0 <= layout.verticesPerMesh
      requires forall i :: 0 <= i < layout.nbMeshSubdivisions ==>
        0 <= StartIndex(layout, i) && StartIndex(layout, i) + layout.verticesPerMesh <= |spherePoints|
      requires |spherePoints| == |sphereUvs|
      ensures |meshes| == Max(0, layout.nbMeshSubdivisions)
      ensures forall i :: 0 <= i < |meshes| ==>
        IsSlice(meshes[i], spherePoints, sphereUvs, sphereTris, StartIndex(layout, i), layout.verticesPerMesh)
    {
      meshes := [];
      var i := 0;
      while i < layout.nbMeshSubdivisions
        invariant 0 <= i <= Max(0, layout.nbMeshSubdivisions)
        invariant |meshes| == i
        invariant forall k :: 0 <= k < i ==>
          IsSlice(meshes[k], spherePoints, sphereUvs, sphereTris, StartIndex(layout, k), layout.verticesPerMesh)
      {
        var startIdx := StartIndex(layout, i);
        var mesh := MeshSlice(spherePoints[startIdx..startIdx + layout.verticesPerMesh],
                              sphereUvs[startIdx..startIdx + layout.verticesPerMesh], sphereTris);
        assert IsSlice(mesh, spherePoints, sphereUvs, sphereTris, startIdx, layout.verticesPerMesh);
        assert forall k :: 0 <= k < i ==> (meshes + [mesh])[k] == meshes[k];
        meshes := meshes + [mesh];
        i := i + 1;
      }
    }
  }

  // ----- properties of the sizing -----

  /** The layout's sizes: 60·4^R vertices in all, and the slices exactly
      cover them — one slice of everything in single-mesh mode, otherwise
      20·4^max(0, R-7) slices of 3·4^min(R, 7) vertices. */
  lemma LayoutSizes(resolution: nat)
    ensures Layout(resolution).nbVertices == 60 * Pow4(resolution)
    ensures Layout(resolution).verticesPerFace == 3 * Pow4(resolution)
    ensures Layout(resolution).verticesPerMesh == 3 * IndexedLeafCount(resolution)
    ensures Layout(resolution).nbMeshSubdivisions >= 1
    ensures Layout(resolution).nbMeshSubdivisions * Layout(resolution).verticesPerMesh == Layout(resolution).nbVertices
    ensures Layout(resolution).isSingleMesh <==> resolution <= MaxResolutionWithSingleMesh
    ensures Layout(resolution).isSingleMesh ==>
      Layout(resolution).nbMeshSubdivisions == 1 && Layout(resolution).verticesPerMesh == Layout(resolution).nbVertices
  {
    var layout := Layout(resolution);
    var p := Pow4(resolution);
    assert layout.nbVertices == 60 * p;
    assert layout.verticesPerFace == 3 * p;
    if !layout.isSingleMesh {
      var e := Max(0, resolution - MaxResolutionBeforeMeshSubdivision);
      var d := Pow4(e);
      var m := Min(resolution, MaxAddTrisDepth);
      assert e + m == resolution;
      Pow4Add(e, m);
      SliceArithmetic(p, d, Pow4(m));
    }
  }

  /** The source stores the vertex count in a 32-bit int: for resolutions up
      to 15 (where 4^R still fits), 60·4^R is stored exactly exactly when the
      resolution is at most 12; at 13 and 14 it wraps to a negative count and
      at 15 to zero. */
  lemma NbVerticesFitsInt32(resolution: nat)
    requires resolution <= 15
    ensures (Wrap32(NbIcosahedronFaces * 3 * Pow4(resolution)) == 60 * Pow4(resolution)) <==> resolution <= 12
    ensures resolution == 13 || resolution == 14 ==> Wrap32(NbIcosahedronFaces * 3 * Pow4(resolution)) < 0
    ensures resolution == 15 ==> Wrap32(NbIcosahedronFaces * 3 * Pow4(resolution)) == 0
  {
    Pow4Values();
    if resolution <= 12 {
      Pow4Monotone(resolution, 12);
    } else if resolution == 13 {
      assert Wrap32(60 * 67108864) == -268435456;
    } else if resolution == 14 {
      assert Wrap32(60 * 268435456) == -1073741824;
    } else {
      assert Wrap32(60 * 1073741824) == 0;
    }
  }

  // ----- properties of the buffers -----

  /** Face i of the face list is the triangle the face loop passes to Subdivide. */
  lemma FaceArguments(i: int)
    requires 0 <= i < NbIcosahedronFaces
    ensures |IcosahedronFaces()| == NbIcosahedronFaces
    ensures IcosahedronFaces()[i] == Triangle(Corner(FaceVertex(i, 0)), Corner(FaceVertex(i, 1)), Corner(FaceVertex(i, 2)),
                                            FaceUv(i, 0), FaceUv(i, 1), FaceUv(i, 2))
  {
  }

  /** The first n faces contribute FaceOffset(R, n) = n·4^R leaves. */
  lemma {:induction false} FacesCount(faces: seq<Triangle>, resolution: nat, n: nat)
    requires n <= |faces|
    ensures |FacesLeaves(faces, resolution, n)| == FaceOffset(resolution, n)
  {
    if n > 0 {
      FacesCount(faces, resolution, n - 1);
      LeavesCount(faces[n - 1], resolution);
    }
  }

  /** FaceOffset in closed form. */
  lemma {:induction false} FaceOffsetValue(resolution: nat, i: nat)
    ensures FaceOffset(resolution, i) == i * Pow4(resolution)
  {
    if i > 0 {
      FaceOffsetValue(resolution, i - 1);
      MulSucc(i - 1, Pow4(resolution));
    }
  }

  /** Closed form of the indexed-leaf count over the first n faces: every
      leaf in single-mesh mode; otherwise only face 0 adds triples, for its
      first 4^min(R, 7) leaves. */
  lemma {:induction false} FacesIndexedClosedForm(resolution: nat, n: nat)
    requires n <= NbIcosahedronFaces
    ensures FacesIndexed(resolution, n)
         == if resolution <= MaxResolutionWithSingleMesh then FaceOffset(resolution, n)
            else if n == 0 then 0 else Pow4(Min(resolution, MaxAddTrisDepth))
  {
    if n > 0 {
      FacesIndexedClosedForm(resolution, n - 1);
      if resolution <= MaxResolutionWithSingleMesh {
        assert IndexedLeaves(resolution, true) == Pow4(resolution);
      }
    }
  }

  /** After the face loop, exactly IndexedLeafCount leaves have added triples. */
  lemma FacesIndexedTotal(resolution: nat)
    ensures FacesIndexed(resolution, NbIcosahedronFaces) == IndexedLeafCount(resolution)
  {
    FacesIndexedClosedForm(resolution, NbIcosahedronFaces);
    FaceOffsetValue(resolution, NbIcosahedronFaces);
  }

  /** One turn of the face loop: appending face i's leaves to the buffers
      of the first i faces gives the buffers of the first i + 1 faces; its
      points start at 3·i·4^R, and the triples it appends continue the run
      of triples already in the index buffer (or are empty). */
  lemma FaceLoopStep(faces: seq<Triangle>, resolution: nat, i: nat, isSingleMesh: bool, face: Triangle,
                     p0: seq<Point>, p1: seq<Point>, u0: seq<Vector2>, u1: seq<Vector2>, t0: seq<int>, t1: seq<int>)
    requires i < |faces| == NbIcosahedronFaces && faces[i] == face
    requires isSingleMesh <==> resolution <= MaxResolutionWithSingleMesh
    requires p0 == Points(FacesLeaves(faces, resolution, i)) && u0 == Uvs(FacesLeaves(faces, resolution, i))
    requires |p0| == 3 * FaceOffset(resolution, i)
    requires t0 == IndexTriples(0, FacesIndexed(resolution, i))
    requires p1 == p0 + Points(Leaves(face, resolution)) && u1 == u0 + Uvs(Leaves(face, resolution))
    requires t1 == t0 + IndexTriples(|p0|, IndexedLeaves(resolution, i == 0 || isSingleMesh))
    requires |p1| == |p0| + 3 * Pow4(resolution)
    ensures p1 == Points(FacesLeaves(faces, resolution, i + 1)) && u1 == Uvs(FacesLeaves(faces, resolution, i + 1))
    ensures |p1| == 3 * FaceOffset(resolution, i + 1)
    ensures t1 == IndexTriples(0, FacesIndexed(resolution, i + 1))
  {
    PointsAppend(FacesLeaves(faces, resolution, i), Leaves(face, resolution));
    UvsAppend(FacesLeaves(faces, resolution, i), Leaves(face, resolution));
    FacesIndexedClosedForm(resolution, i);
    assert (i == 0 || isSingleMesh) == FaceAddsTris(resolution, i);
    IndexTriplesAppend(0, FacesIndexed(resolution, i), |p0|, IndexedLeaves(resolution, FaceAddsTris(resolution, i)));
  }

  /** After the face loop the point and texture buffers each hold exactly
      the layout's vertex count. */
  lemma SphereBufferSizes(resolution: nat)
    ensures |SpherePoints(resolution)| == Layout(resolution).nbVertices
    ensures |SphereUvs(resolution)| == Layout(resolution).nbVertices
  {
    FacesCount(IcosahedronFaces(), resolution, NbIcosahedronFaces);
    FaceOffsetValue(resolution, NbIcosahedronFaces);
    EmittedCount(FacesLeaves(IcosahedronFaces(), resolution, NbIcosahedronFaces));
    LayoutSizes(resolution);
  }

  /** Every face of the icosahedron has its texture corners in the atlas's
      unit square. */
  lemma IcosahedronFacesInUnitSquare()
    ensures |IcosahedronFaces()| == NbIcosahedronFaces
    ensures forall i :: 0 <= i < NbIcosahedronFaces ==> UvsInUnitSquare(IcosahedronFaces()[i])
  {
    TablesWellFormed();
    forall i | 0 <= i < NbIcosahedronFaces
      ensures UvsInUnitSquare(IcosahedronFaces()[i])
    {
      var face := IcoFace(i);
      assert face.uv1 in IcosahedronUvs && face.uv2 in IcosahedronUvs && face.uv3 in IcosahedronUvs;
    }
  }

  /** The first n faces, subdivided, emit texture coordinates in the unit
      square when the faces' own texture corners lie in it. */
  lemma {:induction false} FacesUvsInUnitSquare(faces: seq<Triangle>, resolution: nat, n: nat)
    requires n <= |faces|
    requires forall i :: 0 <= i < |faces| ==> UvsInUnitSquare(faces[i])
    ensures forall k :: 0 <= k < |FacesLeaves(faces, resolution, n)| ==> UvsInUnitSquare(FacesLeaves(faces, resolution, n)[k])
  {
    if n > 0 {
      FacesUvsInUnitSquare(faces, resolution, n - 1);
      LeafUvsInUnitSquare(faces[n - 1], resolution);
      var a, b := FacesLeaves(faces, resolution, n - 1), Leaves(faces[n - 1], resolution);
      assert FacesLeaves(faces, resolution, n) == a + b;
      forall k | 0 <= k < |a + b|
        ensures UvsInUnitSquare((a + b)[k])
      {
        if k >= |a| {
          assert (a + b)[k] == b[k - |a|];
        }
      }
    }
  }

  /** Every texture coordinate of the sphere lies in the atlas's unit square. */
  lemma SphereUvsInUnitSquare(resolution: nat)
    ensures forall k :: 0 <= k < |SphereUvs(resolution)| ==> InUnitSquare(SphereUvs(resolution)[k])
  {
    IcosahedronFacesInUnitSquare();
    FacesUvsInUnitSquare(IcosahedronFaces(), resolution, NbIcosahedronFaces);
    UvsOfLeavesInUnitSquare(FacesLeaves(IcosahedronFaces(), resolution, NbIcosahedronFaces));
  }

  /** The shared index buffer holds one triple per indexed leaf —
      verticesPerMesh entries in all — triple j is (3j+2, 3j+1, 3j), and
      every index lies in [0, verticesPerMesh). */
  lemma SphereTrisShape(resolution: nat)
    ensures |SphereTris(resolution)| == Layout(resolution).verticesPerMesh
    ensures forall j :: 0 <= j < IndexedLeafCount(resolution) ==>
      SphereTris(resolution)[3 * j] == 3 * j + 2 &&
      SphereTris(resolution)[3 * j + 1] == 3 * j + 1 &&
      SphereTris(resolution)[3 * j + 2] == 3 * j
    ensures forall k :: 0 <= k < |SphereTris(resolution)| ==>
      0 <= SphereTris(resolution)[k] < Layout(resolution).verticesPerMesh
  {
    LayoutSizes(resolution);
    var m := IndexedLeafCount(resolution);
    var tris := SphereTris(resolution);
    forall j | 0 <= j < m
      ensures tris[3 * j] == 3 * j + 2 && tris[3 * j + 1] == 3 * j + 1 && tris[3 * j + 2] == 3 * j
    {
      IndexTriplesAt(0, m, j);
    }
    forall k | 0 <= k < |tris|
      ensures 0 <= tris[k] < 3 * m
    {
      var j := k / 3;
      assert k == 3 * j || k == 3 * j + 1 || k == 3 * j + 2;
      IndexTriplesAt(0, m, j);
    }
  }

  /** What the face loop leaves behind is the sphere's buffers: points and
      texture coordinates of the layout's vertex count, an index buffer of
      verticesPerMesh in-range indices, and slices that fit the buffers. */
  lemma BuiltBuffers(resolution: nat, points: seq<Point>, uvs: seq<Vector2>, tris: seq<int>)
    requires points == Points(FacesLeaves(IcosahedronFaces(), resolution, NbIcosahedronFaces))
    requires uvs == Uvs(FacesLeaves(IcosahedronFaces(), resolution, NbIcosahedronFaces))
    requires tris == IndexTriples(0, FacesIndexed(resolution, NbIcosahedronFaces))
    ensures points == SpherePoints(resolution) && uvs == SphereUvs(resolution) && tris == SphereTris(resolution)
    ensures |points| == |uvs| == Layout(resolution).nbVertices
    ensures |tris| == Layout(resolution).verticesPerMesh
    ensures forall k :: 0 <= k < |tris| ==> 0 <= tris[k] < Layout(resolution).verticesPerMesh
    ensures 0 <= Layout(resolution).verticesPerMesh
    ensures Max(0, Layout(resolution).nbMeshSubdivisions) == Layout(resolution).nbMeshSubdivisions
    ensures forall i :: 0 <= i < Layout(resolution).nbMeshSubdivisions ==>
      0 <= StartIndex(Layout(resolution), i) &&
      StartIndex(Layout(resolution), i) + Layout(resolution).verticesPerMesh <= |points|
  {
    FacesIndexedTotal(resolution);
    LayoutSizes(resolution);
    SphereBufferSizes(resolution);
    SphereTrisShape(resolution);
    SlicesInBounds(resolution);
  }

  /** Every slice lies inside the buffers: slice i starts at i·verticesPerMesh
      and ends at or before the vertex count. */
  lemma SlicesInBounds(resolution: nat)
    ensures forall i :: 0 <= i < Layout(resolution).nbMeshSubdivisions ==>
      StartIndex(Layout(resolution), i) == i * Layout(resolution).verticesPerMesh &&
      0 <= StartIndex(Layout(resolution), i) &&
      StartIndex(Layout(resolution), i) + Layout(resolution).verticesPerMesh <= Layout(resolution).nbVertices
  {
    var layout := Layout(resolution);
    LayoutSizes(resolution);
    forall i | 0 <= i < layout.nbMeshSubdivisions
      ensures StartIndex(layout, i) == i * layout.verticesPerMesh
      ensures 0 <= StartIndex(layout, i)
      ensures StartIndex(layout, i) + layout.verticesPerMesh <= layout.nbVertices
    {
      assert i * layout.verticesPerMesh + layout.verticesPerMesh == (i + 1) * layout.verticesPerMesh;
      assert (i + 1) * layout.verticesPerMesh <= layout.nbMeshSubdivisions * layout.verticesPerMesh;
    }
  }
}
