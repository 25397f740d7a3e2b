/** What one call of `HexSphereService.Subdivide` emits, stated as functions of
    its arguments: the leaf triangles in emission order, the points and texture
    coordinates they contribute, how many of them add an index triple, and the
    index triples themselves. */
module Subdivision {
  import opened Numerics
  import opened Geometry

  /** The arguments of one Subdivide call: three corners and their texture coordinates. */
  datatype Triangle = Triangle(v1: Point, v2: Point, v3: Point, uv1: Vector2, uv2: Vector2, uv3: Vector2)

  /** The four triangles one subdivision step recurses into, in call order. */
  datatype Children = Children(atV1: Triangle, atV2: Triangle, atV3: Triangle, centre: Triangle)

  /** Deepest level at which every child still inherits the add-triangles flag. */
  const MaxAddTrisDepth: int := 7

  /** One subdivision step: the edge midpoints v12, v23, v31 (pushed back onto
      the sphere) and uv12, uv23, uv31 cut the triangle into the corner
      triangles at v1, v2 and v3 and the centre triangle. */
  function Split(t: Triangle): Children
  {
    var v12, v23, v31 := NormalizedSum(t.v1, t.v2), NormalizedSum(t.v2, t.v3), NormalizedSum(t.v3, t.v1);
    var uv12, uv23, uv31 := UvMidpoint(t.uv1, t.uv2), UvMidpoint(t.uv2, t.uv3), UvMidpoint(t.uv3, t.uv1);
    Children(
      Triangle(t.v1, v12, v31, t.uv1, uv12, uv31),
      Triangle(t.v2, v23, v12, t.uv2, uv23, uv12),
      Triangle(t.v3, v31, v23, t.uv3, uv31, uv23),
      Triangle(v12, v23, v31, uv12, uv23, uv31))
  }

  /** The leaf triangles of a subdivision of the given depth, in the order
      their points are emitted. */
  function Leaves(t: Triangle, depth: nat): seq<Triangle>
    decreases depth, 0
  {
    if depth == 0 then [t] else ChildLeaves(Split(t), depth - 1)
  }

  /** The leaves of the four children, each subdivided to the given depth. */
  function ChildLeaves(cs: Children, depth: nat): seq<Triangle>
    decreases depth, 1
  {
    Leaves(cs.atV1, depth) + Leaves(cs.atV2, depth) + Leaves(cs.atV3, depth) + Leaves(cs.centre, depth)
  }

  /** The points a sequence of leaves emits: three per leaf, v1, v2, v3. */
  function Points(leaves: seq<Triangle>): seq<Point>
  {
    if leaves == [] then [] else [leaves[0].v1, leaves[0].v2, leaves[0].v3] + Points(leaves[1..])
  }

  /** The texture coordinates a sequence of leaves emits: uv1, uv2, uv3 per leaf. */
  function Uvs(leaves: seq<Triangle>): seq<Vector2>
  {
    if leaves == [] then [] else [leaves[0].uv1, leaves[0].uv2, leaves[0].uv3] + Uvs(leaves[1..])
  }

  /** How many leaves of a subdivision of the given depth append an index
      triple, as a closed form: the first child inherits the flag and the
      other three keep it only while the depth is at most MaxAddTrisDepth, so
      a subdivision started with the flag set indexes its first
      4^min(depth, 7) leaves and one started without it none. */
  function IndexedLeaves(depth: nat, addTris: bool): nat
  {
    if addTris then Pow4(Min(depth, MaxAddTrisDepth)) else 0
  }

  /** The index triples of `count` consecutive leaves whose points start at
      `base`: leaf j names its own three points in reverse order. */
  function IndexTriples(base: int, count: nat): (r: seq<int>)
    ensures |r| == 3 * count
  {
    seq(3 * count, i => base + i + 2 - 2 * (i % 3))
  }

  // ----- sizes and order of what a subdivision emits -----

  /** A subdivision of depth d has 4^d leaves. */
  lemma {:induction false} LeavesCount(t: Triangle, depth: nat)
    ensures |Leaves(t, depth)| == Pow4(depth)
    decreases depth, 0
  {
    if depth > 0 {
      ChildLeavesCount(Split(t), depth - 1);
    }
  }

  lemma {:induction false} ChildLeavesCount(cs: Children, depth: nat)
    ensures |ChildLeaves(cs, depth)| == 4 * Pow4(depth)
    decreases depth, 1
  {
    LeavesCount(cs.atV1, depth);
    LeavesCount(cs.atV2, depth);
    LeavesCount(cs.atV3, depth);
    LeavesCount(cs.centre, depth);
  }

  /** The first leaf of any subdivision starts at the subdivided triangle's
      own first corner, so its first emitted point is v1 and its first emitted
      texture coordinate is uv1. */
  lemma {:induction false} FirstLeaf(t: Triangle, depth: nat)
    ensures |Leaves(t, depth)| > 0
    ensures Leaves(t, depth)[0].v1 == t.v1 && Leaves(t, depth)[0].uv1 == t.uv1
    decreases depth
  {
    if depth > 0 {
      FirstLeaf(Split(t).atV1, depth - 1);
    }
  }

  /** A leaf on its own emits its three corners and their texture coordinates. */
  lemma SingleLeaf(v1: Point, v2: Point, v3: Point, uv1: Vector2, uv2: Vector2, uv3: Vector2)
    ensures Points(Leaves(Triangle(v1, v2, v3, uv1, uv2, uv3), 0)) == [v1, v2, v3]
    ensures Uvs(Leaves(Triangle(v1, v2, v3, uv1, uv2, uv3), 0)) == [uv1, uv2, uv3]
  {
    var t := Triangle(v1, v2, v3, uv1, uv2, uv3);
    assert Leaves(t, 0) == [t];
    assert [t][1..] == [];
  }

  lemma {:induction false} PointsAppend(a: seq<Triangle>, b: seq<Triangle>)
    ensures Points(a + b) == Points(a) + Points(b)
  {
    if a == [] {
      assert a + b == b;
    } else {
      assert (a + b)[0] == a[0];
      assert (a + b)[1..] == a[1..] + b;
      PointsAppend(a[1..], b);
    }
  }

  lemma {:induction false} UvsAppend(a: seq<Triangle>, b: seq<Triangle>)
    ensures Uvs(a + b) == Uvs(a) + Uvs(b)
  {
    if a == [] {
      assert a + b == b;
    } else {
      assert (a + b)[0] == a[0];
      assert (a + b)[1..] == a[1..] + b;
      UvsAppend(a[1..], b);
    }
  }

  lemma {:induction false} EmittedCount(leaves: seq<Triangle>)
    ensures |Points(leaves)| == 3 * |leaves| && |Uvs(leaves)| == 3 * |leaves|
  {
    if leaves != [] {
      EmittedCount(leaves[1..]);
    }
  }

  /** Leaf k owns points 3k, 3k+1, 3k+2 and the texture coordinates at the
      same positions. */
  lemma {:induction false} EmittedAt(leaves: seq<Triangle>, k: nat)
    requires k < |leaves|
    ensures |Points(leaves)| == 3 * |leaves| && |Uvs(leaves)| == 3 * |leaves|
    ensures Points(leaves)[3 * k] == leaves[k].v1
    ensures Points(leaves)[3 * k + 1] == leaves[k].v2
    ensures Points(leaves)[3 * k + 2] == leaves[k].v3
    ensures Uvs(leaves)[3 * k] == leaves[k].uv1
    ensures Uvs(leaves)[3 * k + 1] == leaves[k].uv2
    ensures Uvs(leaves)[3 * k + 2] == leaves[k].uv3
  {
    if k == 0 {
      EmittedCount(leaves[1..]);
    } else {
      EmittedAt(leaves[1..], k - 1);
    }
  }

  /** The points and texture coordinates of the children's subdivisions are
      those of each child's subdivision, one after the other. */
  lemma EmittedSplit(cs: Children, depth: nat)
    ensures Points(ChildLeaves(cs, depth))
         == Points(Leaves(cs.atV1, depth)) + Points(Leaves(cs.atV2, depth))
          + Points(Leaves(cs.atV3, depth)) + Points(Leaves(cs.centre, depth))
    ensures Uvs(ChildLeaves(cs, depth))
         == Uvs(Leaves(cs.atV1, depth)) + Uvs(Leaves(cs.atV2, depth))
          + Uvs(Leaves(cs.atV3, depth)) + Uvs(Leaves(cs.centre, depth))
  {
    var l0, l1, l2, l3 := Leaves(cs.atV1, depth), Leaves(cs.atV2, depth), Leaves(cs.atV3, depth), Leaves(cs.centre, depth);
    PointsAppend(l0 + l1 + l2, l3);
    PointsAppend(l0 + l1, l2);
    PointsAppend(l0, l1);
    UvsAppend(l0 + l1 + l2, l3);
    UvsAppend(l0 + l1, l2);
    UvsAppend(l0, l1);
  }

  /** Joins the four runs a recursive subdivision appends to a buffer. */
  lemma JoinFour<T>(s0: seq<T>, s1: seq<T>, s2: seq<T>, s3: seq<T>, s4: seq<T>,
                    a: seq<T>, b: seq<T>, c: seq<T>, d: seq<T>)
    requires s1 == s0 + a && s2 == s1 + b && s3 == s2 + c && s4 == s3 + d
    ensures s4 == s0 + (a + b + c + d)
  {
  }

  /** What the four recursive calls of one subdivision step append to the
      point and texture buffers, joined: the points and texture coordinates
      of the whole subdivision. */
  lemma EmitStep(t: Triangle, a: Triangle, b: Triangle, c: Triangle, d: Triangle, depth: nat,
                 p0: seq<Point>, p1: seq<Point>, p2: seq<Point>, p3: seq<Point>, p4: seq<Point>,
                 u0: seq<Vector2>, u1: seq<Vector2>, u2: seq<Vector2>, u3: seq<Vector2>, u4: seq<Vector2>)
    requires depth > 0 && Split(t) == Children(a, b, c, d)
    requires p1 == p0 + Points(Leaves(a, depth - 1)) && p2 == p1 + Points(Leaves(b, depth - 1))
    requires p3 == p2 + Points(Leaves(c, depth - 1)) && p4 == p3 + Points(Leaves(d, depth - 1))
    requires u1 == u0 + Uvs(Leaves(a, depth - 1)) && u2 == u1 + Uvs(Leaves(b, depth - 1))
    requires u3 == u2 + Uvs(Leaves(c, depth - 1)) && u4 == u3 + Uvs(Leaves(d, depth - 1))
    ensures p4 == p0 + Points(Leaves(t, depth))
    ensures u4 == u0 + Uvs(Leaves(t, depth))
  {
    JoinFour(p0, p1, p2, p3, p4, Points(Leaves(a, depth - 1)), Points(Leaves(b, depth - 1)),
             Points(Leaves(c, depth - 1)), Points(Leaves(d, depth - 1)));
    JoinFour(u0, u1, u2, u3, u4, Uvs(Leaves(a, depth - 1)), Uvs(Leaves(b, depth - 1)),
             Uvs(Leaves(c, depth - 1)), Uvs(Leaves(d, depth - 1)));
    EmittedSplit(Children(a, b, c, d), depth - 1);
  }

  // ----- index triples -----

  /** A single indexed leaf appends (n+2, n+1, n); an unindexed one nothing. */
  lemma IndexTriplesSingle(base: int)
    ensures IndexTriples(base, IndexedLeaves(0, true)) == [base + 2, base + 1, base]
    ensures IndexTriples(base, IndexedLeaves(0, false)) == []
  {
    var r := IndexTriples(base, 1);
    assert r[0] == base + 2 && r[1] == base + 1 && r[2] == base;
  }

  /** Triple j of a run is leaf j's three points in reverse order. */
  lemma IndexTriplesAt(base: int, count: nat, j: nat)
    requires j < count
    ensures IndexTriples(base, count)[3 * j] == base + 3 * j + 2
    ensures IndexTriples(base, count)[3 * j + 1] == base + 3 * j + 1
    ensures IndexTriples(base, count)[3 * j + 2] == base + 3 * j
  {
  }

  /** The triples of two runs of leaves, the second starting where the first
      one's points end, are the triples of the joined run. */
  lemma IndexTriplesAppend(base: int, a: nat, next: int, b: nat)
    requires b == 0 || next == base + 3 * a
    ensures IndexTriples(base, a) + IndexTriples(next, b) == IndexTriples(base, a + b)
  {
    if b == 0 {
      assert IndexTriples(next, b) == [];
      return;
    }
    var r := IndexTriples(base, a) + IndexTriples(next, b);
    forall i | 3 * a <= i < 3 * (a + b)
      ensures r[i] == IndexTriples(base, a + b)[i]
    {
      var k := i - 3 * a;
      assert k % 3 == i % 3;
    }
  }

  /** The index triples a subdivision of depth d > 0 appends are its four
      children's, one after the other, each child's points starting 3·4^(d-1)
      after the previous child's, when the first child inherits the flag and
      the other three keep it only while d <= MaxAddTrisDepth. */
  lemma IndexedLeavesSplit(n0: int, n1: int, n2: int, n3: int, depth: nat, addTris: bool)
    requires depth > 0
    requires n1 == n0 + 3 * Pow4(depth - 1) && n2 == n1 + 3 * Pow4(depth - 1) && n3 == n2 + 3 * Pow4(depth - 1)
    ensures
      IndexTriples(n0, IndexedLeaves(depth - 1, addTris))
      + IndexTriples(n1, IndexedLeaves(depth - 1, addTris && depth <= MaxAddTrisDepth))
      + IndexTriples(n2, IndexedLeaves(depth - 1, addTris && depth <= MaxAddTrisDepth))
      + IndexTriples(n3, IndexedLeaves(depth - 1, addTris && depth <= MaxAddTrisDepth))
      == IndexTriples(n0, IndexedLeaves(depth, addTris))
  {
    var p := Pow4(depth - 1);
    if addTris && depth <= MaxAddTrisDepth {
      assert IndexedLeaves(depth - 1, addTris) == p && IndexedLeaves(depth, addTris) == 4 * p;
      IndexTriplesAppend(n0, p, n1, p);
      IndexTriplesAppend(n0, 2 * p, n2, p);
      IndexTriplesAppend(n0, 3 * p, n3, p);
    } else {
      assert IndexedLeaves(depth - 1, addTris && depth <= MaxAddTrisDepth) == 0;
      if addTris {
        assert IndexedLeaves(depth - 1, addTris) == IndexedLeaves(depth, addTris);
      }
    }
  }

  /** What the four recursive calls of one subdivision step append to the
      index buffer, joined: the index triples of the whole subdivision. */
  lemma IndexStep(t0: seq<int>, t1: seq<int>, t2: seq<int>, t3: seq<int>, t4: seq<int>,
                  n0: int, n1: int, n2: int, n3: int, depth: nat, addTris: bool)
    requires depth > 0
    requires n1 == n0 + 3 * Pow4(depth - 1) && n2 == n1 + 3 * Pow4(depth - 1) && n3 == n2 + 3 * Pow4(depth - 1)
    requires t1 == t0 + IndexTriples(n0, IndexedLeaves(depth - 1, addTris))
    requires t2 == t1 + IndexTriples(n1, IndexedLeaves(depth - 1, addTris && depth <= MaxAddTrisDepth))
    requires t3 == t2 + IndexTriples(n2, IndexedLeaves(depth - 1, addTris && depth <= MaxAddTrisDepth))
    requires t4 == t3 + IndexTriples(n3, IndexedLeaves(depth - 1, addTris && depth <= MaxAddTrisDepth))
    ensures t4 == t0 + IndexTriples(n0, IndexedLeaves(depth, addTris))
  {
    JoinFour(t0, t1, t2, t3, t4, IndexTriples(n0, IndexedLeaves(depth - 1, addTris)),
      IndexTriples(n1, IndexedLeaves(depth - 1, addTris && depth <= MaxAddTrisDepth)),
      IndexTriples(n2, IndexedLeaves(depth - 1, addTris && depth <= MaxAddTrisDepth)),
      IndexTriples(n3, IndexedLeaves(depth - 1, addTris && depth <= MaxAddTrisDepth)));
    IndexedLeavesSplit(n0, n1, n2, n3, depth, addTris);
  }

  // ----- texture coordinates stay in the atlas -----

  predicate UvsInUnitSquare(t: Triangle)
  {
    InUnitSquare(t.uv1) && InUnitSquare(t.uv2) && InUnitSquare(t.uv3)
  }

  /** Every leaf of a subdivision of a triangle whose texture corners lie in
      the atlas's unit square has its texture corners there too. */
  lemma {:induction false} LeafUvsInUnitSquare(t: Triangle, depth: nat)
    requires UvsInUnitSquare(t)
    ensures forall k :: 0 <= k < |Leaves(t, depth)| ==> UvsInUnitSquare(Leaves(t, depth)[k])
    decreases depth, 0
  {
    if depth > 0 {
      var cs := Split(t);
      assert UvsInUnitSquare(cs.atV1) && UvsInUnitSquare(cs.atV2) && UvsInUnitSquare(cs.atV3) && UvsInUnitSquare(cs.centre);
      ChildLeafUvsInUnitSquare(cs, depth - 1);
    }
  }

  lemma {:induction false} ChildLeafUvsInUnitSquare(cs: Children, depth: nat)
    requires UvsInUnitSquare(cs.atV1) && UvsInUnitSquare(cs.atV2) && UvsInUnitSquare(cs.atV3) && UvsInUnitSquare(cs.centre)
    ensures forall k :: 0 <= k < |ChildLeaves(cs, depth)| ==> UvsInUnitSquare(ChildLeaves(cs, depth)[k])
    decreases depth, 1
  {
    LeafUvsInUnitSquare(cs.atV1, depth);
    LeafUvsInUnitSquare(cs.atV2, depth);
    LeafUvsInUnitSquare(cs.atV3, depth);
    LeafUvsInUnitSquare(cs.centre, depth);
  }

  /** Leaves whose texture corners all lie in the unit square emit only
      texture coordinates in the unit square. */
  lemma {:induction false} UvsOfLeavesInUnitSquare(leaves: seq<Triangle>)
    requires forall k :: 0 <= k < |leaves| ==> UvsInUnitSquare(leaves[k])
    ensures forall k :: 0 <= k < |Uvs(leaves)| ==> InUnitSquare(Uvs(leaves)[k])
  {
    if leaves != [] {
      UvsOfLeavesInUnitSquare(leaves[1..]);
    }
  }
}
