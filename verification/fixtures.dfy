/** The meshes of tests/test_mesh_repair.cpp and what analysis and repair make of
    them: the closed cube, the cube with one side removed, the repaired cube, the
    single triangle and the empty mesh. Each fact about a literal mesh is reduced to a
    handful of per-edge counts, and the general lemmas of the model do the rest. */
module Fixtures {
  import opened Options
  import opened Mesh
  import opened EdgeTable
  import opened Boundary
  import opened Analysis
  import opened Weld
  import opened Repair

  /** The corners of the unit cube, in the order `create_watertight_cube` pushes them. */
  const CubeVertices: seq<Vec3> := [
    Vec3(0.0, 0.0, 0.0), Vec3(1.0, 0.0, 0.0), Vec3(1.0, 1.0, 0.0), Vec3(0.0, 1.0, 0.0),
    Vec3(0.0, 0.0, 1.0), Vec3(1.0, 0.0, 1.0), Vec3(1.0, 1.0, 1.0), Vec3(0.0, 1.0, 1.0)]

  /** `create_cube_with_hole`: the cube without its last two triangles (the side
      `x = 1`). */
  const Holed: seq<Face> := [
    Face(0, 2, 1), Face(0, 3, 2), Face(4, 5, 6), Face(4, 6, 7), Face(0, 1, 5), Face(0, 5, 4),
    Face(2, 3, 7), Face(2, 7, 6), Face(0, 4, 7), Face(0, 7, 3)]

  /** The two triangles of the side `x = 1` that `create_cube_with_hole` pops. */
  const RightSide: seq<Face> := [Face(1, 2, 6), Face(1, 6, 5)]

  /** `create_watertight_cube`: two triangles per side of the unit cube. */
  const Cube: seq<Face> := Holed + RightSide

  /** The four edges around the missing side. */
  predicate Rim(e: Edge)
  {
    e == Edge(1, 2) || e == Edge(1, 5) || e == Edge(2, 6) || e == Edge(5, 6)
  }

  /** The eighteen edges of the cube's triangulation: its twelve geometric edges and
      one diagonal per square side. */
  predicate CubeEdge(e: Edge)
  {
    || e == Edge(0, 1) || e == Edge(0, 2) || e == Edge(0, 3) || e == Edge(0, 4) || e == Edge(0, 5) || e == Edge(0, 7)
    || e == Edge(1, 2) || e == Edge(1, 5) || e == Edge(1, 6) || e == Edge(2, 3) || e == Edge(2, 6) || e == Edge(2, 7)
    || e == Edge(3, 7) || e == Edge(4, 5) || e == Edge(4, 6) || e == Edge(4, 7) || e == Edge(5, 6) || e == Edge(6, 7)
  }

  /** The number of triangles of the holed cube at each edge of the cube. */
  function HoleExpected(e: Edge): nat
  {
    if Rim(e) then 1 else if e == Edge(1, 6) then 0 else 2
  }

  /** The directed side `x -> y` has key `e`. */
  predicate Joins(x: nat, y: nat, e: Edge)
  {
    (x == e.v1 && y == e.v2) || (x == e.v2 && y == e.v1)
  }

  /** The number of sides of `f` equal to `e`. */
  function Hits(f: Face, e: Edge): nat
  {
    (if Joins(f.a, f.b, e) then 1 else 0) + (if Joins(f.b, f.c, e) then 1 else 0)
    + (if Joins(f.c, f.a, e) then 1 else 0)
  }

  /** The number of sides equal to `e` among the faces from index `k` on. */
  function CountFrom(faces: seq<Face>, e: Edge, k: nat): nat
    requires k <= |faces|
    decreases |faces| - k
  {
    if k == |faces| then 0 else Hits(faces[k], e) + CountFrom(faces, e, k + 1)
  }

  lemma JoinsIsKey(x: nat, y: nat, e: Edge)
    requires Canonical(e)
    ensures Joins(x, y, e) <==> MakeEdge(x, y) == e
  {
  }

  lemma HitsIsMultiplicity(f: Face, e: Edge)
    requires Canonical(e)
    ensures Hits(f, e) == multiset(FaceEdges(f))[e]
  {
    SideCount(f, e);
    JoinsIsKey(f.a, f.b, e);
    JoinsIsKey(f.b, f.c, e);
    JoinsIsKey(f.c, f.a, e);
  }

  /** The index-wise count agrees with the occurrence list of the model. */
  lemma CountIsOccurrences(faces: seq<Face>, e: Edge)
    requires Canonical(e)
    ensures |Occurrences(faces, e)| == CountFrom(faces, e, 0)
  {
    CountSplits(faces, e, |faces|);
    assert faces[..|faces|] == faces;
  }

  lemma {:induction false} CountSplits(faces: seq<Face>, e: Edge, n: nat)
    requires Canonical(e)
    requires n <= |faces|
    ensures |Occurrences(faces[..n], e)| + CountFrom(faces, e, n) == CountFrom(faces, e, 0)
  {
    if n > 0 {
      CountSplits(faces, e, n - 1);
      var pre := faces[..n];
      assert pre[..n - 1] == faces[..n - 1];
      assert pre[n - 1] == faces[n - 1];
      HitsIsMultiplicity(faces[n - 1], e);
      assert |Occurrences(pre, e)| == |Occurrences(faces[..n - 1], e)| + Hits(faces[n - 1], e);
    }
  }

  /** An edge of a mesh is a side of a face at some index. */
  lemma SideIndex(faces: seq<Face>, e: Edge) returns (k: nat)
    requires e in EdgeSet(faces)
    ensures k < |faces| && e in Sides(faces[k])
  {
    var f :| f in faces && e in Sides(f);
    k :| k < |faces| && faces[k] == f;
  }

  lemma HoleCounts0(e: Edge)
    requires e == Edge(0, 1) || e == Edge(0, 2)
    ensures CountFrom(Holed, e, 0) == HoleExpected(e)
  {
    if e == Edge(0, 1) {
      assert CountFrom(Holed, Edge(0, 1), 0) == 2;
    } else {
      assert CountFrom(Holed, Edge(0, 2), 0) == 2;
    }
  }

  lemma HoleCounts1(e: Edge)
    requires e == Edge(0, 3) || e == Edge(0, 4)
    ensures CountFrom(Holed, e, 0) == HoleExpected(e)
  {
    if e == Edge(0, 3) {
      assert CountFrom(Holed, Edge(0, 3), 0) == 2;
    } else {
      assert CountFrom(Holed, Edge(0, 4), 0) == 2;
    }
  }

  lemma HoleCounts2(e: Edge)
    requires e == Edge(0, 5) || e == Edge(0, 7)
    ensures CountFrom(Holed, e, 0) == HoleExpected(e)
  {
    if e == Edge(0, 5) {
      assert CountFrom(Holed, Edge(0, 5), 0) == 2;
    } else {
      assert CountFrom(Holed, Edge(0, 7), 0) == 2;
    }
  }

  lemma HoleCounts3(e: Edge)
    requires e == Edge(1, 2) || e == Edge(1, 5)
    ensures CountFrom(Holed, e, 0) == HoleExpected(e)
  {
    if e == Edge(1, 2) {
      assert CountFrom(Holed, Edge(1, 2), 0) == 1;
    } else {
      assert CountFrom(Holed, Edge(1, 5), 0) == 1;
    }
  }

  lemma HoleCounts4(e: Edge)
    requires e == Edge(1, 6) || e == Edge(2, 3)
    ensures CountFrom(Holed, e, 0) == HoleExpected(e)
  {
    if e == Edge(1, 6) {
      assert CountFrom(Holed, Edge(1, 6), 0) == 0;
    } else {
      assert CountFrom(Holed, Edge(2, 3), 0) == 2;
    }
  }

  lemma HoleCounts5(e: Edge)
    requires e == Edge(2, 6) || e == Edge(2, 7)
    ensures CountFrom(Holed, e, 0) == HoleExpected(e)
  {
    if e == Edge(2, 6) {
      assert CountFrom(Holed, Edge(2, 6), 0) == 1;
    } else {
      assert CountFrom(Holed, Edge(2, 7), 0) == 2;
    }
  }

  lemma HoleCounts6(e: Edge)
    requires e == Edge(3, 7) || e == Edge(4, 5)
    ensures CountFrom(Holed, e, 0) == HoleExpected(e)
  {
    if e == Edge(3, 7) {
      assert CountFrom(Holed, Edge(3, 7), 0) == 2;
    } else {
      assert CountFrom(Holed, Edge(4, 5), 0) == 2;
    }
  }

  lemma HoleCounts7(e: Edge)
    requires e == Edge(4, 6) || e == Edge(4, 7)
    ensures CountFrom(Holed, e, 0) == HoleExpected(e)
  {
    if e == Edge(4, 6) {
      assert CountFrom(Holed, Edge(4, 6), 0) == 2;
    } else {
      assert CountFrom(Holed, Edge(4, 7), 0) == 2;
    }
  }

  lemma HoleCounts8(e: Edge)
    requires e == Edge(5, 6) || e == Edge(6, 7)
    ensures CountFrom(Holed, e, 0) == HoleExpected(e)
  {
    if e == Edge(5, 6) {
      assert CountFrom(Holed, Edge(5, 6), 0) == 1;
    } else {
      assert CountFrom(Holed, Edge(6, 7), 0) == 2;
    }
  }

  /** The holed cube has one or two triangles at every edge of the cube except
      the diagonal of the missing side. */
  lemma HoleCounts(e: Edge)
    requires CubeEdge(e)
    ensures |Occurrences(Holed, e)| == HoleExpected(e)
  {
    if e == Edge(0, 1) || e == Edge(0, 2) {
      HoleCounts0(e);
    } else if e == Edge(0, 3) || e == Edge(0, 4) {
      HoleCounts1(e);
    } else if e == Edge(0, 5) || e == Edge(0, 7) {
      HoleCounts2(e);
    } else if e == Edge(1, 2) || e == Edge(1, 5) {
      HoleCounts3(e);
    } else if e == Edge(1, 6) || e == Edge(2, 3) {
      HoleCounts4(e);
    } else if e == Edge(2, 6) || e == Edge(2, 7) {
      HoleCounts5(e);
    } else if e == Edge(3, 7) || e == Edge(4, 5) {
      HoleCounts6(e);
    } else if e == Edge(4, 6) || e == Edge(4, 7) {
      HoleCounts7(e);
    } else {
      HoleCounts8(e);
    }
    CountIsOccurrences(Holed, e);
  }

  /** Every side of the holed cube's triangles is an edge of the cube, and not the
      missing diagonal. */
  lemma HoleSides(k: nat)
    requires k < |Holed|
    ensures forall e | e in Sides(Holed[k]) :: CubeEdge(e) && e != Edge(1, 6)
  {
    if k < 5 {
      HoleSidesLow(k);
    } else {
      HoleSidesHigh(k);
    }
  }

  lemma HoleSidesLow(k: nat)
    requires k < 5
    ensures forall e | e in Sides(Holed[k]) :: CubeEdge(e) && e != Edge(1, 6)
  {
  }

  lemma HoleSidesHigh(k: nat)
    requires 5 <= k < |Holed|
    ensures forall e | e in Sides(Holed[k]) :: CubeEdge(e) && e != Edge(1, 6)
  {
  }

  lemma HoleEdges(e: Edge)
    requires e in EdgeSet(Holed)
    ensures CubeEdge(e) && e != Edge(1, 6)
  {
    var k := SideIndex(Holed, e);
    HoleSides(k);
  }

  /** The missing side's two triangles: two at the diagonal, one at each rim edge. */
  lemma RightSideCounts(e: Edge)
    requires Canonical(e)
    ensures |Occurrences(RightSide, e)| == if e == Edge(1, 6) then 2 else if Rim(e) then 1 else 0
  {
    CountIsOccurrences(RightSide, e);
  }

  /** "watertight cube detection" and "watertight cube edge count": every edge of the
      closed cube is shared by two triangles, so it is manifold and watertight with 18
      edges, no boundary edge and no hole. */
  lemma CubeIsWatertight()
    ensures Analyze(Cube) == MeshAnalysis(18, 0, 0, 0, true, true)
  {
    forall e | e in EdgeSet(Cube) ensures |Occurrences(Cube, e)| == 2 {
      CubeEdgeShared(e);
    }
    ClosedMeshReport(Cube);
  }

  lemma CubeEdgeShared(e: Edge)
    requires e in EdgeSet(Cube)
    ensures |Occurrences(Cube, e)| == 2
  {
    CubeEdges(e);
    SideIsCanonical(Cube, e);
    CubeCounts(e);
  }

  /** Every edge of the cube is an edge of the holed cube or of the missing side. */
  lemma CubeEdges(e: Edge)
    requires e in EdgeSet(Cube)
    ensures CubeEdge(e)
  {
    EdgeSetAppend(Holed, RightSide);
    if e in EdgeSet(Holed) {
      HoleEdges(e);
    } else {
      RightSideEdges(e);
    }
  }

  /** The holed cube and the missing side together put two triangles at each edge. */
  lemma CubeCounts(e: Edge)
    requires CubeEdge(e) && Canonical(e)
    ensures |Occurrences(Cube, e)| == 2
  {
    HoleCounts(e);
    RightSideCounts(e);
    OccurrenceCountAppend(Holed, RightSide, e);
  }

  lemma SideIsCanonical(faces: seq<Face>, e: Edge)
    requires e in EdgeSet(faces)
    ensures Canonical(e)
  {
  }

  lemma RightSideEdges(e: Edge)
    requires e in EdgeSet(RightSide)
    ensures CubeEdge(e)
  {
    var k := SideIndex(RightSide, e);
    RightSideSides(k, e);
  }

  lemma RightSideSides(k: nat, e: Edge)
    requires k < |RightSide| && e in Sides(RightSide[k])
    ensures CubeEdge(e)
  {
  }

  /** The rim edges in ascending key order. */
  const RimKeys: seq<Edge> := [Edge(1, 2), Edge(1, 5), Edge(2, 6), Edge(5, 6)]

  /** The boundary adjacency of the holed cube: each rim vertex lists its two rim
      neighbours, in the order the rim edges are visited. */
  const RimAdjacency: Adjacency := map[1 := [2, 5], 2 := [1, 6], 5 := [1, 6], 6 := [2, 5]]

  lemma HoledEdgeCount(e: Edge)
    requires e in EdgeSet(Holed)
    ensures |Occurrences(Holed, e)| == if Rim(e) then 1 else 2
  {
    HoleEdges(e);
    SideIsCanonical(Holed, e);
    HoleCounts(e);
  }

  /** A key met by a side of the face at index `k` is an edge of the mesh. */
  lemma HitIsEdge(faces: seq<Face>, k: nat, e: Edge)
    requires k < |faces| && Canonical(e) && Hits(faces[k], e) > 0
    ensures e in EdgeSet(faces)
  {
    JoinsIsKey(faces[k].a, faces[k].b, e);
    JoinsIsKey(faces[k].b, faces[k].c, e);
    JoinsIsKey(faces[k].c, faces[k].a, e);
    assert faces[k] in faces && e in Sides(faces[k]);
  }

  /** Each rim edge is a side of a remaining triangle. */
  lemma RimInHoled(e: Edge)
    requires Rim(e)
    ensures e in EdgeSet(Holed)
  {
    var k: nat := if e == Edge(1, 2) then 0 else if e == Edge(1, 5) then 4 else if e == Edge(2, 6) then 7 else 2;
    assert Hits(Holed[k], e) > 0;
    HitIsEdge(Holed, k, e);
  }

  lemma RimIsBoundary(e: Edge)
    ensures e in BoundaryEdgeSet(Holed) <==> Rim(e)
  {
    if e in EdgeSet(Holed) {
      HoledEdgeCount(e);
    }
    if Rim(e) {
      RimInHoled(e);
      HoledEdgeCount(e);
    }
  }

  lemma HoledShared()
    ensures forall e | e in EdgeSet(Holed) :: |Occurrences(Holed, e)| <= 2
  {
    forall e | e in EdgeSet(Holed) ensures |Occurrences(Holed, e)| <= 2 {
      HoledEdgeCount(e);
    }
  }

  /** No edge of the holed cube has more than two triangles. */
  lemma HoledManifold()
    ensures Analyze(Holed).isManifold
  {
    HoledShared();
    WatertightIffEveryEdgeShared(Holed);
  }

  /** The boundary edges of the holed cube are the four rim edges. */
  lemma HoledRim()
    ensures forall e :: e in RimKeys <==> e in BoundaryEdgeSet(Holed)
  {
    forall e ensures e in RimKeys <==> e in BoundaryEdgeSet(Holed) {
      RimIsBoundary(e);
    }
  }

  /** Linking an edge whose ends have the neighbour lists `n1` and `n2`. */
  lemma LinkFresh(a: Adjacency, e: Edge, n1: seq<nat>, n2: seq<nat>)
    requires e.v1 != e.v2 && Neighbours(a, e.v1) == n1 && Neighbours(a, e.v2) == n2
    ensures Link(a, e) == a[e.v1 := n1 + [e.v2]][e.v2 := n2 + [e.v1]]
  {
    var a1 := a[e.v1 := n1 + [e.v2]];
    assert Neighbours(a1, e.v2) == n2;
  }

  lemma Link1()
    ensures Link(map[], Edge(1, 2)) == map[1 := [2], 2 := [1]]
  {
    LinkFresh(map[], Edge(1, 2), [], []);
    assert [] + [2] == [2];
    assert [] + [1] == [1];
  }

  lemma Link2()
    ensures Link(map[1 := [2], 2 := [1]], Edge(1, 5)) == map[1 := [2, 5], 2 := [1], 5 := [1]]
  {
    LinkFresh(map[1 := [2], 2 := [1]], Edge(1, 5), [2], []);
    assert [2] + [5] == [2, 5];
    assert [] + [1] == [1];
  }

  lemma Link3()
    ensures Link(map[1 := [2, 5], 2 := [1], 5 := [1]], Edge(2, 6))
            == map[1 := [2, 5], 2 := [1, 6], 5 := [1], 6 := [2]]
  {
    LinkFresh(map[1 := [2, 5], 2 := [1], 5 := [1]], Edge(2, 6), [1], []);
    assert [1] + [6] == [1, 6];
    assert [] + [2] == [2];
  }

  lemma Link4()
    ensures Link(map[1 := [2, 5], 2 := [1, 6], 5 := [1], 6 := [2]], Edge(5, 6)) == RimAdjacency
  {
    LinkFresh(map[1 := [2, 5], 2 := [1, 6], 5 := [1], 6 := [2]], Edge(5, 6), [1], [2]);
    assert [1] + [6] == [1, 6];
    assert [2] + [5] == [2, 5];
  }

  /** Linking the rim edges in ascending order gives the rim adjacency. */
  lemma RimLinks()
    ensures LinkAll(RimKeys) == RimAdjacency
  {
    var k1, k2, k3 := RimKeys[..1], RimKeys[..2], RimKeys[..3];
    assert k1[..0] == [] && k2[..1] == k1 && k3[..2] == k2;
    Link1();
    assert LinkAll(k1) == map[1 := [2], 2 := [1]];
    Link2();
    assert LinkAll(k2) == map[1 := [2, 5], 2 := [1], 5 := [1]];
    Link3();
    assert LinkAll(k3) == map[1 := [2, 5], 2 := [1, 6], 5 := [1], 6 := [2]];
    Link4();
  }

  lemma RimClosed()
    ensures Closed(RimAdjacency)
  {
  }

  lemma Walk3(visited: set<nat>)
    requires visited == {1, 2, 6}
    ensures Closed(RimAdjacency)
    ensures Walk(RimAdjacency, 1, 5, 6, visited) == [5]
  {
    RimClosed();
    assert NextStep([1, 6], 6, visited + {5}, 1) == Some(1);
  }

  lemma Walk2(visited: set<nat>)
    requires visited == {1, 2}
    ensures Closed(RimAdjacency)
    ensures Walk(RimAdjacency, 1, 6, 2, visited) == [6, 5]
  {
    RimClosed();
    assert NextStep([2, 5], 2, visited + {6}, 1) == Some(5);
    Walk3(visited + {6});
  }

  lemma Walk1(visited: set<nat>)
    requires visited == {1}
    ensures Closed(RimAdjacency)
    ensures Walk(RimAdjacency, 1, 2, 1, visited) == [2, 6, 5]
  {
    RimClosed();
    assert NextStep([1, 6], 1, visited + {2}, 1) == Some(6);
    Walk2(visited + {2});
  }

  lemma Walk0(visited: set<nat>)
    requires visited == {}
    ensures Closed(RimAdjacency)
    ensures Walk(RimAdjacency, 1, 1, NoVertex, visited) == [1, 2, 6, 5]
  {
    RimClosed();
    assert NextStep([2, 5], NoVertex, visited + {1}, 1) == Some(2);
    Walk1(visited + {1});
  }

  /** Seeds already visited start no loop. */
  lemma {:induction false} VisitedSeedsNoLoops(adj: Adjacency, seeds: seq<nat>, visited: set<nat>)
    requires Closed(adj)
    requires forall k | 0 <= k < |seeds| :: seeds[k] in adj && seeds[k] in visited
    ensures TraceLoops(adj, seeds, visited) == []
    decreases |seeds|
  {
    if |seeds| > 0 {
      VisitedSeedsNoLoops(adj, seeds[1..], visited);
    }
  }

  /** The walk from vertex 1 goes round the rim once, 1, 2, 6, 5, and visits every
      other seed. */
  lemma RimWalk(seeds: seq<nat>)
    requires seeds == [1, 2, 5, 6]
    ensures Closed(RimAdjacency)
    ensures TraceLoops(RimAdjacency, seeds, {}) == [[1, 2, 6, 5]]
  {
    Walk0({});
    var path: seq<nat> := [1, 2, 6, 5];
    assert Elems(path) == {1, 2, 5, 6};
    VisitedSeedsNoLoops(RimAdjacency, seeds[1..], {} + Elems(path));
  }

  /** The boundary of the holed cube: four edges around one hole. */
  lemma HoledLoops()
    ensures Analyze(Holed).boundaryEdges == 4
    ensures AnalyzeDetailed(Holed).boundaryLoops == [[1, 2, 6, 5]]
  {
    var seeds: seq<nat> := [1, 2, 5, 6];
    HoledRim();
    RimLinks();
    KeysAscending(RimKeys);
    SeedsAscending(seeds, RimAdjacency);
    LoopsFromBoundary(Holed, RimKeys, seeds);
    RimWalk(seeds);
  }

  /** Both rim-key lists are strictly ascending. */
  lemma KeysAscending(ks: seq<Edge>)
    requires ks == RimKeys || ks == SingleKeys
    ensures forall j, k | 0 <= j < k < |ks| :: Less(ks[j], ks[k])
  {
  }

  /** Both seed lists are ascending and list the keys of their adjacency. */
  lemma SeedsAscending(seeds: seq<nat>, adj: Adjacency)
    requires (seeds == [1, 2, 5, 6] && adj == RimAdjacency) || (seeds == [0, 1, 2] && adj == SingleAdjacency)
    ensures Ascending(seeds) && Elems(seeds) == adj.Keys
  {
  }

  /** "mesh with hole detection", "hole count for missing face" and "boundary edge
      count for missing face": removing a square side leaves a manifold,
      non-watertight mesh with 17 edges, 4 of them on the boundary, around one hole. */
  lemma HoledCubeHasOneHole()
    ensures Analyze(Holed) == MeshAnalysis(17, 4, 0, 1, true, false)
    ensures AnalyzeDetailed(Holed).boundaryLoops == [[1, 2, 6, 5]]
  {
    HoledManifold();
    HoledLoops();
    ManifoldEdgeCount(Holed);
  }

  /** The two triangles that close the hole of the holed cube. */
  const Patch: seq<Face> := [Face(5, 1, 2), Face(2, 6, 5)]

  /** The first candidate ear of the rim loop, `(5, 1, 2)`, is a proper triangle:
      its normal is the unit vector along `x`. */
  lemma FirstEarIsProper()
    ensures !RealDegenerate(CubeVertices[5], CubeVertices[1], CubeVertices[2])
  {
  }

  /** Ear clipping of the rim loop takes the ear at position 0 and then the last
      three vertices, whenever the geometric test accepts the first ear. */
  lemma RimTriangulation(degenerate: (Vec3, Vec3, Vec3) -> bool)
    requires !degenerate(CubeVertices[5], CubeVertices[1], CubeVertices[2])
    ensures Triangulate([1, 2, 6, 5], CubeVertices, degenerate) == Patch
  {
    var rem: seq<nat> := [1, 2, 6, 5];
    assert EarAt(rem, 0) == Face(5, 1, 2);
    assert !DegenerateAt(rem, CubeVertices, degenerate, 0);
    assert Cut(rem, CubeVertices, degenerate) == 0;
    EarClipUnfold(rem, CubeVertices, degenerate);
    assert Remove(rem, 0) == [2, 6, 5];
  }

  lemma HoledInRange()
    ensures FacesInRange(Holed, |CubeVertices|)
  {
  }

  /** "repair fills holes" and "repair adds triangles": without welding, the repair
      of the holed cube appends the two triangles of its one hole and reports one
      hole filled. */
  lemma RepairedCube(cellOf: Vec3 -> Cell, near: (Vec3, Vec3) -> bool, degenerate: (Vec3, Vec3, Vec3) -> bool)
    requires !degenerate(CubeVertices[5], CubeVertices[1], CubeVertices[2])
    ensures FacesInRange(Holed, |CubeVertices|)
    ensures RepairMesh(CubeVertices, Holed, 0.0, cellOf, near, degenerate)
            == RepairResult(CubeVertices, Holed + Patch, 1)
  {
    HoledInRange();
    var w := WeldVertices(CubeVertices, Holed, 0.0, cellOf, near);
    assert w.vertices == CubeVertices && w.faces == Holed;
    HoledCubeHasOneHole();
    RimFill(degenerate);
  }

  /** The hole-filling loop over the one rim loop of the holed cube. */
  lemma RimFill(degenerate: (Vec3, Vec3, Vec3) -> bool)
    requires !degenerate(CubeVertices[5], CubeVertices[1], CubeVertices[2])
    ensures LoopsInRange([[1, 2, 6, 5]], |CubeVertices|)
    ensures FillHoles([[1, 2, 6, 5]], CubeVertices, degenerate) == Patch
  {
    var loops: seq<seq<nat>> := [[1, 2, 6, 5]];
    assert loops[..0] == [];
    RimTriangulation(degenerate);
    assert [] + Patch == Patch;
  }

  /** Each triangle of the patch has its three sides among the rim and the new
      diagonal `(2, 5)`. */
  lemma PatchEdges(e: Edge)
    requires e in EdgeSet(Patch)
    ensures Rim(e) || e == Edge(2, 5)
  {
    var k := SideIndex(Patch, e);
    PatchSides(k, e);
  }

  lemma PatchSides(k: nat, e: Edge)
    requires k < |Patch| && e in Sides(Patch[k])
    ensures Rim(e) || e == Edge(2, 5)
  {
  }

  lemma PatchCounts(e: Edge)
    requires Canonical(e)
    ensures |Occurrences(Patch, e)| == if Rim(e) then 1 else if e == Edge(2, 5) then 2 else 0
  {
    CountIsOccurrences(Patch, e);
  }

  lemma RepairedEdgeShared(e: Edge)
    requires e in EdgeSet(Holed + Patch)
    ensures |Occurrences(Holed + Patch, e)| == 2
  {
    EdgeSetAppend(Holed, Patch);
    SideIsCanonical(Holed + Patch, e);
    RimIsBoundary(e);
    if e in EdgeSet(Holed) {
      HoledEdgeCount(e);
      HoleEdges(e);
    } else {
      PatchEdges(e);
      AbsentEdgeHasNoFaces(Holed, e);
    }
    PatchCounts(e);
    OccurrenceCountAppend(Holed, Patch, e);
  }

  /** "repaired mesh is watertight": after the repair every edge is shared by two
      triangles; the cube has 18 edges again, with the other diagonal on the
      repaired side. */
  lemma RepairedCubeIsWatertight()
    ensures Analyze(Holed + Patch) == MeshAnalysis(18, 0, 0, 0, true, true)
  {
    forall e | e in EdgeSet(Holed + Patch) ensures |Occurrences(Holed + Patch, e)| == 2 {
      RepairedEdgeShared(e);
    }
    ClosedMeshReport(Holed + Patch);
  }

  /** The repair of the holed cube with the geometric test of the source. */
  lemma RepairedCubeExactly()
    ensures FacesInRange(Holed, |CubeVertices|)
    ensures RepairMesh(CubeVertices, Holed, 0.0, RealCell(1.0), RealNear(1.0), RealDegenerate)
            == RepairResult(CubeVertices, Holed + Patch, 1)
  {
    FirstEarIsProper();
    RepairedCube(RealCell(1.0), RealNear(1.0), RealDegenerate);
  }

  /** The mesh of "single triangle analysis". */
  const Single: seq<Face> := [Face(0, 1, 2)]

  /** Its three sides, in ascending key order. */
  const SingleKeys: seq<Edge> := [Edge(0, 1), Edge(0, 2), Edge(1, 2)]

  predicate SingleSide(e: Edge)
  {
    e == Edge(0, 1) || e == Edge(0, 2) || e == Edge(1, 2)
  }

  /** Each vertex of the lone triangle lists the other two. */
  const SingleAdjacency: Adjacency := map[0 := [1, 2], 1 := [0, 2], 2 := [0, 1]]

  lemma SingleCounts(e: Edge)
    requires Canonical(e)
    ensures |Occurrences(Single, e)| == if SingleSide(e) then 1 else 0
  {
    CountIsOccurrences(Single, e);
  }

  lemma SingleEdges(e: Edge)
    requires e in EdgeSet(Single)
    ensures SingleSide(e)
  {
    var k := SideIndex(Single, e);
  }

  lemma SingleIsBoundary(e: Edge)
    ensures e in BoundaryEdgeSet(Single) <==> SingleSide(e)
  {
    if e in EdgeSet(Single) {
      SingleEdges(e);
      SideIsCanonical(Single, e);
      SingleCounts(e);
    }
    if SingleSide(e) {
      assert Hits(Single[0], e) > 0;
      HitIsEdge(Single, 0, e);
      SingleCounts(e);
    }
  }

  lemma SingleBoundary()
    ensures forall e :: e in SingleKeys <==> e in BoundaryEdgeSet(Single)
  {
    forall e ensures e in SingleKeys <==> e in BoundaryEdgeSet(Single) {
      SingleIsBoundary(e);
    }
  }

  lemma SingleManifold()
    ensures Analyze(Single).isManifold
  {
    forall e | e in EdgeSet(Single) ensures |Occurrences(Single, e)| <= 2 {
      SideIsCanonical(Single, e);
      SingleCounts(e);
    }
    WatertightIffEveryEdgeShared(Single);
  }

  lemma SingleLinks()
    ensures LinkAll(SingleKeys) == SingleAdjacency
  {
    var k1, k2 := SingleKeys[..1], SingleKeys[..2];
    assert k1[..0] == [] && k2[..1] == k1;
    LinkFresh(map[], Edge(0, 1), [], []);
    assert [] + [1] == [1] && [] + [0] == [0];
    assert LinkAll(k1) == map[0 := [1], 1 := [0]];
    LinkFresh(map[0 := [1], 1 := [0]], Edge(0, 2), [1], []);
    assert [1] + [2] == [1, 2];
    assert LinkAll(k2) == map[0 := [1, 2], 1 := [0], 2 := [0]];
    LinkFresh(map[0 := [1, 2], 1 := [0], 2 := [0]], Edge(1, 2), [0], [0]);
    assert [0] + [2] == [0, 2] && [0] + [1] == [0, 1];
  }

  lemma SingleClosed()
    ensures Closed(SingleAdjacency)
  {
  }

  lemma SingleWalk2(visited: set<nat>)
    requires visited == {0, 1}
    ensures Closed(SingleAdjacency)
    ensures Walk(SingleAdjacency, 0, 2, 1, visited) == [2]
  {
    SingleClosed();
    assert NextStep([0, 1], 1, visited + {2}, 0) == Some(0);
  }

  lemma SingleWalk1(visited: set<nat>)
    requires visited == {0}
    ensures Closed(SingleAdjacency)
    ensures Walk(SingleAdjacency, 0, 1, 0, visited) == [1, 2]
  {
    SingleClosed();
    assert NextStep([0, 2], 0, visited + {1}, 0) == Some(2);
    SingleWalk2(visited + {1});
  }

  lemma SingleWalk0(visited: set<nat>)
    requires visited == {}
    ensures Closed(SingleAdjacency)
    ensures Walk(SingleAdjacency, 0, 0, NoVertex, visited) == [0, 1, 2]
  {
    SingleClosed();
    assert NextStep([1, 2], NoVertex, visited + {0}, 0) == Some(1);
    SingleWalk1(visited + {0});
  }

  /** The walk from vertex 0 goes round the triangle and visits the other seeds. */
  lemma SingleTrace(seeds: seq<nat>)
    requires seeds == [0, 1, 2]
    ensures Closed(SingleAdjacency)
    ensures TraceLoops(SingleAdjacency, seeds, {}) == [[0, 1, 2]]
  {
    SingleWalk0({});
    var path: seq<nat> := [0, 1, 2];
    assert Elems(path) == {0, 1, 2};
    VisitedSeedsNoLoops(SingleAdjacency, seeds[1..], {} + Elems(path));
  }

  lemma SingleLoops()
    ensures Analyze(Single).boundaryEdges == 3
    ensures AnalyzeDetailed(Single).boundaryLoops == [[0, 1, 2]]
  {
    var seeds: seq<nat> := [0, 1, 2];
    SingleBoundary();
    SingleLinks();
    KeysAscending(SingleKeys);
    SeedsAscending(seeds, SingleAdjacency);
    LoopsFromBoundary(Single, SingleKeys, seeds);
    SingleTrace(seeds);
  }

  /** "single triangle analysis": a lone triangle has three boundary edges around
      one hole and is not watertight. */
  lemma SingleTriangleIsOneHole()
    ensures Analyze(Single) == MeshAnalysis(3, 3, 0, 1, true, false)
    ensures AnalyzeDetailed(Single).boundaryLoops == [[0, 1, 2]]
  {
    SingleManifold();
    SingleLoops();
    ManifoldEdgeCount(Single);
  }

  /** A lone triangle one of whose corners has the index `UINT_MAX`. */
  const Marked: seq<Face> := [Face(0, 1, NoVertex)]

  const MarkedKeys: seq<Edge> := [Edge(0, 1), Edge(0, NoVertex), Edge(1, NoVertex)]

  predicate MarkedSide(e: Edge)
  {
    e == Edge(0, 1) || e == Edge(0, NoVertex) || e == Edge(1, NoVertex)
  }

  const MarkedAdjacency: Adjacency := map[0 := [1, NoVertex], 1 := [0, NoVertex], NoVertex := [0, 1]]

  lemma MarkedCounts(e: Edge)
    requires Canonical(e)
    ensures |Occurrences(Marked, e)| == if MarkedSide(e) then 1 else 0
  {
    CountIsOccurrences(Marked, e);
  }

  lemma MarkedIsBoundary(e: Edge)
    ensures e in BoundaryEdgeSet(Marked) <==> MarkedSide(e)
  {
    if e in EdgeSet(Marked) {
      var k := SideIndex(Marked, e);
      SideIsCanonical(Marked, e);
      MarkedCounts(e);
    }
    if MarkedSide(e) {
      assert Hits(Marked[0], e) > 0;
      HitIsEdge(Marked, 0, e);
      MarkedCounts(e);
    }
  }

  lemma MarkedManifold()
    ensures Analyze(Marked).isManifold
  {
    forall e | e in EdgeSet(Marked) ensures |Occurrences(Marked, e)| <= 2 {
      SideIsCanonical(Marked, e);
      MarkedCounts(e);
    }
    WatertightIffEveryEdgeShared(Marked);
  }

  lemma MarkedLinks()
    ensures LinkAll(MarkedKeys) == MarkedAdjacency
  {
    var k1, k2 := MarkedKeys[..1], MarkedKeys[..2];
    assert k1[..0] == [] && k2[..1] == k1;
    LinkFresh(map[], Edge(0, 1), [], []);
    assert [] + [1] == [1] && [] + [0] == [0];
    assert LinkAll(k1) == map[0 := [1], 1 := [0]];
    LinkFresh(map[0 := [1], 1 := [0]], Edge(0, NoVertex), [1], []);
    assert [1] + [NoVertex] == [1, NoVertex];
    assert LinkAll(k2) == map[0 := [1, NoVertex], 1 := [0], NoVertex := [0]];
    LinkFresh(map[0 := [1, NoVertex], 1 := [0], NoVertex := [0]], Edge(1, NoVertex), [0], [0]);
    assert [0] + [NoVertex] == [0, NoVertex] && [0] + [1] == [0, 1];
  }

  /** From vertex 1 the only eligible neighbour is `UINT_MAX`, which the tracer
      cannot tell from "none": the walk from 0 stops after two vertices. */
  lemma MarkedWalk0(visited: set<nat>)
    requires visited == {}
    ensures Closed(MarkedAdjacency)
    ensures Walk(MarkedAdjacency, 0, 0, NoVertex, visited) == [0, 1]
  {
    assert NextStep([1, NoVertex], NoVertex, visited + {0}, 0) == Some(1);
    assert NextStep([0, NoVertex], 0, visited + {0, 1}, 0) == Some(NoVertex);
  }

  /** The walk from the marked vertex finds both neighbours visited. */
  lemma MarkedWalk2(visited: set<nat>)
    requires visited == {0, 1}
    ensures Closed(MarkedAdjacency)
    ensures Walk(MarkedAdjacency, NoVertex, NoVertex, NoVertex, visited) == [NoVertex]
  {
    assert NextStep([0, 1], NoVertex, visited + {NoVertex}, NoVertex) == None;
  }

  lemma MarkedTrace(seeds: seq<nat>)
    requires seeds == [0, 1, NoVertex]
    ensures Closed(MarkedAdjacency)
    ensures TraceLoops(MarkedAdjacency, seeds, {}) == []
  {
    MarkedWalk0({});
    MarkedWalk2({0, 1});
    var tail: seq<nat> := [NoVertex];
    assert seeds[1..] == [1, NoVertex] && seeds[1..][1..] == tail && tail[1..] == [];
    assert Elems([0, 1]) == {0, 1};
    assert TraceLoops(MarkedAdjacency, tail, {0, 1}) == [];
    assert TraceLoops(MarkedAdjacency, seeds[1..], {0, 1}) == [];
    var path := Walk(MarkedAdjacency, seeds[0], seeds[0], NoVertex, {});
    var none: set<nat> := {};
    assert path == [0, 1] && none + Elems(path) == {0, 1};
  }

  lemma MarkedBoundary()
    ensures forall e :: e in MarkedKeys <==> e in BoundaryEdgeSet(Marked)
  {
    forall e ensures e in MarkedKeys <==> e in BoundaryEdgeSet(Marked) {
      MarkedIsBoundary(e);
    }
  }

  lemma MarkedLoops()
    ensures Analyze(Marked).boundaryEdges == 3
    ensures AnalyzeDetailed(Marked).boundaryLoops == []
  {
    var seeds: seq<nat> := [0, 1, NoVertex];
    MarkedBoundary();
    MarkedLinks();
    assert Ascending(seeds) && Elems(seeds) == MarkedAdjacency.Keys;
    LoopsFromBoundary(Marked, MarkedKeys, seeds);
    MarkedTrace(seeds);
  }

  /** A face corner with the index `UINT_MAX` (4294967295): the lone triangle still
      has three boundary edges, but the walk round it stops before that corner, the
      two-vertex walk is dropped, and no hole is reported. */
  lemma MarkedCornerHidesHole()
    ensures Analyze(Marked) == MeshAnalysis(3, 3, 0, 0, true, false)
    ensures AnalyzeDetailed(Marked).boundaryLoops == []
  {
    MarkedManifold();
    MarkedLoops();
    ManifoldEdgeCount(Marked);
  }
}
