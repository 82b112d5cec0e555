/** `analyze_mesh_detailed` and `analyze_mesh` (common/mesh_repair.cpp) with the
    `MeshAnalysis` record of common/mesh_repair.h. The analyser reads only the face
    list; the vertex positions it is handed are never consulted. */
module Analysis {
  import opened Mesh
  import opened EdgeTable
  import opened Boundary

  /** The report of common/mesh_repair.h. */
  datatype MeshAnalysis = MeshAnalysis(
    totalEdges: nat,
    boundaryEdges: nat,
    nonManifoldEdges: nat,
    numHoles: nat,
    isManifold: bool,
    isWatertight: bool)

  /** A report as its member initialisers leave it: nothing counted, both flags off. */
  const DefaultAnalysis := MeshAnalysis(0, 0, 0, 0, false, false)

  /** `DetailedAnalysis`: the report plus the edge map and the boundary loops, which
      hole repair reuses. */
  datatype DetailedAnalysis = DetailedAnalysis(
    summary: MeshAnalysis,
    edgeTriangles: Table,
    boundaryLoops: seq<seq<nat>>)

  /** `analyze_mesh_detailed`: build the edge map, count boundary and non-manifold
      edges in ascending key order, trace the boundary loops, derive the flags. */
  function AnalyzeDetailed(faces: seq<Face>): (d: DetailedAnalysis)
    ensures WellFormed(d.edgeTriangles)
    ensures forall i | 0 <= i < |d.boundaryLoops| :: |d.boundaryLoops[i]| >= 3
  {
    var t := Build(faces);
    var boundary := CountWhere(t, OneFace);
    var nonManifold := CountWhere(t, ManyFaces);
    var loops := LoopsOf(t);
    var manifold := nonManifold == 0;
    var summary := MeshAnalysis(|t|, boundary, nonManifold, |loops|, manifold, boundary == 0 && manifold);
    DetailedAnalysis(summary, t, loops)
  }

  /** `analyze_mesh`: the summary only. */
  function Analyze(faces: seq<Face>): (r: MeshAnalysis)
    ensures r.isManifold <==> r.nonManifoldEdges == 0
    ensures r.isWatertight <==> r.isManifold && r.boundaryEdges == 0
    ensures r.totalEdges == |AnalyzeDetailed(faces).edgeTriangles|
  {
    AnalyzeDetailed(faces).summary
  }

  /** Reference sets: the edges with exactly one incident face, and those with more
      than two. */
  function BoundaryEdgeSet(faces: seq<Face>): set<Edge>
  {
    EdgesWhere(faces, OneFace)
  }

  function NonManifoldEdgeSet(faces: seq<Face>): set<Edge>
  {
    EdgesWhere(faces, ManyFaces)
  }

  /** The edges of the mesh whose number of incident faces satisfies `p`. */
  function EdgesWhere(faces: seq<Face>, p: nat -> bool): set<Edge>
  {
    set e | e in EdgeSet(faces) && p(|Occurrences(faces, e)|)
  }

  /** The vertex indices used by some face. */
  function FaceVertices(faces: seq<Face>): set<nat>
  {
    set f, v | f in faces && v in Corners(f) :: v
  }

  function Corners(f: Face): set<nat>
  {
    {f.a, f.b, f.c}
  }

  /** The table's filtered key sets are the reference sets. */
  lemma KeysWhereMatchReference(faces: seq<Face>, p: nat -> bool)
    ensures KeysWhere(Build(faces), p) == EdgesWhere(faces, p)
  {
    var t := Build(faces);
    BuildMatchesReference(faces);
    forall e ensures e in KeysWhere(t, p) <==> e in EdgesWhere(faces, p) {
      assert Lookup(t, e) == Occurrences(faces, e);
    }
  }

  /** The counts of the report are the sizes of the reference sets: `total_edges` is
      the number of distinct edges, `boundary_edges` the number with one incident face,
      `non_manifold_edges` the number with more than two; so the last two together
      never exceed the first. */
  lemma AnalyzeCounts(faces: seq<Face>)
    ensures Analyze(faces).totalEdges == |EdgeSet(faces)|
    ensures Analyze(faces).boundaryEdges == |BoundaryEdgeSet(faces)|
    ensures Analyze(faces).nonManifoldEdges == |NonManifoldEdgeSet(faces)|
    ensures Analyze(faces).boundaryEdges + Analyze(faces).nonManifoldEdges <= Analyze(faces).totalEdges
  {
    var t := Build(faces);
    BuildMatchesReference(faces);
    SortedKeysCount(t);
    CountWhereIsCardinality(t, OneFace);
    CountWhereIsCardinality(t, ManyFaces);
    KeysWhereMatchReference(faces, OneFace);
    KeysWhereMatchReference(faces, ManyFaces);
    CountDisjoint(t, OneFace, ManyFaces);
  }

  /** Every edge of the mesh has at least one incident face in its list. */
  lemma EdgesHaveFaces(faces: seq<Face>, e: Edge)
    requires e in EdgeSet(faces)
    ensures |Occurrences(faces, e)| >= 1
  {
    var t := Build(faces);
    BuildMatchesReference(faces);
    var i :| 0 <= i < |t| && t[i].edge == e;
    LookupAt(t, i);
  }

  /** An edge that is no side of any face has no incident face. */
  lemma AbsentEdgeHasNoFaces(faces: seq<Face>, e: Edge)
    requires e !in EdgeSet(faces)
    ensures Occurrences(faces, e) == []
  {
    BuildMatchesReference(faces);
    LookupAbsent(Build(faces), e);
  }

  /** The definition in common/mesh_repair.h: a mesh is manifold when no edge has
      more than two faces, and watertight exactly when every edge is shared by
      exactly two faces (no boundary edge and no non-manifold edge). */
  lemma WatertightIffEveryEdgeShared(faces: seq<Face>)
    ensures Analyze(faces).isManifold <==>
      forall e | e in EdgeSet(faces) :: |Occurrences(faces, e)| <= 2
    ensures Analyze(faces).isWatertight <==>
      forall e | e in EdgeSet(faces) :: |Occurrences(faces, e)| == 2
    ensures Analyze(faces).isWatertight <==>
      Analyze(faces).boundaryEdges == 0 && Analyze(faces).isManifold
    ensures Analyze(faces).isManifold <==> Analyze(faces).nonManifoldEdges == 0
  {
    AnalyzeCounts(faces);
    var a := Analyze(faces);
    if a.isWatertight {
      forall e | e in EdgeSet(faces) ensures |Occurrences(faces, e)| == 2 {
        EdgesHaveFaces(faces, e);
        assert e !in BoundaryEdgeSet(faces);
        assert e !in NonManifoldEdgeSet(faces);
      }
    }
    if a.isManifold {
      forall e | e in EdgeSet(faces) ensures |Occurrences(faces, e)| <= 2 {
        assert e !in NonManifoldEdgeSet(faces);
      }
    }
    if forall e | e in EdgeSet(faces) :: |Occurrences(faces, e)| <= 2 {
      assert NonManifoldEdgeSet(faces) == {};
    }
    if forall e | e in EdgeSet(faces) :: |Occurrences(faces, e)| == 2 {
      assert BoundaryEdgeSet(faces) == {};
      assert NonManifoldEdgeSet(faces) == {};
    }
  }

  /** Every face has three sides, and on a manifold mesh every edge is a side of one
      or two faces: twice the number of distinct edges is three per face plus one per
      boundary edge, so a closed manifold mesh has `3 * |faces| / 2` edges. */
  lemma ManifoldEdgeCount(faces: seq<Face>)
    requires Analyze(faces).isManifold
    ensures 2 * Analyze(faces).totalEdges == 3 * |faces| + Analyze(faces).boundaryEdges
  {
    var t := Build(faces);
    BuildMatchesReference(faces);
    WatertightIffEveryEdgeShared(faces);
    forall i | 0 <= i < |t| ensures |t[i].tris| <= 2 {
      LookupAt(t, i);
      assert t[i].edge in Keys(t);
    }
    SmallEntriesTotal(t);
  }

  lemma {:induction false} SmallEntriesTotal(t: Table)
    requires forall i | 0 <= i < |t| :: 1 <= |t[i].tris| <= 2
    ensures Total(t) + CountWhere(t, OneFace) == 2 * |t|
  {
    if |t| > 0 {
      SmallEntriesTotal(t[1..]);
    }
  }

  /** A hole is traced along boundary edges, so a mesh without boundary edges reports
      no hole. */
  lemma NoBoundaryNoHoles(faces: seq<Face>)
    ensures Analyze(faces).numHoles > 0 ==> Analyze(faces).boundaryEdges > 0
  {
    LoopsAreBoundaryWalks(faces);
    AnalyzeCounts(faces);
    var d := AnalyzeDetailed(faces);
    if |d.boundaryLoops| > 0 {
      var loop := d.boundaryLoops[0];
      assert MakeEdge(loop[0], loop[1]) in BoundaryEdgeSet(faces);
    }
  }

  /** A mesh whose every edge is shared by exactly two faces is reported watertight,
      with no boundary edge, no non-manifold edge, no hole, and three edges for every
      two faces. */
  lemma ClosedMeshReport(faces: seq<Face>)
    requires forall e | e in EdgeSet(faces) :: |Occurrences(faces, e)| == 2
    ensures 2 * Analyze(faces).totalEdges == 3 * |faces|
    ensures Analyze(faces).boundaryEdges == 0 && Analyze(faces).nonManifoldEdges == 0
    ensures Analyze(faces).numHoles == 0
    ensures Analyze(faces).isManifold && Analyze(faces).isWatertight
  {
    WatertightIffEveryEdgeShared(faces);
    ManifoldEdgeCount(faces);
    NoBoundaryNoHoles(faces);
    AnalyzeCounts(faces);
  }

  /** A key of the boundary adjacency is an endpoint of a boundary edge, hence a
      vertex of some face. */
  lemma AdjacencyKeysAreFaceVertices(faces: seq<Face>, v: nat)
    requires v in BoundaryAdjacency(Build(faces))
    ensures v in FaceVertices(faces)
  {
    var w := BoundaryAdjacency(Build(faces))[v][0];
    AdjacentMeansBoundaryEdge(faces, v, w);
    var e := MakeEdge(v, w);
    assert e in EdgeSet(faces);
    var f :| f in faces && e in Sides(f);
    SideEndpoint(f, v, w);
  }

  /** An endpoint of a side of a face is a corner of it. */
  lemma SideEndpoint(f: Face, v: nat, w: nat)
    requires MakeEdge(v, w) in Sides(f)
    ensures v in Corners(f)
  {
    if MakeEdge(v, w) == MakeEdge(f.a, f.b) {
      SameKeySameEnds(v, w, f.a, f.b);
    } else if MakeEdge(v, w) == MakeEdge(f.b, f.c) {
      SameKeySameEnds(v, w, f.b, f.c);
    } else {
      SameKeySameEnds(v, w, f.c, f.a);
    }
  }

  /** Consecutive loop vertices are joined by a boundary edge of the mesh. */
  lemma AdjacentMeansBoundaryEdge(faces: seq<Face>, v: nat, w: nat)
    requires v in BoundaryAdjacency(Build(faces))
    requires w in BoundaryAdjacency(Build(faces))[v]
    ensures MakeEdge(v, w) in BoundaryEdgeSet(faces)
  {
    var t := Build(faces);
    var e := MakeEdge(v, w);
    var i :| 0 <= i < |t| && t[i].edge == e && OneFace(|t[i].tris|);
    LookupAt(t, i);
    BuildMatchesReference(faces);
    assert e in Keys(t);
  }

  /** The loops recorded by the analyser: `num_holes` of them; each has at least three
      pairwise distinct vertices of the mesh, consecutive vertices share a boundary
      edge, and no two loops share a vertex. Closing the loop (last to first) is not
      promised: a walk may end at a dead end. */
  lemma LoopsAreBoundaryWalks(faces: seq<Face>)
    ensures var d := AnalyzeDetailed(faces);
      && d.summary.numHoles == |d.boundaryLoops|
      && forall i | 0 <= i < |d.boundaryLoops| ::
           var loop := d.boundaryLoops[i];
           && |loop| >= 3
           && (forall j, k | 0 <= j < k < |loop| :: loop[j] != loop[k])
           && (forall k | 0 <= k < |loop| :: loop[k] in FaceVertices(faces))
           && (forall k | 0 <= k < |loop| - 1 :: MakeEdge(loop[k], loop[k + 1]) in BoundaryEdgeSet(faces))
    ensures var d := AnalyzeDetailed(faces);
      forall i, j | 0 <= i < j < |d.boundaryLoops| :: Elems(d.boundaryLoops[i]) !! Elems(d.boundaryLoops[j])
  {
    var d := AnalyzeDetailed(faces);
    var adj := BoundaryAdjacency(Build(faces));
    forall i | 0 <= i < |d.boundaryLoops|
      ensures var loop := d.boundaryLoops[i];
        && (forall k | 0 <= k < |loop| :: loop[k] in FaceVertices(faces))
        && (forall k | 0 <= k < |loop| - 1 :: MakeEdge(loop[k], loop[k + 1]) in BoundaryEdgeSet(faces))
    {
      var loop := d.boundaryLoops[i];
      assert IsLoop(adj, loop);
      forall k | 0 <= k < |loop| ensures loop[k] in FaceVertices(faces) {
        AdjacencyKeysAreFaceVertices(faces, loop[k]);
      }
      forall k | 0 <= k < |loop| - 1 ensures MakeEdge(loop[k], loop[k + 1]) in BoundaryEdgeSet(faces) {
        AdjacentMeansBoundaryEdge(faces, loop[k], loop[k + 1]);
      }
    }
  }

  /** The holes depend on the mesh only through its set of boundary edges: linked in
      ascending key order they give the adjacency, whose vertices in ascending order
      are the seeds of the walks. */
  lemma LoopsFromBoundary(faces: seq<Face>, ks: seq<Edge>, seeds: seq<nat>)
    requires forall j, k | 0 <= j < k < |ks| :: Less(ks[j], ks[k])
    requires forall e :: e in ks <==> e in BoundaryEdgeSet(faces)
    requires Ascending(seeds) && Elems(seeds) == LinkAll(ks).Keys
    ensures Closed(LinkAll(ks))
    ensures forall k | 0 <= k < |seeds| :: seeds[k] in LinkAll(ks)
    ensures AnalyzeDetailed(faces).boundaryLoops == TraceLoops(LinkAll(ks), seeds, {})
    ensures Analyze(faces).boundaryEdges == |ks|
  {
    var t := Build(faces);
    BoundaryKeysCount(t);
    BoundaryKeysSorted(t);
    BoundaryKeysAre(t);
    OneFaceKeysAreBoundary(faces);
    SortedEdgesUnique(BoundaryKeys(t), ks);
    AdjacencyFromKeys(t);
    AdjacencyClosed(t);
    AscendingUnique(BoundaryVertices(t), seeds);
    assert forall k | 0 <= k < |seeds| :: seeds[k] in Elems(seeds);
  }

  /** The keys of the entries with one triangle are the boundary edges. */
  lemma OneFaceKeysAreBoundary(faces: seq<Face>)
    ensures OneFaceKeys(Build(faces)) == BoundaryEdgeSet(faces)
  {
    KeysWhereMatchReference(faces, OneFace);
    OneFaceKeysWhere(Build(faces));
  }

  lemma OneFaceKeysWhere(t: Table)
    requires Sorted(t)
    ensures OneFaceKeys(t) == KeysWhere(t, OneFace)
  {
    forall e ensures e in OneFaceKeys(t) <==> e in KeysWhere(t, OneFace) {
      if e in OneFaceKeys(t) {
        var i :| 0 <= i < |t| && OneFace(|t[i].tris|) && t[i].edge == e;
        LookupAt(t, i);
      }
      if e in KeysWhere(t, OneFace) {
        var i :| 0 <= i < |t| && t[i].edge == e;
        LookupAt(t, i);
      }
    }
  }

  /** When every face indexes an `n`-vertex buffer, so does every loop vertex. */
  lemma LoopVerticesInRange(faces: seq<Face>, n: nat)
    requires FacesInRange(faces, n)
    ensures forall i, k | 0 <= i < |AnalyzeDetailed(faces).boundaryLoops| &&
                          0 <= k < |AnalyzeDetailed(faces).boundaryLoops[i]| ::
              AnalyzeDetailed(faces).boundaryLoops[i][k] < n
  {
    var loops := AnalyzeDetailed(faces).boundaryLoops;
    assert loops == LoopsOf(Build(faces));
    var adj := BoundaryAdjacency(Build(faces));
    forall i, k | 0 <= i < |loops| && 0 <= k < |loops[i]| ensures loops[i][k] < n {
      assert IsLoop(adj, loops[i]);
      AdjacencyKeysAreFaceVertices(faces, loops[i][k]);
      FaceVertexInRange(faces, n, loops[i][k]);
    }
  }

  lemma FaceVertexInRange(faces: seq<Face>, n: nat, v: nat)
    requires FacesInRange(faces, n)
    requires v in FaceVertices(faces)
    ensures v < n
  {
    var f :| f in faces && v in Corners(f);
    var j :| 0 <= j < |faces| && faces[j] == f;
    assert FaceInRange(faces[j], n);
  }

  /** An empty mesh has no edge and no hole and is watertight, unlike a report left
      at its defaults. */
  lemma EmptyMeshIsWatertight()
    ensures Analyze([]) == DefaultAnalysis.(isManifold := true, isWatertight := true)
    ensures Analyze([]) != DefaultAnalysis
  {
  }
}
