/** The STL-style cube of tests/test_mesh_repair.cpp: twelve triangles, each with
    its own three copies of its corners, welded at a tolerance no larger than the
    unit spacing of the corners. The weld keeps the eight corners in
    first-occurrence order, which is the cube's own order with corners 1 and 2
    exchanged, and the welded faces are the closed cube relabelled the same way. */
module StlFixture {
  import opened Mesh
  import opened EdgeTable
  import opened Analysis
  import opened Weld
  import opened Fixtures

  /** `create_cube_stl_style`: three fresh vertices per triangle. */
  const StlVertices: seq<Vec3> := [
    Vec3(0.0, 0.0, 0.0), Vec3(1.0, 1.0, 0.0), Vec3(1.0, 0.0, 0.0),
    Vec3(0.0, 0.0, 0.0), Vec3(0.0, 1.0, 0.0), Vec3(1.0, 1.0, 0.0),
    Vec3(0.0, 0.0, 1.0), Vec3(1.0, 0.0, 1.0), Vec3(1.0, 1.0, 1.0),
    Vec3(0.0, 0.0, 1.0), Vec3(1.0, 1.0, 1.0), Vec3(0.0, 1.0, 1.0),
    Vec3(0.0, 0.0, 0.0), Vec3(1.0, 0.0, 0.0), Vec3(1.0, 0.0, 1.0),
    Vec3(0.0, 0.0, 0.0), Vec3(1.0, 0.0, 1.0), Vec3(0.0, 0.0, 1.0),
    Vec3(1.0, 1.0, 0.0), Vec3(0.0, 1.0, 0.0), Vec3(0.0, 1.0, 1.0),
    Vec3(1.0, 1.0, 0.0), Vec3(0.0, 1.0, 1.0), Vec3(1.0, 1.0, 1.0),
    Vec3(0.0, 0.0, 0.0), Vec3(0.0, 0.0, 1.0), Vec3(0.0, 1.0, 1.0),
    Vec3(0.0, 0.0, 0.0), Vec3(0.0, 1.0, 1.0), Vec3(0.0, 1.0, 0.0),
    Vec3(1.0, 0.0, 0.0), Vec3(1.0, 1.0, 0.0), Vec3(1.0, 1.0, 1.0),
    Vec3(1.0, 0.0, 0.0), Vec3(1.0, 1.0, 1.0), Vec3(1.0, 0.0, 1.0)]

  /** Face `k` uses the vertices `3k`, `3k + 1` and `3k + 2`. */
  const StlFaces: seq<Face> := seq(12, k requires 0 <= k => Face(3 * k, 3 * k + 1, 3 * k + 2))

  /** The eight corners in order of first occurrence among the STL vertices. */
  const WeldedCorners: seq<Vec3> := [
    Vec3(0.0, 0.0, 0.0), Vec3(1.0, 1.0, 0.0), Vec3(1.0, 0.0, 0.0), Vec3(0.0, 1.0, 0.0),
    Vec3(0.0, 0.0, 1.0), Vec3(1.0, 0.0, 1.0), Vec3(1.0, 1.0, 1.0), Vec3(0.0, 1.0, 1.0)]

  /** The index of a corner in `WeldedCorners`. */
  function Slot(p: Vec3): nat
  {
    if p == WeldedCorners[0] then 0 else if p == WeldedCorners[1] then 1
    else if p == WeldedCorners[2] then 2 else if p == WeldedCorners[3] then 3
    else if p == WeldedCorners[4] then 4 else if p == WeldedCorners[5] then 5
    else if p == WeldedCorners[6] then 6 else 7
  }

  /** The relabelling that exchanges vertices 1 and 2. */
  function Swap12(v: nat): nat
  {
    if v == 1 then 2 else if v == 2 then 1 else v
  }

  function SwapFace(f: Face): Face
  {
    Face(Swap12(f.a), Swap12(f.b), Swap12(f.c))
  }

  function SwapEdge(e: Edge): Edge
  {
    MakeEdge(Swap12(e.v1), Swap12(e.v2))
  }

  /** Every face relabelled. */
  function SwapFaces(fs: seq<Face>): (r: seq<Face>)
    ensures |r| == |fs|
    ensures forall k | 0 <= k < |fs| :: r[k] == SwapFace(fs[k])
  {
    seq(|fs|, k requires 0 <= k < |fs| => SwapFace(fs[k]))
  }

  /** "welding reduces vertex count", "welding reports correct removal count" and
      "welded mesh is still watertight": at any tolerance in `(0, 1]` the 36
      vertices weld to the 8 corners, 28 are reported welded, every triangle
      survives as the relabelled cube, and the result is watertight with 18 edges. */
  lemma StlCubeWelds(tol: real)
    requires 0.0 < tol <= 1.0
    ensures FacesInRange(StlFaces, |StlVertices|)
    ensures var r := WeldVertices(StlVertices, StlFaces, tol, RealCell(tol), RealNear(tol));
      && |StlVertices| == 36 && |r.vertices| == 8 && r.welded == 28
      && r.vertices == WeldedCorners
      && r.faces == SwapFaces(Cube)
      && Analyze(r.faces) == MeshAnalysis(18, 0, 0, 0, true, true)
  {
    var vs, cellOf, near := StlVertices, RealCell(tol), RealNear(tol);
    StlOnLattice();
    LatticeSeparated(vs, tol);
    RealInstanceCompatible(tol);
    WeldSeparated(vs, cellOf, near);
    StlDedup();
    var s := VertexMap(vs, cellOf, near);
    assert s.out == WeldedCorners;
    forall i | 0 <= i < |vs| ensures s.vmap[i] == Slot(vs[i]) {
      WeldSeparatedMap(vs, cellOf, near, i);
      SlotOfCorner(s.vmap[i]);
    }
    StlRemap(s.vmap);
    WeldedCubeFaces();
    KeepAll(SwapFaces(Cube));
    WeldedCubeIsWatertight();
  }

  lemma SlotOfCorner(j: nat)
    requires j < 8
    ensures Slot(WeldedCorners[j]) == j
  {
    assert j == 0 || j == 1 || j == 2 || j == 3 || j == 4 || j == 5 || j == 6 || j == 7;
  }

  /** Every STL vertex is one of the eight corners, which have integer coordinates. */
  lemma StlOnLattice()
    ensures forall i | 0 <= i < |StlVertices| :: StlVertices[i] in WeldedCorners
    ensures forall i | 0 <= i < |StlVertices| :: OnLattice(StlVertices[i])
  {
    forall p | p in WeldedCorners ensures OnLattice(p) {
    }
  }

  /** The number of distinct corners among the first `n` STL vertices. */
  function Seen(n: nat): nat
  {
    if n >= 12 then 8 else [0, 1, 2, 3, 3, 4, 4, 5, 6, 7, 7, 7][n]
  }

  /** The first twelve vertices meet the corners in the order of `WeldedCorners`,
      and the other twenty-four repeat them. */
  lemma StlDedup()
    ensures Dedup(StlVertices) == WeldedCorners
  {
    StlDedupPrefix(|StlVertices|);
    assert StlVertices[..36] == StlVertices;
  }

  lemma {:induction false} StlDedupPrefix(n: nat)
    requires n <= |StlVertices|
    ensures Dedup(StlVertices[..n]) == WeldedCorners[..Seen(n)]
  {
    if n > 0 {
      var v := StlVertices;
      StlDedupPrefix(n - 1);
      assert v[..n][..n - 1] == v[..n - 1];
      StlStep(n - 1);
      InPrefix(v[n - 1], Seen(n - 1));
      if Seen(n) != Seen(n - 1) {
        PrefixGrows(WeldedCorners, Seen(n - 1));
      }
    } else {
      assert StlVertices[..0] == [];
    }
  }

  /** Each STL vertex is a corner, and it is new exactly when its slot is the next
      one. */
  lemma StlStep(i: nat)
    requires i < |StlVertices|
    ensures Slot(StlVertices[i]) < 8 && StlVertices[i] == WeldedCorners[Slot(StlVertices[i])]
    ensures Slot(StlVertices[i]) < Seen(i) ==> Seen(i + 1) == Seen(i)
    ensures Slot(StlVertices[i]) >= Seen(i) ==> Slot(StlVertices[i]) == Seen(i) && Seen(i + 1) == Seen(i) + 1
  {
    if i < 12 {
      assert i == 0 || i == 1 || i == 2 || i == 3 || i == 4 || i == 5 || i == 6 || i == 7
          || i == 8 || i == 9 || i == 10 || i == 11;
    } else if i < 24 {
      StlTailStep(i);
    } else {
      StlTailStep(i);
    }
  }

  lemma StlTailStep(i: nat)
    requires 12 <= i < |StlVertices|
    ensures Slot(StlVertices[i]) < 8 && StlVertices[i] == WeldedCorners[Slot(StlVertices[i])]
  {
    assert StlVertices[i] in WeldedCorners by {
      assert StlVertices[i] in StlVertices;
    }
    var j :| 0 <= j < 8 && WeldedCorners[j] == StlVertices[i];
    SlotOfCorner(j);
  }

  lemma PrefixGrows(w: seq<Vec3>, k: nat)
    requires k < |w|
    ensures w[..k + 1] == w[..k] + [w[k]]
  {
  }

  /** A corner lies among the first `k` of `WeldedCorners` exactly when its slot is
      below `k`. */
  lemma InPrefix(x: Vec3, k: nat)
    requires k <= 8 && Slot(x) < 8 && x == WeldedCorners[Slot(x)]
    ensures x in WeldedCorners[..k] <==> Slot(x) < k
  {
    if x in WeldedCorners[..k] {
      var j :| 0 <= j < k && WeldedCorners[..k][j] == x;
      SlotOfCorner(j);
    }
    if Slot(x) < k {
      assert WeldedCorners[..k][Slot(x)] == x;
    }
  }

  /** Remapping the STL faces through the corner slots gives the relabelled cube. */
  lemma StlRemap(vmap: seq<nat>)
    requires |vmap| == |StlVertices|
    requires forall i | 0 <= i < |StlVertices| :: vmap[i] == Slot(StlVertices[i])
    ensures FacesInRange(StlFaces, |vmap|)
    ensures RemapFaces(StlFaces, vmap) == SwapFaces(Cube)
  {
    forall k | 0 <= k < 12 ensures RemapFaces(StlFaces, vmap)[k] == SwapFaces(Cube)[k] {
      StlFaceAt(vmap, k);
    }
  }

  lemma StlFaceAt(vmap: seq<nat>, k: nat)
    requires |vmap| == |StlVertices| && k < 12
    requires forall i | 0 <= i < |StlVertices| :: vmap[i] == Slot(StlVertices[i])
    ensures FacesInRange(StlFaces, |vmap|)
    ensures RemapFaces(StlFaces, vmap)[k] == SwapFace(Cube[k])
  {
    assert StlFaces[k] == Face(3 * k, 3 * k + 1, 3 * k + 2);
    assert vmap[3 * k] == Slot(StlVertices[3 * k]);
    assert vmap[3 * k + 1] == Slot(StlVertices[3 * k + 1]);
    assert vmap[3 * k + 2] == Slot(StlVertices[3 * k + 2]);
    if k < 6 {
      StlFaceRemapLow(k);
    } else {
      StlFaceRemapHigh(k);
    }
  }

  lemma StlFaceRemapLow(k: nat)
    requires k < 6
    ensures Face(Slot(StlVertices[3 * k]), Slot(StlVertices[3 * k + 1]), Slot(StlVertices[3 * k + 2]))
            == SwapFace(Cube[k])
  {
    assert k == 0 || k == 1 || k == 2 || k == 3 || k == 4 || k == 5;
  }

  lemma StlFaceRemapHigh(k: nat)
    requires 6 <= k < 12
    ensures Face(Slot(StlVertices[3 * k]), Slot(StlVertices[3 * k + 1]), Slot(StlVertices[3 * k + 2]))
            == SwapFace(Cube[k])
  {
    assert k == 6 || k == 7 || k == 8 || k == 9 || k == 10 || k == 11;
  }

  /** The relabelled cube has three distinct corners per face. */
  lemma WeldedCubeFaces()
    ensures forall k | 0 <= k < |SwapFaces(Cube)| :: NonDegenerate(SwapFaces(Cube)[k])
  {
    forall k | 0 <= k < |Cube| ensures NonDegenerate(Cube[k]) {
      assert Cube[k] in Cube;
    }
  }

  /** Relabelling both ends of an edge by the exchange matches the sides of a face
      exactly when the original edge matches the original side. */
  lemma SwapSide(a: nat, b: nat, e: Edge)
    requires Canonical(e)
    ensures MakeEdge(Swap12(a), Swap12(b)) == SwapEdge(e) <==> MakeEdge(a, b) == e
  {
    EdgeKeyLaws(Swap12(a), Swap12(b), Swap12(e.v1), Swap12(e.v2));
    EdgeKeyLaws(a, b, e.v1, e.v2);
  }

  lemma SwapMultiplicity(f: Face, e: Edge)
    requires Canonical(e)
    ensures multiset(FaceEdges(SwapFace(f)))[SwapEdge(e)] == multiset(FaceEdges(f))[e]
  {
    SideCount(f, e);
    SideCount(SwapFace(f), SwapEdge(e));
    SwapSide(f.a, f.b, e);
    SwapSide(f.b, f.c, e);
    SwapSide(f.c, f.a, e);
  }

  /** The relabelled mesh has as many face sides at the relabelled edge as the
      original has at the edge. */
  lemma {:induction false} SwapOccurrences(fs: seq<Face>, e: Edge)
    requires Canonical(e)
    ensures |Occurrences(SwapFaces(fs), SwapEdge(e))| == |Occurrences(fs, e)|
  {
    if |fs| > 0 {
      var pre := fs[..|fs| - 1];
      SwapOccurrences(pre, e);
      assert SwapFaces(fs)[..|fs| - 1] == SwapFaces(pre);
      SwapMultiplicity(fs[|fs| - 1], e);
    }
  }

  /** Every edge of the relabelled mesh is the relabelling of an edge of the
      original. */
  lemma SwappedEdge(fs: seq<Face>, e: Edge)
    requires e in EdgeSet(SwapFaces(fs))
    ensures SwapEdge(e) in EdgeSet(fs) && SwapEdge(SwapEdge(e)) == e
  {
    var k := SideIndex(SwapFaces(fs), e);
    var f := fs[k];
    assert f in fs;
    if e == MakeEdge(Swap12(f.a), Swap12(f.b)) {
      SwapBack(f.a, f.b);
      assert MakeEdge(f.a, f.b) in Sides(f);
    } else if e == MakeEdge(Swap12(f.b), Swap12(f.c)) {
      SwapBack(f.b, f.c);
      assert MakeEdge(f.b, f.c) in Sides(f);
    } else {
      SwapBack(f.c, f.a);
      assert MakeEdge(f.c, f.a) in Sides(f);
    }
  }

  /** The exchange undoes itself on edge keys. */
  lemma SwapBack(x: nat, y: nat)
    ensures SwapEdge(MakeEdge(Swap12(x), Swap12(y))) == MakeEdge(x, y)
    ensures SwapEdge(MakeEdge(x, y)) == MakeEdge(Swap12(x), Swap12(y))
  {
    EdgeKeyLaws(x, y, y, x);
    EdgeKeyLaws(Swap12(x), Swap12(y), Swap12(y), Swap12(x));
  }

  /** The relabelled cube is watertight like the cube. */
  lemma WeldedCubeIsWatertight()
    ensures Analyze(SwapFaces(Cube)) == MeshAnalysis(18, 0, 0, 0, true, true)
  {
    var w := SwapFaces(Cube);
    forall e | e in EdgeSet(w) ensures |Occurrences(w, e)| == 2 {
      SwappedEdge(Cube, e);
      CubeEdgeShared(SwapEdge(e));
      SideIsCanonical(Cube, SwapEdge(e));
      SwapOccurrences(Cube, SwapEdge(e));
    }
    ClosedMeshReport(w);
  }
}
