/** `triangulate_hole` and `repair_mesh` (common/mesh_repair.cpp): close every
    boundary loop with a fan of triangles found by ear clipping.

    The ear test of the source (the cross product of the two loop edges at a
    vertex is shorter than `1e-10`) is floating point; it is the parameter
    `degenerate`, applied to the positions of the previous, current and next
    loop vertex. */
module Repair {
  import opened Options
  import opened Mesh
  import opened EdgeTable
  import opened Boundary
  import opened Analysis
  import opened Weld

  /** Every entry of `loop` indexes the vertex buffer. */
  predicate LoopInRange(loop: seq<nat>, n: nat)
  {
    forall k | 0 <= k < |loop| :: loop[k] < n
  }

  predicate Distinct(loop: seq<nat>)
  {
    forall j, k | 0 <= j < k < |loop| :: loop[j] != loop[k]
  }

  /** The cyclic neighbours of position `i` in a loop of `n` positions. */
  function Prev(i: nat, n: nat): (p: nat)
    requires i < n
    ensures p < n
  {
    if i == 0 then n - 1 else i - 1
  }

  function Next(i: nat, n: nat): (q: nat)
    requires i < n
    ensures q < n
  {
    if i + 1 == n then 0 else i + 1
  }

  /** They are the source's `(i + remaining.size() - 1) % remaining.size()` and
      `(i + 1) % remaining.size()`, and they undo each other. */
  lemma PrevNextAreModular(i: nat, n: nat)
    requires i < n
    ensures Prev(i, n) == (i + n - 1) % n
    ensures Next(i, n) == (i + 1) % n
    ensures Next(Prev(i, n), n) == i && Prev(Next(i, n), n) == i
  {
    if i == 0 {
      assert (n - 1) % n == n - 1;
    } else {
      assert i + n - 1 == (i - 1) + n;
      ModShift(i - 1, n);
    }
  }

  lemma ModShift(j: nat, n: nat)
    requires j < n
    ensures (j + n) % n == j
  {
  }

  /** The candidate triangle at position `i`: previous, current and next vertex. */
  function EarAt(rem: seq<nat>, i: nat): Face
    requires i < |rem|
  {
    Face(rem[Prev(i, |rem|)], rem[i], rem[Next(i, |rem|)])
  }

  /** The geometric test fails at position `i` (the `continue` branch). */
  predicate DegenerateAt(rem: seq<nat>, vs: seq<Vec3>, degenerate: (Vec3, Vec3, Vec3) -> bool, i: nat)
    requires i < |rem| && LoopInRange(rem, |vs|)
  {
    var f := EarAt(rem, i);
    degenerate(vs[f.a], vs[f.b], vs[f.c])
  }

  /** The geometric test of `triangulate_hole` over exact reals: the cross product
      of the edges `v1 - v0` and `v2 - v1` is shorter than `1e-10`, compared through
      squared lengths. */
  predicate RealDegenerate(v0: Vec3, v1: Vec3, v2: Vec3)
  {
    var e1 := Vec3(v1.x - v0.x, v1.y - v0.y, v1.z - v0.z);
    var e2 := Vec3(v2.x - v1.x, v2.y - v1.y, v2.z - v1.z);
    var n := Vec3(e1.y * e2.z - e1.z * e2.y, e1.z * e2.x - e1.x * e2.z, e1.x * e2.y - e1.y * e2.x);
    n.x * n.x + n.y * n.y + n.z * n.z < 0.00000000000000000001
  }

  /** `remaining.erase(remaining.begin() + i)`. */
  function Remove(rem: seq<nat>, i: nat): (r: seq<nat>)
    requires i < |rem|
    ensures |r| == |rem| - 1
    ensures forall k | 0 <= k < |r| :: r[k] == if k < i then rem[k] else rem[k + 1]
  {
    rem[..i] + rem[i + 1..]
  }

  /** The inner `for` loop from position `k` on: the first position whose triangle
      is not degenerate, or none (`ear_found` stays false). */
  function FirstEar(rem: seq<nat>, vs: seq<Vec3>, degenerate: (Vec3, Vec3, Vec3) -> bool, k: nat): (r: Option<nat>)
    requires LoopInRange(rem, |vs|) && k <= |rem|
    ensures r.Some? ==> k <= r.value < |rem| && !DegenerateAt(rem, vs, degenerate, r.value)
    ensures r.Some? ==> forall j | k <= j < r.value :: DegenerateAt(rem, vs, degenerate, j)
    ensures r.None? ==> forall j | k <= j < |rem| :: DegenerateAt(rem, vs, degenerate, j)
    decreases |rem| - k
  {
    if k == |rem| then None
    else if !DegenerateAt(rem, vs, degenerate, k) then Some(k)
    else FirstEar(rem, vs, degenerate, k + 1)
  }

  /** The `while (remaining.size() > 3)` loop and the last triangle: each round
      clips the first non-degenerate ear, or, when there is none, takes the first
      three vertices and drops the second. A loop of `n` vertices yields `n - 2`
      triangles, all on loop vertices, and none with a repeated corner when the
      loop has no repeated vertex. */
  function EarClip(rem: seq<nat>, vs: seq<Vec3>, degenerate: (Vec3, Vec3, Vec3) -> bool): (r: seq<Face>)
    requires |rem| >= 3 && LoopInRange(rem, |vs|)
    ensures |r| == |rem| - 2
    ensures forall k | 0 <= k < |r| :: r[k].a in rem && r[k].b in rem && r[k].c in rem
    ensures Distinct(rem) ==> forall k | 0 <= k < |r| :: NonDegenerate(r[k])
    decreases |rem|
  {
    if |rem| == 3 then [Face(rem[0], rem[1], rem[2])]
    else
      var i := ClipIndex(rem, vs, degenerate);
      var f := if i.Some? then EarAt(rem, i.value) else Face(rem[0], rem[1], rem[2]);
      var cut := if i.Some? then i.value else 1;
      ClipStep(rem, cut, |vs|);
      var rest := EarClip(Remove(rem, cut), vs, degenerate);
      ConsAll(f, rest, (g: Face) => g.a in rem && g.b in rem && g.c in rem);
      ConsAll(f, rest, NonDegenerate);
      [f] + rest
  }

  /** A property of the first face and of every later face holds of every face. */
  lemma ConsAll(f: Face, rest: seq<Face>, p: Face -> bool)
    ensures p(f) && (forall k | 0 <= k < |rest| :: p(rest[k])) ==> forall k | 0 <= k < |[f] + rest| :: p(([f] + rest)[k])
  {
  }

  /** One round of clipping: the triangle clipped is the one at the removed
      position, on loop vertices and proper when the loop has no repeated vertex,
      and what remains is a sub-loop. */
  lemma ClipStep(rem: seq<nat>, cut: nat, n: nat)
    requires |rem| > 3 && cut < |rem|
    ensures LoopInRange(rem, n) ==> LoopInRange(Remove(rem, cut), n)
    ensures forall x | x in Remove(rem, cut) :: x in rem
    ensures EarAt(rem, 1) == Face(rem[0], rem[1], rem[2])
    ensures EarAt(rem, cut).a in rem && EarAt(rem, cut).b in rem && EarAt(rem, cut).c in rem
    ensures Distinct(rem) ==> Distinct(Remove(rem, cut)) && NonDegenerate(EarAt(rem, cut))
  {
    RemoveKeepsDistinct(rem, cut);
    PrevNextAreModular(cut, |rem|);
  }

  /** The position clipped in one round: the first ear, if any. */
  function ClipIndex(rem: seq<nat>, vs: seq<Vec3>, degenerate: (Vec3, Vec3, Vec3) -> bool): Option<nat>
    requires LoopInRange(rem, |vs|)
  {
    FirstEar(rem, vs, degenerate, 0)
  }

  /** The position removed in one round: the ear, or the second vertex. */
  function Cut(rem: seq<nat>, vs: seq<Vec3>, degenerate: (Vec3, Vec3, Vec3) -> bool): (cut: nat)
    requires |rem| >= 3 && LoopInRange(rem, |vs|)
    ensures cut < |rem|
  {
    var i := ClipIndex(rem, vs, degenerate);
    if i.Some? then i.value else 1
  }

  /** Either way the triangle clipped is the one at the removed position: the
      fallback `(remaining[0], remaining[1], remaining[2])` is the triangle at
      position 1. */
  lemma EarClipUnfold(rem: seq<nat>, vs: seq<Vec3>, degenerate: (Vec3, Vec3, Vec3) -> bool)
    requires |rem| > 3 && LoopInRange(rem, |vs|)
    ensures EarClip(rem, vs, degenerate)
      == [EarAt(rem, Cut(rem, vs, degenerate))] + EarClip(Remove(rem, Cut(rem, vs, degenerate)), vs, degenerate)
  {
  }

  lemma RemoveKeepsDistinct(rem: seq<nat>, i: nat)
    requires i < |rem|
    ensures Distinct(rem) ==> Distinct(Remove(rem, i))
  {
    var r := Remove(rem, i);
    if Distinct(rem) {
      forall j, k | 0 <= j < k < |r| ensures r[j] != r[k] {
        var j', k' := if j < i then j else j + 1, if k < i then k else k + 1;
        assert r[j] == rem[j'] && r[k] == rem[k'] && j' < k';
      }
    }
  }

  /** `triangulate_hole`: nothing for a loop of fewer than three vertices. */
  function Triangulate(loop: seq<nat>, vs: seq<Vec3>, degenerate: (Vec3, Vec3, Vec3) -> bool): (r: seq<Face>)
    requires LoopInRange(loop, |vs|)
    ensures |loop| < 3 ==> r == []
    ensures |loop| >= 3 ==> |r| == |loop| - 2
    ensures forall k | 0 <= k < |r| :: r[k].a in loop && r[k].b in loop && r[k].c in loop
    ensures Distinct(loop) ==> forall k | 0 <= k < |r| :: NonDegenerate(r[k])
  {
    if |loop| < 3 then [] else EarClip(loop, vs, degenerate)
  }

  /** The undirected edges of a closed loop, the closing edge included. */
  function CycleEdges(loop: seq<nat>): set<Edge>
  {
    set k | 0 <= k < |loop| :: MakeEdge(loop[k], loop[Next(k, |loop|)])
  }

  /** The triangles close the hole: every edge of the loop, the closing edge from
      the last vertex back to the first included, is a side of some new triangle. */
  lemma {:induction false} EarClipCoversLoop(rem: seq<nat>, vs: seq<Vec3>, degenerate: (Vec3, Vec3, Vec3) -> bool)
    requires |rem| >= 3 && LoopInRange(rem, |vs|)
    ensures CycleEdges(rem) <= EdgeSet(EarClip(rem, vs, degenerate))
    decreases |rem|
  {
    var r := EarClip(rem, vs, degenerate);
    if |rem| == 3 {
      assert r == [Face(rem[0], rem[1], rem[2])];
      EdgeSetSingle(r[0]);
      TriangleCovers(rem);
    } else {
      var cut := Cut(rem, vs, degenerate);
      var rest := EarClip(Remove(rem, cut), vs, degenerate);
      EarClipUnfold(rem, vs, degenerate);
      EarClipCoversLoop(Remove(rem, cut), vs, degenerate);
      EdgeSetCons(EarAt(rem, cut), rest);
      ClipCovers(rem, cut);
    }
  }

  lemma TriangleCovers(rem: seq<nat>)
    requires |rem| == 3
    ensures CycleEdges(rem) <= Sides(Face(rem[0], rem[1], rem[2]))
  {
    forall e | e in CycleEdges(rem) ensures e in Sides(Face(rem[0], rem[1], rem[2])) {
      var k :| 0 <= k < 3 && e == MakeEdge(rem[k], rem[Next(k, 3)]);
      if k == 0 {
        assert e == MakeEdge(rem[0], rem[1]);
      } else if k == 1 {
        assert e == MakeEdge(rem[1], rem[2]);
      } else {
        assert e == MakeEdge(rem[2], rem[0]);
      }
    }
  }

  lemma EdgeSetCons(f: Face, rest: seq<Face>)
    ensures EdgeSet([f] + rest) == Sides(f) + EdgeSet(rest)
  {
    EdgeSetAppend([f], rest);
    EdgeSetSingle(f);
  }

  /** Clipping the vertex at `cut` trades its two loop edges for the sides of the
      clipped triangle. */
  lemma ClipCovers(rem: seq<nat>, cut: nat)
    requires |rem| >= 4 && cut < |rem|
    ensures CycleEdges(rem) <= Sides(EarAt(rem, cut)) + CycleEdges(Remove(rem, cut))
  {
    forall e | e in CycleEdges(rem) ensures e in Sides(EarAt(rem, cut)) + CycleEdges(Remove(rem, cut)) {
      var k :| 0 <= k < |rem| && e == MakeEdge(rem[k], rem[Next(k, |rem|)]);
      if k == Prev(cut, |rem|) {
        PrevNextAreModular(cut, |rem|);
      } else if k != cut {
        var _ := CycleEdgeAfterRemove(rem, cut, k);
      }
    }
  }

  /** An edge of the loop away from the clipped vertex is an edge of the shorter
      loop. */
  lemma CycleEdgeAfterRemove(rem: seq<nat>, cut: nat, k: nat) returns (k': nat)
    requires |rem| >= 4 && cut < |rem| && k < |rem|
    requires k != Prev(cut, |rem|) && k != cut
    ensures k' < |rem| - 1
    ensures var r := Remove(rem, cut);
      r[k'] == rem[k] && r[Next(k', |r|)] == rem[Next(k, |rem|)]
    ensures MakeEdge(rem[k], rem[Next(k, |rem|)]) in CycleEdges(Remove(rem, cut))
  {
    var n := |rem|;
    var r := Remove(rem, cut);
    k' := if k < cut then k else k - 1;
    if k == n - 1 {
      assert cut != 0 && cut != n - 1;
      assert Next(k', n - 1) == 0;
    } else if k + 1 == cut {
      assert false;
    } else if k < cut {
      assert Next(k', n - 1) == k + 1;
    } else {
      assert Next(k', n - 1) == k;
    }
    assert MakeEdge(r[k'], r[Next(k', |r|)]) in CycleEdges(r);
  }

  /** The fan around the last vertex: what ear clipping produces when no triangle
      is degenerate, since every round then clips position 0. */
  function FanFromLast(l: seq<nat>): seq<Face>
    requires |l| >= 3
    decreases |l|
  {
    if |l| == 3 then [Face(l[0], l[1], l[2])]
    else [Face(l[|l| - 1], l[0], l[1])] + FanFromLast(l[1..])
  }

  /** The fan around the first vertex: what the fallback produces when every
      triangle is degenerate, since every round then drops position 1. */
  function FanFromFirst(l: seq<nat>): seq<Face>
    requires |l| >= 3
    decreases |l|
  {
    if |l| == 3 then [Face(l[0], l[1], l[2])]
    else [Face(l[0], l[1], l[2])] + FanFromFirst([l[0]] + l[2..])
  }

  lemma {:induction false} EarClipWithoutDegenerates(rem: seq<nat>, vs: seq<Vec3>, degenerate: (Vec3, Vec3, Vec3) -> bool)
    requires |rem| >= 3 && LoopInRange(rem, |vs|)
    requires forall p, q, r :: !degenerate(p, q, r)
    ensures EarClip(rem, vs, degenerate) == FanFromLast(rem)
    decreases |rem|
  {
    if |rem| > 3 {
      ClipFirst(rem, vs, degenerate);
      EarClipWithoutDegenerates(rem[1..], vs, degenerate);
    }
  }

  /** Without degenerate triangles a round clips the first vertex. */
  lemma ClipFirst(rem: seq<nat>, vs: seq<Vec3>, degenerate: (Vec3, Vec3, Vec3) -> bool)
    requires |rem| > 3 && LoopInRange(rem, |vs|)
    requires forall p, q, r :: !degenerate(p, q, r)
    ensures LoopInRange(rem[1..], |vs|)
    ensures EarClip(rem, vs, degenerate)
      == [Face(rem[|rem| - 1], rem[0], rem[1])] + EarClip(rem[1..], vs, degenerate)
  {
    FirstCandidateCut(rem, vs, degenerate);
    EarClipUnfold(rem, vs, degenerate);
    assert Remove(rem, 0) == rem[1..];
  }

  /** When the first candidate is an ear, it is the one clipped. */
  lemma FirstCandidateCut(rem: seq<nat>, vs: seq<Vec3>, degenerate: (Vec3, Vec3, Vec3) -> bool)
    requires |rem| > 3 && LoopInRange(rem, |vs|)
    requires forall p, q, r :: !degenerate(p, q, r)
    ensures Cut(rem, vs, degenerate) == 0 && EarAt(rem, 0) == Face(rem[|rem| - 1], rem[0], rem[1])
  {
    assert !DegenerateAt(rem, vs, degenerate, 0);
  }

  lemma {:induction false} EarClipAllDegenerate(rem: seq<nat>, vs: seq<Vec3>, degenerate: (Vec3, Vec3, Vec3) -> bool)
    requires |rem| >= 3 && LoopInRange(rem, |vs|)
    requires forall p, q, r :: degenerate(p, q, r)
    ensures EarClip(rem, vs, degenerate) == FanFromFirst(rem)
    decreases |rem|
  {
    if |rem| > 3 {
      ClipSecond(rem, vs, degenerate);
      EarClipAllDegenerate([rem[0]] + rem[2..], vs, degenerate);
    }
  }

  /** When every triangle is degenerate a round drops the second vertex. */
  lemma ClipSecond(rem: seq<nat>, vs: seq<Vec3>, degenerate: (Vec3, Vec3, Vec3) -> bool)
    requires |rem| > 3 && LoopInRange(rem, |vs|)
    requires forall p, q, r :: degenerate(p, q, r)
    ensures LoopInRange([rem[0]] + rem[2..], |vs|)
    ensures EarClip(rem, vs, degenerate)
      == [Face(rem[0], rem[1], rem[2])] + EarClip([rem[0]] + rem[2..], vs, degenerate)
  {
    var rest := [rem[0]] + rem[2..];
    assert rem[..1] == [rem[0]];
    assert Remove(rem, 1) == rest;
    FallbackCut(rem, vs, degenerate);
    EarClipUnfold(rem, vs, degenerate);
  }

  /** When no candidate is an ear, the fallback drops the second vertex. */
  lemma FallbackCut(rem: seq<nat>, vs: seq<Vec3>, degenerate: (Vec3, Vec3, Vec3) -> bool)
    requires |rem| > 3 && LoopInRange(rem, |vs|)
    requires forall p, q, r :: degenerate(p, q, r)
    ensures Cut(rem, vs, degenerate) == 1 && EarAt(rem, 1) == Face(rem[0], rem[1], rem[2])
  {
  }

  /** The number of triangles `triangulate_hole` adds for the given loops. */
  function FillCount(loops: seq<seq<nat>>): nat
  {
    if |loops| == 0 then 0
    else
      var last := loops[|loops| - 1];
      FillCount(loops[..|loops| - 1]) + if |last| >= 3 then |last| - 2 else 0
  }

  predicate LoopsInRange(loops: seq<seq<nat>>, n: nat)
  {
    forall i | 0 <= i < |loops| :: LoopInRange(loops[i], n)
  }

  predicate LoopsDistinct(loops: seq<seq<nat>>)
  {
    forall i | 0 <= i < |loops| :: Distinct(loops[i])
  }

  /** The hole-filling loop of `repair_mesh`: the triangles of every loop in turn,
      appended after those of the loops before it. */
  function FillHoles(loops: seq<seq<nat>>, vs: seq<Vec3>, degenerate: (Vec3, Vec3, Vec3) -> bool): (r: seq<Face>)
    requires LoopsInRange(loops, |vs|)
    ensures |r| == FillCount(loops)
    ensures FacesInRange(r, |vs|)
    ensures LoopsDistinct(loops) ==> forall k | 0 <= k < |r| :: NonDegenerate(r[k])
  {
    if |loops| == 0 then []
    else
      var pre := FillHoles(loops[..|loops| - 1], vs, degenerate);
      var last := loops[|loops| - 1];
      var tris := Triangulate(last, vs, degenerate);
      assert forall k | 0 <= k < |tris| :: FaceInRange(tris[k], |vs|);
      assert LoopsDistinct(loops) ==> LoopsDistinct(loops[..|loops| - 1]);
      pre + tris
  }

  /** Every edge of a loop of three or more vertices, the closing edge included, is
      an edge of the filling. */
  lemma {:induction false} FillHolesCoversLoop(loops: seq<seq<nat>>, vs: seq<Vec3>, degenerate: (Vec3, Vec3, Vec3) -> bool, i: nat)
    requires LoopsInRange(loops, |vs|)
    requires i < |loops| && |loops[i]| >= 3
    ensures CycleEdges(loops[i]) <= EdgeSet(FillHoles(loops, vs, degenerate))
    decreases |loops|
  {
    var pre, last := loops[..|loops| - 1], loops[|loops| - 1];
    assert LoopsInRange(pre, |vs|) by {
      assert forall j | 0 <= j < |pre| :: pre[j] == loops[j];
    }
    EdgeSetAppend(FillHoles(pre, vs, degenerate), Triangulate(last, vs, degenerate));
    if i == |loops| - 1 {
      EarClipCoversLoop(last, vs, degenerate);
    } else {
      assert loops[i] == pre[i];
      FillHolesCoversLoop(pre, vs, degenerate, i);
    }
  }

  /** The outcome of `repair_mesh`: the buffers after the call and the returned
      number of holes filled (`-1`, reserved for errors, is never produced). */
  datatype RepairResult = RepairResult(vertices: seq<Vec3>, faces: seq<Face>, holesFilled: nat)

  /** `repair_mesh`: weld when the tolerance is positive, analyse, and unless the
      mesh is already watertight append the triangulation of every boundary loop.
      The faces of the welded mesh come first and are kept unchanged; one hole is
      counted per loop. */
  function RepairMesh(vs: seq<Vec3>, faces: seq<Face>, tol: real, cellOf: Vec3 -> Cell,
                      near: (Vec3, Vec3) -> bool, degenerate: (Vec3, Vec3, Vec3) -> bool): (r: RepairResult)
    requires FacesInRange(faces, |vs|)
    ensures FacesInRange(r.faces, |r.vertices|)
    ensures tol <= 0.0 ==> r.vertices == vs && |r.faces| >= |faces| && r.faces[..|faces|] == faces
    ensures var w := WeldVertices(vs, faces, tol, cellOf, near);
      && r.vertices == w.vertices
      && |r.faces| >= |w.faces| && r.faces[..|w.faces|] == w.faces
      && (Analyze(w.faces).isWatertight ==> r.faces == w.faces && r.holesFilled == 0)
      && (!Analyze(w.faces).isWatertight ==> r.holesFilled == Analyze(w.faces).numHoles)
  {
    // `weld_vertices` itself leaves the mesh alone for a non-positive tolerance, so
    // the guard of the source needs no separate branch.
    var w := WeldVertices(vs, faces, tol, cellOf, near);
    var d := AnalyzeDetailed(w.faces);
    if d.summary.isWatertight then RepairResult(w.vertices, w.faces, 0)
    else
      LoopVerticesInRange(w.faces, |w.vertices|);
      var fill := FillHoles(d.boundaryLoops, w.vertices, degenerate);
      AppendInRange(w.faces, fill, |w.vertices|);
      RepairResult(w.vertices, w.faces + fill, |d.boundaryLoops|)
  }

  /** Appending in-range faces keeps every face in range and the old faces first. */
  lemma AppendInRange(a: seq<Face>, b: seq<Face>, n: nat)
    requires FacesInRange(a, n) && FacesInRange(b, n)
    ensures FacesInRange(a + b, n) && (a + b)[..|a|] == a
  {
    assert forall k | 0 <= k < |a + b| :: (a + b)[k] == if k < |a| then a[k] else b[k - |a|];
  }

  /** Appending faces adds their incidences to every edge's count. */
  lemma {:induction false} OccurrenceCountAppend(a: seq<Face>, b: seq<Face>, e: Edge)
    ensures |Occurrences(a + b, e)| == |Occurrences(a, e)| + |Occurrences(b, e)|
    decreases |b|
  {
    if |b| == 0 {
      assert a + b == a;
    } else {
      var ab, pre := a + b, b[..|b| - 1];
      assert ab[..|ab| - 1] == a + pre;
      assert ab[|ab| - 1] == b[|b| - 1];
      OccurrenceCountAppend(a, pre, e);
      OccurrencesSnoc(ab, e);
      OccurrencesSnoc(b, e);
    }
  }

  /** The last face adds one incidence per side equal to `e`. */
  lemma OccurrencesSnoc(faces: seq<Face>, e: Edge)
    requires |faces| > 0
    ensures |Occurrences(faces, e)|
      == |Occurrences(faces[..|faces| - 1], e)| + multiset(FaceEdges(faces[|faces| - 1]))[e]
  {
  }

  /** After a repair of a mesh that is not watertight once welded, the added faces
      are proper triangles, and the closing fan of every boundary loop has every
      edge of that loop (the closing edge included) as a side. */
  lemma RepairFillsLoops(vs: seq<Vec3>, faces: seq<Face>, tol: real, cellOf: Vec3 -> Cell,
                         near: (Vec3, Vec3) -> bool, degenerate: (Vec3, Vec3, Vec3) -> bool)
    requires FacesInRange(faces, |vs|)
    ensures var w := WeldVertices(vs, faces, tol, cellOf, near);
      var d := AnalyzeDetailed(w.faces);
      var r := RepairMesh(vs, faces, tol, cellOf, near, degenerate);
      !d.summary.isWatertight ==>
        && (forall k | |w.faces| <= k < |r.faces| :: NonDegenerate(r.faces[k]))
        && (forall i | 0 <= i < |d.boundaryLoops| :: CycleEdges(d.boundaryLoops[i]) <= EdgeSet(r.faces[|w.faces|..]))
  {
    var w := WeldVertices(vs, faces, tol, cellOf, near);
    var d := AnalyzeDetailed(w.faces);
    if !d.summary.isWatertight {
      LoopVerticesInRange(w.faces, |w.vertices|);
      LoopsAreBoundaryWalks(w.faces);
      var loops := d.boundaryLoops;
      var fill := FillHoles(loops, w.vertices, degenerate);
      var r := RepairMesh(vs, faces, tol, cellOf, near, degenerate);
      assert r.faces == w.faces + fill;
      assert r.faces[|w.faces|..] == fill;
      assert LoopsDistinct(loops);
      FillHolesCoversLoops(loops, w.vertices, degenerate);
    }
  }

  lemma FillHolesCoversLoops(loops: seq<seq<nat>>, vs: seq<Vec3>, degenerate: (Vec3, Vec3, Vec3) -> bool)
    requires LoopsInRange(loops, |vs|)
    requires forall i | 0 <= i < |loops| :: |loops[i]| >= 3
    ensures forall i | 0 <= i < |loops| :: CycleEdges(loops[i]) <= EdgeSet(FillHoles(loops, vs, degenerate))
  {
    forall i | 0 <= i < |loops| ensures CycleEdges(loops[i]) <= EdgeSet(FillHoles(loops, vs, degenerate)) {
      FillHolesCoversLoop(loops, vs, degenerate, i);
    }
  }

  /** A rim edge of a hole (two consecutive vertices of a boundary loop) has one
      incident face before the repair and at least two after it. */
  lemma RepairSharesRimEdge(vs: seq<Vec3>, faces: seq<Face>, tol: real, cellOf: Vec3 -> Cell,
                            near: (Vec3, Vec3) -> bool, degenerate: (Vec3, Vec3, Vec3) -> bool, i: nat, k: nat)
    requires FacesInRange(faces, |vs|)
    requires var w := WeldVertices(vs, faces, tol, cellOf, near);
      var d := AnalyzeDetailed(w.faces);
      i < |d.boundaryLoops| && k + 1 < |d.boundaryLoops[i]|
    ensures var w := WeldVertices(vs, faces, tol, cellOf, near);
      var loop := AnalyzeDetailed(w.faces).boundaryLoops[i];
      var e := MakeEdge(loop[k], loop[k + 1]);
      && |Occurrences(w.faces, e)| == 1
      && |Occurrences(RepairMesh(vs, faces, tol, cellOf, near, degenerate).faces, e)| >= 2
  {
    var w := WeldVertices(vs, faces, tol, cellOf, near);
    var d := AnalyzeDetailed(w.faces);
    var loop := d.boundaryLoops[i];
    var e := MakeEdge(loop[k], loop[k + 1]);
    LoopsAreBoundaryWalks(w.faces);
    assert e in BoundaryEdgeSet(w.faces);
    var r := RepairMesh(vs, faces, tol, cellOf, near, degenerate);
    assert !d.summary.isWatertight by {
      AnalyzeCounts(w.faces);
    }
    RepairFillsLoops(vs, faces, tol, cellOf, near, degenerate);
    var fill := r.faces[|w.faces|..];
    assert e in CycleEdges(loop) by {
      assert Next(k, |loop|) == k + 1;
    }
    EdgesHaveFaces(fill, e);
    assert r.faces == w.faces + fill;
    OccurrenceCountAppend(w.faces, fill, e);
  }
}
