/** Boundary-loop tracing of `analyze_mesh_detailed` (common/mesh_repair.cpp): the
    boundary adjacency lists, the ascending set of boundary vertices used as seeds,
    and the walk that turns boundary edges into loops. */
module Boundary {
  import opened Options
  import opened Mesh
  import opened EdgeTable

  /** `std::map<unsigned int, std::vector<unsigned int>> boundary_adj`. */
  type Adjacency = map<nat, seq<nat>>

  /** `UINT_MAX`, which the tracer uses both as "no previous vertex" and as "no next
      vertex". A vertex with this index is therefore never stepped onto, and never
      left out as the previous vertex at the start of a walk. */
  const NoVertex: nat := 0xffff_ffff

  function Elems(s: seq<nat>): set<nat>
  {
    set x | x in s
  }

  /** `boundary_adj[v]`; `operator[]` yields an empty list for a missing key. */
  function Neighbours(adj: Adjacency, v: nat): seq<nat>
  {
    if v in adj then adj[v] else []
  }

  /** An entry with exactly one incident triangle is a boundary edge. */
  predicate OneFace(n: nat)
  {
    n == 1
  }

  /** More than two incident triangles make an edge non-manifold. */
  predicate ManyFaces(n: nat)
  {
    n > 2
  }

  /** `e` is the key of a boundary entry of `t`. */
  predicate IsBoundaryEntry(t: Table, e: Edge)
  {
    exists i | 0 <= i < |t| :: t[i].edge == e && OneFace(|t[i].tris|)
  }

  /** The invariant of the boundary adjacency: every listed neighbour is itself a
      key, every key has a neighbour, and each listed pair is a boundary edge. */
  predicate AdjacencyOf(adj: Adjacency, t: Table)
  {
    forall v | v in adj ::
      && |adj[v]| > 0
      && forall w | w in adj[v] :: w in adj && IsBoundaryEntry(t, MakeEdge(v, w))
  }

  /** Neighbour lists only name keys: the walk never leaves the key set. */
  predicate Closed(adj: Adjacency)
  {
    forall v | v in adj :: forall w | w in adj[v] :: w in adj
  }

  /** `boundary_adj[v1].push_back(v2); boundary_adj[v2].push_back(v1);` */
  function Link(adj: Adjacency, e: Edge): (r: Adjacency)
    ensures r.Keys == adj.Keys + {e.v1, e.v2}
  {
    var adj1 := adj[e.v1 := Neighbours(adj, e.v1) + [e.v2]];
    adj1[e.v2 := Neighbours(adj1, e.v2) + [e.v1]]
  }

  /** The classification loop over the table, in ascending key order, restricted to
      what it does for boundary entries. */
  function BoundaryAdjacency(t: Table): (adj: Adjacency)
    requires WellFormed(t)
    ensures AdjacencyOf(adj, t)
  {
    if |t| == 0 then map[]
    else
      var pre, last := t[..|t| - 1], t[|t| - 1];
      var adj := BoundaryAdjacency(pre);
      AdjacencyExtends(adj, pre, t);
      if OneFace(|last.tris|) then
        assert IsBoundaryEntry(t, last.edge);
        LinkKeepsInvariant(adj, t, last.edge);
        Link(adj, last.edge)
      else adj
  }

  lemma AdjacencyExtends(adj: Adjacency, pre: Table, t: Table)
    requires AdjacencyOf(adj, pre)
    requires |pre| <= |t| && pre == t[..|pre|]
    ensures AdjacencyOf(adj, t)
  {
    forall e | IsBoundaryEntry(pre, e) ensures IsBoundaryEntry(t, e) {
      var i :| 0 <= i < |pre| && pre[i].edge == e && OneFace(|pre[i].tris|);
      assert t[i] == pre[i];
    }
  }

  lemma LinkKeepsInvariant(adj: Adjacency, t: Table, e: Edge)
    requires AdjacencyOf(adj, t)
    requires IsBoundaryEntry(t, e)
    requires Canonical(e)
    ensures AdjacencyOf(Link(adj, e), t)
  {
    var adj1 := adj[e.v1 := Neighbours(adj, e.v1) + [e.v2]];
    var r := adj1[e.v2 := Neighbours(adj1, e.v2) + [e.v1]];
    assert r == Link(adj, e);
    MakeEdgeOfEdge(e);
    forall v | v in r
      ensures |r[v]| > 0
      ensures forall w | w in r[v] :: w in r && IsBoundaryEntry(t, MakeEdge(v, w))
    {
      var before := Neighbours(adj, v);
      assert forall w | w in before :: w in adj && IsBoundaryEntry(t, MakeEdge(v, w));
      if v == e.v2 {
        assert r[v] == Neighbours(adj1, e.v2) + [e.v1];
        if v == e.v1 {
          assert r[v] == before + [e.v2] + [e.v1];
        } else {
          assert r[v] == before + [e.v1];
        }
      } else if v == e.v1 {
        assert r[v] == before + [e.v2];
      } else {
        assert r[v] == before;
      }
    }
  }

  lemma MakeEdgeOfEdge(e: Edge)
    ensures Canonical(e) ==> MakeEdge(e.v1, e.v2) == e && MakeEdge(e.v2, e.v1) == e
  {
  }

  predicate Ascending(s: seq<nat>)
  {
    forall i, j | 0 <= i < j < |s| :: s[i] < s[j]
  }

  /** `std::set<unsigned>::insert`, kept as an ascending list without repeats. */
  function InsertVertex(s: seq<nat>, v: nat): (r: seq<nat>)
    requires Ascending(s)
    ensures Ascending(r)
    ensures Elems(r) == Elems(s) + {v}
  {
    if |s| == 0 then [v]
    else if s[0] == v then
      ElemsCons(s);
      s
    else if v < s[0] then
      assert forall j | 0 <= j < |s| :: v < s[j];
      ConsAscending(v, s);
      [v] + s
    else
      var rest := InsertVertex(s[1..], v);
      ElemsCons(s);
      AboveHead(s, v, rest);
      ConsAscending(s[0], rest);
      [s[0]] + rest
  }

  /** Putting an element below every element of an ascending list in front of it. */
  lemma ConsAscending(x: nat, rest: seq<nat>)
    requires Ascending(rest)
    requires forall j | 0 <= j < |rest| :: x < rest[j]
    ensures Ascending([x] + rest)
    ensures Elems([x] + rest) == {x} + Elems(rest)
  {
    var r := [x] + rest;
    assert r[1..] == rest;
    ElemsCons(r);
  }

  /** What is inserted after the head of an ascending list stays above the head. */
  lemma AboveHead(s: seq<nat>, v: nat, rest: seq<nat>)
    requires Ascending(s) && |s| > 0 && s[0] < v
    requires Elems(rest) == Elems(s[1..]) + {v}
    ensures forall j | 0 <= j < |rest| :: s[0] < rest[j]
  {
    forall j | 0 <= j < |rest| ensures s[0] < rest[j] {
      assert rest[j] in Elems(rest);
      if rest[j] != v {
        var k :| 0 <= k < |s[1..]| && s[1..][k] == rest[j];
        assert s[k + 1] == rest[j];
      }
    }
  }

  lemma ElemsCons(s: seq<nat>)
    requires |s| > 0
    ensures Elems(s) == {s[0]} + Elems(s[1..])
  {
    assert s == [s[0]] + s[1..];
  }

  /** `boundary_vertices`: both endpoints of every boundary edge, ascending; these are
      exactly the keys of the boundary adjacency. */
  function BoundaryVertices(t: Table): (s: seq<nat>)
    requires WellFormed(t)
    ensures Ascending(s)
    ensures Elems(s) == BoundaryAdjacency(t).Keys
  {
    if |t| == 0 then []
    else
      var pre, last := t[..|t| - 1], t[|t| - 1];
      var s := BoundaryVertices(pre);
      if OneFace(|last.tris|) then InsertVertex(InsertVertex(s, last.edge.v1), last.edge.v2)
      else s
  }

  /** A candidate of the inner neighbour loop: not the vertex just left, and either
      unvisited or the seed. */
  predicate Eligible(w: nat, prev: nat, visited: set<nat>, start: nat)
  {
    w != prev && (w !in visited || w == start)
  }

  /** The inner `for (adj : boundary_adj[current])` loop: the first eligible
      neighbour, or none. */
  function NextStep(cands: seq<nat>, prev: nat, visited: set<nat>, start: nat): (r: Option<nat>)
    ensures r.Some? ==> exists k | 0 <= k < |cands| ::
      && cands[k] == r.value
      && Eligible(cands[k], prev, visited, start)
      && forall j | 0 <= j < k :: !Eligible(cands[j], prev, visited, start)
    ensures r.None? ==> forall k | 0 <= k < |cands| :: !Eligible(cands[k], prev, visited, start)
  {
    if |cands| == 0 then None
    else if Eligible(cands[0], prev, visited, start) then Some(cands[0])
    else
      var r := NextStep(cands[1..], prev, visited, start);
      assert forall k | 0 < k < |cands| :: cands[k] == cands[1..][k - 1];
      r
  }

  /** One walk of the `while (true)` loop, from `current` (just reached) onwards: the
      vertices appended to `loop`, in order. The walk stops at a dead end, when the
      next vertex is `NoVertex` (indistinguishable from none), or when it gets back
      to the seed `start`. */
  function Walk(adj: Adjacency, start: nat, current: nat, prev: nat, visited: set<nat>): (path: seq<nat>)
    requires Closed(adj)
    requires current in adj && current !in visited
    ensures |path| >= 1 && path[0] == current
    ensures forall k | 0 <= k < |path| :: path[k] in adj && path[k] !in visited
    ensures forall j, k | 0 <= j < k < |path| :: path[j] != path[k]
    ensures forall k | 0 <= k < |path| - 1 :: path[k + 1] in adj[path[k]]
    ensures forall k | 0 < k < |path| :: path[k] != NoVertex
    decreases adj.Keys - visited
  {
    var seen := visited + {current};
    var next := NextStep(adj[current], prev, seen, start);
    if next.None? || next.value == NoVertex || next.value == start then [current]
    else
      var rest := Walk(adj, start, next.value, current, seen);
      [current] + rest
  }

  /** A recorded hole: at least three pairwise distinct vertices, each one a
      boundary neighbour of the one before. */
  predicate IsLoop(adj: Adjacency, loop: seq<nat>)
  {
    && |loop| >= 3
    && (forall k | 0 <= k < |loop| :: loop[k] in adj)
    && (forall j, k | 0 <= j < k < |loop| :: loop[j] != loop[k])
    && (forall k | 0 <= k < |loop| - 1 :: loop[k + 1] in adj[loop[k]])
  }

  /** The outer `for (startV : boundary_vertices)` loop over the remaining seeds: skip
      visited seeds, walk from the others, keep walks of three or more vertices.
      Loops are disjoint from the vertices visited before, and from each other. */
  function TraceLoops(adj: Adjacency, seeds: seq<nat>, visited: set<nat>): (loops: seq<seq<nat>>)
    requires Closed(adj)
    requires forall k | 0 <= k < |seeds| :: seeds[k] in adj
    ensures forall i | 0 <= i < |loops| :: IsLoop(adj, loops[i]) && Elems(loops[i]) !! visited
    ensures forall i, j | 0 <= i < j < |loops| :: Elems(loops[i]) !! Elems(loops[j])
    decreases |seeds|
  {
    if |seeds| == 0 then []
    else if seeds[0] in visited then TraceLoops(adj, seeds[1..], visited)
    else
      var path := Walk(adj, seeds[0], seeds[0], NoVertex, visited);
      var rest := TraceLoops(adj, seeds[1..], visited + Elems(path));
      if |path| >= 3 then
        assert forall i | 0 <= i < |rest| :: Elems(rest[i]) !! Elems(path);
        [path] + rest
      else rest
  }

  /** The keys of the boundary entries, in table order. */
  function BoundaryKeys(t: Table): seq<Edge>
  {
    if |t| == 0 then []
    else BoundaryKeys(t[..|t| - 1]) + (if OneFace(|t[|t| - 1].tris|) then [t[|t| - 1].edge] else [])
  }

  /** The keys of the entries with exactly one triangle, by index. */
  function OneFaceKeys(t: Table): set<Edge>
  {
    set i | 0 <= i < |t| && OneFace(|t[i].tris|) :: t[i].edge
  }

  /** The boundary keys are exactly the keys of the entries with one triangle, and
      each of them comes from an entry before every later one. */
  lemma {:induction false} BoundaryKeysAre(t: Table)
    ensures forall e :: e in BoundaryKeys(t) <==> e in OneFaceKeys(t)
    decreases |t|
  {
    if |t| > 0 {
      var pre, last := t[..|t| - 1], t[|t| - 1];
      BoundaryKeysAre(pre);
      forall e ensures e in OneFaceKeys(t) <==> e in OneFaceKeys(pre) || (OneFace(|last.tris|) && e == last.edge) {
        if e in OneFaceKeys(t) {
          var i :| 0 <= i < |t| && OneFace(|t[i].tris|) && t[i].edge == e;
          if i < |pre| {
            assert pre[i] == t[i];
          }
        }
        if e in OneFaceKeys(pre) {
          var i :| 0 <= i < |pre| && OneFace(|pre[i].tris|) && pre[i].edge == e;
          assert pre[i] == t[i];
        }
      }
    }
  }

  /** There is one boundary key per entry with one triangle. */
  lemma {:induction false} BoundaryKeysCount(t: Table)
    ensures |BoundaryKeys(t)| == CountWhere(t, OneFace)
    decreases |t|
  {
    if |t| > 0 {
      BoundaryKeysCount(t[..|t| - 1]);
      CountWhereSnoc(t, OneFace);
    }
  }

  /** The boundary keys of a sorted table are strictly ascending. */
  lemma {:induction false} BoundaryKeysSorted(t: Table)
    requires Sorted(t)
    ensures forall j, k | 0 <= j < k < |BoundaryKeys(t)| :: Less(BoundaryKeys(t)[j], BoundaryKeys(t)[k])
    decreases |t|
  {
    if |t| > 0 {
      var pre, last := t[..|t| - 1], t[|t| - 1];
      assert Sorted(pre) by {
        assert forall i | 0 <= i < |pre| :: pre[i] == t[i];
      }
      BoundaryKeysSorted(pre);
      BoundaryKeysAre(pre);
      var ks := BoundaryKeys(pre);
      if OneFace(|last.tris|) {
        var r := ks + [last.edge];
        assert BoundaryKeys(t) == r;
        forall j, k | 0 <= j < k < |r| ensures Less(r[j], r[k]) {
          if k == |ks| {
            assert ks[j] in OneFaceKeys(pre);
            var i :| 0 <= i < |pre| && OneFace(|pre[i].tris|) && pre[i].edge == ks[j];
            assert pre[i] == t[i];
          } else {
            assert r[j] == ks[j] && r[k] == ks[k];
          }
        }
      } else {
        assert BoundaryKeys(t) == ks;
        forall j, k | 0 <= j < k < |ks| ensures Less(ks[j], ks[k]) {
        }
      }
    }
  }

  /** Linking a sequence of edges one after another into an empty adjacency. */
  function LinkAll(ks: seq<Edge>): Adjacency
  {
    if |ks| == 0 then map[] else Link(LinkAll(ks[..|ks| - 1]), ks[|ks| - 1])
  }

  /** The adjacency depends on the table only through its boundary keys, in order. */
  lemma {:induction false} AdjacencyFromKeys(t: Table)
    requires WellFormed(t)
    ensures BoundaryAdjacency(t) == LinkAll(BoundaryKeys(t))
    decreases |t|
  {
    if |t| > 0 {
      var pre, last := t[..|t| - 1], t[|t| - 1];
      assert WellFormed(pre) by {
        assert forall i | 0 <= i < |pre| :: pre[i] == t[i];
      }
      AdjacencyFromKeys(pre);
      var ks := BoundaryKeys(t);
      if OneFace(|last.tris|) {
        assert ks == BoundaryKeys(pre) + [last.edge];
        assert ks[..|ks| - 1] == BoundaryKeys(pre);
        assert LinkAll(ks) == Link(LinkAll(BoundaryKeys(pre)), last.edge);
        assert BoundaryAdjacency(t) == Link(BoundaryAdjacency(pre), last.edge);
      } else {
        assert ks == BoundaryKeys(pre);
        assert BoundaryAdjacency(t) == BoundaryAdjacency(pre);
      }
    }
  }

  /** The head of a strictly ascending edge sequence is below every other member. */
  lemma HeadIsLeast(a: seq<Edge>, x: Edge)
    requires forall i, j | 0 <= i < j < |a| :: Less(a[i], a[j])
    requires x in a
    ensures x == a[0] || Less(a[0], x)
  {
  }

  /** Two strictly ascending edge sequences holding the same edges are equal. */
  lemma {:induction false} SortedEdgesUnique(a: seq<Edge>, b: seq<Edge>)
    requires forall i, j | 0 <= i < j < |a| :: Less(a[i], a[j])
    requires forall i, j | 0 <= i < j < |b| :: Less(b[i], b[j])
    requires forall e :: e in a <==> e in b
    ensures a == b
    decreases |a|
  {
    if |b| > 0 {
      assert b[0] in b;
    }
    if |a| > 0 {
      assert a[0] in b && b[0] in a;
      HeadIsLeast(a, b[0]);
      HeadIsLeast(b, a[0]);
      assert a[0] == b[0];
      forall e ensures e in a[1..] <==> e in b[1..] {
        if e in a[1..] {
          var i :| 1 <= i < |a| && a[i] == e;
          assert Less(a[0], e);
          assert e in a && e in b;
          var j :| 0 <= j < |b| && b[j] == e;
          assert j != 0 && b[1..][j - 1] == e;
        }
        if e in b[1..] {
          var j :| 1 <= j < |b| && b[j] == e;
          assert Less(b[0], e);
          assert e in b && e in a;
          var i :| 0 <= i < |a| && a[i] == e;
          assert i != 0 && a[1..][i - 1] == e;
        }
      }
      SortedEdgesUnique(a[1..], b[1..]);
      assert a == [a[0]] + a[1..] && b == [b[0]] + b[1..];
    }
  }

  /** Two ascending vertex sequences holding the same vertices are equal. */
  lemma ElemsEmpty(s: seq<nat>)
    ensures Elems(s) == {} <==> |s| == 0
  {
    if |s| > 0 {
      assert s[0] in Elems(s);
    }
  }

  lemma {:induction false} AscendingUnique(a: seq<nat>, b: seq<nat>)
    requires Ascending(a) && Ascending(b)
    requires Elems(a) == Elems(b)
    ensures a == b
    decreases |a|
  {
    ElemsEmpty(a);
    ElemsEmpty(b);
    if |a| > 0 {
      assert a[0] in Elems(b);
      var j :| 0 <= j < |b| && b[j] == a[0];
      assert b[0] in Elems(a);
      var i :| 0 <= i < |a| && a[i] == b[0];
      ElemsCons(a);
      ElemsCons(b);
      assert a[0] !in Elems(a[1..]) && b[0] !in Elems(b[1..]);
      assert Elems(a[1..]) == Elems(b[1..]);
      AscendingUnique(a[1..], b[1..]);
      assert a == [a[0]] + a[1..] && b == [b[0]] + b[1..];
    }
  }

  /** The boundary adjacency built from a well-formed table is closed. */
  lemma AdjacencyClosed(t: Table)
    requires WellFormed(t)
    ensures Closed(BoundaryAdjacency(t))
  {
  }

  /** The loops of a table: seeds in ascending vertex order, nothing visited yet. */
  function LoopsOf(t: Table): (loops: seq<seq<nat>>)
    requires WellFormed(t)
    ensures forall i | 0 <= i < |loops| :: IsLoop(BoundaryAdjacency(t), loops[i])
    ensures forall i, j | 0 <= i < j < |loops| :: Elems(loops[i]) !! Elems(loops[j])
  {
    var adj := BoundaryAdjacency(t);
    var seeds := BoundaryVertices(t);
    assert forall k | 0 <= k < |seeds| :: seeds[k] in adj by {
      assert forall k | 0 <= k < |seeds| :: seeds[k] in Elems(seeds);
    }
    TraceLoops(adj, seeds, {})
  }
}
