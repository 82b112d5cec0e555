/** `weld_vertices` (common/mesh_repair.cpp): merge vertices closer than a tolerance
    with a spatial hash grid, remap the faces, and drop the faces that collapse.

    Floating point is left to two parameters: `cellOf` is the grid cell of a
    position (`floor(v * inv_tol)` per axis) and `near(q, p)` the distance test
    `length(q - p) < tolerance`. `RealCell` and `RealNear` below are their exact
    counterparts over the reals. */
module Weld {
  import opened Options
  import opened Mesh
  import opened RealArith

  /** A grid key `std::tuple<int,int,int>`. */
  datatype Cell = Cell(x: int, y: int, z: int)

  /** `std::map<std::tuple<int,int,int>, std::vector<int>> grid`: the indices of
      the output vertices that fell into each cell, in insertion order. */
  type Grid = map<Cell, seq<nat>>

  /** `grid.find(key)`, with a missing cell read as an empty bucket. */
  function Bucket(grid: Grid, c: Cell): seq<nat>
  {
    if c in grid then grid[c] else []
  }

  function Shift(c: Cell, d: Cell): Cell
  {
    Cell(c.x + d.x, c.y + d.y, c.z + d.z)
  }

  /** Two cells that differ by at most one along every axis. */
  predicate Adjacent(c: Cell, d: Cell)
  {
    -1 <= d.x - c.x <= 1 && -1 <= d.y - c.y <= 1 && -1 <= d.z - c.z <= 1
  }

  /** The `k`-th neighbour offset visited by the three nested loops over `dx`,
      `dy` and `dz`, each running from -1 to 1 with `dz` innermost. */
  function Offset(k: nat): (d: Cell)
    requires k < 27
    ensures Adjacent(Cell(0, 0, 0), d)
    ensures k == 9 * (d.x + 1) + 3 * (d.y + 1) + (d.z + 1)
  {
    Cell(k / 9 - 1, (k / 3) % 3 - 1, k % 3 - 1)
  }

  /** The enumeration reaches every offset: each neighbour of a cell is visited
      by exactly one iteration of the nested loops. */
  lemma OffsetOnto(c: Cell, d: Cell)
    requires Adjacent(c, d)
    ensures var k := 9 * (d.x - c.x + 1) + 3 * (d.y - c.y + 1) + (d.z - c.z + 1);
      0 <= k < 27 && Shift(c, Offset(k)) == d
  {
    var k := 9 * (d.x - c.x + 1) + 3 * (d.y - c.y + 1) + (d.z - c.z + 1);
    DivModDigits(d.x - c.x + 1, d.y - c.y + 1, d.z - c.z + 1);
    assert Offset(k) == Cell(d.x - c.x, d.y - c.y, d.z - c.z);
  }

  lemma DivModDigits(a: int, b: int, c: int)
    requires 0 <= a < 3 && 0 <= b < 3 && 0 <= c < 3
    ensures var k := 9 * a + 3 * b + c; k / 9 == a && (k / 3) % 3 == b && k % 3 == c
  {
    if a == 0 {
      if b == 0 { } else if b == 1 { } else { }
    } else if a == 1 {
      if b == 0 { } else if b == 1 { } else { }
    } else {
      if b == 0 { } else if b == 1 { } else { }
    }
  }

  /** Every index stored in the grid names an output vertex. */
  predicate GridInRange(grid: Grid, n: nat)
  {
    forall c | c in grid :: forall k | 0 <= k < |grid[c]| :: grid[c][k] < n
  }

  /** The grid files every output vertex under its own cell and nothing else. */
  predicate GridOf(grid: Grid, out: seq<Vec3>, cellOf: Vec3 -> Cell)
  {
    && GridInRange(grid, |out|)
    && (forall c | c in grid :: forall k | 0 <= k < |grid[c]| :: cellOf(out[grid[c][k]]) == c)
    && (forall j | 0 <= j < |out| :: j in Bucket(grid, cellOf(out[j])))
  }

  /** The bucket loop `for (int idx : it->second)`: the first listed vertex near `p`. */
  function ScanBucket(bucket: seq<nat>, out: seq<Vec3>, p: Vec3, near: (Vec3, Vec3) -> bool): (r: Option<nat>)
    requires forall k | 0 <= k < |bucket| :: bucket[k] < |out|
    ensures r.Some? ==> exists k | 0 <= k < |bucket| ::
      && bucket[k] == r.value
      && near(out[bucket[k]], p)
      && forall j | 0 <= j < k :: !near(out[bucket[j]], p)
    ensures r.None? ==> forall k | 0 <= k < |bucket| :: !near(out[bucket[k]], p)
  {
    if |bucket| == 0 then None
    else if near(out[bucket[0]], p) then Some(bucket[0])
    else
      var r := ScanBucket(bucket[1..], out, p, near);
      assert forall k | 0 < k < |bucket| :: bucket[k] == bucket[1..][k - 1];
      r
  }

  /** The three nested offset loops from iteration `k` on, stopping at the first hit
      (`found_idx >= 0`). A miss means no vertex filed under any of the remaining
      neighbour cells is near `p`. */
  function ScanFrom(grid: Grid, out: seq<Vec3>, c: Cell, p: Vec3, near: (Vec3, Vec3) -> bool, k: nat): (r: Option<nat>)
    requires GridInRange(grid, |out|)
    requires k <= 27
    ensures r.Some? ==> r.value < |out| && near(out[r.value], p)
    decreases 27 - k
  {
    if k == 27 then None
    else
      var hit := ScanBucket(Bucket(grid, Shift(c, Offset(k))), out, p, near);
      if hit.Some? then hit else ScanFrom(grid, out, c, p, near, k + 1)
  }

  /** A miss means no vertex filed under any of the remaining neighbour cells is
      near `p`. */
  lemma {:induction false} ScanFromMiss(grid: Grid, out: seq<Vec3>, c: Cell, p: Vec3, near: (Vec3, Vec3) -> bool, k: nat)
    requires GridInRange(grid, |out|)
    requires k <= 27
    requires ScanFrom(grid, out, c, p, near, k).None?
    ensures forall j, i | k <= j < 27 && 0 <= i < |Bucket(grid, Shift(c, Offset(j)))| ::
      !near(out[Bucket(grid, Shift(c, Offset(j)))[i]], p)
    decreases 27 - k
  {
    if k < 27 {
      var b := Bucket(grid, Shift(c, Offset(k)));
      assert ScanBucket(b, out, p, near).None?;
      ScanFromMiss(grid, out, c, p, near, k + 1);
    }
  }

  /** The mutable state of the vertex loop: `new_vertices`, `vertex_map` (filled
      up to the current vertex), `grid` and `welded`. */
  datatype WeldState = WeldState(out: seq<Vec3>, vmap: seq<nat>, grid: Grid, welded: nat)

  /** One iteration of the vertex loop: weld `p` onto the first near vertex found
      in the 27 cells around its own, or append it and file it under its cell. */
  function Step(s: WeldState, p: Vec3, cellOf: Vec3 -> Cell, near: (Vec3, Vec3) -> bool): (r: WeldState)
    requires GridInRange(s.grid, |s.out|)
    ensures GridInRange(r.grid, |r.out|)
    ensures |r.vmap| == |s.vmap| + 1 && r.vmap[..|s.vmap|] == s.vmap
    ensures |r.out| + r.welded == |s.out| + s.welded + 1
    ensures r.out == s.out || r.out == s.out + [p]
    ensures r.vmap[|s.vmap|] < |r.out|
    ensures r.out == s.out ==> near(r.out[r.vmap[|s.vmap|]], p) && r.welded == s.welded + 1
    ensures r.out != s.out ==> r.vmap[|s.vmap|] == |s.out|
  {
    var c := cellOf(p);
    var found := ScanFrom(s.grid, s.out, c, p, near, 0);
    if found.Some? then
      SnocPrefix(s.vmap, found.value);
      s.(vmap := s.vmap + [found.value], welded := s.welded + 1)
    else
      var n := |s.out|;
      var grid := s.grid[c := Bucket(s.grid, c) + [n]];
      FileInRange(s.grid, c, n);
      SnocPrefix(s.vmap, n);
      WeldState(s.out + [p], s.vmap + [n], grid, s.welded)
  }

  /** Filing the new vertex `n` keeps every grid index below the new count. */
  lemma FileInRange(grid: Grid, c: Cell, n: nat)
    requires GridInRange(grid, n)
    ensures GridInRange(grid[c := Bucket(grid, c) + [n]], n + 1)
  {
    var g := grid[c := Bucket(grid, c) + [n]];
    forall d | d in g ensures forall k | 0 <= k < |g[d]| :: g[d][k] < n + 1 {
      if d == c {
        assert g[d] == Bucket(grid, c) + [n];
      }
    }
  }

  lemma SnocPrefix(s: seq<nat>, x: nat)
    ensures (s + [x])[..|s|] == s && (s + [x])[|s|] == x
  {
  }

  /** A vertex is appended only when the scan around its cell misses, and the grid
      keeps filing every output vertex under its own cell. */
  lemma StepKeepsGrid(s: WeldState, p: Vec3, cellOf: Vec3 -> Cell, near: (Vec3, Vec3) -> bool)
    requires GridOf(s.grid, s.out, cellOf)
    ensures var r := Step(s, p, cellOf, near);
      && GridOf(r.grid, r.out, cellOf)
      && (r.out != s.out ==> ScanFrom(s.grid, s.out, cellOf(p), p, near, 0).None?)
  {
    if ScanFrom(s.grid, s.out, cellOf(p), p, near, 0).None? {
      GridOfAppend(s.grid, s.out, cellOf, p);
    }
  }

  lemma GridOfAppend(grid: Grid, out: seq<Vec3>, cellOf: Vec3 -> Cell, p: Vec3)
    requires GridOf(grid, out, cellOf)
    ensures GridOf(grid[cellOf(p) := Bucket(grid, cellOf(p)) + [|out|]], out + [p], cellOf)
  {
    var c, n := cellOf(p), |out|;
    var g := grid[c := Bucket(grid, c) + [n]];
    var o := out + [p];
    forall d | d in g
      ensures forall k | 0 <= k < |g[d]| :: g[d][k] < |o| && cellOf(o[g[d][k]]) == d
    {
      if d == c {
        forall k | 0 <= k < |g[d]| ensures g[d][k] < |o| && cellOf(o[g[d][k]]) == d {
          if k < |Bucket(grid, c)| {
            assert g[d][k] == grid[c][k];
          }
        }
      }
    }
    forall j | 0 <= j < |o| ensures j in Bucket(g, cellOf(o[j])) {
      if j < n {
        assert o[j] == out[j];
        assert j in Bucket(grid, cellOf(out[j]));
      } else {
        assert g[c] == Bucket(grid, c) + [n];
        assert g[c][|Bucket(grid, c)|] == j;
      }
    }
  }

  /** The grid search is only as good as its cells: `near` never relates two
      positions whose cells are more than one apart. */
  ghost predicate Compatible(cellOf: Vec3 -> Cell, near: (Vec3, Vec3) -> bool)
  {
    forall q, p :: near(q, p) ==> Adjacent(cellOf(p), cellOf(q))
  }

  /** When the cells are compatible with the distance test, a miss of the 27-cell
      scan means no output vertex at all is near `p`. */
  lemma ScanMissIsGlobal(grid: Grid, out: seq<Vec3>, cellOf: Vec3 -> Cell, near: (Vec3, Vec3) -> bool, p: Vec3)
    requires GridOf(grid, out, cellOf)
    requires ScanFrom(grid, out, cellOf(p), p, near, 0).None?
    ensures Compatible(cellOf, near) ==> forall j | 0 <= j < |out| :: !near(out[j], p)
  {
    if Compatible(cellOf, near) {
      ScanFromMiss(grid, out, cellOf(p), p, near, 0);
      forall j | 0 <= j < |out| ensures !near(out[j], p) {
        if near(out[j], p) {
          var c, d := cellOf(p), cellOf(out[j]);
          OffsetOnto(c, d);
          var k := 9 * (d.x - c.x + 1) + 3 * (d.y - c.y + 1) + (d.z - c.z + 1);
          assert false;
        }
      }
    }
  }

  /** The vertex loop over all of `vertices`: each vertex either survives or
      counts as welded, and `vertex_map` sends every vertex to an output vertex. */
  function VertexMap(vs: seq<Vec3>, cellOf: Vec3 -> Cell, near: (Vec3, Vec3) -> bool): (s: WeldState)
    ensures |s.vmap| == |vs|
    ensures |s.out| + s.welded == |vs|
    ensures GridInRange(s.grid, |s.out|)
    ensures forall i | 0 <= i < |vs| :: s.vmap[i] < |s.out|
  {
    if |vs| == 0 then WeldState([], [], map[], 0)
    else
      var s := VertexMap(vs[..|vs| - 1], cellOf, near);
      var r := Step(s, vs[|vs| - 1], cellOf, near);
      assert forall i | 0 <= i < |vs| - 1 :: r.vmap[i] == s.vmap[i] by {
        assert r.vmap[..|s.vmap|] == s.vmap;
      }
      r
  }

  /** Every vertex lands on an output vertex equal to it or within tolerance of it. */
  lemma {:induction false} VertexMapFaithful(vs: seq<Vec3>, cellOf: Vec3 -> Cell, near: (Vec3, Vec3) -> bool, i: nat)
    requires i < |vs|
    ensures var s := VertexMap(vs, cellOf, near);
      s.out[s.vmap[i]] == vs[i] || near(s.out[s.vmap[i]], vs[i])
  {
    var pre := vs[..|vs| - 1];
    if i < |pre| {
      VertexMapFaithful(pre, cellOf, near, i);
      FaithfulEarlier(vs, cellOf, near, i);
    } else {
      FaithfulLast(vs, cellOf, near);
    }
  }

  /** The last step leaves the output vertex of every earlier input vertex alone. */
  lemma FaithfulEarlier(vs: seq<Vec3>, cellOf: Vec3 -> Cell, near: (Vec3, Vec3) -> bool, i: nat)
    requires i < |vs| - 1
    ensures var s, s0 := VertexMap(vs, cellOf, near), VertexMap(vs[..|vs| - 1], cellOf, near);
      s.out[s.vmap[i]] == s0.out[s0.vmap[i]] && vs[i] == vs[..|vs| - 1][i]
  {
    VertexMapSnoc(vs, cellOf, near);
    StepKeepsEarlier(VertexMap(vs[..|vs| - 1], cellOf, near), vs[|vs| - 1], cellOf, near, i);
  }

  /** The last input vertex lands on itself or on an output vertex near it. */
  lemma FaithfulLast(vs: seq<Vec3>, cellOf: Vec3 -> Cell, near: (Vec3, Vec3) -> bool)
    requires |vs| > 0
    ensures var s := VertexMap(vs, cellOf, near); var i := |vs| - 1;
      s.out[s.vmap[i]] == vs[i] || near(s.out[s.vmap[i]], vs[i])
  {
    VertexMapSnoc(vs, cellOf, near);
    StepPlacesLast(VertexMap(vs[..|vs| - 1], cellOf, near), vs[|vs| - 1], cellOf, near);
  }

  /** The vertex loop over `vs` is the loop over all but the last vertex followed by
      one step. */
  lemma VertexMapSnoc(vs: seq<Vec3>, cellOf: Vec3 -> Cell, near: (Vec3, Vec3) -> bool)
    requires |vs| > 0
    ensures VertexMap(vs, cellOf, near) == Step(VertexMap(vs[..|vs| - 1], cellOf, near), vs[|vs| - 1], cellOf, near)
  {
  }

  /** A step leaves the output vertex of every earlier input vertex alone. */
  lemma StepKeepsEarlier(s: WeldState, p: Vec3, cellOf: Vec3 -> Cell, near: (Vec3, Vec3) -> bool, i: nat)
    requires GridInRange(s.grid, |s.out|)
    requires i < |s.vmap| && s.vmap[i] < |s.out|
    ensures var r := Step(s, p, cellOf, near);
      r.vmap[i] == s.vmap[i] && r.out[r.vmap[i]] == s.out[s.vmap[i]]
  {
    var r := Step(s, p, cellOf, near);
    assert r.vmap[i] == r.vmap[..|s.vmap|][i];
  }

  /** A step sends the new vertex to itself or to an output vertex near it. */
  lemma StepPlacesLast(s: WeldState, p: Vec3, cellOf: Vec3 -> Cell, near: (Vec3, Vec3) -> bool)
    requires GridInRange(s.grid, |s.out|)
    ensures var r := Step(s, p, cellOf, near);
      r.out[r.vmap[|s.vmap|]] == p || near(r.out[r.vmap[|s.vmap|]], p)
  {
  }

  /** Every output vertex is the input vertex first mapped to it. */
  lemma {:induction false} VertexMapOrigin(vs: seq<Vec3>, cellOf: Vec3 -> Cell, near: (Vec3, Vec3) -> bool, j: nat)
    requires j < |VertexMap(vs, cellOf, near).out|
    ensures var s := VertexMap(vs, cellOf, near);
      exists i | 0 <= i < |vs| :: s.vmap[i] == j && vs[i] == s.out[j]
  {
    var pre := vs[..|vs| - 1];
    var s0 := VertexMap(pre, cellOf, near);
    var s := Step(s0, vs[|vs| - 1], cellOf, near);
    assert s == VertexMap(vs, cellOf, near);
    if j < |s0.out| {
      VertexMapOrigin(pre, cellOf, near, j);
      var i :| 0 <= i < |pre| && s0.vmap[i] == j && pre[i] == s0.out[j];
      assert s.vmap[i] == s.vmap[..|pre|][i];
      assert vs[i] == pre[i];
      assert s.out[j] == s0.out[j];
    } else {
      assert s.vmap[|pre|] == j;
    }
  }

  /** The grid files every output vertex under its own cell after the whole loop. */
  lemma {:induction false} VertexMapGrid(vs: seq<Vec3>, cellOf: Vec3 -> Cell, near: (Vec3, Vec3) -> bool)
    ensures var s := VertexMap(vs, cellOf, near); GridOf(s.grid, s.out, cellOf)
  {
    if |vs| > 0 {
      var pre := vs[..|vs| - 1];
      VertexMapGrid(pre, cellOf, near);
      StepKeepsGrid(VertexMap(pre, cellOf, near), vs[|vs| - 1], cellOf, near);
    }
  }

  /** When the cells are compatible with the distance test, no two output vertices
      are near each other: the grid finds every earlier vertex within tolerance. */
  lemma {:induction false} OutputSeparated(vs: seq<Vec3>, cellOf: Vec3 -> Cell, near: (Vec3, Vec3) -> bool)
    requires Compatible(cellOf, near)
    ensures var out := VertexMap(vs, cellOf, near).out;
      forall i, j | 0 <= i < j < |out| :: !near(out[i], out[j])
  {
    if |vs| > 0 {
      var pre, p := vs[..|vs| - 1], vs[|vs| - 1];
      var s := VertexMap(pre, cellOf, near);
      OutputSeparated(pre, cellOf, near);
      VertexMapGrid(pre, cellOf, near);
      StepKeepsGrid(s, p, cellOf, near);
      var r := Step(s, p, cellOf, near);
      assert r == VertexMap(vs, cellOf, near);
      if r.out != s.out {
        ScanMissIsGlobal(s.grid, s.out, cellOf, near, p);
        SeparatedSnoc(s.out, p, near);
      }
    }
  }

  /** Appending a position near no earlier one keeps the list pairwise apart. */
  lemma SeparatedSnoc(out: seq<Vec3>, p: Vec3, near: (Vec3, Vec3) -> bool)
    requires forall i, j | 0 <= i < j < |out| :: !near(out[i], out[j])
    requires forall j | 0 <= j < |out| :: !near(out[j], p)
    ensures forall i, j | 0 <= i < j < |out + [p]| :: !near((out + [p])[i], (out + [p])[j])
  {
    forall i, j | 0 <= i < j < |out + [p]| ensures !near((out + [p])[i], (out + [p])[j]) {
      assert (out + [p])[i] == out[i];
      if j < |out| {
        assert (out + [p])[j] == out[j];
      }
    }
  }

  /** The distinct elements of `vs` in order of first occurrence. */
  function Dedup(vs: seq<Vec3>): seq<Vec3>
  {
    if |vs| == 0 then []
    else
      var d := Dedup(vs[..|vs| - 1]);
      if vs[|vs| - 1] in d then d else d + [vs[|vs| - 1]]
  }

  /** Distinct input positions are never near each other, and every position is
      near itself (positions closer than the tolerance always coincide). */
  predicate Separated(vs: seq<Vec3>, near: (Vec3, Vec3) -> bool)
  {
    forall i, j | 0 <= i < |vs| && 0 <= j < |vs| :: near(vs[i], vs[j]) <==> vs[i] == vs[j]
  }

  /** On separated input, welding merges exactly the exact duplicates: the output
      is the list of distinct positions in first-occurrence order. */
  lemma {:induction false} WeldSeparated(vs: seq<Vec3>, cellOf: Vec3 -> Cell, near: (Vec3, Vec3) -> bool)
    requires Compatible(cellOf, near)
    requires Separated(vs, near)
    ensures VertexMap(vs, cellOf, near).out == Dedup(vs)
  {
    if |vs| > 0 {
      var pre, p := vs[..|vs| - 1], vs[|vs| - 1];
      assert Separated(pre, near) by {
        assert forall i | 0 <= i < |pre| :: pre[i] == vs[i];
      }
      WeldSeparated(pre, cellOf, near);
      var s0 := VertexMap(pre, cellOf, near);
      var s := Step(s0, p, cellOf, near);
      assert s == VertexMap(vs, cellOf, near);
      if s.out == s0.out {
        var f := s.vmap[|pre|];
        VertexMapOrigin(pre, cellOf, near, f);
        var i :| 0 <= i < |pre| && s0.vmap[i] == f && pre[i] == s0.out[f];
        assert vs[i] == s0.out[f] && near(vs[i], vs[|vs| - 1]);
        assert p in s0.out;
      } else {
        VertexMapGrid(pre, cellOf, near);
        StepKeepsGrid(s0, p, cellOf, near);
        ScanMissIsGlobal(s0.grid, s0.out, cellOf, near, p);
        assert near(vs[|vs| - 1], vs[|vs| - 1]);
        assert p !in s0.out;
      }
    }
  }

  /** Positions already seen add nothing: appending repeats of earlier positions
      leaves the distinct list unchanged. */
  lemma {:induction false} DedupAbsorbs(a: seq<Vec3>, b: seq<Vec3>)
    requires forall x | x in b :: x in a
    ensures Dedup(a + b) == Dedup(a)
  {
    if |b| > 0 {
      var pre := b[..|b| - 1];
      DedupAbsorbs(a, pre);
      assert (a + b)[..|a + b| - 1] == a + pre;
      DedupSpec(a + pre);
      assert b[|b| - 1] in b;
    } else {
      assert a + b == a;
    }
  }

  /** On separated input every vertex is mapped to its own position. */
  lemma WeldSeparatedMap(vs: seq<Vec3>, cellOf: Vec3 -> Cell, near: (Vec3, Vec3) -> bool, i: nat)
    requires Separated(vs, near)
    requires i < |vs|
    ensures var s := VertexMap(vs, cellOf, near); s.out[s.vmap[i]] == vs[i]
  {
    var s := VertexMap(vs, cellOf, near);
    VertexMapFaithful(vs, cellOf, near, i);
    VertexMapOrigin(vs, cellOf, near, s.vmap[i]);
    var j :| 0 <= j < |vs| && s.vmap[j] == s.vmap[i] && vs[j] == s.out[s.vmap[i]];
    assert near(vs[j], vs[i]) ==> vs[j] == vs[i];
  }

  /** Distinct elements, each position of `vs` kept once. */
  lemma {:induction false} DedupSpec(vs: seq<Vec3>)
    ensures forall x :: x in Dedup(vs) <==> x in vs
    ensures forall i, j | 0 <= i < j < |Dedup(vs)| :: Dedup(vs)[i] != Dedup(vs)[j]
  {
    if |vs| > 0 {
      var pre := vs[..|vs| - 1];
      DedupSpec(pre);
      assert vs == pre + [vs[|vs| - 1]];
    }
  }

  /** `face[0] = vertex_map[face[0]]` and so on, for one face. */
  function RemapFace(f: Face, vmap: seq<nat>): Face
    requires FaceInRange(f, |vmap|)
  {
    Face(vmap[f.a], vmap[f.b], vmap[f.c])
  }

  /** The face update loop. */
  function RemapFaces(faces: seq<Face>, vmap: seq<nat>): (r: seq<Face>)
    requires FacesInRange(faces, |vmap|)
    ensures |r| == |faces|
    ensures forall k | 0 <= k < |faces| :: r[k] == RemapFace(faces[k], vmap)
  {
    if |faces| == 0 then []
    else
      assert FaceInRange(faces[0], |vmap|);
      [RemapFace(faces[0], vmap)] + RemapFaces(faces[1..], vmap)
  }

  /** The `valid_faces` filter: the faces whose three indices are distinct. */
  function KeepNonDegenerate(fs: seq<Face>): (r: seq<Face>)
    ensures forall f :: f in r <==> f in fs && NonDegenerate(f)
    ensures |r| <= |fs|
  {
    if |fs| == 0 then []
    else
      var rest := KeepNonDegenerate(fs[1..]);
      assert forall f :: f in fs <==> f == fs[0] || f in fs[1..];
      if NonDegenerate(fs[0]) then [fs[0]] + rest else rest
  }

  /** The filter keeps the order of the faces: it distributes over concatenation. */
  lemma {:induction false} KeepNonDegenerateOrder(a: seq<Face>, b: seq<Face>)
    ensures KeepNonDegenerate(a + b) == KeepNonDegenerate(a) + KeepNonDegenerate(b)
  {
    if |a| > 0 {
      KeepNonDegenerateOrder(a[1..], b);
      assert (a + b)[1..] == a[1..] + b;
      KeepCons(a);
      KeepCons(a + b);
    } else {
      assert a + b == b;
    }
  }

  /** Filtering twice changes nothing. */
  lemma {:induction false} KeepNonDegenerateIdempotent(a: seq<Face>)
    ensures KeepNonDegenerate(KeepNonDegenerate(a)) == KeepNonDegenerate(a)
  {
    if |a| > 0 {
      KeepNonDegenerateIdempotent(a[1..]);
      KeepCons(a);
      var rest := KeepNonDegenerate(a[1..]);
      if NonDegenerate(a[0]) {
        KeepCons([a[0]] + rest);
        assert ([a[0]] + rest)[1..] == rest;
      }
    }
  }

  /** A list of faces with three distinct corners each passes the filter whole. */
  lemma {:induction false} KeepAll(fs: seq<Face>)
    requires forall k | 0 <= k < |fs| :: NonDegenerate(fs[k])
    ensures KeepNonDegenerate(fs) == fs
  {
    if |fs| > 0 {
      KeepAll(fs[1..]);
      KeepCons(fs);
      assert fs == [fs[0]] + fs[1..];
    }
  }

  /** One step of the filter, with the first face kept or dropped. */
  lemma KeepCons(a: seq<Face>)
    requires |a| > 0
    ensures KeepNonDegenerate(a) == (if NonDegenerate(a[0]) then [a[0]] else []) + KeepNonDegenerate(a[1..])
  {
  }

  /** Reference for the filter: the positions of the faces with three distinct
      corners, in increasing order. */
  function KeptIndices(fs: seq<Face>): (ks: seq<nat>)
    ensures forall i | 0 <= i < |ks| :: ks[i] < |fs| && NonDegenerate(fs[ks[i]])
    ensures forall i, j | 0 <= i < j < |ks| :: ks[i] < ks[j]
    ensures forall k | 0 <= k < |fs| && NonDegenerate(fs[k]) :: k in ks
  {
    if |fs| == 0 then []
    else
      var pre := KeptIndices(fs[..|fs| - 1]);
      if NonDegenerate(fs[|fs| - 1]) then pre + [|fs| - 1] else pre
  }

  /** The filter picks out exactly the faces at `KeptIndices`, in that order. */
  lemma {:induction false} KeepSelects(fs: seq<Face>)
    ensures |KeepNonDegenerate(fs)| == |KeptIndices(fs)|
    ensures forall i | 0 <= i < |KeptIndices(fs)| :: KeepNonDegenerate(fs)[i] == fs[KeptIndices(fs)[i]]
  {
    if |fs| > 0 {
      var pre, x := fs[..|fs| - 1], fs[|fs| - 1];
      KeepSelects(pre);
      assert fs == pre + [x];
      KeepNonDegenerateOrder(pre, [x]);
      KeepCons([x]);
      assert [x][1..] == [];
    }
  }

  /** The result of `weld_vertices`: the new vertex and face buffers and the
      returned count. */
  datatype WeldResult = WeldResult(vertices: seq<Vec3>, faces: seq<Face>, welded: nat)

  /** `weld_vertices`. A tolerance that is not positive leaves both buffers alone
      and reports nothing welded. Otherwise every vertex is either kept or
      welded, the faces are remapped into the smaller buffer, and the faces that
      collapsed are dropped; only this path reads the faces, which must then index
      into `vertices`. */
  function WeldVertices(vs: seq<Vec3>, faces: seq<Face>, tol: real, cellOf: Vec3 -> Cell, near: (Vec3, Vec3) -> bool): (r: WeldResult)
    requires tol > 0.0 ==> FacesInRange(faces, |vs|)
    ensures tol <= 0.0 ==> r == WeldResult(vs, faces, 0)
    ensures FacesInRange(faces, |vs|) ==> FacesInRange(r.faces, |r.vertices|)
    ensures |r.vertices| + r.welded == |vs|
    ensures |r.faces| <= |faces|
    ensures tol > 0.0 ==> forall k | 0 <= k < |r.faces| :: NonDegenerate(r.faces[k])
  {
    if tol <= 0.0 then WeldResult(vs, faces, 0)
    else
      var s := VertexMap(vs, cellOf, near);
      var remapped := RemapFaces(faces, s.vmap);
      var kept := KeepNonDegenerate(remapped);
      assert FacesInRange(remapped, |s.out|) by {
        forall k | 0 <= k < |remapped| ensures FaceInRange(remapped[k], |s.out|) {
          assert FaceInRange(faces[k], |vs|);
        }
      }
      assert forall k | 0 <= k < |kept| :: kept[k] in remapped;
      WeldResult(s.out, kept, s.welded)
  }

  /** With a positive tolerance, a face survives exactly when it is the remapped
      image of an input face whose three corners landed on three distinct output
      vertices, and the survivors are the images of the input faces at
      `KeptIndices`, in increasing input order. */
  lemma WeldFaces(vs: seq<Vec3>, faces: seq<Face>, tol: real, cellOf: Vec3 -> Cell, near: (Vec3, Vec3) -> bool)
    requires FacesInRange(faces, |vs|)
    requires tol > 0.0
    ensures var vmap := VertexMap(vs, cellOf, near).vmap;
      var r := WeldVertices(vs, faces, tol, cellOf, near);
      && (forall f :: f in r.faces <==>
            NonDegenerate(f) && exists k | 0 <= k < |faces| :: f == RemapFace(faces[k], vmap))
      && var ks := KeptIndices(RemapFaces(faces, vmap));
         |r.faces| == |ks| && forall i | 0 <= i < |ks| :: r.faces[i] == RemapFace(faces[ks[i]], vmap)
  {
    KeepSelects(RemapFaces(faces, VertexMap(vs, cellOf, near).vmap));
  }

  /** The squared Euclidean distance. */
  function SqDist(q: Vec3, p: Vec3): real
  {
    (q.x - p.x) * (q.x - p.x) + (q.y - p.y) * (q.y - p.y) + (q.z - p.z) * (q.z - p.z)
  }

  /** `(floor(x * inv_tol), floor(y * inv_tol), floor(z * inv_tol))` over the reals,
      where multiplying by `1/tolerance` is dividing by the tolerance. */
  function RealCell(tol: real): Vec3 -> Cell
    requires tol > 0.0
  {
    (p: Vec3) => Cell((p.x / tol).Floor, (p.y / tol).Floor, (p.z / tol).Floor)
  }

  /** `length(q - p) < tolerance` over the reals, for a positive tolerance. */
  function RealNear(tol: real): (Vec3, Vec3) -> bool
  {
    (q: Vec3, p: Vec3) => SqDist(q, p) < tol * tol
  }

  /** With exact arithmetic the grid of `1/tolerance`-sized cells is compatible with
      the tolerance test, so the 27-cell scan finds every vertex within tolerance. */
  lemma RealInstanceCompatible(tol: real)
    requires tol > 0.0
    ensures Compatible(RealCell(tol), RealNear(tol))
  {
    forall q, p | RealNear(tol)(q, p) ensures Adjacent(RealCell(tol)(p), RealCell(tol)(q)) {
      NearCoordinates(q, p, tol);
      CellClose(q.x, p.x, tol);
      CellClose(q.y, p.y, tol);
      CellClose(q.z, p.z, tol);
      CellAdjacent(q, p, tol);
    }
  }

  lemma CellAdjacent(q: Vec3, p: Vec3, tol: real)
    requires tol > 0.0
    requires -1 <= (q.x / tol).Floor - (p.x / tol).Floor <= 1
    requires -1 <= (q.y / tol).Floor - (p.y / tol).Floor <= 1
    requires -1 <= (q.z / tol).Floor - (p.z / tol).Floor <= 1
    ensures Adjacent(RealCell(tol)(p), RealCell(tol)(q))
  {
    assert RealCell(tol)(p) == Cell((p.x / tol).Floor, (p.y / tol).Floor, (p.z / tol).Floor);
    assert RealCell(tol)(q) == Cell((q.x / tol).Floor, (q.y / tol).Floor, (q.z / tol).Floor);
  }

  /** Two points within tolerance are within tolerance along every axis. */
  lemma NearCoordinates(q: Vec3, p: Vec3, tol: real)
    requires tol > 0.0 && RealNear(tol)(q, p)
    ensures -tol < q.x - p.x < tol && -tol < q.y - p.y < tol && -tol < q.z - p.z < tol
  {
    var dx, dy, dz := q.x - p.x, q.y - p.y, q.z - p.z;
    SquareNonNegative(dx);
    SquareNonNegative(dy);
    SquareNonNegative(dz);
    assert SqDist(q, p) == dx * dx + dy * dy + dz * dz;
    CoordinateClose(dx, dy * dy + dz * dz, tol);
    CoordinateClose(dy, dx * dx + dz * dz, tol);
    CoordinateClose(dz, dx * dx + dy * dy, tol);
  }

  lemma CoordinateClose(d: real, rest: real, tol: real)
    requires tol > 0.0 && rest >= 0.0
    requires d * d + rest < tol * tol
    ensures -tol < d < tol
  {
    assert d * d == (-d) * (-d);
    SquareBelow(d, rest, tol);
    SquareBelow(-d, rest, tol);
  }

  lemma SquareBelow(d: real, rest: real, tol: real)
    requires tol > 0.0 && rest >= 0.0 && d * d + rest < tol * tol
    ensures d < tol
  {
    if d >= tol {
      MulMono(d, tol, d);
      MulMono(d, tol, tol);
      assert false;
    }
  }

  /** Coordinates closer than the tolerance fall in the same or adjacent cells. */
  lemma CellClose(a: real, b: real, tol: real)
    requires tol > 0.0 && -tol < a - b < tol
    ensures -1 <= (a / tol).Floor - (b / tol).Floor <= 1
  {
    assert a / tol - b / tol == (a - b) / tol;
    ScaledBelowOne(a - b, tol);
  }

  lemma SquareNonNegative(x: real)
    ensures x * x >= 0.0
  {
    if x < 0.0 {
      assert x * x == (-x) * (-x);
    }
  }

  lemma ScaledBelowOne(d: real, tol: real)
    requires tol > 0.0 && -tol < d < tol
    ensures -1.0 < d / tol < 1.0
  {
    var q := d / tol;
    assert q * tol == d;
    if q >= 1.0 {
      MulMono(q, 1.0, tol);
      assert false;
    } else if q <= -1.0 {
      MulMono(-q, 1.0, tol);
      assert false;
    }
  }

  lemma PositiveSquare(t: real)
    requires t > 0.0
    ensures t * t > 0.0
  {
    MulMono(t, 0.0, t);
    assert t * t != 0.0;
  }

  /** Positions on the integer lattice are separated for any tolerance of at most
      one: two of them either coincide or lie at least one unit apart. */
  lemma LatticeSeparated(vs: seq<Vec3>, tol: real)
    requires 0.0 < tol <= 1.0
    requires forall i | 0 <= i < |vs| :: OnLattice(vs[i])
    ensures Separated(vs, RealNear(tol))
  {
    forall i, j | 0 <= i < |vs| && 0 <= j < |vs|
      ensures RealNear(tol)(vs[i], vs[j]) <==> vs[i] == vs[j]
    {
      LatticeApart(vs[i], vs[j], tol);
    }
  }

  lemma LatticeApart(q: Vec3, p: Vec3, tol: real)
    requires 0.0 < tol <= 1.0
    requires OnLattice(q) && OnLattice(p)
    ensures RealNear(tol)(q, p) <==> q == p
  {
    if q == p {
      NearSelf(p, tol);
    } else if RealNear(tol)(q, p) {
      NearCoordinates(q, p, tol);
      IntegerClose(q.x, p.x, tol);
      IntegerClose(q.y, p.y, tol);
      IntegerClose(q.z, p.z, tol);
    }
  }

  /** Every position is within any positive tolerance of itself. */
  lemma NearSelf(p: Vec3, tol: real)
    requires tol > 0.0
    ensures RealNear(tol)(p, p)
  {
    calc {
      SqDist(p, p);
      0.0;
    < { PositiveSquare(tol); }
      tol * tol;
    }
  }

  predicate OnLattice(p: Vec3)
  {
    p.x == p.x.Floor as real && p.y == p.y.Floor as real && p.z == p.z.Floor as real
  }

  lemma IntegerClose(a: real, b: real, tol: real)
    requires a == a.Floor as real && b == b.Floor as real
    requires 0.0 < tol <= 1.0 && -tol < a - b < tol
    ensures a == b
  {
    assert a - b == (a.Floor - b.Floor) as real;
  }
}
