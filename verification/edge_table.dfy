/** The edge -> incident-triangle map `std::map<Edge, std::vector<int>>` built by
    `analyze_mesh_detailed` (common/mesh_repair.cpp). A `std::map` iterates its keys in
    ascending order, so the model keeps it as an association list sorted by `Less`. */
module EdgeTable {
  import opened Mesh

  /** One entry of the map: an edge key and the triangles that contain it, in the
      order they were pushed. */
  datatype Incidence = Incidence(edge: Edge, tris: seq<nat>)

  type Table = seq<Incidence>

  predicate Sorted(t: Table)
  {
    forall i, j | 0 <= i < j < |t| :: Less(t[i].edge, t[j].edge)
  }

  /** The invariant of every table the analyser builds: keys strictly ascending and
      canonical, and no key without a triangle. */
  predicate WellFormed(t: Table)
  {
    && Sorted(t)
    && (forall i | 0 <= i < |t| :: |t[i].tris| > 0 && Canonical(t[i].edge))
  }

  function Keys(t: Table): set<Edge>
  {
    set i | 0 <= i < |t| :: t[i].edge
  }

  /** The incidence list stored under `e`, empty when `e` is not a key. */
  function Lookup(t: Table, e: Edge): seq<nat>
  {
    if |t| == 0 then []
    else if t[0].edge == e then t[0].tris
    else Lookup(t[1..], e)
  }

  /** Sum of the lengths of all incidence lists. */
  function Total(t: Table): nat
  {
    if |t| == 0 then 0 else |t[0].tris| + Total(t[1..])
  }

  /** Number of entries whose incidence count satisfies `p`. */
  function CountWhere(t: Table, p: nat -> bool): nat
  {
    if |t| == 0 then 0 else (if p(|t[0].tris|) then 1 else 0) + CountWhere(t[1..], p)
  }

  lemma KeysCons(t: Table)
    requires |t| > 0
    ensures Keys(t) == {t[0].edge} + Keys(t[1..])
  {
    forall e | e in Keys(t) ensures e in {t[0].edge} + Keys(t[1..]) {
      var i :| 0 <= i < |t| && t[i].edge == e;
      if i > 0 {
        assert t[1..][i - 1].edge == e;
      }
    }
    forall e | e in Keys(t[1..]) ensures e in Keys(t) {
      var i :| 0 <= i < |t[1..]| && t[1..][i].edge == e;
      assert t[i + 1].edge == e;
    }
  }

  /** In a sorted table the first key is smaller than every other key, so it does
      not occur again. */
  lemma HeadNotInTail(t: Table)
    requires Sorted(t) && |t| > 0
    ensures forall e | e in Keys(t[1..]) :: Less(t[0].edge, e)
    ensures t[0].edge !in Keys(t[1..])
  {
    forall e | e in Keys(t[1..]) ensures Less(t[0].edge, e) {
      var i :| 0 <= i < |t[1..]| && t[1..][i].edge == e;
      assert t[i + 1].edge == e;
    }
  }

  lemma {:induction false} LookupAbsent(t: Table, e: Edge)
    requires e !in Keys(t)
    ensures Lookup(t, e) == []
    decreases |t|
  {
    if |t| > 0 {
      KeysCons(t);
      LookupAbsent(t[1..], e);
    }
  }

  /** Inserting `f` under `e` (`edge_triangles[e].push_back(f)`) keeps the keys
      strictly ascending. */
  function Insert(t: Table, e: Edge, f: nat): (r: Table)
    requires WellFormed(t) && Canonical(e)
    ensures WellFormed(r)
    ensures Keys(r) == Keys(t) + {e}
    decreases |t|
  {
    if |t| == 0 then
      var r := [Incidence(e, [f])];
      PrependSmaller(r[0], []);
      r
    else if t[0].edge == e then
      var r := [Incidence(e, t[0].tris + [f])] + t[1..];
      HeadNotInTail(t);
      TailWellFormed(t);
      KeysCons(t);
      PrependSmaller(r[0], t[1..]);
      r
    else if Less(e, t[0].edge) then
      var r := [Incidence(e, [f])] + t;
      BelowHead(t, e);
      PrependSmaller(r[0], t);
      r
    else
      TailWellFormed(t);
      var rest := Insert(t[1..], e, f);
      var r := [t[0]] + rest;
      KeysCons(t);
      HeadNotInTail(t);
      assert Less(t[0].edge, e);
      PrependSmaller(t[0], rest);
      r
  }

  /** Putting an entry in front of a well-formed table whose keys are all above
      the entry's key gives a well-formed table. */
  lemma PrependSmaller(a: Incidence, rest: Table)
    requires WellFormed(rest) && |a.tris| > 0 && Canonical(a.edge)
    requires forall k | k in Keys(rest) :: Less(a.edge, k)
    ensures WellFormed([a] + rest)
    ensures Keys([a] + rest) == {a.edge} + Keys(rest)
  {
    var r := [a] + rest;
    assert r[1..] == rest;
    KeysCons(r);
    forall i, j | 0 <= i < j < |r| ensures Less(r[i].edge, r[j].edge) {
      assert r[j].edge == rest[j - 1].edge;
      if i > 0 {
        assert r[i].edge == rest[i - 1].edge;
      } else {
        assert rest[j - 1].edge in Keys(rest);
      }
    }
  }

  lemma TailWellFormed(t: Table)
    requires WellFormed(t) && |t| > 0
    ensures WellFormed(t[1..])
  {
    forall i, j | 0 <= i < j < |t[1..]| ensures Less(t[1..][i].edge, t[1..][j].edge) {
      assert t[1..][i] == t[i + 1] && t[1..][j] == t[j + 1];
    }
  }

  /** A key below the first key of a sorted table is below every key of it. */
  lemma BelowHead(t: Table, e: Edge)
    requires Sorted(t) && |t| > 0 && Less(e, t[0].edge)
    ensures forall k | k in Keys(t) :: Less(e, k)
  {
    forall k | k in Keys(t) ensures Less(e, k) {
      var i :| 0 <= i < |t| && t[i].edge == k;
      if i > 0 {
        assert Less(t[0].edge, t[i].edge);
        LessTransitive(e, t[0].edge, t[i].edge);
      }
    }
  }

  /** After the insertion the list under `e` has gained `f` at its end, and no other
      list has changed; the table holds one more incidence. */
  lemma {:induction false} InsertLookup(t: Table, e: Edge, f: nat, x: Edge)
    requires WellFormed(t) && Canonical(e)
    ensures Lookup(Insert(t, e, f), x) == Lookup(t, x) + Repeat(f, if x == e then 1 else 0)
    ensures Total(Insert(t, e, f)) == Total(t) + 1
    decreases |t|
  {
    if |t| > 0 {
      InsertShape(t, e, f);
      ConsParts(t[0], t[1..], x);
      assert t == [t[0]] + t[1..];
      if t[0].edge == e {
        InsertHere(t, e, f, x);
      } else if Less(e, t[0].edge) {
        InsertBefore(t, e, f, x);
      } else {
        TailWellFormed(t);
        InsertLookup(t[1..], e, f, x);
        ConsParts(t[0], Insert(t[1..], e, f), x);
      }
    }
  }

  lemma InsertHere(t: Table, e: Edge, f: nat, x: Edge)
    requires |t| > 0 && t[0].edge == e
    ensures var r := [Incidence(e, t[0].tris + [f])] + t[1..];
      && Lookup(r, x) == Lookup(t, x) + Repeat(f, if x == e then 1 else 0)
      && Total(r) == Total(t) + 1
  {
    ConsParts(Incidence(e, t[0].tris + [f]), t[1..], x);
    ConsParts(t[0], t[1..], x);
    assert t == [t[0]] + t[1..];
  }

  lemma InsertBefore(t: Table, e: Edge, f: nat, x: Edge)
    requires Sorted(t) && |t| > 0 && Less(e, t[0].edge)
    ensures var r := [Incidence(e, [f])] + t;
      && Lookup(r, x) == Lookup(t, x) + Repeat(f, if x == e then 1 else 0)
      && Total(r) == Total(t) + 1
  {
    ConsParts(Incidence(e, [f]), t, x);
    BelowHead(t, e);
    LookupAbsent(t, e);
  }

  /** `Lookup` and `Total` of a table with a given first entry. */
  lemma ConsParts(a: Incidence, rest: Table, x: Edge)
    ensures Lookup([a] + rest, x) == if a.edge == x then a.tris else Lookup(rest, x)
    ensures Total([a] + rest) == |a.tris| + Total(rest)
  {
    assert ([a] + rest)[1..] == rest;
  }

  /** The three shapes an insertion into a non-empty table takes. */
  lemma InsertShape(t: Table, e: Edge, f: nat)
    requires WellFormed(t) && Canonical(e) && |t| > 0
    ensures t[0].edge == e ==> Insert(t, e, f) == [Incidence(e, t[0].tris + [f])] + t[1..]
    ensures t[0].edge != e && Less(e, t[0].edge) ==> Insert(t, e, f) == [Incidence(e, [f])] + t
    ensures t[0].edge != e && !Less(e, t[0].edge) ==> Insert(t, e, f) == [t[0]] + Insert(t[1..], e, f)
  {
  }

  /** The incidence list of `e` in a sorted table is the list of the entry keyed `e`. */
  lemma {:induction false} LookupAt(t: Table, i: nat)
    requires Sorted(t) && i < |t|
    ensures Lookup(t, t[i].edge) == t[i].tris
    decreases |t|
  {
    if i > 0 {
      HeadNotInTail(t);
      assert t[1..][i - 1] == t[i];
      assert t[i].edge in Keys(t[1..]);
      LookupAt(t[1..], i - 1);
    }
  }

  /** The three insertions of the face with index `k`, in the source's order
      `(a,b)`, `(b,c)`, `(c,a)`. */
  function AddFace(t: Table, face: Face, k: nat): (r: Table)
    requires WellFormed(t)
    ensures WellFormed(r)
    ensures Keys(r) == Keys(t) + Sides(face)
  {
    var es := FaceEdges(face);
    Insert(Insert(Insert(t, es[0], k), es[1], k), es[2], k)
  }

  /** A face adds its index once to the list of each of its sides, so three
      incidences in all. */
  lemma AddFaceLookup(t: Table, face: Face, k: nat, x: Edge)
    requires WellFormed(t)
    ensures Lookup(AddFace(t, face, k), x) == Lookup(t, x) + Repeat(k, multiset(FaceEdges(face))[x])
    ensures Total(AddFace(t, face, k)) == Total(t) + 3
  {
    var es := FaceEdges(face);
    var r1 := Insert(t, es[0], k);
    var r2 := Insert(r1, es[1], k);
    var r3 := Insert(r2, es[2], k);
    assert r3 == AddFace(t, face, k);
    var c0, c1, c2 := if x == es[0] then 1 else 0, if x == es[1] then 1 else 0, if x == es[2] then 1 else 0;
    InsertLookup(t, es[0], k, x);
    InsertLookup(r1, es[1], k, x);
    InsertLookup(r2, es[2], k, x);
    RepeatAppend(Lookup(t, x), k, c0, c1);
    RepeatAppend(Lookup(t, x), k, c0 + c1, c2);
    SideCount(face, x);
  }

  /** The set of the three edge keys of a face. */
  function Sides(f: Face): set<Edge>
  {
    {MakeEdge(f.a, f.b), MakeEdge(f.b, f.c), MakeEdge(f.c, f.a)}
  }

  lemma SideCount(f: Face, x: Edge)
    ensures var es := FaceEdges(f);
      multiset(es)[x] == (if x == es[0] then 1 else 0) + (if x == es[1] then 1 else 0)
                         + (if x == es[2] then 1 else 0)
    ensures x in Sides(f) <==> multiset(FaceEdges(f))[x] > 0
  {
    var es := FaceEdges(f);
    assert es == [es[0]] + [es[1]] + [es[2]];
  }

  lemma RepeatAppend(s: seq<nat>, k: nat, m: nat, n: nat)
    ensures (s + Repeat(k, m)) + Repeat(k, n) == s + Repeat(k, m + n)
  {
  }

  /** `n` copies of `k`. */
  function Repeat(k: nat, n: nat): (s: seq<nat>)
    ensures |s| == n && forall i | 0 <= i < n :: s[i] == k
  {
    seq(n, _ => k)
  }

  /** The loop `for t in 0..numTriangles` of `analyze_mesh_detailed`, written over the
      prefix of the face list processed so far. */
  function Build(faces: seq<Face>): (t: Table)
    ensures WellFormed(t)
  {
    if |faces| == 0 then []
    else AddFace(Build(faces[..|faces| - 1]), faces[|faces| - 1], |faces| - 1)
  }

  /** Reference definition of the edge set of a mesh: every side of every face. */
  function EdgeSet(faces: seq<Face>): set<Edge>
  {
    set f, e | f in faces && e in Sides(f) :: e
  }

  /** Reference definition of an incidence list: the indices of the faces having `e`
      as a side, ascending, an index repeated once per side equal to `e`. */
  function Occurrences(faces: seq<Face>, e: Edge): seq<nat>
  {
    if |faces| == 0 then []
    else Occurrences(faces[..|faces| - 1], e)
         + Repeat(|faces| - 1, multiset(FaceEdges(faces[|faces| - 1]))[e])
  }

  lemma EdgeSetSnoc(faces: seq<Face>)
    requires |faces| > 0
    ensures EdgeSet(faces) == EdgeSet(faces[..|faces| - 1]) + Sides(faces[|faces| - 1])
  {
    var pre, last := faces[..|faces| - 1], faces[|faces| - 1];
    assert faces == pre + [last];
    EdgeSetAppend(pre, [last]);
    EdgeSetSingle(last);
  }

  /** The edge set of a single face is its set of sides. */
  lemma EdgeSetSingle(f: Face)
    ensures EdgeSet([f]) == Sides(f)
  {
    forall e | e in EdgeSet([f]) ensures e in Sides(f) {
      var g :| g in [f] && e in Sides(g);
      assert g == f;
    }
    forall e | e in Sides(f) ensures e in EdgeSet([f]) {
      assert f in [f];
    }
  }

  /** The edge set of two face lists together is the union of their edge sets. */
  lemma EdgeSetAppend(a: seq<Face>, b: seq<Face>)
    ensures EdgeSet(a + b) == EdgeSet(a) + EdgeSet(b)
  {
    forall e | e in EdgeSet(a + b) ensures e in EdgeSet(a) + EdgeSet(b) {
      var f :| f in a + b && e in Sides(f);
      if f in a {
        assert e in EdgeSet(a);
      } else {
        assert e in EdgeSet(b);
      }
    }
    forall e | e in EdgeSet(a) + EdgeSet(b) ensures e in EdgeSet(a + b) {
      var f :| (f in a || f in b) && e in Sides(f);
      assert f in a + b;
    }
  }

  /** The table the analyser builds agrees with the reference definitions: its keys
      are the distinct edges of the mesh, the list under each edge is that edge's
      occurrence list, and the lists hold `3 * |faces|` entries in all. */
  lemma {:induction false} BuildMatchesReference(faces: seq<Face>)
    ensures Keys(Build(faces)) == EdgeSet(faces)
    ensures forall e :: Lookup(Build(faces), e) == Occurrences(faces, e)
    ensures Total(Build(faces)) == 3 * |faces|
    decreases |faces|
  {
    if |faces| > 0 {
      var pre, last := faces[..|faces| - 1], faces[|faces| - 1];
      BuildMatchesReference(pre);
      EdgeSetSnoc(faces);
      forall e ensures Lookup(Build(faces), e) == Occurrences(faces, e) {
        AddFaceLookup(Build(pre), last, |faces| - 1, e);
      }
      AddFaceLookup(Build(pre), last, |faces| - 1, Edge(0, 0));
    }
  }

  /** The number of distinct keys of a sorted table is its length. */
  lemma {:induction false} SortedKeysCount(t: Table)
    requires Sorted(t)
    ensures |Keys(t)| == |t|
    decreases |t|
  {
    if |t| == 0 {
      assert Keys(t) == {};
    } else {
      KeysCons(t);
      HeadNotInTail(t);
      SortedKeysCount(t[1..]);
    }
  }

  /** The keys whose incidence count satisfies `p`. */
  function KeysWhere(t: Table, p: nat -> bool): set<Edge>
  {
    set e | e in Keys(t) && p(|Lookup(t, e)|)
  }

  /** Counting from the back: the last entry is counted on its own. */
  lemma {:induction false} CountWhereSnoc(t: Table, p: nat -> bool)
    requires |t| > 0
    ensures CountWhere(t, p) == CountWhere(t[..|t| - 1], p) + (if p(|t[|t| - 1].tris|) then 1 else 0)
    decreases |t|
  {
    if |t| > 1 {
      CountWhereSnoc(t[1..], p);
      assert t[1..][..|t| - 2] == t[..|t| - 1][1..];
    }
  }

  /** Counting entries by incidence count in a sorted table counts distinct edges. */
  lemma {:induction false} CountWhereIsCardinality(t: Table, p: nat -> bool)
    requires Sorted(t)
    ensures CountWhere(t, p) == |KeysWhere(t, p)|
    decreases |t|
  {
    if |t| == 0 {
      assert KeysWhere(t, p) == {};
    } else {
      CountWhereIsCardinality(t[1..], p);
      KeysWhereCons(t, p);
    }
  }

  /** The keys selected in a sorted table: the head's, if selected, apart from the
      tail's. */
  lemma KeysWhereCons(t: Table, p: nat -> bool)
    requires Sorted(t) && |t| > 0
    ensures var head: set<Edge> := if p(|t[0].tris|) then {t[0].edge} else {};
      KeysWhere(t, p) == head + KeysWhere(t[1..], p) && head !! KeysWhere(t[1..], p)
  {
    KeysCons(t);
    HeadNotInTail(t);
    forall e | e in Keys(t[1..]) ensures Lookup(t, e) == Lookup(t[1..], e) {
      assert e != t[0].edge;
    }
  }

  /** Entries satisfying two disjoint tests are at most all entries. */
  lemma {:induction false} CountDisjoint(t: Table, p: nat -> bool, q: nat -> bool)
    requires forall n :: !(p(n) && q(n))
    ensures CountWhere(t, p) + CountWhere(t, q) <= |t|
    decreases |t|
  {
    if |t| > 0 {
      CountDisjoint(t[1..], p, q);
    }
  }
}
