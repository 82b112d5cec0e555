/** Vertices, triangles and canonical edges (the `Edge` key of
    common/mesh_repair.cpp). */
module Mesh {

  /** A vertex position. The source stores `float`s; the model uses exact reals and
      leaves every floating-point test to a predicate supplied by the caller. */
  datatype Vec3 = Vec3(x: real, y: real, z: real)

  /** A triangle: three vertex indices in winding order (`Vec3ui`). */
  datatype Face = Face(a: nat, b: nat, c: nat)

  /** An undirected edge, stored with its smaller endpoint first. */
  datatype Edge = Edge(v1: nat, v2: nat)

  predicate Canonical(e: Edge)
  {
    e.v1 <= e.v2
  }

  /** The constructor `Edge(a, b)`: both directed edges `a->b` and `b->a` give the
      same key. */
  function MakeEdge(a: nat, b: nat): (e: Edge)
    ensures Canonical(e)
    ensures (e.v1 == a && e.v2 == b) || (e.v1 == b && e.v2 == a)
  {
    if a <= b then Edge(a, b) else Edge(b, a)
  }

  /** `Edge::operator<`: lexicographic on `(v1, v2)`. */
  predicate Less(p: Edge, q: Edge)
  {
    p.v1 < q.v1 || (p.v1 == q.v1 && p.v2 < q.v2)
  }

  /** Two directed edges collapse to the same key exactly when they join the same
      two vertices, and `Less` is a strict total order on keys. */
  lemma EdgeKeyLaws(a: nat, b: nat, c: nat, d: nat)
    ensures MakeEdge(a, b) == MakeEdge(b, a)
    ensures MakeEdge(a, b) == MakeEdge(c, d) <==> (a == c && b == d) || (a == d && b == c)
    ensures !Less(MakeEdge(a, b), MakeEdge(a, b))
    ensures var p, q := MakeEdge(a, b), MakeEdge(c, d);
      p == q || Less(p, q) || Less(q, p)
  {
  }

  lemma SameKeySameEnds(a: nat, b: nat, c: nat, d: nat)
    requires MakeEdge(a, b) == MakeEdge(c, d)
    ensures a == c || a == d
  {
  }

  lemma LessTransitive(p: Edge, q: Edge, r: Edge)
    requires Less(p, q) && Less(q, r)
    ensures Less(p, r)
  {
  }

  /** The three edge keys of a face, in the order the source inserts them:
      `(i0,i1)`, `(i1,i2)`, `(i2,i0)`. */
  function FaceEdges(f: Face): seq<Edge>
  {
    [MakeEdge(f.a, f.b), MakeEdge(f.b, f.c), MakeEdge(f.c, f.a)]
  }

  /** The three indices are pairwise distinct (the filter of `weld_vertices`). */
  predicate NonDegenerate(f: Face)
  {
    f.a != f.b && f.b != f.c && f.a != f.c
  }

  predicate FaceInRange(f: Face, n: nat)
  {
    f.a < n && f.b < n && f.c < n
  }

  /** Every index of every face addresses a vertex of an `n`-vertex buffer. */
  predicate FacesInRange(faces: seq<Face>, n: nat)
  {
    forall k | 0 <= k < |faces| :: FaceInRange(faces[k], n)
  }
}
