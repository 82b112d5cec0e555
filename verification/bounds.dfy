/** Axis-aligned boxes, shared by the two grid-sizing front ends. */
module Bounds {
  import opened Mesh

  datatype Axis = X | Y | Z

  function Coord(v: Vec3, a: Axis): real
  {
    match a
    case X => v.x
    case Y => v.y
    case Z => v.z
  }

  /** An axis-aligned bounding box. */
  datatype Box = Box(lo: Vec3, hi: Vec3)

  /** `(max_box - min_box)[a]`. */
  function Extent(b: Box, a: Axis): real
  {
    Coord(b.hi, a) - Coord(b.lo, a)
  }

  predicate Ordered(b: Box)
  {
    forall a: Axis :: Coord(b.lo, a) <= Coord(b.hi, a)
  }

  /** The inner box lies inside the outer one with at least `m` to spare on every
      side of every axis. */
  predicate Encloses(outer: Box, inner: Box, m: real)
  {
    forall a: Axis :: Coord(outer.lo, a) <= Coord(inner.lo, a) - m && Coord(inner.hi, a) + m <= Coord(outer.hi, a)
  }
}
