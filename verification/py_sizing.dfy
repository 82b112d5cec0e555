/** The grid sizing of the Python helpers `generate_from_mesh` and
    `generate_from_file` (sdfgen/__init__.py): from the mesh bounding box and the
    optional counts, spacing and padding, the grid size, `dx` and origin handed to
    the distance kernel.

    A second sizing rule, distinct from the command-line one: missing counts are
    rounded up rather than to the nearest integer, padding cells are added after
    sizing, and the padding is used as given, never raised to one. Floats are exact
    reals. A division by zero yields an infinity or NaN: the manual `max` may pass
    over a NaN, and every other non-finite value ends in `NonFinite`. */
module PySizing {
  import opened Options
  import opened Mesh
  import opened RealArith
  import opened Bounds
  import opened Floats

  /** A sizing; the explicit `ValueError` raised when neither `dx` nor `nx` is
      given; or the end of a division by zero. That end is either `int()` of an
      infinite or NaN ceiling, which raises (`OverflowError`, `ValueError`), or a
      non-finite `dx` reaching the origin. */
  datatype Sizing =
    | Sized(nx: int, ny: int, nz: int, dx: real, origin: Vec3)
    | MissingSizing
    | NonFinite

  /** `int(np.ceil(e / dx))`, when `dx` is not zero. */
  function CeilDiv(e: real, dx: real): (c: Option<int>)
    ensures c.Some? <==> dx != 0.0
    ensures dx > 0.0 ==> c.value as real * dx >= e > (c.value - 1) as real * dx
  {
    if dx == 0.0 then None
    else
      var k := Ceil(e / dx);
      if dx > 0.0 then CeilCovers(e, dx, k); Some(k) else Some(k)
  }

  /** `k = ceil(e / dx)` cells of a positive `dx` reach `e`, and one fewer do not. */
  lemma CeilCovers(e: real, dx: real, k: int)
    requires dx > 0.0 && k == Ceil(e / dx)
    ensures k as real * dx >= e > (k - 1) as real * dx
  {
    var q := e / dx;
    assert (k - 1) as real < q <= k as real;
    DivCancel(e, dx);
    assert k as real * dx >= q * dx by {
      MulMono(k as real, q, dx);
    }
    assert q * dx > (k - 1) as real * dx by {
      MulStrict(q, (k - 1) as real, dx);
    }
    assert q * dx == e;
  }

  /** A count as given, or else the extent in whole cells rounded up. */
  function CountOr(n: Option<int>, e: real, dx: real): Option<int>
  {
    if n.Some? then n else CeilDiv(e, dx)
  }

  /** The common tail of both helpers: `2 * padding` cells are added to every count
      and the origin moves `padding * dx` below the box. */
  function Pad(box: Box, nx: int, ny: int, nz: int, dx: real, padding: int): (r: Sizing)
    ensures r.Sized? && r.dx == dx
    ensures r.nx == nx + 2 * padding && r.ny == ny + 2 * padding && r.nz == nz + 2 * padding
    ensures r.origin == Vec3(box.lo.x - padding as real * dx, box.lo.y - padding as real * dx,
                             box.lo.z - padding as real * dx)
  {
    var m := padding as real * dx;
    Sized(nx + 2 * padding, ny + 2 * padding, nz + 2 * padding, dx,
          Vec3(box.lo.x - m, box.lo.y - m, box.lo.z - m))
  }

  /** `max(extents[0] / nx, extents[1] / ny, extents[2] / nz)` in floating point. */
  function ManualRatio(box: Box, nx: int, ny: int, nz: int): Float
  {
    PyMax3(Quotient(Extent(box, X), nx), Quotient(Extent(box, Y), ny), Quotient(Extent(box, Z), nz))
  }

  /** `generate_from_mesh`: with `ny` or `nz` missing, proportional sizing (`dx`
      defaults to `extent_x / nx` and a missing count is rounded up); with both
      given, manual sizing (`dx` defaults to the largest of the three ratios). */
  function FromMesh(box: Box, nx: int, ny: Option<int>, nz: Option<int>, dx: Option<real>, padding: int): (r: Sizing)
    ensures r != MissingSizing
    ensures r.Sized? ==> r.nx == nx + 2 * padding
    ensures r.Sized? && ny.Some? ==> r.ny == ny.value + 2 * padding
    ensures r.Sized? && nz.Some? ==> r.nz == nz.value + 2 * padding
    ensures r.Sized? && dx.Some? ==> r.dx == dx.value
  {
    if ny.None? || nz.None? then
      if dx.None? && nx == 0 then NonFinite
      else
        var d := if dx.Some? then dx.value else Extent(box, X) / nx as real;
        var cy, cz := CountOr(ny, Extent(box, Y), d), CountOr(nz, Extent(box, Z), d);
        if cy.None? || cz.None? then NonFinite
        else Pad(box, nx, cy.value, cz.value, d, padding)
    else if dx.Some? then Pad(box, nx, ny.value, nz.value, dx.value, padding)
    else
      var m := ManualRatio(box, nx, ny.value, nz.value);
      if m.Finite? then Pad(box, nx, ny.value, nz.value, m.value, padding) else NonFinite
  }

  /** `generate_from_file`: with `dx` given, cell-size sizing (a count given is
      kept, a missing one is the extent in cells rounded up); otherwise with `nx`
      given, the sizing of `generate_from_mesh` with `dx` absent; otherwise
      `ValueError`. */
  function FromFile(box: Box, nx: Option<int>, ny: Option<int>, nz: Option<int>, dx: Option<real>, padding: int): (r: Sizing)
    ensures r == MissingSizing <==> nx.None? && dx.None?
    ensures r.Sized? && nx.Some? ==> r.nx == nx.value + 2 * padding
    ensures r.Sized? && ny.Some? ==> r.ny == ny.value + 2 * padding
    ensures r.Sized? && nz.Some? ==> r.nz == nz.value + 2 * padding
    ensures r.Sized? && dx.Some? ==> r.dx == dx.value
  {
    if dx.Some? then
      var cx := CountOr(nx, Extent(box, X), dx.value);
      var cy := CountOr(ny, Extent(box, Y), dx.value);
      var cz := CountOr(nz, Extent(box, Z), dx.value);
      if cx.None? || cy.None? || cz.None? then NonFinite
      else Pad(box, cx.value, cy.value, cz.value, dx.value, padding)
    else if nx.Some? then FromMesh(box, nx.value, ny, nz, None, padding)
    else MissingSizing
  }

  /** The final count of a sizing along an axis. */
  function Count(r: Sizing, a: Axis): int
    requires r.Sized?
  {
    match a
    case X => r.nx
    case Y => r.ny
    case Z => r.nz
  }

  /** The count the caller supplied for an axis, if any. */
  function Given(nx: Option<int>, ny: Option<int>, nz: Option<int>, a: Axis): Option<int>
  {
    match a
    case X => nx
    case Y => ny
    case Z => nz
  }

  /** The grid `[origin, origin + n * dx]` contains the box on every axis. */
  predicate Covers(r: Sizing, box: Box)
    requires r.Sized?
  {
    forall a: Axis :: Coord(r.origin, a) <= Coord(box.lo, a) && Coord(box.hi, a) <= Coord(r.origin, a) + Count(r, a) as real * r.dx
  }

  /** Every sizing moves the origin `padding * dx` below the box on every axis. */
  predicate OriginPadded(r: Sizing, box: Box, padding: int)
    requires r.Sized?
  {
    forall a: Axis :: Coord(r.origin, a) == Coord(box.lo, a) - padding as real * r.dx
  }

  /** `ValueError` is raised exactly when neither `dx` nor `nx` is given; the mesh
      helper, whose `nx` is required, never raises it. */
  lemma MissingSizingIff(box: Box, nx: Option<int>, ny: Option<int>, nz: Option<int>, dx: Option<real>, padding: int)
    ensures FromFile(box, nx, ny, nz, dx, padding).MissingSizing? <==> dx.None? && nx.None?
    ensures nx.Some? ==> !FromMesh(box, nx.value, ny, nz, dx, padding).MissingSizing?
  {
  }

  /** Whenever `nx` is given, the file helper sizes exactly as the mesh helper,
      whether or not `dx` is given: its cell-size branch keeps `nx` and computes
      missing counts as proportional sizing with that `dx` does. */
  lemma FromFileAgreesWithMesh(box: Box, nx: int, ny: Option<int>, nz: Option<int>, dx: Option<real>, padding: int)
    ensures FromFile(box, Some(nx), ny, nz, dx, padding) == FromMesh(box, nx, ny, nz, dx, padding)
  {
  }

  /** Both helpers: every count is the sized count plus `2 * padding`, a count
      the caller gave is kept, `dx` is the caller's when given, and the origin
      sits `padding * dx` below the box. */
  lemma PaddingAdded(box: Box, nx: Option<int>, ny: Option<int>, nz: Option<int>, dx: Option<real>, padding: int)
    requires FromFile(box, nx, ny, nz, dx, padding).Sized?
    ensures var r := FromFile(box, nx, ny, nz, dx, padding);
      && OriginPadded(r, box, padding)
      && (dx.Some? ==> r.dx == dx.value)
      && forall a: Axis :: Given(nx, ny, nz, a).Some? ==> Count(r, a) == Given(nx, ny, nz, a).value + 2 * padding
  {
    var r := FromFile(box, nx, ny, nz, dx, padding);
    assert r == Pad(box, r.nx - 2 * padding, r.ny - 2 * padding, r.nz - 2 * padding, r.dx, padding);
    PadOrigin(box, r.nx - 2 * padding, r.ny - 2 * padding, r.nz - 2 * padding, r.dx, padding);
  }

  lemma PadOrigin(box: Box, nx: int, ny: int, nz: int, dx: real, padding: int)
    ensures Pad(box, nx, ny, nz, dx, padding).Sized?
    ensures OriginPadded(Pad(box, nx, ny, nz, dx, padding), box, padding)
  {
    var r := Pad(box, nx, ny, nz, dx, padding);
    var m := padding as real * dx;
    assert r.origin == Vec3(box.lo.x - m, box.lo.y - m, box.lo.z - m);
    forall a: Axis ensures Coord(r.origin, a) == Coord(box.lo, a) - m {
      match a
      case X =>
      case Y =>
      case Z =>
    }
  }

  /** A count left to the helpers is the extent in cells rounded up, plus the
      padding: in cell-size sizing for any axis, in proportional sizing for y and
      z. */
  lemma MissingCountsRoundUp(box: Box, nx: Option<int>, ny: Option<int>, nz: Option<int>, dx: Option<real>, padding: int)
    requires FromFile(box, nx, ny, nz, dx, padding).Sized?
    ensures var r := FromFile(box, nx, ny, nz, dx, padding);
      && r.dx != 0.0 ==> forall a: Axis :: Given(nx, ny, nz, a).None? ==>
           Count(r, a) == Ceil(Extent(box, a) / r.dx) + 2 * padding
    ensures var r := FromFile(box, nx, ny, nz, dx, padding);
      forall a: Axis :: Given(nx, ny, nz, a).None? ==> r.dx != 0.0
  {
  }

  /** Proportional sizing without `dx`: `dx` is `extent_x / nx`. */
  lemma ProportionalSpacing(box: Box, nx: int, ny: Option<int>, nz: Option<int>, padding: int)
    requires ny.None? || nz.None?
    requires FromMesh(box, nx, ny, nz, None, padding).Sized?
    ensures nx != 0 && FromMesh(box, nx, ny, nz, None, padding).dx * nx as real == Extent(box, X)
  {
    DivCancel(Extent(box, X), nx as real);
  }

  /** Manual sizing without `dx`: `dx` is the largest ratio `extent / n` over the
      axes with a non-zero count, and equal to one of them. A zero count survives
      only where its extent is not positive, because `max` passes over the NaN (or
      negative infinity) of that axis when it is not the first. On a real bounding
      box `nx` is never zero. */
  lemma ManualSpacing(box: Box, nx: int, ny: int, nz: int, padding: int)
    requires FromMesh(box, nx, Some(ny), Some(nz), None, padding).Sized?
    ensures var d := FromMesh(box, nx, Some(ny), Some(nz), None, padding).dx;
      && (forall a: Axis :: Pick(nx, ny, nz, a) != 0 ==> d >= Extent(box, a) / Pick(nx, ny, nz, a) as real)
      && ((nx != 0 && d == Extent(box, X) / nx as real) || (ny != 0 && d == Extent(box, Y) / ny as real)
          || (nz != 0 && d == Extent(box, Z) / nz as real))
    ensures forall a: Axis :: Pick(nx, ny, nz, a) == 0 ==> Extent(box, a) <= 0.0
    ensures Ordered(box) ==> nx != 0
  {
    var qx, qy, qz := Quotient(Extent(box, X), nx), Quotient(Extent(box, Y), ny), Quotient(Extent(box, Z), nz);
    PyMax3FiniteResult(qx, qy, qz);
    var d := FromMesh(box, nx, Some(ny), Some(nz), None, padding).dx;
    assert d == PyMax3(qx, qy, qz).value;
    forall a: Axis | Pick(nx, ny, nz, a) != 0
      ensures d >= Extent(box, a) / Pick(nx, ny, nz, a) as real
    {
      match a
      case X =>
      case Y =>
      case Z =>
    }
    forall a: Axis | Pick(nx, ny, nz, a) == 0
      ensures Extent(box, a) <= 0.0
    {
      match a
      case X =>
      case Y =>
      case Z =>
    }
    if Ordered(box) {
      assert Coord(box.lo, X) <= Coord(box.hi, X);
    }
  }

  /** The non-zero-count case the model is usually run on: three positive counts
      give three finite ratios, and `dx` is their maximum. */
  lemma ManualRatioFinite(box: Box, nx: int, ny: int, nz: int)
    requires nx != 0 && ny != 0 && nz != 0
    ensures ManualRatio(box, nx, ny, nz).Finite?
    ensures var d := ManualRatio(box, nx, ny, nz).value;
      d >= Extent(box, X) / nx as real && d >= Extent(box, Y) / ny as real && d >= Extent(box, Z) / nz as real
  {
    FiniteMaxima(Extent(box, X) / nx as real, Extent(box, Y) / ny as real, Extent(box, Z) / nz as real);
  }

  /** A flat y axis with a zero count: the NaN ratio of that axis is passed over
      and the grid is sized by the other two, here `dx = 1`, one padding cell on
      every side and two cells along y. */
  lemma FlatAxisPassedOver()
    ensures FromMesh(FlatBox, 4, Some(0), Some(4), None, 1) == Sized(6, 2, 6, 1.0, Vec3(-1.0, -1.0, -1.0))
  {
    assert Extent(FlatBox, X) == 4.0 && Extent(FlatBox, Y) == 0.0 && Extent(FlatBox, Z) == 4.0;
    assert ManualRatio(FlatBox, 4, 0, 4) == Finite(1.0);
  }

  /** A mesh four units wide and deep with no height. */
  const FlatBox := Box(Vec3(0.0, 0.0, 0.0), Vec3(4.0, 0.0, 4.0))

  /** One of three values by axis. */
  function Pick(x: int, y: int, z: int, a: Axis): int
  {
    match a
    case X => x
    case Y => y
    case Z => z
  }

  /** With `n` cells of `dx` reaching across `[lo, hi]`, `n + 2p` cells from
      `p * dx` below `lo` reach past `hi`. */
  lemma AxisCovers(lo: real, hi: real, n: int, p: int, dx: real)
    requires p >= 0 && dx >= 0.0 && n as real * dx >= hi - lo
    ensures lo - p as real * dx <= lo
    ensures hi <= lo - p as real * dx + (n + 2 * p) as real * dx
  {
    MulMono(p as real, 0.0, dx);
    assert (n + 2 * p) as real * dx == n as real * dx + 2.0 * (p as real * dx);
  }

  /** Counts that reach across the box keep covering it once padded. */
  lemma PadCovers(box: Box, nx: int, ny: int, nz: int, dx: real, padding: int)
    requires padding >= 0 && dx >= 0.0
    requires forall a: Axis :: Pick(nx, ny, nz, a) as real * dx >= Extent(box, a)
    ensures Pad(box, nx, ny, nz, dx, padding).Sized?
    ensures Covers(Pad(box, nx, ny, nz, dx, padding), box)
  {
    var r := Pad(box, nx, ny, nz, dx, padding);
    forall a: Axis
      ensures Coord(r.origin, a) <= Coord(box.lo, a)
      ensures Coord(box.hi, a) <= Coord(r.origin, a) + Count(r, a) as real * r.dx
    {
      assert Count(r, a) == Pick(nx, ny, nz, a) + 2 * padding;
      assert Coord(r.origin, a) == Coord(box.lo, a) - padding as real * dx;
      AxisCovers(Coord(box.lo, a), Coord(box.hi, a), Pick(nx, ny, nz, a), padding, dx);
    }
  }

  /** Manual sizing without `dx`, positive counts and non-negative padding: the
      grid covers the mesh. */
  lemma ManualCovers(box: Box, nx: int, ny: int, nz: int, padding: int)
    requires Ordered(box) && padding >= 0 && nx > 0 && ny > 0 && nz > 0
    ensures FromMesh(box, nx, Some(ny), Some(nz), None, padding).Sized?
    ensures Covers(FromMesh(box, nx, Some(ny), Some(nz), None, padding), box)
  {
    ManualRatioFinite(box, nx, ny, nz);
    var d := ManualRatio(box, nx, ny, nz).value;
    assert FromMesh(box, nx, Some(ny), Some(nz), None, padding) == Pad(box, nx, ny, nz, d, padding);
    assert Coord(box.lo, X) <= Coord(box.hi, X);
    DivNonNegative(Extent(box, X), nx as real);
    forall a: Axis ensures Pick(nx, ny, nz, a) as real * d >= Extent(box, a) {
      SpanFits(Extent(box, a), Pick(nx, ny, nz, a), d);
    }
    PadCovers(box, nx, ny, nz, d, padding);
  }

  /** Proportional sizing from `nx` alone with non-negative padding: whenever it
      yields a grid, the grid covers the mesh. */
  lemma ProportionalCovers(box: Box, nx: int, padding: int)
    requires Ordered(box) && padding >= 0 && nx > 0
    requires FromMesh(box, nx, None, None, None, padding).Sized?
    ensures Covers(FromMesh(box, nx, None, None, None, padding), box)
  {
    var d := Extent(box, X) / nx as real;
    var cy, cz := CeilDiv(Extent(box, Y), d), CeilDiv(Extent(box, Z), d);
    assert cy.Some? && cz.Some?;
    assert FromMesh(box, nx, None, None, None, padding) == Pad(box, nx, cy.value, cz.value, d, padding);
    ProportionalPadCovers(box, nx, cy.value, cz.value, d, padding);
  }

  lemma ProportionalPadCovers(box: Box, nx: int, ny: int, nz: int, d: real, padding: int)
    requires Ordered(box) && padding >= 0 && nx > 0
    requires d == Extent(box, X) / nx as real && d != 0.0
    requires ny as real * d >= Extent(box, Y) && nz as real * d >= Extent(box, Z)
    ensures Covers(Pad(box, nx, ny, nz, d, padding), box)
  {
    assert Coord(box.lo, X) <= Coord(box.hi, X);
    DivNonNegative(Extent(box, X), nx as real);
    DivCancel(Extent(box, X), nx as real);
    assert nx as real * d == Extent(box, X);
    assert Pick(nx, ny, nz, X) as real * d >= Extent(box, X);
    assert Pick(nx, ny, nz, Y) as real * d >= Extent(box, Y);
    assert Pick(nx, ny, nz, Z) as real * d >= Extent(box, Z);
    PadCovers(box, nx, ny, nz, d, padding);
  }

  /** Cell-size sizing with a positive `dx`, every count left to the helper and
      non-negative padding: the grid covers the mesh. */
  lemma CellSizeCovers(box: Box, dx: real, padding: int)
    requires padding >= 0 && dx > 0.0
    ensures FromFile(box, None, None, None, Some(dx), padding).Sized?
    ensures Covers(FromFile(box, None, None, None, Some(dx), padding), box)
  {
    var cx, cy, cz := CeilDiv(Extent(box, X), dx), CeilDiv(Extent(box, Y), dx), CeilDiv(Extent(box, Z), dx);
    assert FromFile(box, None, None, None, Some(dx), padding) == Pad(box, cx.value, cy.value, cz.value, dx, padding);
    PadCovers(box, cx.value, cy.value, cz.value, dx, padding);
  }

  /** The unit cube at the origin. */
  const UnitBox := Box(Vec3(0.0, 0.0, 0.0), Vec3(1.0, 1.0, 1.0))

  /** A count or spacing the caller gives is taken on trust: one cell of `0.5`
      along x does not cover a unit cube. */
  lemma GivenSpacingMayFallShort()
    ensures var r := FromMesh(UnitBox, 1, None, None, Some(0.5), 0);
      r.Sized? && r.nx == 1 && r.ny == 2 && !Covers(r, UnitBox)
  {
    assert Extent(UnitBox, Y) == 1.0 && Extent(UnitBox, Z) == 1.0;
    HalfCells(Extent(UnitBox, Y));
    HalfCells(Extent(UnitBox, Z));
    SpacingGiven(UnitBox, 1, 0.5, 0);
    ShortOnX(FromMesh(UnitBox, 1, None, None, Some(0.5), 0));
  }

  /** One cell of `0.5` from the origin ends at x = 0.5, short of the cube. */
  lemma ShortOnX(r: Sizing)
    requires r == Sized(1, 2, 2, 0.5, Vec3(0.0, 0.0, 0.0))
    ensures !Covers(r, UnitBox)
  {
    assert Coord(UnitBox.hi, X) > Coord(r.origin, X) + Count(r, X) as real * r.dx;
  }

  /** With `dx` given and `ny`, `nz` missing, the missing counts are the extents in
      cells rounded up. */
  lemma SpacingGiven(box: Box, nx: int, dx: real, padding: int)
    requires dx != 0.0
    ensures var cy, cz := CeilDiv(Extent(box, Y), dx), CeilDiv(Extent(box, Z), dx);
      FromMesh(box, nx, None, None, Some(dx), padding) == Pad(box, nx, cy.value, cz.value, dx, padding)
  {
  }

  /** A unit extent is two cells of `0.5`. */
  lemma HalfCells(e: real)
    requires e == 1.0
    ensures CeilDiv(e, 0.5) == Some(2)
  {
    assert e / 0.5 == 2.0;
    assert Ceil(2.0) == 2;
  }
}
