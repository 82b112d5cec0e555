/** The grid fitter of the command-line tool (`main` in app/main.cpp): from the
    positional dimension values, the `--padding` option and the mesh bounding box,
    the grid size in cells, the cell size `dx` and the padded bounds handed to the
    distance kernel.

    Floats are exact reals here. Where a float infinity or NaN reaches the grid, or
    the source converts a float or an `int` expression that does not fit the 32-bit
    target type (undefined behaviour in C++), the outcome is `Undefined`. A NaN
    spacing that `std::max` passes over does not reach the grid. */
module GridFit {
  import opened Options
  import opened Mesh
  import opened RealArith
  import opened Bounds
  import opened Floats

  const IntMin: int := -0x8000_0000
  const IntMax: int := 0x7fff_ffff
  const UIntRange: nat := 0x1_0000_0000

  predicate InInt(x: int)
  {
    IntMin <= x <= IntMax
  }

  /** `(int)f` for a float `f`: defined only when the truncated value fits. */
  function CastInt(x: real): Option<int>
  {
    if InInt(Trunc(x)) then Some(Trunc(x)) else None
  }

  /** `(unsigned int)f` for a float `f`: defined only when the truncated value fits. */
  function CastUnsigned(x: real): Option<nat>
  {
    if 0 <= Trunc(x) < UIntRange then Some(Trunc(x)) else None
  }

  /** The conversion of an `int` to `unsigned int` (in `Vec3ui(target_nx, ...)`):
      the value modulo 2^32. */
  function ToUnsigned(x: int): (u: nat)
    ensures u < UIntRange
    ensures (u - x) % UIntRange == 0
    ensures 0 <= x < UIntRange ==> u == x
  {
    x % UIntRange
  }

  /** `if (padding < 1) padding = 1;` */
  function Clamp(p: int): (r: int)
    ensures r >= 1 && r >= p
    ensures p >= 1 ==> r == p
  {
    if p < 1 then 1 else p
  }

  /** The grid handed to the distance kernel. */
  datatype GridSpec = GridSpec(nx: nat, ny: nat, nz: nat, dx: real, padding: int, bounds: Box)

  function Cells(g: GridSpec, a: Axis): nat
  {
    match a
    case X => g.nx
    case Y => g.ny
    case Z => g.nz
  }

  /** The outcome of the fitting part of `main`: a grid, exit code 1 after a usage
      message, or a computation the real-number model cannot follow. */
  datatype Fit = Fitted(grid: GridSpec) | UsageError | Undefined

  /** The interval of `n` cells of size `dx` centred on `[lo, hi]`. */
  function Centred(lo: real, hi: real, n: nat, dx: real): (r: (real, real))
    ensures r.1 - r.0 == n as real * dx
    ensures r.0 + r.1 == lo + hi
  {
    var centre := (lo + hi) * 0.5;
    var half := n as real * dx * 0.5;
    (centre - half, centre + half)
  }

  /** The resolution-mode tail of `main`: the sizes are the targets converted to
      unsigned, and the bounds are the grid extent centred on the mesh. */
  function Place(nx: int, ny: int, nz: int, dx: real, padding: int, box: Box): (g: GridSpec)
    ensures CentredOn(g, box)
    ensures g.dx == dx && g.padding == padding
    ensures 0 < nx <= IntMax ==> g.nx == nx
  {
    var ux, uy, uz := ToUnsigned(nx), ToUnsigned(ny), ToUnsigned(nz);
    var x, y, z := Centred(box.lo.x, box.hi.x, ux, dx), Centred(box.lo.y, box.hi.y, uy, dx),
                   Centred(box.lo.z, box.hi.z, uz, dx);
    GridSpec(ux, uy, uz, dx, padding, Box(Vec3(x.0, y.0, z.0), Vec3(x.1, y.1, z.1)))
  }

  /** Proportional mode (one or two values, STL input): `Nx` is given, `dx` makes
      the x extent fill `Nx - 2p` cells, and `Ny`, `Nz` follow from the aspect ratio
      rounded half up, plus the padding cells. A second value below 20 is taken as
      the padding. */
  function Proportional(dims: seq<real>, padding: int, box: Box): (r: Fit)
    requires 1 <= |dims| <= 2
    ensures r.Fitted? ==> r.grid.padding >= 1 && r.grid.dx != 0.0 && CentredOn(r.grid, box)
    ensures r.Fitted? ==> r.grid.nx == Trunc(dims[0]) > 0
  {
    var n := CastInt(dims[0]);
    var p0 := if |dims| == 2 && dims[1] < 20.0 then CastInt(dims[1]) else Some(padding);
    if n.None? || p0.None? then Undefined
    else if n.value <= 0 then UsageError
    else
      var p := Clamp(p0.value);
      if !InInt(2 * p) || n.value - 2 * p == 0 then Undefined
      else
        var dx := Extent(box, X) / (n.value - 2 * p) as real;
        if dx == 0.0 then Undefined
        else
          var ry, rz := CastInt(Extent(box, Y) / dx + 0.5), CastInt(Extent(box, Z) / dx + 0.5);
          if ry.None? || rz.None? || !InInt(ry.value + 2 * p) || !InInt(rz.value + 2 * p) then Undefined
          else Fitted(Place(n.value, ry.value + 2 * p, rz.value + 2 * p, dx, p, box))
  }

  /** Manual mode (three or more values, STL input): the three targets are kept and
      `dx` is the largest spacing that fits the mesh into `N - 2p` cells on some
      axis. A fourth value is never read. */
  function Manual(dims: seq<real>, padding: int, box: Box): (r: Fit)
    requires |dims| >= 3
    ensures r.Fitted? ==> r.grid.padding >= 1 && CentredOn(r.grid, box)
    ensures r.Fitted? ==> forall a: Axis :: Target(dims, a) > 0 && Cells(r.grid, a) == Target(dims, a)
  {
    var n0, n1, n2 := CastInt(dims[0]), CastInt(dims[1]), CastInt(dims[2]);
    if n0.None? || n1.None? || n2.None? then Undefined
    else if n0.value <= 0 || n1.value <= 0 || n2.value <= 0 then UsageError
    else
      var p := Clamp(padding);
      if !InInt(2 * p) then Undefined
      else
        var m := ManualSpacing(box, n0.value - 2 * p, n1.value - 2 * p, n2.value - 2 * p);
        if m.Finite? then Fitted(Place(n0.value, n1.value, n2.value, m.value, p, box))
        else Undefined
  }

  /** `std::max(dx_x, std::max(dx_y, dx_z))` over the ratios `extent / (N - 2p)`. */
  function ManualSpacing(box: Box, sx: int, sy: int, sz: int): Float
  {
    StdMax(Quotient(Extent(box, X), sx), StdMax(Quotient(Extent(box, Y), sy), Quotient(Extent(box, Z), sz)))
  }

  /** The box grown by `m` on every side. */
  function Grow(b: Box, m: real): Box
  {
    Box(Vec3(b.lo.x - m, b.lo.y - m, b.lo.z - m), Vec3(b.hi.x + m, b.hi.y + m, b.hi.z + m))
  }

  /** Cell-size mode (OBJ input): the first value is `dx`, a second value replaces
      the padding, the box grows by `padding * dx` on every side and each size is the
      grown extent over `dx`, truncated. */
  function CellSize(dims: seq<real>, padding: int, box: Box): (r: Fit)
    requires |dims| >= 1
    ensures r.Fitted? ==> r.grid.dx == dims[0] != 0.0 && r.grid.padding >= 1 && PaddingSpare(r.grid, box)
    ensures !r.UsageError?
  {
    var dx := dims[0];
    var p0 := if |dims| >= 2 then CastInt(dims[1]) else Some(padding);
    if p0.None? then Undefined
    else
      var p := Clamp(p0.value);
      var grown := Grow(box, p as real * dx);
      if dx == 0.0 then Undefined
      else
        var nx, ny, nz := CastUnsigned(Extent(grown, X) / dx), CastUnsigned(Extent(grown, Y) / dx),
                          CastUnsigned(Extent(grown, Z) / dx);
        if nx.None? || ny.None? || nz.None? then Undefined
        else Fitted(GridSpec(nx.value, ny.value, nz.value, dx, p, grown))
  }

  /** The fitting part of `main` (app/main.cpp:72-182 and 210-230): `stl` is the
      input's extension test, `dims` the positional values, `padding` the option. */
  function FitGrid(stl: bool, dims: seq<real>, padding: int, box: Box): (r: Fit)
    ensures |dims| == 0 ==> r == UsageError
    ensures r.Fitted? ==> r.grid.padding >= 1
    ensures r.Fitted? && stl ==> CentredOn(r.grid, box)
    ensures r.Fitted? && !stl ==> r.grid.dx == dims[0] && PaddingSpare(r.grid, box)
    ensures r.UsageError? && !stl ==> |dims| == 0
  {
    if |dims| == 0 then UsageError
    else if stl then
      if |dims| <= 2 then Proportional(dims, padding, box) else Manual(dims, padding, box)
    else CellSize(dims, padding, box)
  }

  /** Reference: the padding in force before clamping. A second value overrides the
      option in cell-size mode always, and in proportional mode when below 20. */
  function ChosenPadding(stl: bool, dims: seq<real>, padding: int): int
  {
    if |dims| == 2 && stl && dims[1] < 20.0 then Trunc(dims[1])
    else if |dims| >= 2 && !stl then Trunc(dims[1])
    else padding
  }

  /** Every dimension value converts to `int` without undefined behaviour. */
  predicate Castable(dims: seq<real>)
  {
    forall k | 0 <= k < |dims| :: InInt(Trunc(dims[k]))
  }

  /** The usage errors (exit code 1): no dimension value at all, a target below one
      cell in a resolution mode. Cell-size mode accepts any `dx`, zero or negative
      included. */
  lemma UsageErrorIff(stl: bool, dims: seq<real>, padding: int, box: Box)
    requires Castable(dims)
    ensures FitGrid(stl, dims, padding, box).UsageError? <==>
      || |dims| == 0
      || (stl && |dims| <= 2 && Trunc(dims[0]) <= 0)
      || (stl && |dims| >= 3 && (Trunc(dims[0]) <= 0 || Trunc(dims[1]) <= 0 || Trunc(dims[2]) <= 0))
  {
  }

  /** Every fitted grid uses the chosen padding raised to at least one cell. */
  lemma FittedPadding(stl: bool, dims: seq<real>, padding: int, box: Box)
    requires FitGrid(stl, dims, padding, box).Fitted?
    ensures FitGrid(stl, dims, padding, box).grid.padding == Clamp(ChosenPadding(stl, dims, padding))
    ensures FitGrid(stl, dims, padding, box).grid.padding >= 1
  {
  }

  /** Manual mode never reads a fourth value. */
  lemma FourthValueIgnored(dims: seq<real>, padding: int, box: Box)
    requires |dims| >= 3
    ensures FitGrid(true, dims, padding, box) == FitGrid(true, dims[..3], padding, box)
  {
  }

  /** In proportional mode a second value of 20 or more is ignored altogether. */
  lemma LargeSecondValueIgnored(dims: seq<real>, padding: int, box: Box)
    requires |dims| == 2 && dims[1] >= 20.0
    ensures FitGrid(true, dims, padding, box) == FitGrid(true, dims[..1], padding, box)
  {
  }

  /** The targets of manual mode, by axis. */
  function Target(dims: seq<real>, a: Axis): int
    requires |dims| >= 3
  {
    match a
    case X => Trunc(dims[0])
    case Y => Trunc(dims[1])
    case Z => Trunc(dims[2])
  }

  /** A grid placed by `Place` is centred on the box on every axis. */
  predicate CentredOn(g: GridSpec, box: Box)
  {
    forall a: Axis :: (Coord(g.bounds.lo, a), Coord(g.bounds.hi, a)) ==
      Centred(Coord(box.lo, a), Coord(box.hi, a), Cells(g, a), g.dx)
  }

  /** What manual mode computes, axis by axis: the targets are the sizes, the
      padding is the clamped option, `dx` is at least every `extent / (N - 2p)` and
      equals one of them, and the grid is centred. */
  lemma ManualShape(dims: seq<real>, padding: int, box: Box)
    requires |dims| >= 3
    requires FitGrid(true, dims, padding, box).Fitted?
    requires forall a: Axis :: Target(dims, a) != 2 * Clamp(padding)
    ensures var g := FitGrid(true, dims, padding, box).grid;
      && g.padding == Clamp(padding)
      && CentredOn(g, box)
      && (forall a: Axis :: Target(dims, a) > 0 && Cells(g, a) == Target(dims, a))
      && (forall a: Axis :: g.dx >= Extent(box, a) / (Cells(g, a) - 2 * g.padding) as real)
      && exists a: Axis :: g.dx == Extent(box, a) / (Cells(g, a) - 2 * g.padding) as real
  {
    var p := Clamp(padding);
    var n0, n1, n2 := Trunc(dims[0]), Trunc(dims[1]), Trunc(dims[2]);
    var qx, qy, qz := Extent(box, X) / (n0 - 2 * p) as real, Extent(box, Y) / (n1 - 2 * p) as real, Extent(box, Z) / (n2 - 2 * p) as real;
    FiniteMaxima(qy, qz, 0.0);
    FiniteMaxima(qx, StdMax(Finite(qy), Finite(qz)).value, 0.0);
    var dx := ManualSpacing(box, n0 - 2 * p, n1 - 2 * p, n2 - 2 * p).value;
    assert FitGrid(true, dims, padding, box) == Fitted(Place(n0, n1, n2, dx, p, box));
    var g := FitGrid(true, dims, padding, box).grid;
    assert g.dx >= Extent(box, X) / (Cells(g, X) - 2 * g.padding) as real;
  }

  /** A flat axis whose target is exactly twice the padding gives the NaN `0 / 0`,
      and `std::max` decides what survives: on x it poisons the spacing; on y it
      takes the z ratio down with it, leaving `dx_x`; on z it is passed over. */
  lemma ManualFlatAxis(box: Box, sx: int, sy: int, sz: int)
    ensures Extent(box, X) == 0.0 && sx == 0 ==> ManualSpacing(box, sx, sy, sz) == NaN
    ensures Extent(box, Y) == 0.0 && sy == 0 ==> ManualSpacing(box, sx, sy, sz) == Quotient(Extent(box, X), sx)
    ensures Extent(box, Z) == 0.0 && sz == 0 ==>
      ManualSpacing(box, sx, sy, sz) == StdMax(Quotient(Extent(box, X), sx), Quotient(Extent(box, Y), sy))
  {
    var qx, qy, qz := Quotient(Extent(box, X), sx), Quotient(Extent(box, Y), sy), Quotient(Extent(box, Z), sz);
    NaNPassedOver(qx, qz);
    NaNPassedOver(StdMax(qy, qz), qy);
    NaNPassedOver(qy, qx);
  }

  /** A mesh one unit wide, a hundred deep and flat in y, fitted to the targets
      `6 2 6` with `Ny` equal to twice the padding: the y ratio is NaN, the z ratio
      is dropped with it, and six z cells of a quarter unit do not hold the
      hundred-unit depth. */
  lemma ManualFlatYDropsZ()
    ensures var f := FitGrid(true, [6.0, 2.0, 6.0], 1, FlatDeepBox);
      f.Fitted? && f.grid.dx == 0.25 && !HoldsMesh(f.grid, FlatDeepBox)
  {
    FlatDeepFit();
    var g := Place(6, 2, 6, 0.25, 1, FlatDeepBox);
    assert g.nz == 6 && g.padding == 1 && g.dx == 0.25;
    FlatDeepShort(g);
  }

  lemma FlatDeepShort(g: GridSpec)
    requires g.nz == 6 && g.padding == 1 && g.dx == 0.25
    ensures !HoldsMesh(g, FlatDeepBox)
  {
    assert Extent(FlatDeepBox, Z) == 100.0;
  }

  const FlatDeepBox := Box(Vec3(0.0, 0.0, 0.0), Vec3(1.0, 0.0, 100.0))

  lemma FlatDeepFit()
    ensures FitGrid(true, [6.0, 2.0, 6.0], 1, FlatDeepBox) == Fitted(Place(6, 2, 6, 0.25, 1, FlatDeepBox))
  {
    var dims := [6.0, 2.0, 6.0];
    assert CastInt(dims[0]) == Some(6) && CastInt(dims[1]) == Some(2) && CastInt(dims[2]) == Some(6) by {
      assert Trunc(6.0) == 6 && Trunc(2.0) == 2;
    }
    FlatDeepSpacing();
    ManualFits(dims, 1, FlatDeepBox, 6, 2, 6);
  }

  /** Manual mode on castable, positive targets whose spacing is finite. */
  lemma ManualFits(dims: seq<real>, padding: int, box: Box, n0: int, n1: int, n2: int)
    requires |dims| >= 3 && CastInt(dims[0]) == Some(n0) && CastInt(dims[1]) == Some(n1) && CastInt(dims[2]) == Some(n2)
    requires n0 > 0 && n1 > 0 && n2 > 0 && InInt(2 * Clamp(padding))
    requires var p := Clamp(padding); ManualSpacing(box, n0 - 2 * p, n1 - 2 * p, n2 - 2 * p).Finite?
    ensures var p := Clamp(padding);
      Manual(dims, padding, box) == Fitted(Place(n0, n1, n2, ManualSpacing(box, n0 - 2 * p, n1 - 2 * p, n2 - 2 * p).value, p, box))
  {
  }

  lemma FlatDeepSpacing()
    ensures ManualSpacing(FlatDeepBox, 4, 0, 4) == Finite(0.25)
  {
    assert Extent(FlatDeepBox, X) == 1.0 && Extent(FlatDeepBox, Y) == 0.0;
    ManualFlatAxis(FlatDeepBox, 4, 0, 4);
  }

  /** Enough room: a centred interval of `n` cells with `n * dx >= (hi - lo) + 2m`
      leaves at least `m` on either side of `[lo, hi]`. */
  lemma CentredEncloses(lo: real, hi: real, n: nat, dx: real, m: real)
    requires n as real * dx >= (hi - lo) + 2.0 * m
    ensures var r := Centred(lo, hi, n, dx); r.0 <= lo - m && hi + m <= r.1
  {
  }

  /** `n` cells of `dx`, of which `2p` are padding, hold `[lo, hi]` and leave
      `p * dx` on either side. */
  lemma PaddedEncloses(lo: real, hi: real, n: int, p: int, dx: real)
    requires n >= 0 && (n - 2 * p) as real * dx >= hi - lo
    ensures var r := Centred(lo, hi, n, dx); r.0 <= lo - p as real * dx && hi + p as real * dx <= r.1
  {
    assert n as real * dx == (n - 2 * p) as real * dx + 2.0 * (p as real * dx);
    CentredEncloses(lo, hi, n, dx, p as real * dx);
  }

  /** The grid holds the box with its `p` padding cells to spare on every side. */
  predicate PaddingSpare(g: GridSpec, box: Box)
  {
    Encloses(g.bounds, box, g.padding as real * g.dx)
  }

  /** `N - 2p` cells of every axis hold the mesh extent along that axis. */
  predicate HoldsMesh(g: GridSpec, box: Box)
  {
    forall a: Axis :: (Cells(g, a) - 2 * g.padding) as real * g.dx >= Extent(box, a)
  }

  /** Manual mode with every target above twice the padding: the targets are the
      grid sizes, `N - 2p` cells hold the mesh on every axis, and the grid holds the
      mesh with at least `p * dx` to spare on every side. */
  lemma ManualEncloses(dims: seq<real>, padding: int, box: Box)
    requires |dims| >= 3 && Ordered(box)
    requires FitGrid(true, dims, padding, box).Fitted?
    requires forall a: Axis :: Target(dims, a) > 2 * Clamp(padding)
    ensures var g := FitGrid(true, dims, padding, box).grid;
      && g.padding == Clamp(padding) && g.dx >= 0.0
      && (forall a: Axis :: Cells(g, a) == Target(dims, a))
      && HoldsMesh(g, box)
      && PaddingSpare(g, box)
  {
    var g := FitGrid(true, dims, padding, box).grid;
    ManualShape(dims, padding, box);
    ManualCells(g, box);
  }

  /** `ManualEncloses` for a grid of the shape manual mode produces. */
  lemma ManualCells(g: GridSpec, box: Box)
    requires Ordered(box) && CentredOn(g, box) && g.padding >= 1
    requires forall a: Axis :: Cells(g, a) > 2 * g.padding
    requires forall a: Axis :: g.dx >= Extent(box, a) / (Cells(g, a) - 2 * g.padding) as real
    requires exists a: Axis :: g.dx == Extent(box, a) / (Cells(g, a) - 2 * g.padding) as real
    ensures g.dx >= 0.0 && HoldsMesh(g, box) && PaddingSpare(g, box)
  {
    ManualNonNegative(g, box);
    ManualCovers(g, box);
  }

  /** Manual `dx` is one of the ratios `extent / (N - 2p)`, none negative. */
  lemma ManualNonNegative(g: GridSpec, box: Box)
    requires Ordered(box) && g.padding >= 1
    requires forall a: Axis :: Cells(g, a) > 2 * g.padding
    requires exists a: Axis :: g.dx == Extent(box, a) / (Cells(g, a) - 2 * g.padding) as real
    ensures g.dx >= 0.0
  {
    var a0: Axis :| g.dx == Extent(box, a0) / (Cells(g, a0) - 2 * g.padding) as real;
    assert Coord(box.lo, a0) <= Coord(box.hi, a0);
    DivNonNegative(Extent(box, a0), (Cells(g, a0) - 2 * g.padding) as real);
  }

  lemma ManualCovers(g: GridSpec, box: Box)
    requires CentredOn(g, box) && g.padding >= 1
    requires forall a: Axis :: Cells(g, a) > 2 * g.padding
    requires forall a: Axis :: g.dx >= Extent(box, a) / (Cells(g, a) - 2 * g.padding) as real
    ensures HoldsMesh(g, box) && PaddingSpare(g, box)
  {
    forall a: Axis
      ensures (Cells(g, a) - 2 * g.padding) as real * g.dx >= Extent(box, a)
      ensures Coord(g.bounds.lo, a) <= Coord(box.lo, a) - g.padding as real * g.dx
      ensures Coord(box.hi, a) + g.padding as real * g.dx <= Coord(g.bounds.hi, a)
    {
      ManualAt(g, box, a);
    }
  }

  lemma ManualAt(g: GridSpec, box: Box, a: Axis)
    requires g.padding >= 0 && Cells(g, a) > 2 * g.padding
    requires (Coord(g.bounds.lo, a), Coord(g.bounds.hi, a)) == Centred(Coord(box.lo, a), Coord(box.hi, a), Cells(g, a), g.dx)
    requires g.dx >= Extent(box, a) / (Cells(g, a) - 2 * g.padding) as real
    ensures (Cells(g, a) - 2 * g.padding) as real * g.dx >= Extent(box, a)
    ensures Coord(g.bounds.lo, a) <= Coord(box.lo, a) - g.padding as real * g.dx
    ensures Coord(box.hi, a) + g.padding as real * g.dx <= Coord(g.bounds.hi, a)
  {
    ManualAxis(Coord(box.lo, a), Coord(box.hi, a), Coord(g.bounds.lo, a), Coord(g.bounds.hi, a), Cells(g, a), g.padding, g.dx);
  }

  /** One axis of `ManualCells`. */
  lemma ManualAxis(lo: real, hi: real, glo: real, ghi: real, n: nat, p: nat, dx: real)
    requires n > 2 * p && (glo, ghi) == Centred(lo, hi, n, dx)
    requires dx >= (hi - lo) / (n - 2 * p) as real
    ensures (n - 2 * p) as real * dx >= hi - lo
    ensures glo <= lo - p as real * dx && hi + p as real * dx <= ghi
  {
    SpanFits(hi - lo, n - 2 * p, dx);
    PaddedEncloses(lo, hi, n, p, dx);
  }

  /** Rounding `s / dx` half up loses less than half a cell. */
  lemma RoundedCovers(s: real, dx: real, k: int)
    requires dx > 0.0 && s >= 0.0 && k == Trunc(s / dx + 0.5)
    ensures k >= 0
    ensures k as real - 0.5 <= s / dx < k as real + 0.5
    ensures k as real * dx > s - 0.5 * dx
  {
    DivNonNegative(s, dx);
    Sandwich(s, dx, k as real - 0.5, k as real + 0.5);
  }

  /** The size proportional mode gives axis `a`: `Nx` itself along x, the rounded
      ratio plus the padding cells along y and z. */
  function ProportionalCells(n: int, p: int, dx: real, box: Box, a: Axis): int
    requires dx != 0.0
  {
    if a == X then n else Trunc(Extent(box, a) / dx + 0.5) + 2 * p
  }

  /** What proportional mode computes, axis by axis. */
  lemma ProportionalShape(dims: seq<real>, padding: int, box: Box)
    requires 1 <= |dims| <= 2
    requires FitGrid(true, dims, padding, box).Fitted?
    ensures var g := FitGrid(true, dims, padding, box).grid;
      var n := Trunc(dims[0]);
      && n > 0 && g.padding == Clamp(ChosenPadding(true, dims, padding))
      && n - 2 * g.padding != 0
      && g.dx == Extent(box, X) / (n - 2 * g.padding) as real && g.dx != 0.0
      && CentredOn(g, box)
      && forall a: Axis :: InInt(ProportionalCells(n, g.padding, g.dx, box, a)) &&
           Cells(g, a) == ToUnsigned(ProportionalCells(n, g.padding, g.dx, box, a))
  {
    var p := Clamp(ChosenPadding(true, dims, padding));
    var n := Trunc(dims[0]);
    var dx := Extent(box, X) / (n - 2 * p) as real;
    var ny, nz := ProportionalCells(n, p, dx, box, Y), ProportionalCells(n, p, dx, box, Z);
    assert FitGrid(true, dims, padding, box) == Fitted(Place(n, ny, nz, dx, p, box));
  }

  /** Along x the mesh fills exactly `Nx - 2p` cells and the grid sits exactly
      `p * dx` outside it. */
  predicate ExactAlongX(g: GridSpec, box: Box)
  {
    && (g.nx - 2 * g.padding) as real * g.dx == Extent(box, X)
    && g.bounds.lo.x == box.lo.x - g.padding as real * g.dx
    && g.bounds.hi.x == box.hi.x + g.padding as real * g.dx
  }

  /** The grid holds the box with at least `p - 1/4` cells to spare on every side. */
  predicate QuarterShortOfPadding(g: GridSpec, box: Box)
  {
    Encloses(g.bounds, box, (g.padding as real - 0.25) * g.dx)
  }

  /** Along y and z, `N - 2p` is the size ratio rounded to the nearest integer. */
  predicate RoundsToNearest(g: GridSpec, box: Box)
    requires g.dx != 0.0
  {
    forall a: Axis | a != X ::
      (Cells(g, a) - 2 * g.padding) as real - 0.5 <= Extent(box, a) / g.dx < (Cells(g, a) - 2 * g.padding) as real + 0.5
  }

  /** Proportional mode with `Nx` above twice the padding: `Nx` is kept and fixes
      `dx`; along y and z the counts are the rounded size ratios plus padding; the
      grid is centred and holds the mesh with at least `(p - 1/4) * dx` to spare on
      every side. */
  lemma ProportionalEncloses(dims: seq<real>, padding: int, box: Box)
    requires 1 <= |dims| <= 2 && Ordered(box)
    requires FitGrid(true, dims, padding, box).Fitted?
    requires Trunc(dims[0]) > 2 * Clamp(ChosenPadding(true, dims, padding))
    ensures var g := FitGrid(true, dims, padding, box).grid;
      && g.nx == Trunc(dims[0]) && g.dx > 0.0
      && ExactAlongX(g, box)
      && RoundsToNearest(g, box)
      && QuarterShortOfPadding(g, box)
  {
    ProportionalShape(dims, padding, box);
    ProportionalGrid(FitGrid(true, dims, padding, box).grid, box, Trunc(dims[0]));
  }

  /** `ProportionalEncloses` for a grid of the shape proportional mode produces. */
  lemma ProportionalGrid(g: GridSpec, box: Box, n: int)
    requires Ordered(box) && CentredOn(g, box)
    requires g.padding >= 1 && n > 2 * g.padding
    requires g.dx == Extent(box, X) / (n - 2 * g.padding) as real && g.dx != 0.0
    requires forall a: Axis ::
      InInt(ProportionalCells(n, g.padding, g.dx, box, a)) &&
      Cells(g, a) == ToUnsigned(ProportionalCells(n, g.padding, g.dx, box, a))
    ensures g.nx == n && g.dx > 0.0
    ensures ExactAlongX(g, box) && RoundsToNearest(g, box)
    ensures QuarterShortOfPadding(g, box)
  {
    ProportionalSpacing(g, box, n);
    forall a: Axis
      ensures a != X ==> (Cells(g, a) - 2 * g.padding) as real - 0.5 <= Extent(box, a) / g.dx < (Cells(g, a) - 2 * g.padding) as real + 0.5
      ensures Coord(g.bounds.lo, a) <= Coord(box.lo, a) - (g.padding as real - 0.25) * g.dx
      ensures Coord(box.hi, a) + (g.padding as real - 0.25) * g.dx <= Coord(g.bounds.hi, a)
    {
      if a != X {
        ProportionalAxis(g, box, n, a);
      }
    }
  }

  /** Proportional `dx` is positive and the x axis comes out exact. */
  lemma ProportionalSpacing(g: GridSpec, box: Box, n: int)
    requires Ordered(box) && CentredOn(g, box)
    requires g.padding >= 1 && n > 2 * g.padding
    requires g.dx == Extent(box, X) / (n - 2 * g.padding) as real && g.dx != 0.0
    requires InInt(ProportionalCells(n, g.padding, g.dx, box, X))
    requires Cells(g, X) == ToUnsigned(ProportionalCells(n, g.padding, g.dx, box, X))
    ensures g.nx == n && g.dx > 0.0 && ExactAlongX(g, box)
    ensures g.bounds.lo.x <= box.lo.x - (g.padding as real - 0.25) * g.dx
    ensures box.hi.x + (g.padding as real - 0.25) * g.dx <= g.bounds.hi.x
  {
    assert Cells(g, X) == n;
    assert box.lo.x <= box.hi.x by {
      assert Coord(box.lo, X) <= Coord(box.hi, X);
    }
    DivNonNegative(Extent(box, X), (n - 2 * g.padding) as real);
    DivCancel(Extent(box, X), (n - 2 * g.padding) as real);
    ProportionalX(box.lo.x, box.hi.x, g.bounds.lo.x, g.bounds.hi.x, n, g.padding, g.dx);
  }

  /** Axis y or z of `ProportionalEncloses`. */
  lemma ProportionalAxis(g: GridSpec, box: Box, n: int, a: Axis)
    requires a != X && Coord(box.lo, a) <= Coord(box.hi, a)
    requires (Coord(g.bounds.lo, a), Coord(g.bounds.hi, a)) == Centred(Coord(box.lo, a), Coord(box.hi, a), Cells(g, a), g.dx)
    requires g.padding >= 1 && g.dx > 0.0
    requires InInt(ProportionalCells(n, g.padding, g.dx, box, a))
    requires Cells(g, a) == ToUnsigned(ProportionalCells(n, g.padding, g.dx, box, a))
    ensures var p := g.padding;
      var m := (p as real - 0.25) * g.dx;
      && (Cells(g, a) - 2 * p) as real - 0.5 <= Extent(box, a) / g.dx < (Cells(g, a) - 2 * p) as real + 0.5
      && Coord(g.bounds.lo, a) <= Coord(box.lo, a) - m && Coord(box.hi, a) + m <= Coord(g.bounds.hi, a)
  {
    var p := g.padding;
    var k := Trunc(Extent(box, a) / g.dx + 0.5);
    RoundedCovers(Extent(box, a), g.dx, k);
    assert Cells(g, a) == k + 2 * p;
    ProportionalYZ(Coord(box.lo, a), Coord(box.hi, a), Coord(g.bounds.lo, a), Coord(g.bounds.hi, a), k, p, g.dx);
  }

  /** Along x the `Nx - 2p` inner cells span the mesh exactly. */
  lemma ProportionalX(lo: real, hi: real, glo: real, ghi: real, n: nat, p: int, dx: real)
    requires lo <= hi && p >= 1 && n > 2 * p && dx > 0.0
    requires dx == (hi - lo) / (n - 2 * p) as real
    requires (glo, ghi) == Centred(lo, hi, n, dx)
    ensures glo == lo - p as real * dx && ghi == hi + p as real * dx
    ensures glo <= lo - (p as real - 0.25) * dx && hi + (p as real - 0.25) * dx <= ghi
  {
    DivCancel(hi - lo, (n - 2 * p) as real);
    MulMono(p as real, p as real - 0.25, dx);
    assert n as real * dx == (hi - lo) + 2.0 * (p as real * dx);
    CentredEncloses(lo, hi, n, dx, p as real * dx);
    CentredEncloses(lo, hi, n, dx, (p as real - 0.25) * dx);
  }

  /** Along y or z, `k` rounded cells plus `2p` padding cells leave at least
      `p - 1/4` cells on either side. */
  lemma ProportionalYZ(lo: real, hi: real, glo: real, ghi: real, k: nat, p: int, dx: real)
    requires p >= 1 && dx > 0.0
    requires k as real * dx > (hi - lo) - 0.5 * dx
    requires (glo, ghi) == Centred(lo, hi, k + 2 * p, dx)
    ensures glo <= lo - (p as real - 0.25) * dx && hi + (p as real - 0.25) * dx <= ghi
  {
    assert (k + 2 * p) as real * dx == k as real * dx + 2.0 * (p as real * dx);
    CentredEncloses(lo, hi, k + 2 * p, dx, (p as real - 0.25) * dx);
  }

  /** What cell-size mode computes, axis by axis. */
  lemma CellSizeShape(dims: seq<real>, padding: int, box: Box)
    requires |dims| >= 1
    requires FitGrid(false, dims, padding, box).Fitted?
    ensures var g := FitGrid(false, dims, padding, box).grid;
      && g.dx == dims[0]
      && g.padding == Clamp(ChosenPadding(false, dims, padding))
      && g.bounds == Grow(box, g.padding as real * g.dx)
      && forall a: Axis :: Cells(g, a) == Trunc(Extent(g.bounds, a) / g.dx)
  {
  }

  /** The sampled grid of cell-size mode: each size is the grown extent in whole
      cells, rounded down, so the grid may stop short of the grown box, but it
      always reaches past the mesh. */
  predicate WholeCellsCover(g: GridSpec, box: Box)
  {
    forall a: Axis ::
      && Cells(g, a) as real * g.dx <= Extent(g.bounds, a) < (Cells(g, a) + 1) as real * g.dx
      && Coord(box.hi, a) <= Coord(g.bounds.lo, a) + Cells(g, a) as real * g.dx
  }

  /** Cell-size mode with a positive `dx`: `dx` is the first value, the bounds are
      the mesh box grown by `p * dx` on every side, and the sizes are whole cells
      covering the mesh. */
  lemma CellSizeGrid(dims: seq<real>, padding: int, box: Box)
    requires |dims| >= 1 && dims[0] > 0.0 && Ordered(box)
    requires FitGrid(false, dims, padding, box).Fitted?
    ensures var g := FitGrid(false, dims, padding, box).grid;
      && g.dx == dims[0]
      && g.bounds == Grow(box, g.padding as real * g.dx)
      && WholeCellsCover(g, box)
  {
    var g := FitGrid(false, dims, padding, box).grid;
    CellSizeShape(dims, padding, box);
    CellSizeCells(g, box);
  }

  /** `CellSizeGrid` for a grid of the shape cell-size mode produces. */
  lemma CellSizeCells(g: GridSpec, box: Box)
    requires g.dx > 0.0 && g.padding >= 1 && Ordered(box)
    requires g.bounds == Grow(box, g.padding as real * g.dx)
    requires forall a: Axis :: Cells(g, a) == Trunc(Extent(g.bounds, a) / g.dx)
    ensures WholeCellsCover(g, box)
  {
    var m := g.padding as real * g.dx;
    MulMono(g.padding as real, 1.0, g.dx);
    forall a: Axis
      ensures Cells(g, a) as real * g.dx <= Extent(g.bounds, a) < (Cells(g, a) + 1) as real * g.dx
      ensures Coord(box.hi, a) <= Coord(g.bounds.lo, a) + Cells(g, a) as real * g.dx
    {
      GrowCoord(box, m, a);
      GrownCells(Coord(box.lo, a), Coord(box.hi, a), Coord(g.bounds.lo, a), Coord(g.bounds.hi, a), g.dx, m, Cells(g, a));
    }
  }

  lemma GrowCoord(b: Box, m: real, a: Axis)
    ensures Coord(Grow(b, m).lo, a) == Coord(b.lo, a) - m
    ensures Coord(Grow(b, m).hi, a) == Coord(b.hi, a) + m
  {
  }

  /** One axis of cell-size mode: `[lo, hi]` grown by a margin `m` of at least one
      cell on each side, then cut into whole cells. */
  lemma GrownCells(lo: real, hi: real, glo: real, ghi: real, dx: real, m: real, n: int)
    requires dx > 0.0 && lo <= hi && m >= dx
    requires glo == lo - m && ghi == hi + m
    requires n == Trunc((ghi - glo) / dx)
    ensures n as real * dx <= ghi - glo < (n + 1) as real * dx
    ensures hi <= glo + n as real * dx
  {
    TruncatedCells(ghi - glo, dx, n);
  }

  /** Truncation divides an extent into whole cells and drops the remainder. */
  lemma TruncatedCells(e: real, dx: real, t: int)
    requires dx > 0.0 && e >= 0.0 && t == Trunc(e / dx)
    ensures t as real * dx <= e < (t + 1) as real * dx
  {
    DivNonNegative(e, dx);
    Sandwich(e, dx, t as real, (t + 1) as real);
  }

  /** The unit cube at the origin. */
  const UnitBox := Box(Vec3(0.0, 0.0, 0.0), Vec3(1.0, 1.0, 1.0))

  /** As written, nothing checks that a resolution target exceeds twice the
      padding: three targets of 3 with padding 2 leave `3 - 4 = -1` inner cells, so
      `dx` comes out negative and the placed grid is inside out; a single target of
      3 does the same in proportional mode. */
  lemma PaddingSwallowsTargets()
    ensures var r := FitGrid(true, [3.0, 3.0, 3.0], 2, UnitBox);
      r.Fitted? && r.grid.dx < 0.0 && !Encloses(r.grid.bounds, UnitBox, 0.0)
    ensures var r := FitGrid(true, [3.0], 2, UnitBox);
      r.Fitted? && r.grid.dx < 0.0 && !Encloses(r.grid.bounds, UnitBox, 0.0)
  {
    assert Trunc(3.0) == 3;
    var m := FitGrid(true, [3.0, 3.0, 3.0], 2, UnitBox);
    assert m == Fitted(Place(3, 3, 3, -1.0, 2, UnitBox));
    assert m.grid.bounds.lo.x == 2.0;
    assert Trunc(-0.5) == 0;
    var q := FitGrid(true, [3.0], 2, UnitBox);
    assert q == Fitted(Place(3, 4, 4, -1.0, 2, UnitBox));
    assert q.grid.bounds.lo.x == 2.0;
  }

  /** Every resolution target exceeds twice the padding that will be in force. */
  predicate TargetsClearPadding(dims: seq<real>, padding: int)
  {
    var p := Clamp(ChosenPadding(true, dims, padding));
    if |dims| >= 3 then forall a: Axis :: Target(dims, a) > 2 * p
    else |dims| >= 1 ==> Trunc(dims[0]) > 2 * p
  }

  /** The fitter with the missing check: in a resolution mode, a target of at most
      twice the padding is a usage error, like a target below one cell. */
  function FitGridChecked(stl: bool, dims: seq<real>, padding: int, box: Box): Fit
  {
    if stl && |dims| >= 1 && !TargetsClearPadding(dims, padding) then UsageError
    else FitGrid(stl, dims, padding, box)
  }

  /** With the check, every grid a resolution mode fits holds the mesh: manual
      mode keeps `p` cells to spare on every side, proportional mode at least
      `p - 1/4`; and the check only ever turns an outcome into a usage error. */
  lemma CheckedResolutionEncloses(dims: seq<real>, padding: int, box: Box)
    requires Ordered(box)
    ensures var r := FitGridChecked(true, dims, padding, box);
      && (r.Fitted? ==> r.grid.dx >= 0.0 && r.grid.padding >= 1)
      && (r.Fitted? && |dims| >= 3 ==> PaddingSpare(r.grid, box) && HoldsMesh(r.grid, box))
      && (r.Fitted? && |dims| <= 2 ==> QuarterShortOfPadding(r.grid, box) && RoundsToNearest(r.grid, box))
    ensures FitGridChecked(true, dims, padding, box) == FitGrid(true, dims, padding, box) ||
      FitGridChecked(true, dims, padding, box).UsageError?
  {
    var r := FitGridChecked(true, dims, padding, box);
    if r.Fitted? {
      FittedPadding(true, dims, padding, box);
      if |dims| >= 3 {
        ManualEncloses(dims, padding, box);
      } else {
        ProportionalEncloses(dims, padding, box);
      }
    }
  }
}
