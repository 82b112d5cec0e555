# SDFGen mesh topology and grid sizing, modelled in Dafny

SDFGen computes signed distance fields from triangle meshes. This project models
three parts of it and proves their properties.

- **Mesh topology** (common/mesh_repair.cpp):
  - the canonical `Edge` key and its order;
  - `analyze_mesh_detailed` / `analyze_mesh`, which build the edge-to-triangle map,
    classify the edges, and trace boundary loops;
  - `weld_vertices`, which merges vertices through a spatial hash grid, remaps the
    faces, and drops the faces that collapse;
  - `triangulate_hole`, which fills a hole by ear clipping;
  - `repair_mesh`, which welds, analyses, and fills every hole.
- **Command-line grid fitter** (`main` in app/main.cpp). It turns the positional
  dimension values, the padding and the mesh bounding box into cell counts, a cell
  size `dx` and padded bounds. It has three modes:
  - proportional (STL input, one or two values; a second value below 20 is the
    padding);
  - manual (STL input, three or more values; values after the third are ignored);
  - cell-size (OBJ input).
- **Python sizing helpers** `generate_from_mesh` and `generate_from_file`
  (sdfgen/__init__.py). These are a second, different sizing rule in front of the
  same kernel.

## Modelling choices

- Every operation is a pure function over sequences and maps.
  - `std::map<Edge, std::vector<int>>` becomes a table kept sorted by the key order.
    This makes the map's ascending iteration order explicit.
  - A `std::set` becomes an ascending sequence without repeats.
  - The loop tracer's `UINT_MAX` marker is kept as `Boundary.NoVertex`. It
    means both "no previous vertex" and "no next vertex", so a face corner with
    the index 4294967295 changes the loops traced, as in the code
    (`Fixtures.MarkedCornerHidesHole`).
- Floating-point tests are parameters:
  - `cellOf` is the grid cell of a position;
  - `near` is `length(q - p) < tolerance`;
  - `degenerate` is the `length(normal) < 1e-10` ear test.
- Exact-real instances of these parameters are provided: `Weld.RealCell`,
  `Weld.RealNear` and `Repair.RealDegenerate`. With them, the model proves that the
  27-cell scan of the weld finds every vertex within tolerance.
- The sizing arithmetic is done over `real`.
  - `(int)` is truncation toward zero, defined only when the value fits in 32 bits.
  - The conversion of an `int` to `unsigned` wraps modulo 2^32.
  - A division by zero gives an IEEE infinity or NaN (`Floats.Quotient`). Both
    `std::max` and Python's `max` keep their current value unless a later one
    compares greater, and every comparison with NaN is false. So a NaN ratio that
    is not the first argument is passed over, and the grid is sized by the others
    (`Floats.NaNPassedOver`).
  - A non-finite value that does reach the grid is the explicit outcome
    `Undefined` in the command-line model. In the Python model it is `NonFinite`:
    `int()` of an infinite or NaN ceiling raises, or a non-finite `dx` reaches the
    origin.
- The mesh bounding box is an input to the sizing functions.
- The analysis takes its inputs by value and is a pure function. Analysing an
  unchanged mesh twice therefore gives the same report, and no buffer is modified.

Independent reference definitions serve as partners for the operations:

- `EdgeTable.EdgeSet` is the set of sides of all faces.
- `EdgeTable.Occurrences` is the list of incident face indices per edge.
- `Analysis.BoundaryEdgeSet` is the set of edges with exactly one face.
- `Repair.FanFromLast` / `Repair.FanFromFirst` are the two extreme triangulations.
- `Weld.Dedup` is the list of first occurrences of each position.
- `GridFit.ChosenPadding` is the padding in force, before clamping.

## Model

| member | source | states |
|---|---|---|
| Mesh.MakeEdge | common/mesh_repair.cpp:15-17 | the key stores the smaller endpoint first, and its two ends are exactly `a` and `b` |
| Mesh.EdgeKeyLaws | common/mesh_repair.cpp:15-21 | `Edge(a,b)` and `Edge(b,a)` are the same key; two keys are equal exactly when they join the same two vertices; `operator<` is irreflexive and total on keys |
| Mesh.LessTransitive | common/mesh_repair.cpp:18-21 | `operator<` is transitive, so it is the strict order the map relies on |
| EdgeTable.Insert | common/mesh_repair.cpp:52-54 | inserting under an edge keeps the table strictly sorted by key, canonical and free of empty lists, and the key set gains exactly that edge |
| EdgeTable.InsertLookup | common/mesh_repair.cpp:52-54 | `push_back(t)`: the list under the inserted key gains `t` at its end, every other list is unchanged, and the table holds one more incidence |
| EdgeTable.AddFace | common/mesh_repair.cpp:47-55 | the three insertions of one triangle keep the table well formed, and its keys gain exactly the triangle's three sides |
| EdgeTable.AddFaceLookup | common/mesh_repair.cpp:47-55 | a triangle's index is appended to the list of each side once per side equal to it, so three incidences in all |
| EdgeTable.Build | common/mesh_repair.cpp:46-55 | the map after the triangle loop is sorted by key, with canonical keys and no empty list; its keys and lists are those of `EdgeTable.BuildMatchesReference` |
| EdgeTable.BuildMatchesReference | common/mesh_repair.cpp:46-55 | the map built by the triangle loop has as keys exactly the distinct sides of all faces, as the list under every edge the ascending indices of the faces having it as a side, and `3 * |faces|` incidences in all |
| EdgeTable.SortedKeysCount | common/mesh_repair.cpp:57 | the size of the sorted table (`edge_triangles.size()`) is its number of distinct keys |
| EdgeTable.CountWhereIsCardinality | common/mesh_repair.cpp:63-74 | counting the entries whose triangle count satisfies a test equals the number of distinct keys satisfying it |
| EdgeTable.CountDisjoint | common/mesh_repair.cpp:63-74 | entries counted by two exclusive tests (one face; more than two faces) are together at most the number of entries |
| Boundary.Link | common/mesh_repair.cpp:69-70 | linking a boundary edge adds both endpoints as adjacency keys and nothing else |
| Boundary.BoundaryAdjacency | common/mesh_repair.cpp:63-74 | every adjacency key has a neighbour, every neighbour is a key, and each listed pair is an edge with exactly one triangle |
| Boundary.AdjacencyFromKeys | common/mesh_repair.cpp:63-70 | the adjacency is determined by the one-triangle keys alone, linked in ascending key order |
| Boundary.AdjacencyClosed | common/mesh_repair.cpp:69-70 | neighbour lists only name keys, so the walk never leaves the key set |
| Boundary.InsertVertex | common/mesh_repair.cpp:67-68 | `std::set::insert`: the result stays ascending without repeats and its elements gain exactly the inserted vertex |
| Boundary.BoundaryVertices | common/mesh_repair.cpp:60-68 | the boundary vertex set is ascending and has exactly the adjacency keys as elements |
| Boundary.BoundaryKeysAre | common/mesh_repair.cpp:63-66 | the keys the classification loop treats as boundary are exactly the keys of entries with one triangle |
| Boundary.BoundaryKeysCount | common/mesh_repair.cpp:63-66 | `boundary_edges++` runs once per one-triangle entry |
| Boundary.BoundaryKeysSorted | common/mesh_repair.cpp:63-66 | the boundary keys are visited in strictly ascending order |
| Boundary.NextStep | common/mesh_repair.cpp:89-96 | the next vertex is the first neighbour that is not the previous vertex and is unvisited or the start; none means no neighbour qualifies |
| Boundary.Walk | common/mesh_repair.cpp:81-101 | a walk starts at its seed, never revisits or re-enters a visited vertex, and each step follows an adjacency; no step lands on the index `UINT_MAX`, which the tracer cannot tell from "no next vertex" |
| Boundary.TraceLoops | common/mesh_repair.cpp:77-106 | every recorded loop has at least three distinct vertices joined by adjacencies, avoids the already visited vertices, and no two loops share a vertex |
| Boundary.LoopsOf | common/mesh_repair.cpp:76-106 | the loops traced from the boundary vertex set are vertex-disjoint loops of the boundary adjacency |
| Boundary.SortedEdgesUnique | common/mesh_repair.cpp:63 | two strictly sorted key lists with the same elements are equal, so the map's iteration order is determined by its key set |
| Boundary.AscendingUnique | common/mesh_repair.cpp:78 | two ascending vertex lists with the same elements are equal, so the seed order is determined by the vertex set |
| Analysis.AnalyzeDetailed | common/mesh_repair.cpp:41-113 | the edge map it returns is well formed and every loop it records has at least three vertices |
| Analysis.Analyze | common/mesh_repair.cpp:115-118 | the summary of the detailed analysis: manifold exactly when no edge is non-manifold, watertight exactly when manifold with no boundary edge, and `total_edges` the size of the edge map; its counts are those of `Analysis.AnalyzeCounts` |
| Analysis.AnalyzeCounts | common/mesh_repair.cpp:57-74 | `total_edges`, `boundary_edges` and `non_manifold_edges` are the numbers of distinct edges, of edges with one face, and of edges with more than two faces; the last two together never exceed the first |
| Analysis.KeysWhereMatchReference | common/mesh_repair.cpp:63-74 | the keys the classification selects by triangle count are the edges whose occurrence count passes the same test |
| Analysis.WatertightIffEveryEdgeShared | common/mesh_repair.cpp:108-110 | manifold exactly when no edge has more than two faces, that is when `non_manifold_edges` is 0; watertight exactly when every edge has exactly two faces, equivalently no boundary edge and manifold |
| Analysis.ManifoldEdgeCount | common/mesh_repair.cpp:47-74 | on a manifold mesh, twice the edge count is three times the face count plus the boundary edges |
| Analysis.ClosedMeshReport | common/mesh_repair.cpp:41-113 | when every edge has two faces, the report is watertight and manifold with no boundary edge, no hole, and `3 * |faces| / 2` edges |
| Analysis.NoBoundaryNoHoles | common/mesh_repair.cpp:76-108 | a hole is only ever reported when some edge is a boundary edge |
| Analysis.EdgesHaveFaces | common/mesh_repair.cpp:47-55 | every edge of the mesh has at least one incident face |
| Analysis.AbsentEdgeHasNoFaces | common/mesh_repair.cpp:47-55 | an edge that is no side of any face has no incident face |
| Analysis.AdjacentMeansBoundaryEdge | common/mesh_repair.cpp:63-70 | two adjacent boundary vertices are joined by an edge with exactly one face |
| Analysis.AdjacencyKeysAreFaceVertices | common/mesh_repair.cpp:67-70 | every boundary vertex is a corner of some face |
| Analysis.LoopsAreBoundaryWalks | common/mesh_repair.cpp:76-108 | `num_holes` is the number of loops; each loop has at least three distinct face vertices, each consecutive pair joined by a boundary edge; different loops share no vertex |
| Analysis.LoopsFromBoundary | common/mesh_repair.cpp:63-108 | given the boundary edges in ascending order and the seeds in ascending order, the loops are those traced from the seeds over the adjacency the edges induce, and `boundary_edges` is the number of those edges |
| Analysis.LoopVerticesInRange | common/mesh_repair.cpp:76-106 | when the faces index into `n` vertices, so do all loop vertices |
| Analysis.EmptyMeshIsWatertight | tests/test_mesh_repair.cpp:242-251 | the empty mesh has no edges and no boundary edges, and counts as manifold and watertight |
| Weld.Offset | common/mesh_repair.cpp:210-213 | the `k`-th iteration of the three nested loops visits the offset whose digits in base 3 are `dx+1`, `dy+1`, `dz+1` |
| Weld.OffsetOnto | common/mesh_repair.cpp:210-213 | every cell adjacent to the vertex's cell is visited by one iteration of the nested loops |
| Weld.ScanBucket | common/mesh_repair.cpp:216-224 | the bucket scan returns the first listed vertex within tolerance, or none when no listed vertex is within tolerance |
| Weld.ScanFrom | common/mesh_repair.cpp:208-228 | a hit is an output vertex within tolerance of the new vertex |
| Weld.ScanFromMiss | common/mesh_repair.cpp:208-228 | a miss means no vertex filed in any of the 27 neighbour cells is within tolerance |
| Weld.Step | common/mesh_repair.cpp:202-239 | one vertex either is welded onto an output vertex within tolerance (`welded` grows) or is appended and maps to the new index; `vertex_map` grows by one entry and earlier entries are kept |
| Weld.StepKeepsGrid | common/mesh_repair.cpp:230-239 | the grid keeps filing every output vertex under its own cell, and a vertex is appended only when the scan missed |
| Weld.ScanMissIsGlobal | common/mesh_repair.cpp:204-228 | when `near` never relates positions more than one cell apart, a miss of the 27-cell scan means no output vertex is within tolerance |
| Weld.VertexMap | common/mesh_repair.cpp:193-240 | after the vertex loop, kept plus welded equals the input count and every `vertex_map` entry indexes an output vertex |
| Weld.VertexMapFaithful | common/mesh_repair.cpp:202-239 | every input vertex lands on an output vertex equal to it or within tolerance of it |
| Weld.VertexMapOrigin | common/mesh_repair.cpp:230-239 | every output vertex is an input vertex, copied unchanged, that maps to it |
| Weld.OutputSeparated | common/mesh_repair.cpp:202-240 | with compatible cells, no two output vertices are within tolerance of each other |
| Weld.WeldSeparated | common/mesh_repair.cpp:188-260 | on input where only equal positions are within tolerance, the output is the distinct positions in first-occurrence order |
| Weld.DedupAbsorbs | common/mesh_repair.cpp:230-239 | positions already seen add no output vertex: appending repeats leaves the distinct list unchanged |
| Weld.WeldSeparatedMap | common/mesh_repair.cpp:230-247 | on such input every vertex is mapped to its own position |
| Weld.RemapFaces | common/mesh_repair.cpp:243-247 | each face's three indices are replaced through `vertex_map`, order and count kept |
| Weld.KeepNonDegenerate | common/mesh_repair.cpp:250-255 | a face survives exactly when its three indices are distinct |
| Weld.KeepNonDegenerateOrder | common/mesh_repair.cpp:250-255 | the filter keeps face order: it distributes over concatenation |
| Weld.KeepNonDegenerateIdempotent | common/mesh_repair.cpp:250-255 | filtering an already filtered list changes nothing |
| Weld.WeldVertices | common/mesh_repair.cpp:188-261 | a tolerance that is not positive returns the buffers unchanged with 0 welded and needs nothing of the faces; faces that index the input buffer index the returned one; kept plus welded vertices equal the input count and no face is added; with a positive tolerance every face has three distinct corners |
| Weld.KeptIndices | common/mesh_repair.cpp:250-255 | reference for the filter: strictly increasing positions, exactly those of the faces with three distinct indices |
| Weld.KeepSelects | common/mesh_repair.cpp:250-255 | the filter's output is the faces at `KeptIndices`, in that order and no others |
| Weld.KeepAll | common/mesh_repair.cpp:250-255 | a list whose every face has three distinct indices passes the filter unchanged |
| Weld.WeldFaces | common/mesh_repair.cpp:242-258 | with a positive tolerance, a face survives exactly when it is the remapped image of an input face with three distinct corners; the survivors are the images of the input faces at `KeptIndices`, in increasing input order |
| Weld.RealInstanceCompatible | common/mesh_repair.cpp:197-220 | with exact arithmetic, cells of size `tolerance` and the test `length < tolerance` never relate vertices more than one cell apart |
| Weld.LatticeSeparated | common/mesh_repair.cpp:220 | under `length < tolerance` with a tolerance of at most 1, two positions with integer coordinates are near exactly when they are equal |
| Repair.PrevNextAreModular | common/mesh_repair.cpp:152-153 | the neighbours of position `i` are `(i + n - 1) % n` and `(i + 1) % n`, and they are inverse to each other |
| Repair.Remove | common/mesh_repair.cpp:168 | `erase` drops one position and shifts the later ones down |
| Repair.FirstEar | common/mesh_repair.cpp:151-171 | the chosen position is the first whose ear is not degenerate; none means every ear is degenerate |
| Repair.Cut | common/mesh_repair.cpp:148-177 | the removed position is a valid index of the remaining loop |
| Repair.EarClip | common/mesh_repair.cpp:148-183 | a loop of `n >= 3` vertices yields `n - 2` triangles, all on loop vertices, all non-degenerate when the loop has no repeated vertex |
| Repair.Triangulate | common/mesh_repair.cpp:141-186 | a loop under three vertices yields nothing; otherwise `n - 2` triangles on loop vertices, each with distinct corners when the loop has distinct vertices |
| Repair.EarClipCoversLoop | common/mesh_repair.cpp:141-186 | every edge between consecutive loop vertices, closing edge included, is a side of some fill triangle |
| Repair.EarClipWithoutDegenerates | common/mesh_repair.cpp:151-171 | when no ear is degenerate, ear clipping is the fan that always cuts the first vertex |
| Repair.EarClipAllDegenerate | common/mesh_repair.cpp:173-177 | when every ear is degenerate, the fallback gives the fan around the first vertex |
| Repair.FillHoles | common/mesh_repair.cpp:286-294 | the fill has one triangle per loop vertex beyond two, indexes existing vertices, and has distinct corners when every loop has distinct vertices |
| Repair.FillHolesCoversLoops | common/mesh_repair.cpp:286-294 | every edge of every loop is a side of some fill triangle |
| Repair.RepairMesh | common/mesh_repair.cpp:263-307 | the result is the welded buffers with fill triangles appended only; a watertight welded mesh is returned unchanged with 0; otherwise the count is the number of holes found |
| Repair.RepairFillsLoops | common/mesh_repair.cpp:286-294 | when repair runs, the appended triangles have distinct corners and cover every edge of every loop |
| Repair.RepairSharesRimEdge | common/mesh_repair.cpp:263-307 | each loop edge had one face before the repair and has at least two after it |
| Repair.OccurrenceCountAppend | common/mesh_repair.cpp:290-292 | appending triangles adds their incidences to each edge's count |
| GridFit.ToUnsigned | app/main.cpp:214 | `Vec3ui(target_nx, ...)` converts modulo 2^32 and keeps values that fit |
| GridFit.Clamp | app/main.cpp:115 | the padding in force is at least one and at least the requested one, and a padding of at least one is kept |
| GridFit.Centred | app/main.cpp:218-223 | the placed interval is `n * dx` long and has the mesh centre as its centre |
| Floats.Quotient | app/main.cpp:141-143 | a float quotient by a count is finite exactly when the count is not zero, and then multiplies back to the numerator; otherwise it is NaN for `0/0` and an infinity with the numerator's sign |
| Floats.FiniteMaxima | app/main.cpp:144 | on finite values `std::max` and Python's `max` are at least every argument and equal to one of them |
| Floats.PyMax3FiniteResult | sdfgen/__init__.py:109-110 | a finite result of `max` over three values is at least every finite argument and equal to one of them; no argument is `+inf` and the first is not NaN |
| Floats.NaNPassedOver | app/main.cpp:144 | a NaN argument after the first is passed over by both maxima; a NaN first argument is the result |
| Floats.InfinityWins | sdfgen/__init__.py:110 | a positive infinity is the result of either maximum wherever it stands, unless a NaN comes first |
| GridFit.UsageErrorIff | app/main.cpp:72-171 | for values that fit in `int`: exit code 1 exactly when no value is given, or a target truncates to zero or less in proportional or manual mode; cell-size mode never rejects `dx` |
| GridFit.FittedPadding | app/main.cpp:107-115 | the padding used is the chosen one (option, or second value under 20 in proportional mode, or second value in cell-size mode), clamped to at least one |
| GridFit.FourthValueIgnored | app/main.cpp:128-132 | in manual mode values after the third are never read |
| GridFit.LargeSecondValueIgnored | app/main.cpp:107-109 | in proportional mode a second value of 20 or more is ignored |
| GridFit.Place | app/main.cpp:210-223 | resolution-mode bounds are `n * dx` long on each axis and centred on the mesh; a positive `int` target is kept as the size |
| GridFit.FitGrid | app/main.cpp:72-230 | no value at all is a usage error; every fitted grid has padding at least one; resolution modes centre the grid on the mesh; cell-size mode takes the first value as `dx`, puts `padding * dx` around the mesh, and never reports a usage error for a non-empty value list |
| GridFit.Proportional | app/main.cpp:104-127 | a fitted proportional grid keeps the truncated first value as a positive `Nx`, has padding at least one and a non-zero `dx`, and is centred on the mesh |
| GridFit.Manual | app/main.cpp:128-148 | a fitted manual grid has the three truncated targets, all positive, as its sizes, padding at least one, and is centred on the mesh |
| GridFit.CellSize | app/main.cpp:155-182 | a fitted cell-size grid has the first value, never zero, as `dx`, padding at least one, and bounds `padding * dx` outside the mesh on every side; this mode never reports a usage error |
| GridFit.ManualFlatAxis | app/main.cpp:141-144 | a flat axis whose target is twice the padding gives `0/0`; on x the spacing is NaN; on y `std::max(dx_y, dx_z)` is NaN and the outer `max` leaves `dx_x`, so the z ratio is dropped; on z the NaN is passed over |
| GridFit.ManualFlatYDropsZ | app/main.cpp:141-144 | targets `6 2 6` with padding 1 on a mesh 1 wide, flat in y and 100 deep: the grid is fitted with `dx = 0.25` and does not hold the mesh along z |
| GridFit.ManualShape | app/main.cpp:128-148 | manual mode keeps the three targets, centres the grid, and picks `dx` as the largest of the three ratios `extent / (N - 2p)` |
| GridFit.ManualEncloses | app/main.cpp:140-144 | when every target exceeds twice the padding, the manual grid holds the mesh with at least `padding * dx` to spare on every side |
| GridFit.ProportionalShape | app/main.cpp:104-127 | proportional mode keeps `Nx`, sets `dx` to `extent_x / (Nx - 2p)`, and sets `Ny`, `Nz` to the aspect ratio rounded half up plus `2p` |
| GridFit.RoundedCovers | app/main.cpp:121-122 | `(int)(s / dx + 0.5)` is the nearest count, so its cells fall short of the extent by under half a cell |
| GridFit.ProportionalEncloses | app/main.cpp:117-122 | when `Nx` exceeds twice the padding: `Nx` is kept and `dx > 0`; along x the mesh fills exactly `Nx - 2p` cells with `p * dx` outside it on each side; along y and z, `N - 2p` is the extent ratio rounded to the nearest integer; the grid holds the mesh with at least `p - 1/4` cells to spare on every side |
| GridFit.CellSizeShape | app/main.cpp:155-182 | cell-size mode uses the first value as `dx`, grows the box by `padding * dx`, and truncates the grown extent over `dx` to get each size |
| GridFit.CellSizeGrid | app/main.cpp:224-230 | with a positive `dx`: the sizes are the grown extent in whole cells rounded down, so the grid may stop short of the grown box but always reaches past the mesh |
| GridFit.PaddingSwallowsTargets | app/main.cpp:111-144 | targets of 3 with padding 2 give a negative `dx` and bounds that do not enclose the mesh, in manual and proportional mode |
| GridFit.CheckedResolutionEncloses | app/main.cpp:104-144 | with targets that must exceed twice the padding, every fitted resolution-mode grid has `dx >= 0` and encloses the mesh with its padding margin |
| PySizing.CeilDiv | sdfgen/__init__.py:105-106 | `ceil(e / dx)` is defined exactly when `dx != 0`, and for positive `dx` it is the least count of cells that reaches `e` |
| PySizing.MissingSizingIff | sdfgen/__init__.py:210-233 | the explicit `ValueError` of lines 230-233 is raised exactly when neither `dx` nor `nx` is given, and the mesh helper never raises it; the `ValueError` of `int()` on a NaN ceiling is the separate outcome `NonFinite` |
| PySizing.FromFileAgreesWithMesh | sdfgen/__init__.py:210-229 | with `nx` given, the file helper sizes exactly as the mesh helper, whether or not `dx` is given |
| PySizing.PaddingAdded | sdfgen/__init__.py:235-241 | a given count becomes that count plus `2 * padding`, a given `dx` is used unchanged, and the origin is `padding * dx` below the box's low corner |
| PySizing.MissingCountsRoundUp | sdfgen/__init__.py:212-217 | a missing count is the extent in cells rounded up, plus the padding |
| PySizing.ProportionalSpacing | sdfgen/__init__.py:103-104 | without `dx`, proportional sizing makes `nx * dx` equal the x extent |
| PySizing.FromMesh | sdfgen/__init__.py:100-118 | never the explicit `ValueError`; a sized grid has `nx + 2 * padding` cells along x, every given count plus `2 * padding`, and a given `dx` unchanged |
| PySizing.FromFile | sdfgen/__init__.py:209-241 | the explicit `ValueError` exactly when neither `nx` nor `dx` is given; a sized grid has every given count plus `2 * padding` and a given `dx` unchanged |
| PySizing.ManualSpacing | sdfgen/__init__.py:109-110 | without `dx`, manual sizing takes as `dx` the largest ratio `extent / n` over the axes with a non-zero count, equal to one of them; a zero count survives only on an axis whose extent is not positive, and on an ordered box `nx` is never zero |
| PySizing.ManualRatioFinite | sdfgen/__init__.py:109-110 | with three non-zero counts the manual `max` is finite and at least each ratio |
| PySizing.FlatAxisPassedOver | sdfgen/__init__.py:109-118 | a mesh flat in y with `ny = 0`: the NaN ratio is passed over, giving `dx = 1` and the grid `6 x 2 x 6` with origin `(-1, -1, -1)` for padding 1 |
| PySizing.ManualCovers | sdfgen/__init__.py:107-118 | manual sizing with positive counts covers the box |
| PySizing.ProportionalCovers | sdfgen/__init__.py:101-118 | proportional sizing from `nx` alone covers the box |
| PySizing.CellSizeCovers | sdfgen/__init__.py:210-217 | cell-size sizing with a positive `dx` covers the box |
| PySizing.PadCovers | sdfgen/__init__.py:112-118 | counts that reach across the box keep covering it once padded |
| PySizing.GivenSpacingMayFallShort | sdfgen/__init__.py:101-106 | a caller's `nx` with a caller's `dx` is taken on trust: one cell of 0.5 does not cover a unit cube |
| Fixtures.CubeIsWatertight | tests/test_mesh_repair.cpp:119-137 | the closed cube analyses as 18 edges, no boundary or non-manifold edge, no hole, manifold and watertight |
| Fixtures.HoledCubeHasOneHole | tests/test_mesh_repair.cpp:144-167 | the cube without its right side has 17 edges, 4 of them on the boundary, one hole `[1, 2, 6, 5]`, manifold and not watertight |
| Fixtures.RimTriangulation | common/mesh_repair.cpp:141-186 | the rim loop `[1, 2, 6, 5]` is filled by the triangles `(5,1,2)` and `(2,6,5)` when its first ear is proper |
| Fixtures.FirstEarIsProper | common/mesh_repair.cpp:159-164 | the exact ear test accepts the first ear `(5, 1, 2)` of the rim |
| Fixtures.RepairedCube | tests/test_mesh_repair.cpp:211-227 | repairing the holed cube without welding fills one hole and appends exactly two triangles |
| Fixtures.RepairedCubeIsWatertight | tests/test_mesh_repair.cpp:229-235 | the repaired cube is watertight again with 18 edges |
| Fixtures.RepairedCubeExactly | tests/test_mesh_repair.cpp:211-235 | the same repair with the exact geometric tests |
| StlFixture.StlCubeWelds | tests/test_mesh_repair.cpp:174-204 | at any tolerance in `(0, 1]` the 36 STL vertices weld to 8 with 28 reported welded; the vertices are the corners in first-occurrence order, every face survives as the cube with corners 1 and 2 exchanged, and the result is watertight with 18 edges |
| StlFixture.StlDedup | tests/test_mesh_repair.cpp:64-104 | the distinct STL positions in first-occurrence order are the eight corners of `WeldedCorners` |
| StlFixture.SwapOccurrences | common/mesh_repair.cpp:47-55 | relabelling the vertices by the exchange of 1 and 2 keeps the number of faces at every (relabelled) edge |
| StlFixture.WeldedCubeIsWatertight | tests/test_mesh_repair.cpp:197-204 | the relabelled cube analyses as 18 edges, no boundary or non-manifold edge, no hole, manifold and watertight |
| Fixtures.SingleTriangleIsOneHole | tests/test_mesh_repair.cpp:253-263 | a lone triangle has 3 edges, all on the boundary, one hole `[0, 1, 2]`, and is not watertight |
| Fixtures.MarkedCornerHidesHole | common/mesh_repair.cpp:81-104 | the lone triangle `(0, 1, 4294967295)` has 3 boundary edges but no hole: the walk from 0 stops at the `UINT_MAX` corner after two vertices and is dropped, and the walk from that corner finds no unvisited neighbour |

## Left out

- Printing (`print_mesh_analysis`, the status lines of `repair_mesh` and `main`): output only.
- File loading (`load_stl`, `load_obj`, `load_mesh`), the CLI11 parser, and the bounding box computation: the box is an input.
- The distance kernel (`generate_sdf`) and threading: these are outside the modelled core.
- Float rounding: geometry is exact reals, and the tolerance tests are parameters.
  The `1e-5` weld tolerance and the `1e-10` ear threshold appear only in the exact
  instances `Weld.RealNear` and `Repair.RealDegenerate`.
- `(int)std::floor(v * inv_tol)` overflow for huge coordinates: `Weld.RealCell`
  uses unbounded integers.
- The recomputation of the bounding box after `--fix` in `main` (app/main.cpp:196-208): the box is an input.
- The `-1` error return of `repair_mesh` promised in common/mesh_repair.h: the code never returns it.
- The closing edge of a boundary loop: a walk may stop at a dead end, so
  `Analysis.LoopsAreBoundaryWalks` promises a boundary edge between consecutive
  loop vertices only, as the code does.
- Weld.ScanFrom: the body fixes which earlier vertex wins when several are within
  tolerance: the first hit in the 27-cell order of `Weld.Offset`, then in bucket
  insertion order, as in the code. The contract promises only that a hit is within
  tolerance; it does not name the winner.
- PySizing.GivenSpacingMayFallShort: documented behaviour, not a defect. A caller
  who gives both a count and a spacing gets exactly what was asked for.

## Findings

| source | as written | input that shows it | evidently intended | confidence | as-written member | corrected member |
|---|---|---|---|---|---|---|
| app/main.cpp:111-144 | resolution modes check only `N > 0`, then divide the mesh extent by `N - 2 * padding` | three targets of 3 (or a single target of 3) with padding 2 on a unit cube: `dx = -1` and the placed bounds are inside out | a target must exceed twice the padding, like the check for `N > 0` | not executed | GridFit.PaddingSwallowsTargets | GridFit.CheckedResolutionEncloses |

## Code and documentation disagreements

The model follows the code in each case.

- In cell-size (OBJ) mode, the sizes are the grown extent over `dx` truncated by
  the `Vec3ui` conversion (app/main.cpp:229), not rounded up.
- Cell-size mode never rejects `dx`: every value, zero and negative included, gives
  a grid or `Undefined`, never a usage error (see `GridFit.UsageErrorIff`).
- In manual mode a flat axis whose target is exactly twice the padding gives the NaN
  `0/0`. `std::max` then passes over it, or on y drops the z ratio with it, so the
  grid may not hold the mesh (`GridFit.ManualFlatYDropsZ`). The corrected rule of
  the finding above (targets above twice the padding) excludes this case.
- In proportional mode, `Ny` and `Nz` are rounded to the nearest integer
  (app/main.cpp:121-122). The Python helpers round up instead
  (sdfgen/__init__.py:105-106, 213-217), and add the padding after sizing rather
  than inside the target.
- The `nx` docstring of `generate_from_mesh` (sdfgen/__init__.py:72) says `nx` sizes
  all dimensions when `ny` and `nz` are not given. The code sizes a missing `ny`
  or `nz` as its extent over `dx` rounded up, with `dx = extent_x / nx` unless
  `dx` is given. It takes this path when only one of the two is missing too
  (`PySizing.MissingCountsRoundUp`).
- The docstring of `generate_from_file` speaks of "exact dimensions" and a result of
  shape `(nx, ny, nz)` (sdfgen/__init__.py:168, 187). The code adds `2 * padding`
  to every count first (`PySizing.PaddingAdded`).
