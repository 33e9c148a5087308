# Heat map solver: a verified model of one simulation step

This project models the numerical core of a 2-D room heat-map simulator: the class
`HeatMapSolver` in `src/simulation.py`. One call of `solve_step` does five things:

1. It sizes a grid of square cells from the room polygon.
2. It builds a fresh grid or reuses the caller's grid.
3. It stamps circular heat sources into that grid in place.
4. It takes one explicit finite-difference diffusion step into a new grid, using a five-point stencil whose neighbours wrap round the grid edges.
5. It forces every cell outside the room back to the wall temperature.

The room's cells are found by `_rasterize_geometry`, an even-odd ray-casting test applied at every cell centre.

The project has four modules:

- `Arith` (`arith.dfy`) holds small facts about real multiplication and division that the geometric and grid proofs rely on.
- `Polygon` (`polygon.dfy`) covers the rasteriser:
  - the closed edge list;
  - the crossing count of the rightward ray;
  - the even-odd test;
  - the imperative `Rasterize`, with its loops over rows, columns and edges, proved equal to the test cell by cell;
  - properties of the test: where the intersection lies, points outside the bounding box, and independence from the starting vertex.
- `StepModel` (`step_model.dfy`) is the reference model of a step on grid values (`seq<seq<real>>`), built from:
  - the grid sizing (ceil);
  - the source window (`int()` truncation toward zero) and disk test;
  - the stencil with modular neighbours;
  - the wall reset;
  - the error paths.
  
  It also holds the properties of a step.
- `Solver` (`solver.dfy`) is the imperative step on `array2<real>`:
  - sources are stamped in place into the caller's array when its shape fits;
  - the diffusion writes a fresh array;
  - the mask assignments are `forall` statements.
  
  `SolveStep` is proved equal to `StepModel.Step` applied to the caller's grid as it was on entry. It also states what happens to the caller's array: stamped when reused, untouched otherwise.

Configuration (`Config`) is a value passed to every operation. It is read once when the solver is built and never changed afterwards.

## Model

| member | source | states |
|---|---|---|
| Polygon.Xs | src/simulation.py:71 | one x coordinate per vertex, in vertex order: the body takes the column poly[:, 0] |
| Polygon.Ys | src/simulation.py:72 | one y coordinate per vertex, in vertex order: the body takes the column poly[:, 1] |
| Polygon.MaxOf | src/simulation.py:71-72 | the result is at least every coordinate and equals one of them (the column maximum) |
| Polygon.Edges | src/simulation.py:26-32 | one edge per vertex; edge i joins vertex i to vertex i + 1 and the last edge joins the last vertex back to the first |
| Polygon.SuccIsModulo | src/simulation.py:31 | the successor index (i + 1) % n is i + 1 except for the last vertex, whose successor is 0 |
| Polygon.BuildEdges | src/simulation.py:26-32 | the edge-building loop yields exactly the closed edge list |
| Polygon.Center | src/simulation.py:38-40 | the centre i·dx + dx/2 of cell i lies strictly inside the cell, between i·dx and (i + 1)·dx, for a positive cell size |
| Polygon.Straddles | src/simulation.py:53 | an edge that spans the ray's height is not horizontal, so the intersection's division is defined |
| Polygon.XIntersect | src/simulation.py:55 | the intersection lies on the line through the edge: at the height of either endpoint it is that endpoint's x |
| Polygon.Crosses | src/simulation.py:53-57 | the body is the test at lines 53 and 56: the edge spans height y and the intersection lies strictly right of x |
| Polygon.CrossingCount | src/simulation.py:43-57 | the number of crossed edges is at most the number of edges |
| Polygon.Inside | src/simulation.py:59 | the body is the even-odd rule: the ray from the point crosses an odd number of edges of the closed edge list |
| Polygon.InsideCell | src/simulation.py:37-40 | the body applies the even-odd rule to the centre of cell (r, c): x from the column, y from the row |
| Polygon.CountCrossings | src/simulation.py:43-57 | the per-cell edge loop counts exactly the edges the rightward ray crosses |
| Polygon.Rasterize | src/simulation.py:11-62 | the mask is rows × cols and cell (r, c) is true exactly when its centre (c·dx + dx/2, r·dx + dx/2) is inside by the even-odd rule |
| Polygon.XIntersectBetween | src/simulation.py:53-56 | for a spanning edge, the intersection's x lies between the edge's two x coordinates |
| Polygon.EdgeNotCrossed | src/simulation.py:52-57 | an edge wholly at or left of the point, wholly at or below it, or wholly above it is not crossed |
| Polygon.OutsideBoundingBox | src/simulation.py:43-60 | a point at or right of every vertex, at or above every vertex, or below every vertex is outside |
| Polygon.EdgesRotate | src/simulation.py:26-32 | starting the vertex list at vertex k rotates the edge list by k |
| Polygon.CrossingCountRotate | src/simulation.py:43-57 | the crossing count does not depend on the starting vertex |
| Polygon.InsideRotationInvariant | src/simulation.py:59-60 | the even-odd verdict does not depend on the starting vertex |
| StepModel.Ceil | src/simulation.py:78-79 | the result is the least integer at or above its argument |
| StepModel.Trunc | src/simulation.py:103-106 | int() drops the fraction toward zero: within 1 below a non-negative argument, within 1 above a negative one |
| StepModel.CellCount | src/simulation.py:78-79 | for a positive cell size, the least n with n·res >= extent |
| StepModel.NegativeResolutionCount | src/simulation.py:78-79 | for a negative cell size the count is negative exactly when the extent is at least -res, and zero exactly when the extent lies in [0, -res) |
| StepModel.GridShape | src/simulation.py:70-79 | for a positive cell size, rows and cols are the least counts whose cells cover the largest y and x plus 1 m of padding |
| StepModel.SourceWindow | src/simulation.py:103-106 | the scanned index window lies within the grid: starts at or above 0, ends at or below rows and cols |
| StepModel.WithinRadius | src/simulation.py:112 | the body is the disk test: the squared distance from the source centre is at most the squared radius |
| StepModel.InDisk | src/simulation.py:108-112 | the body applies the disk test to the centre of cell (r, c) |
| StepModel.Covers | src/simulation.py:103-112 | a source covers only cells of the grid; the body requires the cell to be in the clipped window and its centre in the disk |
| StepModel.Stamped | src/simulation.py:94-113 | after the sources are applied in list order, a cell holds its old value or the temperature of one of the sources |
| StepModel.StampedUncovered | src/simulation.py:94-113 | a cell no source covers keeps its value |
| StepModel.StampedLastCoverWins | src/simulation.py:94-113 | a covered cell takes the temperature of the last covering source in the list |
| StepModel.AxisWindowContains | src/simulation.py:103-106 | along one axis, a cell whose centre is within the radius lies inside the truncated, clipped window |
| StepModel.DiskInBox | src/simulation.py:112 | a point in the disk lies in the disk's bounding box |
| StepModel.WindowContainsDisk | src/simulation.py:101-113 | for a non-negative radius, a source covers an in-grid cell exactly when the cell centre is in its disk: the window loses nothing |
| StepModel.Laplacian | src/simulation.py:130 | the Laplacian times dx² is the neighbours' total excess over four times the centre |
| StepModel.Stencil | src/simulation.py:130-133 | a cell whose four neighbours equal it is unchanged |
| StepModel.LaplacianSign | src/simulation.py:130 | the Laplacian has the sign of the neighbours' total excess over four times the centre |
| StepModel.StencilMovesTowardNeighbours | src/simulation.py:130-133 | with α·dt >= 0 a cell never cools when all neighbours are at least as warm, and never warms when all are at most as warm; with α·dt > 0 it warms iff the neighbours sum to more than 4× the cell, and cools iff they sum to less |
| StepModel.InitialGrid | src/simulation.py:84-90 | the new grid is rows × cols |
| StepModel.StampGrid | src/simulation.py:94-113 | stamping keeps the grid's shape |
| StepModel.DiffuseCell | src/simulation.py:123-133 | the body is the stencil of cell (r, c) with neighbours (r ± 1) mod rows and (c ± 1) mod cols, as the rolled copies give them |
| StepModel.DiffuseGrid | src/simulation.py:123-133 | the diffused grid keeps the grid's shape |
| StepModel.ResetWalls | src/simulation.py:135-137 | the reset keeps the grid's shape |
| StepModel.BaseGrid | src/simulation.py:81-92 | the starting grid has the computed shape |
| StepModel.Step | src/simulation.py:64-143 | a grid comes back only for a non-empty polygon, a non-zero cell size and non-negative computed dimensions, and it has those dimensions; the body sizes, starts, stamps, diffuses and resets walls in that order |
| StepModel.StepShape | src/simulation.py:64-92 | a step fails with EmptyGeometry on no vertices, then ZeroResolution on a zero cell size, then NegativeDimensions exactly when a computed dimension is negative; otherwise it returns a grid of the computed shape |
| StepModel.StepSucceeds | src/simulation.py:74-84 | with a positive cell size and the largest coordinates at least -1 m, a non-empty polygon always yields a grid |
| StepModel.StepWallsAtWallTemp | src/simulation.py:135-137 | every cell outside the room comes back at the wall temperature |
| StepModel.StepInsideIsStencil | src/simulation.py:115-133 | every room cell is the stencil of the stamped grid, with neighbours (r ± 1) mod rows and (c ± 1) mod cols |
| StepModel.StepIgnoresMismatchedGrid | src/simulation.py:82-90 | a given grid of the wrong shape gives the same step as no grid |
| StepModel.DiffuseCellFlat | src/simulation.py:125-133 | a cell whose four wrap-around neighbours equal it keeps its value |
| StepModel.FlatNeighbourhoodUnchanged | src/simulation.py:115-137 | a room cell whose stamped neighbours equal it is unchanged by the step |
| StepModel.UniformFieldKeepsRoomValue | src/simulation.py:115-137 | with no sources, a uniform grid at k keeps k in every room cell and every other cell comes back at the wall temperature |
| StepModel.WallTemperatureFieldIsFixed | src/simulation.py:115-137 | with no sources, a grid at the wall temperature everywhere is a fixed point of the step |
| StepModel.FreshCalmCell | src/simulation.py:84-113 | on a fresh grid, a room cell no source covers holds the initial room temperature after stamping |
| StepModel.FreshStartFarFieldUnchanged | src/simulation.py:81-137 | on a fresh start, a source-free room cell with source-free room neighbours stays at the initial room temperature |
| StepModel.DiffuseCellBelow | src/simulation.py:125-133 | with α·dt > 0, a cell with four colder neighbours becomes strictly colder |
| StepModel.DiffuseCellDirection | src/simulation.py:125-133 | with α·dt > 0, a cell rises iff its neighbours sum to more than 4× it, and falls iff they sum to less |
| StepModel.StepWarmsIffNeighboursWarmer | src/simulation.py:115-137 | with α·dt > 0, a room cell ends above its stamped value iff its wrap-around neighbours sum to more than 4× that value, and below it iff they sum to less |
| StepModel.SourceCellNotPinned | src/simulation.py:94-133 | sources are stamped before diffusion, so a source cell with colder neighbours ends strictly below the source temperature |
| StepModel.PaddingIsWall | src/simulation.py:74-79 | with cells of at most 2 m, the last row and the last column lie outside the room, so wrap-around neighbours across the seam are wall cells |
| StepModel.SquareRoomGridShape | src/simulation.py:70-79 | a 2 m × 2 m room at 0.1 m gives a 30 × 30 grid |
| Solver.AssignWhere | src/simulation.py:90 | the boolean-mask assignment sets exactly the selected cells and keeps the rest |
| Solver.StampSource | src/simulation.py:95-113 | after one source, a cell holds the source temperature exactly when the source covers it; otherwise its old value |
| Solver.StampSources | src/simulation.py:95-113 | after the source loop, every cell holds its old value stamped by the sources in list order |
| Solver.Diffuse | src/simulation.py:123-133 | the new array is fresh, has the same shape, and each cell is the stencil of the old one with modular neighbours |
| Solver.NewGrid | src/simulation.py:84-90 | the fresh grid equals the initial grid (room temperature inside, wall temperature elsewhere) and the mask is the even-odd mask |
| Solver.Advance | src/simulation.py:94-137 | the grid ends up stamped in place; the result is fresh and equals the wall reset of the diffused stamped grid |
| Solver.MismatchedStartsAfresh | src/simulation.py:82 | a caller grid whose array shape differs from the computed shape is not reused |
| Solver.SolveStep | src/simulation.py:64-143 | the result is the reference step on the caller's grid as it was on entry; the errors are the same; a reused caller grid holds the stamped values, and any other caller grid is unchanged |

## Left out

- Configuration loading (`src/simulation.py:5-9`, `src/utils.py`) is file I/O. Its values are the `Config` parameter.
- The web layer in `src/app.py` is not part of this model. This includes the routes and the global grid it keeps between requests.
- Floating point: the model computes in exact reals, with no float64 rounding, inf or NaN.
- The Laplacian is written as two divisions by dx rather than one division by dx². In the reals these are the same number.
- A zero cell size makes the source convert an infinite or undefined cell count with `int()`, which raises. The model returns the single error `ZeroResolution` for every such case.
- A negative cell size is not rejected by itself, in either the source or the model. With res < 0 the count ceil((max + 1) / res) along an axis depends on that axis's largest coordinate. It is negative, and the step returns `NegativeDimensions`, when max + 1 >= -res. It is 0 when 0 <= max + 1 < -res, which gives an empty grid unless the other axis is negative. It is positive, and the step computes normally, when max < -1 m (`NegativeResolutionCount`). The properties about sizing, windows and the stencil's direction assume a positive cell size.
- numpy dtypes: `np.full` with an integer wall temperature creates an integer array. Room and source temperatures written into it would then be truncated. The model's grid is real-valued throughout.
- Malformed vertices (not pairs of numbers) are excluded by the types.
- `GridShape`, `CellCount`: their bounds are stated only for a positive cell size.
- `InitialGrid`, `StampGrid`, `DiffuseGrid`, `ResetWalls`, `BaseGrid`: their own contracts state only the shape. Their cell values are stated by the lemmas about `Step` and by the `Solver` methods.
- What the step does not do:
  - It has no insulated (Neumann) boundary: the grid edges wrap round (`np.roll`). For cells of at most 2 m, room cells read wall cells across the seam, by `PaddingIsWall`; with larger cells the last row or column can itself lie inside the room (a 2.9 m square with 4 m cells is a single room cell that wraps onto itself).
  - It has no convection term.
  - It has no stability check: any α, dt and cell size are stepped.
  - It does not hold source cells at their temperature: sources are stamped before the diffusion step (`SourceCellNotPinned`).
  - It does not size the grid from the polygon's extent alone: each axis gets ceil((max + 1) / res) cells, 30 × 30 for the 2 m square at 0.1 m (`SquareRoomGridShape`).
  - It keeps no session, step counter or reset operation. The caller passes the previous grid, or none.
