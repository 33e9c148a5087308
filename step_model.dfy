/** The reference model of one call of HeatMapSolver.solve_step, on grid values: size the
    grid from the polygon, (re)initialise it, stamp the circular heat sources into it, take
    one explicit five-point diffusion step with wrap-around neighbours, and force every cell
    outside the room back to the wall temperature. */
module StepModel {

  import opened Arith
  import opened Polygon

  // ---------------------------------------------------------------------------
  // Configuration and results

  /** A circular source: every cell whose centre lies within radius of (x, y) is set to
      temperature. */
  datatype HeatSource = HeatSource(x: real, y: real, radius: real, temperature: real)

  /** The solver's configuration, fixed when the solver is built. */
  datatype Config = Config(
    gridResolution: real,     // cell size dx, metres
    wallTemp: real,
    initialRoomTemp: real,
    thermalDiffusivity: real, // alpha
    timeStepSeconds: real,    // dt
    heatSources: seq<HeatSource>)

  datatype Option<T> = None | Some(value: T)

  /** Why a step fails: the vertex list is empty (the coordinate columns cannot be taken),
      the cell size is zero (the cell counts are infinite or undefined and cannot be made
      integers), or the computed grid has a negative dimension (it cannot be allocated). */
  datatype StepError = EmptyGeometry | ZeroResolution | NegativeDimensions(rows: int, cols: int)

  datatype Result<T> = Ok(value: T) | Err(error: StepError)

  datatype Shape = Shape(rows: int, cols: int)

  /** The half-open index window [rowStart, rowEnd) × [colStart, colEnd) scanned for a source. */
  datatype Window = Window(rowStart: int, rowEnd: int, colStart: int, colEnd: int)

  // ---------------------------------------------------------------------------
  // Grid sizing

  /** Rounding up to an integer (ceil). */
  function Ceil(v: real): (n: int)
    ensures n as real - 1.0 < v <= n as real
  {
    if v.Floor as real == v then v.Floor else v.Floor + 1
  }

  /** Conversion of a real to an integer by dropping the fraction, rounding toward zero. */
  function Trunc(v: real): (n: int)
    ensures 0.0 <= v ==> 0 <= n && n as real <= v < n as real + 1.0
    ensures v < 0.0 ==> n <= 0 && n as real - 1.0 < v <= n as real
  {
    if v >= 0.0 then v.Floor else -((-v).Floor)
  }

  /** The number of cells of size res needed to cover extent: the least n with n·res >= extent. */
  function CellCount(extent: real, res: real): (n: int)
    requires res != 0.0
    ensures res > 0.0 ==> (n - 1) as real * res < extent <= n as real * res
  {
    if res > 0.0 then CeilScaled(extent, res); Ceil(extent / res)
    else Ceil(extent / res)
  }

  lemma CeilScaled(extent: real, res: real)
    requires res > 0.0
    ensures var n := Ceil(extent / res); (n - 1) as real * res < extent <= n as real * res
  {
    var q := extent / res;
    var n := Ceil(q);
    assert q * res == extent;
    ScaleLess((n - 1) as real, q, res);
    ScaleAtMost(q, n as real, res);
  }

  /** A negative cell size is not rejected: the cell count is negative exactly when the extent
      is at least |res|, zero when the extent lies in [0, |res|), and positive otherwise. */
  lemma NegativeResolutionCount(extent: real, res: real)
    requires res < 0.0
    ensures CellCount(extent, res) < 0 <==> extent >= -res
    ensures CellCount(extent, res) == 0 <==> 0.0 <= extent < -res
  {
    var d := -res;
    var q := extent / res;
    var m := extent / d;
    assert m * d == extent;
    assert q == -m by {
      assert q * res == extent;
      assert (-m) * res == m * d;
    }
    if extent >= d {
      DivAtLeast(extent, 1.0, d);
    } else if extent >= 0.0 {
      DivSign(extent, d);
      assert m < 1.0 by {
        if m >= 1.0 {
          ScaleAtMost(1.0, m, d);
        }
      }
    } else {
      DivSign(extent, d);
    }
  }

  /** Grid dimensions: enough cells to cover the largest vertex coordinate plus one metre
      of padding, along each axis. */
  function GridShape(poly: seq<Point>, res: real): (s: Shape)
    requires |poly| > 0 && res != 0.0
    ensures res > 0.0 ==> (s.rows - 1) as real * res < MaxOf(Ys(poly)) + 1.0 <= s.rows as real * res
    ensures res > 0.0 ==> (s.cols - 1) as real * res < MaxOf(Xs(poly)) + 1.0 <= s.cols as real * res
  {
    Shape(CellCount(MaxOf(Ys(poly)) + 1.0, res), CellCount(MaxOf(Xs(poly)) + 1.0, res))
  }

  // ---------------------------------------------------------------------------
  // Heat sources

  /** The index window scanned for a source: the source's bounding box in cell units,
      clipped below at 0 and above at the grid size, each bound truncated to an integer. */
  function SourceWindow(s: HeatSource, res: real, rows: nat, cols: nat): (w: Window)
    requires res != 0.0
    ensures 0 <= w.rowStart && w.rowEnd <= rows
    ensures 0 <= w.colStart && w.colEnd <= cols
  {
    Window(
      Trunc(Max(0.0, (s.y - s.radius) / res)),
      Trunc(Min(rows as real, (s.y + s.radius) / res + 1.0)),
      Trunc(Max(0.0, (s.x - s.radius) / res)),
      Trunc(Min(cols as real, (s.x + s.radius) / res + 1.0)))
  }

  predicate InWindow(w: Window, r: int, c: int)
  {
    w.rowStart <= r < w.rowEnd && w.colStart <= c < w.colEnd
  }

  /** The point (x, y) lies in the closed disk of the source: its squared distance from the
      source's centre is at most the squared radius. */
  predicate WithinRadius(s: HeatSource, x: real, y: real)
  {
    (x - s.x) * (x - s.x) + (y - s.y) * (y - s.y) <= s.radius * s.radius
  }

  /** The centre of cell (r, c) lies in the closed disk of the source. */
  predicate InDisk(s: HeatSource, res: real, r: int, c: int)
  {
    WithinRadius(s, Center(c, res), Center(r, res))
  }

  /** The source sets cell (r, c): the cell is in its scan window and its centre in its disk. */
  predicate Covers(s: HeatSource, res: real, rows: nat, cols: nat, r: int, c: int)
    requires res != 0.0
    ensures Covers(s, res, rows, cols, r, c) ==> 0 <= r < rows && 0 <= c < cols
  {
    InWindow(SourceWindow(s, res, rows, cols), r, c) && InDisk(s, res, r, c)
  }

  /** The value of a cell that held v after the sources are applied in order: v itself or
      the temperature of one of the sources. */
  function Stamped(v: real, sources: seq<HeatSource>, res: real, rows: nat, cols: nat, r: int, c: int): (t: real)
    requires res != 0.0
    ensures t == v || exists k :: 0 <= k < |sources| && t == sources[k].temperature
  {
    if sources == [] then v
    else
      var last := sources[|sources| - 1];
      if Covers(last, res, rows, cols, r, c) then last.temperature
      else
        var prefix := sources[..|sources| - 1];
        var t := Stamped(v, prefix, res, rows, cols, r, c);
        assert forall k :: 0 <= k < |prefix| ==> prefix[k] == sources[k];
        t
  }

  /** A cell no source covers keeps its value. */
  lemma {:induction false} StampedUncovered(v: real, sources: seq<HeatSource>, res: real, rows: nat, cols: nat, r: int, c: int)
    requires res != 0.0
    requires forall k :: 0 <= k < |sources| ==> !Covers(sources[k], res, rows, cols, r, c)
    ensures Stamped(v, sources, res, rows, cols, r, c) == v
  {
    if sources != [] {
      StampedUncovered(v, sources[..|sources| - 1], res, rows, cols, r, c);
    }
  }

  /** A covered cell takes the temperature of the last source in the list that covers it. */
  lemma {:induction false} StampedLastCoverWins(v: real, sources: seq<HeatSource>, res: real, rows: nat, cols: nat, r: int, c: int, k: nat)
    requires res != 0.0
    requires k < |sources| && Covers(sources[k], res, rows, cols, r, c)
    requires forall j :: k < j < |sources| ==> !Covers(sources[j], res, rows, cols, r, c)
    ensures Stamped(v, sources, res, rows, cols, r, c) == sources[k].temperature
  {
    if k < |sources| - 1 {
      StampedLastCoverWins(v, sources[..|sources| - 1], res, rows, cols, r, c, k);
    }
  }

  /** Along one axis, a cell whose centre is within rad of p is inside the clipped window. */
  lemma AxisWindowContains(p: real, rad: real, res: real, n: nat, i: nat)
    requires res > 0.0 && rad >= 0.0 && i < n
    requires p - rad <= Center(i, res) <= p + rad
    ensures Trunc(Max(0.0, (p - rad) / res)) <= i < Trunc(Min(n as real, (p + rad) / res + 1.0))
  {
    var half := i as real + 0.5;
    assert Center(i, res) == half * res;
    DivAtMost(p - rad, half, res);
    DivAtLeast(p + rad, half, res);
  }

  /** A point in the disk lies in the disk's bounding box. */
  lemma DiskInBox(s: HeatSource, x: real, y: real)
    requires s.radius >= 0.0 && WithinRadius(s, x, y)
    ensures s.x - s.radius <= x <= s.x + s.radius
    ensures s.y - s.radius <= y <= s.y + s.radius
  {
    var dx, dy := x - s.x, y - s.y;
    SquareNonNegative(dx);
    SquareNonNegative(dy);
    SquareBound(dx, s.radius);
    SquareBound(dy, s.radius);
  }

  /** Clipping to the window loses nothing: for a non-negative radius, an in-grid cell whose
      centre lies in the disk is covered. */
  lemma WindowContainsDisk(s: HeatSource, res: real, rows: nat, cols: nat, r: nat, c: nat)
    requires res > 0.0 && s.radius >= 0.0
    requires r < rows && c < cols
    ensures Covers(s, res, rows, cols, r, c) <==> InDisk(s, res, r, c)
  {
    if InDisk(s, res, r, c) {
      DiskInBox(s, Center(c, res), Center(r, res));
      AxisWindowContains(s.y, s.radius, res, rows, r);
      AxisWindowContains(s.x, s.radius, res, cols, c);
    }
  }

  // ---------------------------------------------------------------------------
  // The five-point stencil

  /** Discrete Laplacian of a cell from its four neighbours, for cell size dx: the
      neighbours' excess over the centre divided by dx² (written as two divisions by dx,
      which is the same real number). */
  function Laplacian(center: real, up: real, down: real, left: real, right: real, dx: real): (l: real)
    requires dx != 0.0
    ensures l * (dx * dx) == up + down + left + right - 4.0 * center
  {
    (up + down + left + right - 4.0 * center) / dx / dx
  }

  /** One explicit step of a cell: u + alpha·dt·laplacian. A cell whose four neighbours
      share its value is left unchanged. */
  function Stencil(center: real, up: real, down: real, left: real, right: real, alpha: real, dt: real, dx: real): (t: real)
    requires dx != 0.0
    ensures up == center && down == center && left == center && right == center ==> t == center
  {
    center + alpha * dt * Laplacian(center, up, down, left, right, dx)
  }

  /** The Laplacian has the sign of the neighbours' total excess over the centre. */
  lemma LaplacianSign(center: real, up: real, down: real, left: real, right: real, dx: real)
    requires dx > 0.0
    ensures var excess := up + down + left + right - 4.0 * center;
      (excess >= 0.0 ==> Laplacian(center, up, down, left, right, dx) >= 0.0) &&
      (excess <= 0.0 ==> Laplacian(center, up, down, left, right, dx) <= 0.0) &&
      (excess < 0.0 ==> Laplacian(center, up, down, left, right, dx) < 0.0) &&
      (excess > 0.0 ==> Laplacian(center, up, down, left, right, dx) > 0.0)
  {
    var excess := up + down + left + right - 4.0 * center;
    DivSign(excess, dx);
    DivSign(excess / dx, dx);
  }

  /** With alpha·dt >= 0 the stencil moves a cell toward its neighbours: it never cools when
      all four are at least as warm and never warms when all four are at most as warm. With
      alpha·dt > 0 it warms exactly when the four neighbours sum to more than four times the
      cell, and cools exactly when they sum to less. */
  lemma StencilMovesTowardNeighbours(center: real, up: real, down: real, left: real, right: real, alpha: real, dt: real, dx: real)
    requires dx > 0.0 && alpha * dt >= 0.0
    ensures up >= center && down >= center && left >= center && right >= center ==>
      Stencil(center, up, down, left, right, alpha, dt, dx) >= center
    ensures up <= center && down <= center && left <= center && right <= center ==>
      Stencil(center, up, down, left, right, alpha, dt, dx) <= center
    ensures alpha * dt > 0.0 ==>
      (Stencil(center, up, down, left, right, alpha, dt, dx) > center <==> up + down + left + right > 4.0 * center)
    ensures alpha * dt > 0.0 ==>
      (Stencil(center, up, down, left, right, alpha, dt, dx) < center <==> up + down + left + right < 4.0 * center)
  {
    LaplacianSign(center, up, down, left, right, dx);
    ProductSign(alpha * dt, Laplacian(center, up, down, left, right, dx));
  }

  // ---------------------------------------------------------------------------
  // Reference model on grid values

  type Grid = seq<seq<real>>

  predicate HasShape(g: Grid, rows: int, cols: int)
  {
    |g| == rows && forall r :: 0 <= r < |g| ==> |g[r]| == cols
  }

  /** A new grid: room temperature inside the polygon, wall temperature elsewhere. */
  function InitialGrid(poly: seq<Point>, cfg: Config, rows: nat, cols: nat): (g: Grid)
    ensures HasShape(g, rows, cols)
  {
    seq(rows, r => seq(cols, c =>
      if InsideCell(poly, cfg.gridResolution, r, c) then cfg.initialRoomTemp else cfg.wallTemp))
  }

  /** Every source applied, in order, to every cell. */
  function StampGrid(g: Grid, cfg: Config, rows: nat, cols: nat): (u: Grid)
    requires cfg.gridResolution != 0.0 && HasShape(g, rows, cols)
    ensures HasShape(u, rows, cols)
  {
    seq(rows, r requires 0 <= r < rows => seq(cols, c requires 0 <= c < cols =>
      Stamped(g[r][c], cfg.heatSources, cfg.gridResolution, rows, cols, r, c)))
  }

  /** One stencil step of cell (r, c) of u, its neighbours taken modulo the grid size
      (toroidal): up is row r + 1, down row r - 1, left column c + 1, right column c - 1. */
  function DiffuseCell(u: Grid, rows: nat, cols: nat, alpha: real, dt: real, dx: real, r: nat, c: nat): real
    requires dx != 0.0 && HasShape(u, rows, cols) && r < rows && c < cols
  {
    Stencil(u[r][c], u[(r + 1) % rows][c], u[(r - 1) % rows][c], u[r][(c + 1) % cols], u[r][(c - 1) % cols],
      alpha, dt, dx)
  }

  /** One stencil step of every cell. */
  function DiffuseGrid(u: Grid, rows: nat, cols: nat, alpha: real, dt: real, dx: real): (v: Grid)
    requires dx != 0.0 && HasShape(u, rows, cols)
    ensures HasShape(v, rows, cols)
  {
    seq(rows, r requires 0 <= r < rows => seq(cols, c requires 0 <= c < cols =>
      DiffuseCell(u, rows, cols, alpha, dt, dx, r, c)))
  }

  /** Every cell outside the polygon forced to the wall temperature. */
  function ResetWalls(g: Grid, poly: seq<Point>, cfg: Config, rows: nat, cols: nat): (w: Grid)
    requires HasShape(g, rows, cols)
    ensures HasShape(w, rows, cols)
  {
    seq(rows, r requires 0 <= r < rows => seq(cols, c requires 0 <= c < cols =>
      if InsideCell(poly, cfg.gridResolution, r, c) then g[r][c] else cfg.wallTemp))
  }

  /** The grid a step starts from: the given one when its shape matches, a new one otherwise. */
  function BaseGrid(poly: seq<Point>, cfg: Config, current: Option<Grid>, rows: nat, cols: nat): (g: Grid)
    ensures HasShape(g, rows, cols)
  {
    if current.Some? && HasShape(current.value, rows, cols) then current.value
    else InitialGrid(poly, cfg, rows, cols)
  }

  /** The whole step on grid values. A grid comes back only from a non-empty polygon and a
      non-zero cell size whose computed dimensions are non-negative, and it has that shape. */
  function Step(poly: seq<Point>, cfg: Config, current: Option<Grid>): (r: Result<Grid>)
    ensures r.Ok? ==> |poly| > 0 && cfg.gridResolution != 0.0
    ensures r.Ok? ==> var s := GridShape(poly, cfg.gridResolution);
      s.rows >= 0 && s.cols >= 0 && HasShape(r.value, s.rows, s.cols)
  {
    if |poly| == 0 then Err(EmptyGeometry)
    else if cfg.gridResolution == 0.0 then Err(ZeroResolution)
    else
      var shape := GridShape(poly, cfg.gridResolution);
      if shape.rows < 0 || shape.cols < 0 then Err(NegativeDimensions(shape.rows, shape.cols))
      else
        var rows: nat := shape.rows;
        var cols: nat := shape.cols;
        var u := StampGrid(BaseGrid(poly, cfg, current, rows, cols), cfg, rows, cols);
        var v := DiffuseGrid(u, rows, cols, cfg.thermalDiffusivity, cfg.timeStepSeconds, cfg.gridResolution);
        Ok(ResetWalls(v, poly, cfg, rows, cols))
  }

  // ---------------------------------------------------------------------------
  // Properties of a step

  /** A step fails exactly on an empty vertex list, a zero cell size or a negative
      dimension, checked in that order; otherwise it returns a grid of the computed shape. */
  lemma StepShape(poly: seq<Point>, cfg: Config, current: Option<Grid>)
    ensures |poly| == 0 ==> Step(poly, cfg, current) == Err(EmptyGeometry)
    ensures |poly| > 0 && cfg.gridResolution == 0.0 ==> Step(poly, cfg, current) == Err(ZeroResolution)
    ensures |poly| > 0 && cfg.gridResolution != 0.0 ==>
      var s := GridShape(poly, cfg.gridResolution);
      (Step(poly, cfg, current).Ok? <==> s.rows >= 0 && s.cols >= 0) &&
      (Step(poly, cfg, current).Ok? ==> HasShape(Step(poly, cfg, current).value, s.rows, s.cols)) &&
      (Step(poly, cfg, current).Err? ==> Step(poly, cfg, current).error == NegativeDimensions(s.rows, s.cols))
  {
  }

  /** With a positive cell size and no vertex coordinate below -1 m, the grid has no negative
      dimension, so a non-empty polygon always gives a grid. */
  lemma StepSucceeds(poly: seq<Point>, cfg: Config, current: Option<Grid>)
    requires |poly| > 0 && cfg.gridResolution > 0.0
    requires MaxOf(Xs(poly)) >= -1.0 && MaxOf(Ys(poly)) >= -1.0
    ensures Step(poly, cfg, current).Ok?
  {
    var s := GridShape(poly, cfg.gridResolution);
    NonNegativeCount(s.rows, cfg.gridResolution);
    NonNegativeCount(s.cols, cfg.gridResolution);
  }

  /** Every cell outside the polygon comes back at the wall temperature. */
  lemma StepWallsAtWallTemp(poly: seq<Point>, cfg: Config, current: Option<Grid>, r: nat, c: nat)
    requires Step(poly, cfg, current).Ok?
    requires r < |Step(poly, cfg, current).value| && c < |Step(poly, cfg, current).value[r]|
    requires !InsideCell(poly, cfg.gridResolution, r, c)
    ensures Step(poly, cfg, current).value[r][c] == cfg.wallTemp
  {
  }

  /** Every cell inside the polygon is the stencil of the stamped grid, with neighbours
      taken modulo the grid size. */
  lemma StepInsideIsStencil(poly: seq<Point>, cfg: Config, current: Option<Grid>, r: nat, c: nat)
    requires cfg.gridResolution != 0.0 && |poly| > 0
    requires GridShape(poly, cfg.gridResolution).rows > r && GridShape(poly, cfg.gridResolution).cols > c
    requires InsideCell(poly, cfg.gridResolution, r, c)
    ensures
      var s := GridShape(poly, cfg.gridResolution);
      var u := StampGrid(BaseGrid(poly, cfg, current, s.rows, s.cols), cfg, s.rows, s.cols);
      Step(poly, cfg, current).Ok? &&
      Step(poly, cfg, current).value[r][c] ==
        Stencil(u[r][c], u[(r + 1) % s.rows][c], u[(r - 1) % s.rows][c], u[r][(c + 1) % s.cols], u[r][(c - 1) % s.cols],
          cfg.thermalDiffusivity, cfg.timeStepSeconds, cfg.gridResolution)
  {
    var s := GridShape(poly, cfg.gridResolution);
    var rows: nat, cols: nat := s.rows, s.cols;
    var u := StampGrid(BaseGrid(poly, cfg, current, rows, cols), cfg, rows, cols);
    var v := DiffuseGrid(u, rows, cols, cfg.thermalDiffusivity, cfg.timeStepSeconds, cfg.gridResolution);
    assert Step(poly, cfg, current) == Ok(ResetWalls(v, poly, cfg, rows, cols));
    assert ResetWalls(v, poly, cfg, rows, cols)[r][c] == v[r][c];
    assert v[r][c] == DiffuseCell(u, rows, cols, cfg.thermalDiffusivity, cfg.timeStepSeconds, cfg.gridResolution, r, c);
  }

  /** Two grids of the same shape that agree on every cell are equal. */
  lemma GridsEqual(a: Grid, b: Grid, rows: nat, cols: nat)
    requires HasShape(a, rows, cols) && HasShape(b, rows, cols)
    requires forall r, c :: 0 <= r < rows && 0 <= c < cols ==> a[r][c] == b[r][c]
    ensures a == b
  {
    forall r | 0 <= r < rows
      ensures a[r] == b[r]
    {
      assert |a[r]| == cols == |b[r]|;
    }
  }

  /** A given grid of the wrong shape is ignored: the step is the same as a fresh start. */
  lemma StepIgnoresMismatchedGrid(poly: seq<Point>, cfg: Config, g: Grid)
    requires cfg.gridResolution != 0.0 && |poly| > 0
    requires var s := GridShape(poly, cfg.gridResolution); !HasShape(g, s.rows, s.cols)
    ensures Step(poly, cfg, Some(g)) == Step(poly, cfg, None)
  {
  }

  /** A cell whose four wrap-around neighbours share its value keeps that value. */
  lemma DiffuseCellFlat(u: Grid, rows: nat, cols: nat, alpha: real, dt: real, dx: real, r: nat, c: nat)
    requires dx != 0.0 && HasShape(u, rows, cols) && r < rows && c < cols
    requires u[(r + 1) % rows][c] == u[r][c] && u[(r - 1) % rows][c] == u[r][c]
    requires u[r][(c + 1) % cols] == u[r][c] && u[r][(c - 1) % cols] == u[r][c]
    ensures DiffuseCell(u, rows, cols, alpha, dt, dx, r, c) == u[r][c]
  {
  }

  /** A cell inside the room whose four wrap-around neighbours in the stamped grid all share
      its value is unchanged by the step: its Laplacian is zero. */
  lemma FlatNeighbourhoodUnchanged(poly: seq<Point>, cfg: Config, current: Option<Grid>, r: nat, c: nat)
    requires cfg.gridResolution != 0.0 && |poly| > 0
    requires GridShape(poly, cfg.gridResolution).rows > r && GridShape(poly, cfg.gridResolution).cols > c
    requires InsideCell(poly, cfg.gridResolution, r, c)
    requires
      var s := GridShape(poly, cfg.gridResolution);
      var u := StampGrid(BaseGrid(poly, cfg, current, s.rows, s.cols), cfg, s.rows, s.cols);
      u[(r + 1) % s.rows][c] == u[r][c] && u[(r - 1) % s.rows][c] == u[r][c] &&
      u[r][(c + 1) % s.cols] == u[r][c] && u[r][(c - 1) % s.cols] == u[r][c]
    ensures
      var s := GridShape(poly, cfg.gridResolution);
      var u := StampGrid(BaseGrid(poly, cfg, current, s.rows, s.cols), cfg, s.rows, s.cols);
      Step(poly, cfg, current).Ok? && Step(poly, cfg, current).value[r][c] == u[r][c]
  {
    var s := GridShape(poly, cfg.gridResolution);
    var rows: nat, cols: nat := s.rows, s.cols;
    var alpha, dt, res := cfg.thermalDiffusivity, cfg.timeStepSeconds, cfg.gridResolution;
    var u := StampGrid(BaseGrid(poly, cfg, current, rows, cols), cfg, rows, cols);
    assert DiffuseCell(u, rows, cols, alpha, dt, res, r, c) == u[r][c] by {
      DiffuseCellFlat(u, rows, cols, alpha, dt, res, r, c);
    }
    assert Step(poly, cfg, current).Ok? && Step(poly, cfg, current).value[r][c] == DiffuseCell(u, rows, cols, alpha, dt, res, r, c) by {
      StepInsideIsStencil(poly, cfg, current, r, c);
    }
  }

  /** Without sources, a grid of the right shape that holds one value k everywhere keeps k in
      every cell of the room, and every other cell comes back at the wall temperature. */
  lemma UniformFieldKeepsRoomValue(poly: seq<Point>, cfg: Config, g: Grid, k: real)
    requires cfg.gridResolution != 0.0 && |poly| > 0 && cfg.heatSources == []
    requires var s := GridShape(poly, cfg.gridResolution); s.rows >= 0 && s.cols >= 0 && HasShape(g, s.rows, s.cols)
    requires forall r, c :: 0 <= r < |g| && 0 <= c < |g[r]| ==> g[r][c] == k
    ensures Step(poly, cfg, Some(g)).Ok?
    ensures forall r, c :: 0 <= r < |g| && 0 <= c < |g[r]| ==>
      Step(poly, cfg, Some(g)).value[r][c] == if InsideCell(poly, cfg.gridResolution, r, c) then k else cfg.wallTemp
  {
    var s := GridShape(poly, cfg.gridResolution);
    var rows: nat, cols: nat := s.rows, s.cols;
    var u := StampGrid(BaseGrid(poly, cfg, Some(g), rows, cols), cfg, rows, cols);
    assert u == g by {
      GridsEqual(u, g, rows, cols);
    }
    forall r, c | 0 <= r < |g| && 0 <= c < |g[r]|
      ensures Step(poly, cfg, Some(g)).value[r][c] == if InsideCell(poly, cfg.gridResolution, r, c) then k else cfg.wallTemp
    {
      if InsideCell(poly, cfg.gridResolution, r, c) {
        FlatNeighbourhoodUnchanged(poly, cfg, Some(g), r, c);
      }
    }
  }

  /** Without sources, a grid at the wall temperature everywhere is a fixed point of the step. */
  lemma WallTemperatureFieldIsFixed(poly: seq<Point>, cfg: Config, g: Grid)
    requires cfg.gridResolution != 0.0 && |poly| > 0 && cfg.heatSources == []
    requires var s := GridShape(poly, cfg.gridResolution); s.rows >= 0 && s.cols >= 0 && HasShape(g, s.rows, s.cols)
    requires forall r, c :: 0 <= r < |g| && 0 <= c < |g[r]| ==> g[r][c] == cfg.wallTemp
    ensures Step(poly, cfg, Some(g)) == Ok(g)
  {
    var s := GridShape(poly, cfg.gridResolution);
    UniformFieldKeepsRoomValue(poly, cfg, g, cfg.wallTemp);
    GridsEqual(Step(poly, cfg, Some(g)).value, g, s.rows, s.cols);
  }

  /** Cell (r, c) of the stamped grid is the cell of g with the sources applied. */
  lemma StampGridCell(g: Grid, cfg: Config, rows: nat, cols: nat, r: nat, c: nat)
    requires cfg.gridResolution != 0.0 && HasShape(g, rows, cols) && r < rows && c < cols
    ensures StampGrid(g, cfg, rows, cols)[r][c] == Stamped(g[r][c], cfg.heatSources, cfg.gridResolution, rows, cols, r, c)
  {
  }

  /** Cell (r, c) is in the room and no source covers it. */
  predicate Calm(poly: seq<Point>, cfg: Config, rows: nat, cols: nat, r: int, c: int)
    requires cfg.gridResolution != 0.0
  {
    InsideCell(poly, cfg.gridResolution, r, c) &&
    forall k :: 0 <= k < |cfg.heatSources| ==> !Covers(cfg.heatSources[k], cfg.gridResolution, rows, cols, r, c)
  }

  /** On a fresh grid, a calm cell holds the initial room temperature after stamping. */
  lemma FreshCalmCell(poly: seq<Point>, cfg: Config, rows: nat, cols: nat, r: nat, c: nat)
    requires cfg.gridResolution != 0.0 && r < rows && c < cols
    requires Calm(poly, cfg, rows, cols, r, c)
    ensures StampGrid(BaseGrid(poly, cfg, None, rows, cols), cfg, rows, cols)[r][c] == cfg.initialRoomTemp
  {
    var base := BaseGrid(poly, cfg, None, rows, cols);
    assert base[r][c] == cfg.initialRoomTemp;
    StampGridCell(base, cfg, rows, cols, r, c);
    StampedUncovered(base[r][c], cfg.heatSources, cfg.gridResolution, rows, cols, r, c);
  }

  /** On a fresh start, a calm room cell whose four wrap-around neighbours are calm room cells
      too stays at the initial room temperature. */
  lemma FreshStartFarFieldUnchanged(poly: seq<Point>, cfg: Config, r: nat, c: nat)
    requires cfg.gridResolution != 0.0 && |poly| > 0
    requires GridShape(poly, cfg.gridResolution).rows > r && GridShape(poly, cfg.gridResolution).cols > c
    requires
      var s := GridShape(poly, cfg.gridResolution);
      Calm(poly, cfg, s.rows, s.cols, r, c) &&
      Calm(poly, cfg, s.rows, s.cols, (r + 1) % s.rows, c) && Calm(poly, cfg, s.rows, s.cols, (r - 1) % s.rows, c) &&
      Calm(poly, cfg, s.rows, s.cols, r, (c + 1) % s.cols) && Calm(poly, cfg, s.rows, s.cols, r, (c - 1) % s.cols)
    ensures Step(poly, cfg, None).Ok? && Step(poly, cfg, None).value[r][c] == cfg.initialRoomTemp
  {
    var s := GridShape(poly, cfg.gridResolution);
    var rows: nat, cols: nat := s.rows, s.cols;
    FreshCalmCell(poly, cfg, rows, cols, r, c);
    FreshCalmCell(poly, cfg, rows, cols, (r + 1) % rows, c);
    FreshCalmCell(poly, cfg, rows, cols, (r - 1) % rows, c);
    FreshCalmCell(poly, cfg, rows, cols, r, (c + 1) % cols);
    FreshCalmCell(poly, cfg, rows, cols, r, (c - 1) % cols);
    FlatNeighbourhoodUnchanged(poly, cfg, None, r, c);
  }

  /** A cell at temperature t whose four wrap-around neighbours are all colder comes out of
      the stencil step strictly colder than t when alpha·dt > 0. */
  lemma DiffuseCellBelow(u: Grid, rows: nat, cols: nat, alpha: real, dt: real, dx: real, r: nat, c: nat, t: real)
    requires dx > 0.0 && alpha * dt > 0.0 && HasShape(u, rows, cols) && r < rows && c < cols
    requires u[r][c] == t
    requires u[(r + 1) % rows][c] < t && u[(r - 1) % rows][c] < t && u[r][(c + 1) % cols] < t && u[r][(c - 1) % cols] < t
    ensures DiffuseCell(u, rows, cols, alpha, dt, dx, r, c) < t
  {
    StencilMovesTowardNeighbours(u[r][c], u[(r + 1) % rows][c], u[(r - 1) % rows][c], u[r][(c + 1) % cols], u[r][(c - 1) % cols],
      alpha, dt, dx);
  }

  /** With alpha·dt > 0, the stencil step raises a cell exactly when its four wrap-around
      neighbours sum to more than four times it, and lowers it exactly when they sum to less. */
  lemma DiffuseCellDirection(u: Grid, rows: nat, cols: nat, alpha: real, dt: real, dx: real, r: nat, c: nat)
    requires dx > 0.0 && alpha * dt > 0.0 && HasShape(u, rows, cols) && r < rows && c < cols
    ensures var sum := u[(r + 1) % rows][c] + u[(r - 1) % rows][c] + u[r][(c + 1) % cols] + u[r][(c - 1) % cols];
      (DiffuseCell(u, rows, cols, alpha, dt, dx, r, c) > u[r][c] <==> sum > 4.0 * u[r][c]) &&
      (DiffuseCell(u, rows, cols, alpha, dt, dx, r, c) < u[r][c] <==> sum < 4.0 * u[r][c])
  {
    StencilMovesTowardNeighbours(u[r][c], u[(r + 1) % rows][c], u[(r - 1) % rows][c], u[r][(c + 1) % cols], u[r][(c - 1) % cols],
      alpha, dt, dx);
  }

  /** With alpha·dt > 0, a room cell comes out of the step warmer than its stamped value
      exactly when its four wrap-around neighbours sum to more than four times that value,
      and colder exactly when they sum to less. */
  lemma StepWarmsIffNeighboursWarmer(poly: seq<Point>, cfg: Config, current: Option<Grid>, r: nat, c: nat)
    requires cfg.gridResolution > 0.0 && |poly| > 0
    requires cfg.thermalDiffusivity * cfg.timeStepSeconds > 0.0
    requires GridShape(poly, cfg.gridResolution).rows > r && GridShape(poly, cfg.gridResolution).cols > c
    requires InsideCell(poly, cfg.gridResolution, r, c)
    ensures
      var s := GridShape(poly, cfg.gridResolution);
      var u := StampGrid(BaseGrid(poly, cfg, current, s.rows, s.cols), cfg, s.rows, s.cols);
      var sum := u[(r + 1) % s.rows][c] + u[(r - 1) % s.rows][c] + u[r][(c + 1) % s.cols] + u[r][(c - 1) % s.cols];
      Step(poly, cfg, current).Ok? &&
      (Step(poly, cfg, current).value[r][c] > u[r][c] <==> sum > 4.0 * u[r][c]) &&
      (Step(poly, cfg, current).value[r][c] < u[r][c] <==> sum < 4.0 * u[r][c])
  {
    var s := GridShape(poly, cfg.gridResolution);
    var rows: nat, cols: nat := s.rows, s.cols;
    var alpha, dt, res := cfg.thermalDiffusivity, cfg.timeStepSeconds, cfg.gridResolution;
    var u := StampGrid(BaseGrid(poly, cfg, current, rows, cols), cfg, rows, cols);
    var sum := u[(r + 1) % rows][c] + u[(r - 1) % rows][c] + u[r][(c + 1) % cols] + u[r][(c - 1) % cols];
    var d := DiffuseCell(u, rows, cols, alpha, dt, res, r, c);
    assert (d > u[r][c] <==> sum > 4.0 * u[r][c]) && (d < u[r][c] <==> sum < 4.0 * u[r][c]) by {
      DiffuseCellDirection(u, rows, cols, alpha, dt, res, r, c);
    }
    assert Step(poly, cfg, current).Ok? && Step(poly, cfg, current).value[r][c] == d by {
      StepInsideIsStencil(poly, cfg, current, r, c);
    }
  }

  /** Sources are stamped before the diffusion step, so a source cell is not pinned: when
      alpha·dt > 0 and its four stamped neighbours are all colder than the source, the cell
      comes back strictly below the source temperature. */
  lemma SourceCellNotPinned(poly: seq<Point>, cfg: Config, current: Option<Grid>, r: nat, c: nat, k: nat)
    requires cfg.gridResolution > 0.0 && |poly| > 0
    requires cfg.thermalDiffusivity * cfg.timeStepSeconds > 0.0
    requires GridShape(poly, cfg.gridResolution).rows > r && GridShape(poly, cfg.gridResolution).cols > c
    requires InsideCell(poly, cfg.gridResolution, r, c)
    requires
      var s := GridShape(poly, cfg.gridResolution);
      k < |cfg.heatSources| && Covers(cfg.heatSources[k], cfg.gridResolution, s.rows, s.cols, r, c) &&
      forall j :: k < j < |cfg.heatSources| ==> !Covers(cfg.heatSources[j], cfg.gridResolution, s.rows, s.cols, r, c)
    requires
      var s := GridShape(poly, cfg.gridResolution);
      var u := StampGrid(BaseGrid(poly, cfg, current, s.rows, s.cols), cfg, s.rows, s.cols);
      var t := cfg.heatSources[k].temperature;
      u[(r + 1) % s.rows][c] < t && u[(r - 1) % s.rows][c] < t && u[r][(c + 1) % s.cols] < t && u[r][(c - 1) % s.cols] < t
    ensures Step(poly, cfg, current).Ok? && Step(poly, cfg, current).value[r][c] < cfg.heatSources[k].temperature
  {
    var s := GridShape(poly, cfg.gridResolution);
    var rows: nat, cols: nat := s.rows, s.cols;
    var alpha, dt, res := cfg.thermalDiffusivity, cfg.timeStepSeconds, cfg.gridResolution;
    var t := cfg.heatSources[k].temperature;
    var base := BaseGrid(poly, cfg, current, rows, cols);
    var u := StampGrid(base, cfg, rows, cols);
    assert u[r][c] == t by {
      StampGridCell(base, cfg, rows, cols, r, c);
      StampedLastCoverWins(base[r][c], cfg.heatSources, res, rows, cols, r, c, k);
    }
    assert DiffuseCell(u, rows, cols, alpha, dt, res, r, c) < t by {
      DiffuseCellBelow(u, rows, cols, alpha, dt, res, r, c, t);
    }
    assert Step(poly, cfg, current).Ok? && Step(poly, cfg, current).value[r][c] == DiffuseCell(u, rows, cols, alpha, dt, res, r, c) by {
      StepInsideIsStencil(poly, cfg, current, r, c);
    }
  }

  /** When n cells of size res <= 2 cover m plus one metre, the centre of the last cell is
      at or beyond m. */
  lemma LastCenterBeyond(n: int, res: real, m: real)
    requires 0.0 < res <= 2.0 && m + 1.0 <= n as real * res
    ensures Center(n - 1, res) >= m
  {
    PredTimes(n, res);
  }

  /** With cells no larger than 2 m, the padding puts the centres of the last row and of the
      last column beyond every vertex, so those cells are outside the room (wall cells). */
  lemma PaddingIsWall(poly: seq<Point>, res: real, r: int, c: int)
    requires |poly| > 0 && 0.0 < res <= 2.0
    requires r == GridShape(poly, res).rows - 1 || c == GridShape(poly, res).cols - 1
    ensures !InsideCell(poly, res, r, c)
  {
    var s := GridShape(poly, res);
    var x, y := Center(c, res), Center(r, res);
    if c == s.cols - 1 {
      LastCenterBeyond(s.cols, res, MaxOf(Xs(poly)));
      assert x >= MaxOf(Xs(poly));
    } else {
      LastCenterBeyond(s.rows, res, MaxOf(Ys(poly)));
      assert y >= MaxOf(Ys(poly));
    }
    OutsideBoundingBox(poly, x, y);
  }

  /** The 2 m × 2 m square room with a corner at the origin, listed counter-clockwise. */
  function SquareRoom(): (poly: seq<Point>)
    ensures |poly| == 4
  {
    [Point(0.0, 0.0), Point(2.0, 0.0), Point(2.0, 2.0), Point(0.0, 2.0)]
  }

  /** Its largest coordinate is 2 m on both axes. */
  lemma SquareRoomExtent()
    ensures MaxOf(Xs(SquareRoom())) == 2.0 && MaxOf(Ys(SquareRoom())) == 2.0
  {
    var xs, ys := Xs(SquareRoom()), Ys(SquareRoom());
    assert xs[1] == 2.0 && ys[2] == 2.0;
    assert forall i :: 0 <= i < 4 ==> xs[i] <= 2.0 && ys[i] <= 2.0;
  }

  /** With 0.1 m cells the square room gives a 30 × 30 grid: 2 m plus 1 m of padding along
      each axis. */
  lemma SquareRoomGridShape()
    ensures GridShape(SquareRoom(), 0.1) == Shape(30, 30)
  {
    SquareRoomExtent();
    assert CellCount(3.0, 0.1) == 30 by {
      assert 3.0 / 0.1 == 30.0;
      assert Ceil(30.0) == 30;
    }
  }
}
