/** HeatMapSolver.solve_step on arrays: the grid is a two-dimensional array that the sources
    are stamped into in place (the caller's grid, when its shape fits), the diffusion step
    writes a new array, and the wall reset overwrites that new array through the mask. Each
    method is proved against the reference model in StepModel. */
module Solver {

  import opened Polygon
  import opened StepModel

  /** The values held by a two-dimensional array, row by row. */
  function Cells(a: array2<real>): (g: Grid)
    reads a
    ensures HasShape(g, a.Length0, a.Length1)
  {
    seq(a.Length0, r requires 0 <= r < a.Length0 reads a =>
      seq(a.Length1, c requires 0 <= c < a.Length1 reads a => a[r, c]))
  }

  /** The array's values are the grid g when they agree with g cell by cell. */
  lemma CellsMatch(a: array2<real>, g: Grid)
    requires HasShape(g, a.Length0, a.Length1)
    requires forall r, c :: 0 <= r < a.Length0 && 0 <= c < a.Length1 ==> a[r, c] == g[r][c]
    ensures Cells(a) == g
  {
    var cells := Cells(a);
    forall r, c | 0 <= r < a.Length0 && 0 <= c < a.Length1
      ensures cells[r][c] == g[r][c]
    {
    }
    GridsEqual(cells, g, a.Length0, a.Length1);
  }

  /** Boolean-mask assignment grid[mask == selected] = value: the cells whose mask entry is
      selected take value, every other cell keeps its value. */
  method AssignWhere(grid: array2<real>, mask: array2<bool>, selected: bool, value: real)
    requires mask.Length0 == grid.Length0 && mask.Length1 == grid.Length1
    modifies grid
    ensures forall r, c :: 0 <= r < grid.Length0 && 0 <= c < grid.Length1 ==>
      grid[r, c] == if mask[r, c] == selected then value else old(grid[r, c])
  {
    forall r, c | 0 <= r < grid.Length0 && 0 <= c < grid.Length1 && mask[r, c] == selected {
      grid[r, c] := value;
    }
  }

  /** Applies one circular source in place: scans the source's clipped index window row by
      row and sets every cell whose centre lies in the disk to the source temperature. */
  method StampSource(grid: array2<real>, s: HeatSource, res: real)
    requires res != 0.0
    modifies grid
    ensures forall r, c :: 0 <= r < grid.Length0 && 0 <= c < grid.Length1 ==>
      grid[r, c] == if Covers(s, res, grid.Length0, grid.Length1, r, c) then s.temperature else old(grid[r, c])
  {
    var rows, cols := grid.Length0, grid.Length1;
    var w := SourceWindow(s, res, rows, cols);
    var r := w.rowStart;
    while r < w.rowEnd
      invariant w.rowStart <= r
      invariant forall i, j :: 0 <= i < rows && 0 <= j < cols ==>
        grid[i, j] == if i < r && InWindow(w, i, j) && InDisk(s, res, i, j) then s.temperature else old(grid[i, j])
      decreases w.rowEnd - r
    {
      var y := Center(r, res);
      var c := w.colStart;
      while c < w.colEnd
        invariant w.colStart <= c
        invariant forall i, j :: 0 <= i < rows && 0 <= j < cols ==>
          grid[i, j] == if (i < r || (i == r && j < c)) && InWindow(w, i, j) && InDisk(s, res, i, j) then s.temperature else old(grid[i, j])
        decreases w.colEnd - c
      {
        var x := Center(c, res);
        if WithinRadius(s, x, y) {
          grid[r, c] := s.temperature;
        }
        c := c + 1;
      }
      r := r + 1;
    }
  }

  /** Applies the sources in list order, so a later source overwrites an earlier one. */
  method StampSources(grid: array2<real>, sources: seq<HeatSource>, res: real)
    requires res != 0.0
    modifies grid
    ensures forall r, c :: 0 <= r < grid.Length0 && 0 <= c < grid.Length1 ==>
      grid[r, c] == Stamped(old(grid[r, c]), sources, res, grid.Length0, grid.Length1, r, c)
  {
    for k := 0 to |sources|
      invariant forall r, c :: 0 <= r < grid.Length0 && 0 <= c < grid.Length1 ==>
        grid[r, c] == Stamped(old(grid[r, c]), sources[..k], res, grid.Length0, grid.Length1, r, c)
    {
      StampSource(grid, sources[k], res);
      assert sources[..k + 1][..k] == sources[..k];
    }
    assert sources[..|sources|] == sources;
  }

  /** One explicit step into a new array: every cell is the stencil of u, with neighbours
      taken modulo the grid size as the rolled copies of u give them. */
  method Diffuse(u: array2<real>, alpha: real, dt: real, dx: real) returns (v: array2<real>)
    requires dx != 0.0
    ensures fresh(v) && v.Length0 == u.Length0 && v.Length1 == u.Length1
    ensures forall r, c :: 0 <= r < u.Length0 && 0 <= c < u.Length1 ==>
      v[r, c] == Stencil(u[r, c], u[(r + 1) % u.Length0, c], u[(r - 1) % u.Length0, c],
        u[r, (c + 1) % u.Length1], u[r, (c - 1) % u.Length1], alpha, dt, dx)
  {
    var rows, cols := u.Length0, u.Length1;
    v := new real[rows, cols];
    forall r, c | 0 <= r < rows && 0 <= c < cols {
      v[r, c] := Stencil(u[r, c], u[(r + 1) % rows, c], u[(r - 1) % rows, c],
        u[r, (c + 1) % cols], u[r, (c - 1) % cols], alpha, dt, dx);
    }
  }

  /** The caller's grid is reused (and stamped in place) when the geometry yields a valid
      shape equal to the grid's own. */
  predicate Reuses(geometry: seq<Point>, cfg: Config, a: array2<real>)
  {
    |geometry| > 0 && cfg.gridResolution != 0.0 &&
    var s := GridShape(geometry, cfg.gridResolution);
    a.Length0 == s.rows && a.Length1 == s.cols
  }

  /** A new grid for the given shape: wall temperature everywhere, then room temperature on
      the cells the polygon's mask selects. Returns the grid and the mask. */
  method NewGrid(geometry: seq<Point>, cfg: Config, rows: nat, cols: nat) returns (grid: array2<real>, mask: array2<bool>)
    ensures fresh(grid) && grid.Length0 == rows && grid.Length1 == cols
    ensures Cells(grid) == InitialGrid(geometry, cfg, rows, cols)
    ensures fresh(mask) && mask.Length0 == rows && mask.Length1 == cols
    ensures forall r, c :: 0 <= r < rows && 0 <= c < cols ==> (mask[r, c] <==> InsideCell(geometry, cfg.gridResolution, r, c))
  {
    grid := new real[rows, cols]((r, c) => cfg.wallTemp);
    mask := Rasterize(geometry, rows, cols, cfg.gridResolution);
    AssignWhere(grid, mask, true, cfg.initialRoomTemp);
    CellsMatch(grid, InitialGrid(geometry, cfg, rows, cols));
  }

  /** Stamps the sources into grid in place, takes the diffusion step into a new array and
      resets the cells outside the mask of that array to the wall temperature. */
  method Advance(geometry: seq<Point>, cfg: Config, grid: array2<real>, mask: array2<bool>) returns (next: array2<real>)
    requires cfg.gridResolution != 0.0
    requires mask.Length0 == grid.Length0 && mask.Length1 == grid.Length1
    requires forall r, c :: 0 <= r < grid.Length0 && 0 <= c < grid.Length1 ==>
      (mask[r, c] <==> InsideCell(geometry, cfg.gridResolution, r, c))
    modifies grid
    ensures Cells(grid) == StampGrid(old(Cells(grid)), cfg, grid.Length0, grid.Length1)
    ensures fresh(next)
    ensures Cells(next) == ResetWalls(DiffuseGrid(Cells(grid), grid.Length0, grid.Length1,
      cfg.thermalDiffusivity, cfg.timeStepSeconds, cfg.gridResolution), geometry, cfg, grid.Length0, grid.Length1)
  {
    var rows, cols := grid.Length0, grid.Length1;
    ghost var base := Cells(grid);
    StampSources(grid, cfg.heatSources, cfg.gridResolution);
    ghost var u := StampGrid(base, cfg, rows, cols);
    CellsMatch(grid, u);

    next := Diffuse(grid, cfg.thermalDiffusivity, cfg.timeStepSeconds, cfg.gridResolution);
    ghost var v := DiffuseGrid(u, rows, cols, cfg.thermalDiffusivity, cfg.timeStepSeconds, cfg.gridResolution);
    forall r, c | 0 <= r < rows && 0 <= c < cols
      ensures next[r, c] == v[r][c]
    {
      assert v[r][c] == DiffuseCell(u, rows, cols, cfg.thermalDiffusivity, cfg.timeStepSeconds, cfg.gridResolution, r, c);
    }

    AssignWhere(next, mask, false, cfg.wallTemp);
    CellsMatch(next, ResetWalls(v, geometry, cfg, rows, cols));
  }

  /** A caller's grid whose array shape differs from a valid computed shape is not reused by
      the reference step either: it starts from the initial grid. */
  lemma MismatchedStartsAfresh(geometry: seq<Point>, cfg: Config, a: Grid, length0: nat, length1: nat, rows: nat, cols: nat)
    requires HasShape(a, length0, length1) && (length0 != rows || length1 != cols)
    ensures BaseGrid(geometry, cfg, Some(a), rows, cols) == InitialGrid(geometry, cfg, rows, cols)
  {
    if rows > 0 {
      assert |a| == rows ==> |a[0]| == length1 != cols;
    }
    // with no rows, both grids are empty
  }

  /** One simulation step. The result is the reference step applied to the caller's grid as
      it was on entry; a reused caller grid ends up holding the stamped values, and any other
      caller grid is left alone. */
  method SolveStep(geometry: seq<Point>, cfg: Config, current: Option<array2<real>>) returns (result: Result<array2<real>>)
    modifies if current.Some? then {current.value} else {}
    ensures var before := if current.Some? then Some(old(Cells(current.value))) else None;
      var expected := Step(geometry, cfg, before);
      (expected.Err? ==> result == Err(expected.error)) &&
      (expected.Ok? ==> result.Ok? && fresh(result.value) && Cells(result.value) == expected.value)
    ensures current.Some? && Reuses(geometry, cfg, current.value) ==>
      Cells(current.value) == StampGrid(old(Cells(current.value)), cfg, current.value.Length0, current.value.Length1)
    ensures current.Some? && !Reuses(geometry, cfg, current.value) ==> unchanged(current.value)
  {
    ghost var before := if current.Some? then Some(Cells(current.value)) else None;
    if |geometry| == 0 {
      return Err(EmptyGeometry);
    }
    if cfg.gridResolution == 0.0 {
      return Err(ZeroResolution);
    }
    var shape := GridShape(geometry, cfg.gridResolution);
    if shape.rows < 0 || shape.cols < 0 {
      return Err(NegativeDimensions(shape.rows, shape.cols));
    }
    var rows: nat, cols: nat := shape.rows, shape.cols;
    ghost var base := BaseGrid(geometry, cfg, before, rows, cols);
    var grid: array2<real>;
    var mask: array2<bool>;
    if current.None? || current.value.Length0 != rows || current.value.Length1 != cols {
      grid, mask := NewGrid(geometry, cfg, rows, cols);
      if current.Some? {
        MismatchedStartsAfresh(geometry, cfg, before.value, current.value.Length0, current.value.Length1, rows, cols);
      }
    } else {
      grid := current.value;
      mask := Rasterize(geometry, rows, cols, cfg.gridResolution);
    }
    assert Cells(grid) == base;
    var next := Advance(geometry, cfg, grid, mask);
    result := Ok(next);
  }
}
