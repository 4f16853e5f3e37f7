/** The main loop of game_of_life_draft.py. Every frame converts the grid to a quadtree,
    advances it with `HashLife.next_generation`, converts it back and rebuilds the active set
    from the new grid; a click flips one cell and the space bar draws a new grid. The module
    globals `rows`, `cols`, `grid`, `active_cells` and `hashlife` become the fields of one
    object. */
module Draft {
  import opened Grids
  import opened Torus
  import opened Quadtree
  import opened Advance
  import opened Engine
  import opened Adapter
  import opened ActiveCells
  import opened ActiveLife

  /** The shape check of a frame: a grid of shape (hr, hc) other than (rows, cols) is padded
      with dead cells below and to the right up to at least rows x cols and then cut to
      rows x cols. Either way the result keeps the cells both shapes share and is dead
      elsewhere. */
  function Fit(h: Grid, hr: nat, hc: nat, rows: nat, cols: nat): (r: Grid)
    requires IsGrid(h, hr, hc)
    ensures IsGrid(r, rows, cols)
    ensures forall i, j :: 0 <= i < rows && 0 <= j < cols ==> r[i][j] == (i < hr && j < hc && h[i][j])
  {
    if hr == rows && hc == cols then h
    else Clip(PadTo(h, hr, hc, Max(hr, rows), Max(hc, cols)), rows, cols)
  }

  /** What one frame does with the grid: replace it with the advanced grid, or, when
      `next_generation` raises, fall into the `except` branch, which draws a random grid. */
  datatype FrameResult = Next(grid: Grid) | Redraw

  /** One frame on `g`: `grid_to_quadtree`, `next_generation` and `quadtree_to_grid`, then the
      shape check. `next_generation` raises on the single leaf that an empty grid encodes to. */
  ghost function Frame(g: Grid, rows: nat, cols: nat): (r: FrameResult)
    requires IsGrid(g, rows, cols)
    ensures r.Next? ==> IsGrid(r.grid, rows, cols)
  {
    match NextGenOutcome(Encode(g, rows, cols))
    case Failed(_) => Redraw
    case Advanced(n) =>
      var side := Pow2(Level(n));
      Next(Fit(ToGrid(n, rows, cols), Min(side, rows), Min(side, cols), rows, cols))
  }

  /** A frame falls into the `except` branch only for the empty grid: any grid with a row or a
      column encodes to a tree of level one or more. */
  lemma {:induction false} FrameAdvances(g: Grid, rows: nat, cols: nat)
    requires IsGrid(g, rows, cols)
    ensures Frame(g, rows, cols).Next? <==> rows + cols > 0
  {
    EncodeSide(g, rows, cols);
    if rows + cols == 0 {
      BitLengthBounds(0);
    }
  }

  /** Whatever the grid, a frame leaves every cell outside the top-left 4 x 4 corner dead:
      `next_generation` always yields a level-2 node, whose grid is 4 x 4. */
  lemma {:induction false} FrameConfined(g: Grid, rows: nat, cols: nat)
    requires IsGrid(g, rows, cols)
    ensures var r := Frame(g, rows, cols);
            r.Next? ==> forall i, j :: 0 <= i < rows && 0 <= j < cols && (i >= 4 || j >= 4) ==> !r.grid[i][j]
  {
    if rows + cols > 0 {
      FrameAdvances(g, rows, cols);
      var n := NextGen(Encode(g, rows, cols));
      assert Pow2(Level(n)) == 4;
    }
  }

  /** A dead grid stays dead from frame to frame. */
  lemma {:induction false} FrameKeepsDead(g: Grid, rows: nat, cols: nat)
    requires IsGrid(g, rows, cols) && Dead(g) && rows + cols > 0
    ensures Frame(g, rows, cols) == Next(g)
  {
    FrameAdvances(g, rows, cols);
    var r := Frame(g, rows, cols).grid;
    var root := Encode(g, rows, cols);
    EncodeEmpty(g, rows, cols);
    NextGenEmpty(root);
    var n := NextGen(root);
    EmptyIsDead(n);
    var full := FullGrid(n);
    forall i, j | 0 <= i < rows && 0 <= j < cols ensures r[i][j] == g[i][j] {
      if i < |full| && j < |full| {
        assert !full[i][j];
      }
    }
    GridsEqual(r, g, rows, cols);
  }

  /** The `try` block of a frame on the array: `grid_to_quadtree(grid)`,
      `hashlife.next_generation(root)` and `quadtree_to_grid(evolved_root, rows, cols)`, then
      the shape check. The new grid is a fresh array. When `next_generation` raises, the old
      array is handed back and `advanced` is false, for the caller's `except` branch. */
  method Generation(h: HashLife, a: array2<bool>) returns (b: array2<bool>, advanced: bool)
    requires h.Valid()
    modifies h
    ensures h.Valid() && Extends(old(h.cache), h.cache) && Extends(old(h.memo), h.memo)
    ensures b.Length0 == a.Length0 && b.Length1 == a.Length1
    ensures advanced <==> Frame(Contents(a), a.Length0, a.Length1).Next?
    ensures advanced ==> fresh(b) && Frame(Contents(a), a.Length0, a.Length1) == Next(Contents(b))
    ensures !advanced ==> b == a
  {
    var rows, cols := a.Length0, a.Length1;
    ghost var g := Contents(a);
    FrameAdvances(g, rows, cols);
    var root := GridToQuadtree(h, Contents(a), rows, cols);
    var o := h.NextGeneration(root);
    if o.Failed? {
      return a, false;
    }
    var n := o.node;
    var side := Pow2(Level(n));
    var fitted := Fit(ToGrid(n, rows, cols), Min(side, rows), Min(side, cols), rows, cols);
    b := ArrayOf(fitted, rows, cols);
    advanced := true;
  }

  class Simulation {
    const rows: nat
    const cols: nat
    /** The module-level `hashlife = HashLife()`, whose caches live as long as the program. */
    const hashlife: HashLife
    var grid: array2<bool>
    var active: set<Cell>

    ghost predicate Valid()
      reads this, hashlife
    {
      && rows > 0 && cols > 0
      && grid.Length0 == rows && grid.Length1 == cols
      && hashlife.Valid()
      && forall c :: c in active ==> InBounds(c, rows, cols)
    }

    /** The grid the object holds. */
    ghost function Cells(): Grid
      reads this, grid
    {
      Contents(grid)
    }

    /** Start-up: an empty engine, the grid the source draws at random (a parameter here) and
        `initialize_active_cells()`. */
    constructor (initial: Grid, rows: nat, cols: nat)
      requires rows > 0 && cols > 0 && IsGrid(initial, rows, cols)
      ensures Valid() && fresh(grid) && fresh(hashlife)
      ensures hashlife.cache == map[] && hashlife.memo == map[]
      ensures Cells() == initial
      ensures active == InitialActive(initial, rows, cols)
      ensures Covered(Cells(), rows, cols, active)
    {
      var a := ArrayOf(initial, rows, cols);
      var s := InitializeActiveCells(a);
      InitialActiveInBounds(initial, rows, cols);
      InitialActiveIsLeastCover(initial, rows, cols, s);
      this.rows, this.cols := rows, cols;
      hashlife := new HashLife();
      grid, active := a, s;
    }

    /** The space bar: a new random grid (a parameter here), then `initialize_active_cells()`.
        The engine keeps its caches. */
    method Reset(initial: Grid)
      requires Valid() && IsGrid(initial, rows, cols)
      modifies this
      ensures Valid() && fresh(grid)
      ensures Cells() == initial
      ensures active == InitialActive(initial, rows, cols)
      ensures Covered(Cells(), rows, cols, active)
    {
      var a := ArrayOf(initial, rows, cols);
      var s := InitializeActiveCells(a);
      InitialActiveInBounds(initial, rows, cols);
      InitialActiveIsLeastCover(initial, rows, cols, s);
      grid, active := a, s;
    }

    /** The mouse click: the clicked cell, which must lie on the grid since nothing wraps it, is
        flipped in place, and it and its neighbourhood join `active_cells`. */
    method Toggle(row: int, col: int)
      requires Valid() && InBounds((row, col), rows, cols)
      modifies this, grid
      ensures Valid() && grid == old(grid)
      ensures Cells() == Flipped(old(Cells()), rows, cols, row, col)
      ensures active == old(active) + {(row, col)} + Neighbourhood(row, col, rows, cols)
      ensures Covered(old(Cells()), rows, cols, old(active)) ==> Covered(Cells(), rows, cols, active)
    {
      ghost var before := Cells();
      FlipCell(grid, row, col, before);
      var s := Activate(active, row, col, rows, cols);
      if Covered(before, rows, cols, active) {
        ToggleKeepsCovered(before, rows, cols, active, row, col);
      }
      active := s;
    }

    /** One frame: the grid is replaced by the frame's new grid, and `active_cells` is rebuilt
        from it as `initialize_active_cells` does, so it covers the new grid whatever it held
        before. The engine's caches only grow. A grid with cells never reaches the `except`
        branch. */
    method Step()
      requires Valid()
      modifies this, hashlife
      ensures Valid() && Extends(old(hashlife.cache), hashlife.cache) && Extends(old(hashlife.memo), hashlife.memo)
      ensures Frame(old(Cells()), rows, cols) == Next(Cells())
      ensures active == InitialActive(Cells(), rows, cols)
      ensures Covered(Cells(), rows, cols, active)
    {
      FrameAdvances(Cells(), rows, cols);
      var b, advanced := Generation(hashlife, grid);
      if advanced {
        grid := b;
        var s := InitializeActiveCells(b);
        InitialActiveInBounds(Contents(b), rows, cols);
        InitialActiveIsLeastCover(Contents(b), rows, cols, s);
        active := s;
      }
    }
  }
}
