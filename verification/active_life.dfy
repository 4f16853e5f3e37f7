/** The active-cell stepper of game_of_life_v1.py and game_of_life_v2.py: the module globals
    `grid`, `active_cells`, `rows` and `cols` become the fields of one object. */
module ActiveLife {
  import opened Grids
  import opened Rules
  import opened Torus
  import opened ActiveCells

  /** One round of the loop of `update_grid`, for the rebuilt active set: checking cell `c`
      adds `c` and its neighbourhood exactly when `c` is live after the step. */
  lemma {:induction false} SpreadStep(g: Grid, rows: nat, cols: nat, done: set<Cell>, c: Cell, before: set<Cell>, after: set<Cell>)
    requires IsGrid(g, rows, cols) && rows > 0 && cols > 0 && InBounds(c, rows, cols)
    requires before == Spread(g, rows, cols, done)
    requires after == if NextAt(g, rows, cols, c.0, c.1) then before + {c} + Neighbourhood(c.0, c.1, rows, cols)
                      else before
    ensures after == Spread(g, rows, cols, done + {c})
  {
    if NextAt(g, rows, cols, c.0, c.1) {
      assert Lives(g, rows, cols, done + {c}) == Lives(g, rows, cols, done) + {c};
      AroundAdd(Lives(g, rows, cols, done), c, rows, cols);
      CentreInNeighbourhood(c, rows, cols);
    } else {
      assert Lives(g, rows, cols, done + {c}) == Lives(g, rows, cols, done);
    }
  }

  /** One round of the loop of `update_grid`: cell `c` of `checked` is evaluated against the
      grid `g` as it was before the step, and its next state is written into the copy `newGrid`,
      which still holds the cell's old value; when the cell is live afterwards, it and its
      neighbourhood join the new active set. `prev` is the grid the copy holds before. */
  method CheckCell(g: array2<bool>, newGrid: array2<bool>, c: Cell, newActive: set<Cell>,
                   ghost cells: Grid, ghost prev: Grid) returns (active': set<Cell>)
    requires InBounds(c, g.Length0, g.Length1) && cells == Contents(g)
    requires newGrid != g && newGrid.Length0 == g.Length0 && newGrid.Length1 == g.Length1
    requires prev == Contents(newGrid) && newGrid[c.0, c.1] == g[c.0, c.1]
    modifies newGrid
    ensures var now := NextAt(cells, g.Length0, g.Length1, c.0, c.1);
            && Contents(newGrid) == prev[c.0 := prev[c.0][c.1 := now]]
            && active' == if now then newActive + {c} + Neighbourhood(c.0, c.1, g.Length0, g.Length1) else newActive
  {
    var rows, cols := g.Length0, g.Length1;
    var i, j := c.0, c.1;
    var total := NeighbourTotal(g, i, j, cells);
    active' := newActive;
    if g[i, j] {
      if 2 <= total <= 3 {
        SetCell(newGrid, i, j, true, prev);
        active' := active' + {(i, j)};
        active' := AddNeighbours(rows, cols, i, j, active');
      } else {
        SetCell(newGrid, i, j, false, prev);
      }
    } else {
      if total == 3 {
        SetCell(newGrid, i, j, true, prev);
        active' := active' + {(i, j)};
        active' := AddNeighbours(rows, cols, i, j, active');
      } else {
        ContentsAfterWrite(newGrid, prev, i, j);
      }
    }
  }

  /** `CheckCell` for a cell not yet checked, stated against the step: after the cells of `done`
      and `c`, the copy holds `ActiveStep` of them and the new active set is their `Spread`. */
  method CheckRound(g: array2<bool>, newGrid: array2<bool>, c: Cell, newActive: set<Cell>,
                    ghost cells: Grid, ghost done: set<Cell>) returns (active': set<Cell>)
    requires InBounds(c, g.Length0, g.Length1) && cells == Contents(g) && c !in done
    requires newGrid != g && newGrid.Length0 == g.Length0 && newGrid.Length1 == g.Length1
    requires Contents(newGrid) == ActiveStep(cells, g.Length0, g.Length1, done)
    requires newActive == Spread(cells, g.Length0, g.Length1, done)
    modifies newGrid
    ensures Contents(newGrid) == ActiveStep(cells, g.Length0, g.Length1, done + {c})
    ensures active' == Spread(cells, g.Length0, g.Length1, done + {c})
  {
    ghost var prev := Contents(newGrid);
    assert prev[c.0][c.1] == cells[c.0][c.1];
    active' := CheckCell(g, newGrid, c, newActive, cells, prev);
    assert Contents(newGrid) == ActiveStep(cells, g.Length0, g.Length1, done + {c}) by {
      ActiveStepAdd(cells, g.Length0, g.Length1, done, c);
    }
    SpreadStep(cells, g.Length0, g.Length1, done, c, newActive, active');
  }

  /** The body of `update_grid` up to its final assignments: a fresh copy of the grid in which
      every cell of `checked` takes its next state, and the live ones among them with their
      neighbourhoods as the new active set. */
  method NextCells(g: array2<bool>, checked: set<Cell>, ghost cells: Grid)
      returns (newGrid: array2<bool>, newActive: set<Cell>)
    requires g.Length0 > 0 && g.Length1 > 0 && cells == Contents(g)
    requires forall c :: c in checked ==> InBounds(c, g.Length0, g.Length1)
    ensures fresh(newGrid) && newGrid.Length0 == g.Length0 && newGrid.Length1 == g.Length1
    ensures Contents(newGrid) == ActiveStep(cells, g.Length0, g.Length1, checked)
    ensures newActive == Spread(cells, g.Length0, g.Length1, checked)
  {
    var rows, cols := g.Length0, g.Length1;
    newGrid := CopyOf(g);
    assert Contents(newGrid) == ActiveStep(cells, rows, cols, {}) by {
      ActiveStepNone(cells, rows, cols);
    }
    newActive := {};
    var toCheck := checked;
    ghost var done: set<Cell> := {};
    while toCheck != {}
      invariant toCheck <= checked && done == checked - toCheck
      invariant fresh(newGrid) && newGrid.Length0 == rows && newGrid.Length1 == cols
      invariant Contents(newGrid) == ActiveStep(cells, rows, cols, done)
      invariant newActive == Spread(cells, rows, cols, done)
      decreases |toCheck|
    {
      var c :| c in toCheck;
      newActive := CheckRound(g, newGrid, c, newActive, cells, done);
      toCheck := toCheck - {c};
      done := done + {c};
    }
    assert done == checked;
  }

  /** A grid with cell (r, c) flipped. */
  function Flipped(g: Grid, rows: nat, cols: nat, r: int, c: int): (h: Grid)
    requires IsGrid(g, rows, cols) && InBounds((r, c), rows, cols)
    ensures IsGrid(h, rows, cols) && h[r][c] == !g[r][c]
    ensures forall i, j :: 0 <= i < rows && 0 <= j < cols && (i, j) != (r, c) ==> h[i][j] == g[i][j]
  {
    g[r := g[r][c := !g[r][c]]]
  }

  /** Flipping one cell changes the live set by that cell alone. */
  lemma {:induction false} LiveAfterFlip(g: Grid, rows: nat, cols: nat, r: int, c: int)
    requires IsGrid(g, rows, cols) && InBounds((r, c), rows, cols)
    ensures var h := Flipped(g, rows, cols, r, c);
            Live(h, rows, cols) == if h[r][c] then Live(g, rows, cols) + {(r, c)} else Live(g, rows, cols) - {(r, c)}
  {
    var h := Flipped(g, rows, cols, r, c);
    forall p | p in Live(h, rows, cols) ensures p == (r, c) || p in Live(g, rows, cols) {
      var i, j :| 0 <= i < rows && 0 <= j < cols && h[i][j] && p == (i, j);
      if p != (r, c) {
        assert g[i][j];
      }
    }
    forall p | p in Live(g, rows, cols) && p != (r, c) ensures p in Live(h, rows, cols) {
      var i, j :| 0 <= i < rows && 0 <= j < cols && g[i][j] && p == (i, j);
      assert h[i][j];
    }
    if h[r][c] {
      assert (r, c) in Live(h, rows, cols);
    } else {
      assert (r, c) !in Live(h, rows, cols);
    }
  }

  /** The toggle keeps the active-set invariant: the flipped cell's whole neighbourhood joins the
      set, and every other live cell was live before. */
  lemma {:induction false} ToggleKeepsCovered(g: Grid, rows: nat, cols: nat, active: set<Cell>, r: int, c: int)
    requires IsGrid(g, rows, cols) && InBounds((r, c), rows, cols) && Covered(g, rows, cols, active)
    ensures Covered(Flipped(g, rows, cols, r, c), rows, cols, active + {(r, c)} + Neighbourhood(r, c, rows, cols))
  {
    var h := Flipped(g, rows, cols, r, c);
    var after := active + {(r, c)} + Neighbourhood(r, c, rows, cols);
    forall i, j | 0 <= i < rows && 0 <= j < cols && h[i][j]
      ensures Neighbourhood(i, j, rows, cols) <= after
    {
      if (i, j) != (r, c) {
        assert g[i][j];
      }
    }
  }

  /** `grid[row, col] = 1 - grid[row, col]`: one cell of the array is flipped. */
  method FlipCell(a: array2<bool>, r: int, c: int, ghost cells: Grid)
    requires InBounds((r, c), a.Length0, a.Length1) && cells == Contents(a)
    modifies a
    ensures Contents(a) == Flipped(cells, a.Length0, a.Length1, r, c)
  {
    a[r, c] := !a[r, c];
    ContentsAfterWrite(a, cells, r, c);
  }

  /** `active_cells.add((row, col))` then `add_neighbors_to_set(row, col, active_cells)`; a set on
      the grid stays on the grid. */
  method Activate(active: set<Cell>, r: int, c: int, rows: int, cols: int) returns (active': set<Cell>)
    requires InBounds((r, c), rows, cols)
    ensures active' == active + {(r, c)} + Neighbourhood(r, c, rows, cols)
    ensures (forall p :: p in active ==> InBounds(p, rows, cols)) ==> forall p :: p in active' ==> InBounds(p, rows, cols)
  {
    active' := active + {(r, c)};
    active' := AddNeighbours(rows, cols, r, c, active');
    NeighbourhoodShape(r, c, rows, cols);
  }

  class Stepper {
    const rows: nat
    const cols: nat
    var grid: array2<bool>
    var active: set<Cell>

    ghost predicate Valid()
      reads this
    {
      && rows > 0 && cols > 0
      && grid.Length0 == rows && grid.Length1 == cols
      && forall c :: c in active ==> InBounds(c, rows, cols)
    }

    /** The grid the object holds. */
    ghost function Cells(): Grid
      reads this, grid
    {
      Contents(grid)
    }

    /** Start-up: the grid the source draws at random is a parameter here; then
        `initialize_active_cells()`. */
    constructor (initial: Grid, rows: nat, cols: nat)
      requires rows > 0 && cols > 0 && IsGrid(initial, rows, cols)
      ensures Valid() && fresh(grid)
      ensures Cells() == initial
      ensures active == InitialActive(initial, rows, cols)
      ensures Covered(Cells(), rows, cols, active)
    {
      var a := ArrayOf(initial, rows, cols);
      var s := InitializeActiveCells(a);
      AroundInBounds(Live(initial, rows, cols), rows, cols);
      InitialActiveIsLeastCover(initial, rows, cols, s);
      this.rows, this.cols := rows, cols;
      grid, active := a, s;
    }

    /** `update_grid`: every cell of `active_cells` is evaluated against the grid as it was
        before the step (the source writes into a copy), the cells live afterwards and their
        neighbourhoods become the new active set, and every other cell keeps its value. */
    method UpdateGrid()
      requires Valid()
      modifies this
      ensures Valid() && fresh(grid)
      ensures Cells() == ActiveStep(old(Cells()), rows, cols, old(active))
      ensures active == Spread(old(Cells()), rows, cols, old(active))
      ensures Covered(old(Cells()), rows, cols, old(active)) ==>
                Cells() == Step(old(Cells()), rows, cols) && Covered(Cells(), rows, cols, active)
    {
      ghost var cells := Cells();
      var checked := active;
      var newGrid, newActive := NextCells(grid, checked, cells);
      AroundInBounds(Lives(cells, rows, cols, checked), rows, cols);
      grid, active := newGrid, newActive;
      if Covered(cells, rows, cols, checked) {
        ActiveStepIsStep(cells, rows, cols, checked);
        SpreadCovers(cells, rows, cols, checked);
      }
    }

    /** The mouse toggle of game_of_life_v1.py and game_of_life_v2.py: the clicked cell, which
        must lie on the grid since nothing wraps it, is flipped in place, and it and its
        neighbourhood join `active_cells`. */
    method Toggle(row: int, col: int)
      requires Valid() && InBounds((row, col), rows, cols)
      modifies this, grid
      ensures Valid() && grid == old(grid)
      ensures Cells() == Flipped(old(Cells()), rows, cols, row, col)
      ensures active == old(active) + {(row, col)} + Neighbourhood(row, col, rows, cols)
      ensures Covered(old(Cells()), rows, cols, old(active)) ==> Covered(Cells(), rows, cols, active)
    {
      ghost var before := Cells();
      FlipCell(grid, row, col, before);
      var s := Activate(active, row, col, rows, cols);
      if Covered(before, rows, cols, active) {
        ToggleKeepsCovered(before, rows, cols, active, row, col);
      }
      active := s;
    }
  }
}
