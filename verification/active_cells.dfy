/** The helpers every active-cell stepper shares: the grid an array holds,
    `add_neighbors_to_set` and `initialize_active_cells`. The globals `rows` and `cols` of the
    source are the array's dimensions here. */
module ActiveCells {
  import opened Grids
  import opened Rules
  import opened Torus

  /** The grid a 2-D array holds. */
  function Contents(a: array2<bool>): (g: Grid)
    reads a
    ensures IsGrid(g, a.Length0, a.Length1)
    ensures forall i, j :: 0 <= i < a.Length0 && 0 <= j < a.Length1 ==> g[i][j] == a[i, j]
  {
    seq(a.Length0, i requires 0 <= i < a.Length0 reads a =>
      seq(a.Length1, j requires 0 <= j < a.Length1 reads a => a[i, j]))
  }

  /** `grid.copy()`: a fresh array holding the same grid. */
  method CopyOf(g: array2<bool>) returns (a: array2<bool>)
    ensures fresh(a) && a.Length0 == g.Length0 && a.Length1 == g.Length1
    ensures Contents(a) == Contents(g)
  {
    a := new bool[g.Length0, g.Length1];
    forall i, j | 0 <= i < g.Length0 && 0 <= j < g.Length1 {
      a[i, j] := g[i, j];
    }
    GridsEqual(Contents(a), Contents(g), g.Length0, g.Length1);
  }

  /** A fresh array holding a given grid; it stands for the grid the source draws at random
      when it starts. */
  method ArrayOf(initial: Grid, rows: nat, cols: nat) returns (a: array2<bool>)
    requires IsGrid(initial, rows, cols)
    ensures fresh(a) && a.Length0 == rows && a.Length1 == cols
    ensures Contents(a) == initial
  {
    a := new bool[rows, cols];
    forall i, j | 0 <= i < rows && 0 <= j < cols {
      a[i, j] := initial[i][j];
    }
    GridsEqual(Contents(a), initial, rows, cols);
  }

  /** Writing one cell of an array changes that cell of the grid it holds and no other. */
  lemma {:induction false} ContentsAfterWrite(a: array2<bool>, prev: Grid, i: int, j: int)
    requires IsGrid(prev, a.Length0, a.Length1) && 0 <= i < a.Length0 && 0 <= j < a.Length1
    requires forall x, y :: 0 <= x < a.Length0 && 0 <= y < a.Length1 && (x != i || y != j) ==>
               a[x, y] == prev[x][y]
    ensures Contents(a) == prev[i := prev[i][j := a[i, j]]]
  {
    GridsEqual(Contents(a), prev[i := prev[i][j := a[i, j]]], a.Length0, a.Length1);
  }

  /** `a[i, j] = v`, stated on the grid the array holds. */
  method SetCell(a: array2<bool>, i: int, j: int, v: bool, ghost prev: Grid)
    requires 0 <= i < a.Length0 && 0 <= j < a.Length1 && prev == Contents(a)
    modifies a
    ensures Contents(a) == prev[i := prev[i][j := v]]
  {
    a[i, j] := v;
    ContentsAfterWrite(a, prev, i, j);
  }

  /** `add_neighbors_to_set(i, j, s)`: the source adds the nine wrapped cells to the set it is
      handed; here the grown set is returned. */
  method AddNeighbours(rows: int, cols: int, i: int, j: int, s: set<Cell>) returns (t: set<Cell>)
    requires rows > 0 && cols > 0
    ensures t == s + Neighbourhood(i, j, rows, cols)
  {
    t := s;
    for di := -1 to 2
      invariant s <= t <= s + Neighbourhood(i, j, rows, cols)
      invariant forall d, e :: -1 <= d < di && -1 <= e <= 1 ==> Wrapped(i, j, d, e, rows, cols) in t
    {
      for dj := -1 to 2
        invariant s <= t <= s + Neighbourhood(i, j, rows, cols)
        invariant forall d, e :: (-1 <= d < di && -1 <= e <= 1) || (d == di && -1 <= e < dj) ==>
                    Wrapped(i, j, d, e, rows, cols) in t
      {
        WrappedInNeighbourhood(i, j, di, dj, rows, cols);
        WrapIsMod(i + di, rows);
        WrapIsMod(j + dj, cols);
        var ni, nj := (i + di) % rows, (j + dj) % cols;
        t := t + {(ni, nj)};
      }
    }
  }

  /** The neighbour total of `update_grid`: the eight wrapped neighbours of (i, j), summed in
      the order the source writes them. */
  method NeighbourTotal(a: array2<bool>, i: int, j: int, ghost cells: Grid) returns (total: nat)
    requires 0 <= i < a.Length0 && 0 <= j < a.Length1 && cells == Contents(a)
    ensures total == WrapCount(cells, a.Length0, a.Length1, i, j)
    ensures Rule(a[i, j], total) == NextAt(cells, a.Length0, a.Length1, i, j)
  {
    var rows, cols := a.Length0, a.Length1;
    WrapIsMod(i - 1, rows);
    WrapIsMod(i + 1, rows);
    WrapIsMod(j - 1, cols);
    WrapIsMod(j + 1, cols);
    total := Bit(a[i, (j - 1) % cols]) + Bit(a[i, (j + 1) % cols])
             + Bit(a[(i - 1) % rows, j]) + Bit(a[(i + 1) % rows, j])
             + Bit(a[(i - 1) % rows, (j - 1) % cols]) + Bit(a[(i - 1) % rows, (j + 1) % cols])
             + Bit(a[(i + 1) % rows, (j - 1) % cols]) + Bit(a[(i + 1) % rows, (j + 1) % cols]);
  }

  /** The set comprehension of `initialize_active_cells`: every (i, j) with `grid[i, j] == 1`. */
  method LiveCells(a: array2<bool>) returns (s: set<Cell>)
    ensures s == Live(Contents(a), a.Length0, a.Length1)
  {
    s := {};
    for i := 0 to a.Length0
      invariant s == set r, c | 0 <= r < i && 0 <= c < a.Length1 && a[r, c] :: (r, c)
    {
      for j := 0 to a.Length1
        invariant s == (set r, c | 0 <= r < i && 0 <= c < a.Length1 && a[r, c] :: (r, c))
                       + (set c | 0 <= c < j && a[i, c] :: (i, c))
      {
        if a[i, j] {
          s := s + {(i, j)};
        }
      }
    }
  }

  /** One round of the loop of `initialize_active_cells`: adding the neighbourhood of one more
      live cell. */
  lemma {:induction false} InitializeStep(live: set<Cell>, todo: set<Cell>, c: Cell, s: set<Cell>, rows: int, cols: int)
    requires rows > 0 && cols > 0 && c in todo && todo <= live
    requires s == live + Around(live - todo, rows, cols)
    ensures s + Neighbourhood(c.0, c.1, rows, cols) == live + Around(live - (todo - {c}), rows, cols)
  {
    AroundAdd(live - todo, c, rows, cols);
    assert live - (todo - {c}) == (live - todo) + {c};
  }

  /** `initialize_active_cells`: the live cells of the grid together with their toroidal
      neighbourhoods. The source assigns the result to the global `active_cells`. */
  method InitializeActiveCells(a: array2<bool>) returns (s: set<Cell>)
    ensures a.Length0 > 0 && a.Length1 > 0 ==> s == InitialActive(Contents(a), a.Length0, a.Length1)
    ensures a.Length0 == 0 || a.Length1 == 0 ==> s == {}
  {
    var rows, cols := a.Length0, a.Length1;
    var live := LiveCells(a);
    s := live;
    if rows == 0 || cols == 0 {
      // A grid without cells has no live cell, so the loop has nothing to visit.
      assert live == {};
      return;
    }
    var todo := live;
    assert live - todo == {};
    while todo != {}
      invariant todo <= live
      invariant s == live + Around(live - todo, rows, cols)
      decreases |todo|
    {
      var c :| c in todo;
      InitializeStep(live, todo, c, s, rows, cols);
      s := AddNeighbours(rows, cols, c.0, c.1, s);
      todo := todo - {c};
    }
    assert live - todo == live;
  }
}
