/** The coloured active-cell stepper of game_of_life.py: the stepper of game_of_life_v2.py
    extended with `cell_colors` (a colour per live cell), a current colour for new cells, a
    wrapping mouse toggle, glider stamping, a colour reset and the population statistic. */
module ColourLife {
  import opened Grids
  import opened Rules
  import opened Torus
  import opened ActiveCells
  import opened ActiveLife

  /** An RGB triple, as pygame takes it. */
  type Colour = (int, int, int)

  const White: Colour := (255, 255, 255)

  /** The entry of `cell_colors` for one checked cell after `update_grid`: a cell that dies loses
      its colour, a cell that is born gets `colour`, and any other cell keeps its entry. */
  function RecolourCell(colours: map<Cell, Colour>, c: Cell, was: bool, now: bool, colour: Colour)
    : (r: map<Cell, Colour>)
    ensures r.Keys == if was && !now then colours.Keys - {c}
                      else if !was && now then colours.Keys + {c} else colours.Keys
    ensures forall d :: d in r && d != c ==> d in colours && r[d] == colours[d]
    ensures !was && now ==> r[c] == colour
    ensures was == now && c in colours ==> r[c] == colours[c]
  {
    if was && !now then colours - {c}
    else if !was && now then colours[c := colour]
    else colours
  }

  /** The cells of `checked` that are live in `g` and dead in `n`, the grid after the step. */
  ghost function Died(g: Grid, n: Grid, rows: nat, cols: nat, checked: set<Cell>): set<Cell>
    requires IsGrid(g, rows, cols) && IsGrid(n, rows, cols)
  {
    set c | c in checked && InBounds(c, rows, cols) && g[c.0][c.1] && !n[c.0][c.1]
  }

  /** The cells of `checked` that are dead in `g` and live in `n`. */
  ghost function Born(g: Grid, n: Grid, rows: nat, cols: nat, checked: set<Cell>): set<Cell>
    requires IsGrid(g, rows, cols) && IsGrid(n, rows, cols)
  {
    set c | c in checked && InBounds(c, rows, cols) && !g[c.0][c.1] && n[c.0][c.1]
  }

  /** `cell_colors` with the entries of `died` removed and the cells of `born` given `colour`. */
  function Repaint(colours: map<Cell, Colour>, died: set<Cell>, born: set<Cell>, colour: Colour): map<Cell, Colour> {
    map c | c in (colours.Keys - died) + born :: if c in born then colour else colours[c]
  }

  /** One more dying cell, not a born one, loses its entry and nothing else changes. */
  lemma {:induction false} RepaintDie(colours: map<Cell, Colour>, died: set<Cell>, born: set<Cell>, c: Cell, colour: Colour)
    requires c !in born
    ensures Repaint(colours, died + {c}, born, colour) == Repaint(colours, died, born, colour) - {c}
  {
    var lhs, rhs := Repaint(colours, died + {c}, born, colour), Repaint(colours, died, born, colour) - {c};
    assert lhs.Keys == rhs.Keys;
  }

  /** One more born cell, not a dying one, gets `colour` and nothing else changes. */
  lemma {:induction false} RepaintBirth(colours: map<Cell, Colour>, died: set<Cell>, born: set<Cell>, c: Cell, colour: Colour)
    requires c !in died
    ensures Repaint(colours, died, born + {c}, colour) == Repaint(colours, died, born, colour)[c := colour]
  {
    var lhs, rhs := Repaint(colours, died, born + {c}, colour), Repaint(colours, died, born, colour)[c := colour];
    assert lhs.Keys == rhs.Keys;
  }

  /** What `update_grid` leaves in `cell_colors` when it turns `g` into `n`: the entries of the
      checked cells that die are removed, the checked cells that are born are given `colour`,
      and every other entry is kept. */
  ghost function Recolour(colours: map<Cell, Colour>, g: Grid, n: Grid, rows: nat, cols: nat,
                          checked: set<Cell>, colour: Colour): map<Cell, Colour>
    requires IsGrid(g, rows, cols) && IsGrid(n, rows, cols)
  {
    Repaint(colours, Died(g, n, rows, cols, checked), Born(g, n, rows, cols, checked), colour)
  }

  /** Checking one more cell of the step recolours that cell and no other. */
  lemma {:induction false} RecolourAdd(colours: map<Cell, Colour>, g: Grid, n: Grid, rows: nat, cols: nat,
                    done: set<Cell>, c: Cell, colour: Colour)
    requires IsGrid(g, rows, cols) && IsGrid(n, rows, cols) && InBounds(c, rows, cols) && c !in done
    ensures Recolour(colours, g, n, rows, cols, done + {c}, colour)
              == RecolourCell(Recolour(colours, g, n, rows, cols, done, colour), c,
                              g[c.0][c.1], n[c.0][c.1], colour)
  {
    var was, now := g[c.0][c.1], n[c.0][c.1];
    var died, born := Died(g, n, rows, cols, done), Born(g, n, rows, cols, done);
    var died', born' := Died(g, n, rows, cols, done + {c}), Born(g, n, rows, cols, done + {c});
    assert c !in died && c !in born;
    if was && !now {
      assert died' == died + {c} && born' == born;
      RepaintDie(colours, died, born, c, colour);
    } else if !was && now {
      assert died' == died && born' == born + {c};
      RepaintBirth(colours, died, born, c, colour);
    } else {
      assert died' == died && born' == born;
    }
  }

  /** Checking no cell recolours nothing. */
  lemma {:induction false} RecolourNone(colours: map<Cell, Colour>, g: Grid, n: Grid, rows: nat, cols: nat, colour: Colour)
    requires IsGrid(g, rows, cols) && IsGrid(n, rows, cols)
    ensures Recolour(colours, g, n, rows, cols, {}, colour) == colours
  {
  }

  /** One round of the colour bookkeeping of `update_grid`, with the grid after the whole step
      as the target: the map the round leaves is the recolouring of one more checked cell. */
  lemma {:induction false} RecolourRound(colours: map<Cell, Colour>, g: Grid, rows: nat, cols: nat, checked: set<Cell>,
                      done: set<Cell>, c: Cell, colour: Colour, before: map<Cell, Colour>, after: map<Cell, Colour>)
    requires IsGrid(g, rows, cols) && InBounds(c, rows, cols) && c in checked && c !in done
    requires before == Recolour(colours, g, ActiveStep(g, rows, cols, checked), rows, cols, done, colour)
    requires var was, now := g[c.0][c.1], NextAt(g, rows, cols, c.0, c.1);
             after == if was && !now then before - {c} else if !was && now then before[c := colour] else before
    ensures after == Recolour(colours, g, ActiveStep(g, rows, cols, checked), rows, cols, done + {c}, colour)
  {
    var target := ActiveStep(g, rows, cols, checked);
    assert target[c.0][c.1] == NextAt(g, rows, cols, c.0, c.1);
    RecolourAdd(colours, g, target, rows, cols, done, c, colour);
  }

  /** When `n` differs from `g` only on checked cells: if `cell_colors` holds exactly the live
      cells, it still does afterwards; if it covers them, it still does; cells that live on keep
      their colour, and born cells get the current colour. */
  lemma {:induction false} RecolourFollowsCells(colours: map<Cell, Colour>, g: Grid, n: Grid, rows: nat, cols: nat,
                             checked: set<Cell>, colour: Colour)
    requires IsGrid(g, rows, cols) && IsGrid(n, rows, cols)
    requires forall i, j :: 0 <= i < rows && 0 <= j < cols && (i, j) !in checked ==> n[i][j] == g[i][j]
    ensures var r := Recolour(colours, g, n, rows, cols, checked, colour);
            && (colours.Keys == Live(g, rows, cols) ==> r.Keys == Live(n, rows, cols))
            && (Live(g, rows, cols) <= colours.Keys ==> Live(n, rows, cols) <= r.Keys)
            && (forall c :: c in colours && c in Live(g, rows, cols) && c in Live(n, rows, cols) ==>
                  r[c] == colours[c])
            && (forall c :: c in Born(g, n, rows, cols, checked) ==> r[c] == colour)
  {
    var r := Recolour(colours, g, n, rows, cols, checked, colour);
    var died, born := Died(g, n, rows, cols, checked), Born(g, n, rows, cols, checked);
    forall c | InBounds(c, rows, cols)
      ensures c in Live(n, rows, cols) <==> (g[c.0][c.1] && c !in died) || c in born
    {
      assert c in Live(n, rows, cols) <==> n[c.0][c.1];
    }
    if colours.Keys == Live(g, rows, cols) {
      forall c | c in r ensures c in Live(n, rows, cols) {
        if c !in born {
          assert c in Live(g, rows, cols);
        }
      }
      forall c | c in Live(n, rows, cols) ensures c in r {
        if c !in born {
          assert c in Live(g, rows, cols);
        }
      }
    }
    if Live(g, rows, cols) <= colours.Keys {
      forall c | c in Live(n, rows, cols) ensures c in r {
        if c !in born {
          assert c in Live(g, rows, cols);
        }
      }
    }
  }

  /** One round of the loop of `update_grid` in game_of_life.py: `CheckCell` with the colour
      bookkeeping of its branches (a dying cell's entry is popped, a born cell gets `colour`). */
  method CheckColourCell(g: array2<bool>, newGrid: array2<bool>, c: Cell, newActive: set<Cell>,
                         colours: map<Cell, Colour>, colour: Colour, ghost cells: Grid, ghost prev: Grid)
      returns (active': set<Cell>, colours': map<Cell, Colour>)
    requires InBounds(c, g.Length0, g.Length1) && cells == Contents(g)
    requires newGrid != g && newGrid.Length0 == g.Length0 && newGrid.Length1 == g.Length1
    requires prev == Contents(newGrid) && newGrid[c.0, c.1] == g[c.0, c.1]
    modifies newGrid
    ensures var was, now := cells[c.0][c.1], NextAt(cells, g.Length0, g.Length1, c.0, c.1);
            && Contents(newGrid) == prev[c.0 := prev[c.0][c.1 := now]]
            && active' == (if now then newActive + {c} + Neighbourhood(c.0, c.1, g.Length0, g.Length1) else newActive)
            && colours' == if was && !now then colours - {c} else if !was && now then colours[c := colour] else colours
  {
    var rows, cols := g.Length0, g.Length1;
    var i, j := c.0, c.1;
    var total := NeighbourTotal(g, i, j, cells);
    active', colours' := newActive, colours;
    if g[i, j] {
      if 2 <= total <= 3 {
        SetCell(newGrid, i, j, true, prev);
        active' := active' + {(i, j)};
        active' := AddNeighbours(rows, cols, i, j, active');
      } else {
        SetCell(newGrid, i, j, false, prev);
        colours' := colours' - {(i, j)};
      }
    } else {
      if total == 3 {
        SetCell(newGrid, i, j, true, prev);
        active' := active' + {(i, j)};
        active' := AddNeighbours(rows, cols, i, j, active');
        colours' := colours'[(i, j) := colour];
      } else {
        ContentsAfterWrite(newGrid, prev, i, j);
      }
    }
  }

  /** `CheckColourCell` for a cell not yet checked, stated against the step: the copy, the new
      active set and the colour map are those of the cells of `done` and `c`, the colour map
      against the grid after the whole step. */
  method CheckColourRound(g: array2<bool>, newGrid: array2<bool>, c: Cell, newActive: set<Cell>,
                          newColours: map<Cell, Colour>, colours: map<Cell, Colour>, colour: Colour,
                          ghost cells: Grid, ghost checked: set<Cell>, ghost done: set<Cell>)
      returns (active': set<Cell>, colours': map<Cell, Colour>)
    requires InBounds(c, g.Length0, g.Length1) && cells == Contents(g) && c in checked && c !in done
    requires newGrid != g && newGrid.Length0 == g.Length0 && newGrid.Length1 == g.Length1
    requires Contents(newGrid) == ActiveStep(cells, g.Length0, g.Length1, done)
    requires newActive == Spread(cells, g.Length0, g.Length1, done)
    requires newColours == Recolour(colours, cells, ActiveStep(cells, g.Length0, g.Length1, checked),
                                    g.Length0, g.Length1, done, colour)
    modifies newGrid
    ensures Contents(newGrid) == ActiveStep(cells, g.Length0, g.Length1, done + {c})
    ensures active' == Spread(cells, g.Length0, g.Length1, done + {c})
    ensures colours' == Recolour(colours, cells, ActiveStep(cells, g.Length0, g.Length1, checked),
                                 g.Length0, g.Length1, done + {c}, colour)
  {
    ghost var prev := Contents(newGrid);
    assert prev[c.0][c.1] == cells[c.0][c.1];
    active', colours' := CheckColourCell(g, newGrid, c, newActive, newColours, colour, cells, prev);
    assert Contents(newGrid) == ActiveStep(cells, g.Length0, g.Length1, done + {c}) by {
      ActiveStepAdd(cells, g.Length0, g.Length1, done, c);
    }
    assert active' == Spread(cells, g.Length0, g.Length1, done + {c}) by {
      SpreadStep(cells, g.Length0, g.Length1, done, c, newActive, active');
    }
    RecolourRound(colours, cells, g.Length0, g.Length1, checked, done, c, colour, newColours, colours');
  }

  /** The body of `update_grid` in game_of_life.py up to its final assignments: `NextCells`
      together with the new `cell_colors`. */
  method NextColourCells(g: array2<bool>, checked: set<Cell>, colours: map<Cell, Colour>, colour: Colour,
                         ghost cells: Grid)
      returns (newGrid: array2<bool>, newActive: set<Cell>, newColours: map<Cell, Colour>)
    requires g.Length0 > 0 && g.Length1 > 0 && cells == Contents(g)
    requires forall c :: c in checked ==> InBounds(c, g.Length0, g.Length1)
    ensures fresh(newGrid) && newGrid.Length0 == g.Length0 && newGrid.Length1 == g.Length1
    ensures Contents(newGrid) == ActiveStep(cells, g.Length0, g.Length1, checked)
    ensures newActive == Spread(cells, g.Length0, g.Length1, checked)
    ensures newColours == Recolour(colours, cells, ActiveStep(cells, g.Length0, g.Length1, checked), g.Length0, g.Length1, checked, colour)
  {
    var rows, cols := g.Length0, g.Length1;
    ghost var target := ActiveStep(cells, rows, cols, checked);
    newGrid := CopyOf(g);
    assert Contents(newGrid) == ActiveStep(cells, rows, cols, {}) by {
      ActiveStepNone(cells, rows, cols);
    }
    assert colours == Recolour(colours, cells, target, rows, cols, {}, colour) by {
      RecolourNone(colours, cells, target, rows, cols, colour);
    }
    newActive, newColours := {}, colours;
    var toCheck := checked;
    ghost var done: set<Cell> := {};
    while toCheck != {}
      invariant toCheck <= checked && done == checked - toCheck
      invariant fresh(newGrid) && newGrid.Length0 == rows && newGrid.Length1 == cols
      invariant Contents(newGrid) == ActiveStep(cells, rows, cols, done)
      invariant newActive == Spread(cells, rows, cols, done)
      invariant newColours == Recolour(colours, cells, target, rows, cols, done, colour)
      decreases |toCheck|
    {
      var c :| c in toCheck;
      newActive, newColours := CheckColourRound(g, newGrid, c, newActive, newColours, colours, colour, cells, checked, done);
      toCheck := toCheck - {c};
      done := done + {c};
    }
    assert done == checked;
  }

  /** The live cells of `g` that come before (i, j) in row-major order. */
  ghost function LiveBefore(g: Grid, rows: nat, cols: nat, i: int, j: int): set<Cell>
    requires IsGrid(g, rows, cols)
  {
    set r, c | 0 <= r < rows && 0 <= c < cols && g[r][c] && (r < i || (r == i && c < j)) :: (r, c)
  }

  lemma {:induction false} LiveBeforeStart(g: Grid, rows: nat, cols: nat)
    requires IsGrid(g, rows, cols)
    ensures LiveBefore(g, rows, cols, 0, 0) == {}
  {
  }

  /** One more cell of a row: it is counted when it is live, and it was not counted before. */
  lemma {:induction false} LiveBeforeNext(g: Grid, rows: nat, cols: nat, i: int, j: int)
    requires IsGrid(g, rows, cols) && 0 <= i < rows && 0 <= j < cols
    ensures |LiveBefore(g, rows, cols, i, j + 1)| == |LiveBefore(g, rows, cols, i, j)| + Bit(g[i][j])
  {
    var before, after := LiveBefore(g, rows, cols, i, j), LiveBefore(g, rows, cols, i, j + 1);
    var extra := if g[i][j] then {(i, j)} else {};
    forall p | p in after ensures p in before + extra {
      var r, c :| 0 <= r < rows && 0 <= c < cols && g[r][c] && (r < i || (r == i && c < j + 1)) && p == (r, c);
      if (r, c) != (i, j) {
        assert p in before;
      }
    }
    forall p | p in before ensures p in after {
      var r, c :| 0 <= r < rows && 0 <= c < cols && g[r][c] && (r < i || (r == i && c < j)) && p == (r, c);
    }
    if g[i][j] {
      assert (i, j) in after;
      assert (i, j) !in before;
    }
    assert after == before + extra;
  }

  /** The end of one row is the start of the next. */
  lemma {:induction false} LiveBeforeRow(g: Grid, rows: nat, cols: nat, i: int)
    requires IsGrid(g, rows, cols) && 0 <= i < rows
    ensures LiveBefore(g, rows, cols, i, cols) == LiveBefore(g, rows, cols, i + 1, 0)
  {
  }

  lemma {:induction false} LiveBeforeEnd(g: Grid, rows: nat, cols: nat)
    requires IsGrid(g, rows, cols)
    ensures LiveBefore(g, rows, cols, rows, 0) == Live(g, rows, cols)
  {
  }

  /** The glider pattern of `create_glider`. */
  const Glider: Grid := [[false, true, false], [false, false, true], [true, true, true]]

  /** The grid after the glider is written into the 3 x 3 window whose top-left cell is (y, x);
      `ColourStepper.CreateGlider` finds that window from the slice `y : y + 3, x : x + 3`. */
  ghost function Stamp(g: Grid, rows: nat, cols: nat, y: int, x: int): (r: Grid)
    requires IsGrid(g, rows, cols)
    ensures IsGrid(r, rows, cols)
  {
    seq(rows, i requires 0 <= i < rows =>
      seq(cols, j requires 0 <= j < cols =>
        if y <= i < y + 3 && x <= j < x + 3 then Glider[i - y][j - x] else g[i][j]))
  }

  /** A cell of the stamped grid: the pattern's inside the window, the old one outside. */
  lemma {:induction false} StampAt(g: Grid, rows: nat, cols: nat, y: int, x: int, i: int, j: int)
    requires IsGrid(g, rows, cols) && 0 <= i < rows && 0 <= j < cols
    ensures Stamp(g, rows, cols, y, x)[i][j] == if y <= i < y + 3 && x <= j < x + 3 then Glider[i - y][j - x] else g[i][j]
  {
  }

  /** The 3 x 3 window with top-left corner (y, x). */
  ghost function Window(y: int, x: int): set<Cell> {
    set i, j | y <= i < y + 3 && x <= j < x + 3 :: (i, j)
  }

  /** The live cells of a glider stamped at (y, x). */
  function GliderCells(y: int, x: int): set<Cell> {
    {(y, x + 1), (y + 1, x + 2), (y + 2, x), (y + 2, x + 1), (y + 2, x + 2)}
  }

  /** A cell is in the window exactly when its coordinates are. */
  lemma {:induction false} WindowMember(y: int, x: int, p: Cell)
    ensures p in Window(y, x) <==> y <= p.0 < y + 3 && x <= p.1 < x + 3
  {
    if y <= p.0 < y + 3 && x <= p.1 < x + 3 {
      assert (p.0, p.1) in Window(y, x);
    }
  }

  /** A cell is one of the five glider cells exactly when it lies in the window on a live
      position of the pattern. */
  lemma {:induction false} GliderMember(y: int, x: int, p: Cell)
    ensures p in GliderCells(y, x) <==> y <= p.0 < y + 3 && x <= p.1 < x + 3 && Glider[p.0 - y][p.1 - x]
  {
    if y <= p.0 < y + 3 && x <= p.1 < x + 3 {
      var i, j := p.0 - y, p.1 - x;
      assert p == (y + i, x + j);
      if i == 0 {
        assert Glider[0] == [false, true, false];
      } else if i == 1 {
        assert Glider[1] == [false, false, true];
      } else {
        assert Glider[2] == [true, true, true];
      }
    }
  }

  /** The five glider cells are distinct and lie in the window. */
  lemma {:induction false} GliderCellsShape(y: int, x: int)
    ensures GliderCells(y, x) <= Window(y, x) && |GliderCells(y, x)| == 5
  {
    var a, b, c, d, e := (y, x + 1), (y + 1, x + 2), (y + 2, x), (y + 2, x + 1), (y + 2, x + 2);
    assert |{a, b}| == 2;
    assert |{a, b} + {c}| == 3;
    assert |{a, b, c} + {d}| == 4;
    assert |{a, b, c, d} + {e}| == 5;
    assert GliderCells(y, x) == {a, b, c, d} + {e};
  }

  /** Stamping a glider leaves exactly the five glider cells live in the window and changes
      nothing outside it. */
  lemma {:induction false} GliderStamp(g: Grid, rows: nat, cols: nat, y: int, x: int)
    requires IsGrid(g, rows, cols) && 0 <= y && y + 3 <= rows && 0 <= x && x + 3 <= cols
    ensures Live(Stamp(g, rows, cols, y, x), rows, cols) == (Live(g, rows, cols) - Window(y, x)) + GliderCells(y, x)
  {
    var h := Stamp(g, rows, cols, y, x);
    var lhs, rhs := Live(h, rows, cols), (Live(g, rows, cols) - Window(y, x)) + GliderCells(y, x);
    forall p | InBounds(p, rows, cols) ensures p in lhs <==> p in rhs {
      LiveMember(h, rows, cols, p);
      LiveMember(g, rows, cols, p);
      StampAt(g, rows, cols, y, x, p.0, p.1);
      WindowMember(y, x, p);
      GliderMember(y, x, p);
    }
    forall p | p in lhs ensures InBounds(p, rows, cols) {
      LiveMember(h, rows, cols, p);
    }
    forall p | p in rhs ensures InBounds(p, rows, cols) {
      LiveMember(g, rows, cols, p);
    }
  }

  /** A live cell after the stamp is a glider cell or was live before. */
  lemma {:induction false} GliderKeepsColoured(g: Grid, rows: nat, cols: nat, y: int, x: int, keys: set<Cell>)
    requires IsGrid(g, rows, cols) && 0 <= y && y + 3 <= rows && 0 <= x && x + 3 <= cols
    requires Live(g, rows, cols) <= keys
    ensures Live(Stamp(g, rows, cols, y, x), rows, cols) <= keys + GliderCells(y, x)
  {
    GliderStamp(g, rows, cols, y, x);
  }

  /** The colour map once the colour loop of `create_glider` has visited rows 0 .. i - 1 of the
      pattern and the first `j` positions of row `i`: each live position of the pattern sets its
      cell to `colour`. */
  function Painted(colours: map<Cell, Colour>, y: int, x: int, colour: Colour, i: nat, j: nat): map<Cell, Colour>
    requires (i < 3 && j <= 3) || (i == 3 && j == 0)
    decreases i, j
  {
    if j == 0 then
      if i == 0 then colours else Painted(colours, y, x, colour, i - 1, 3)
    else
      var m := Painted(colours, y, x, colour, i, j - 1);
      if Glider[i][j - 1] then m[(y + i, x + j - 1) := colour] else m
  }

  /** After all nine positions, exactly the five glider cells carry `colour` and every other
      entry is as it was. */
  lemma {:induction false} PaintedGlider(colours: map<Cell, Colour>, y: int, x: int, colour: Colour)
    ensures Painted(colours, y, x, colour, 3, 0).Keys == colours.Keys + GliderCells(y, x)
    ensures forall k :: k in Painted(colours, y, x, colour, 3, 0) ==>
              Painted(colours, y, x, colour, 3, 0)[k] == if k in GliderCells(y, x) then colour else colours[k]
  {
    var m1 := colours[(y, x + 1) := colour];
    var m2 := m1[(y + 1, x + 2) := colour];
    var m3 := m2[(y + 2, x) := colour];
    var m4 := m3[(y + 2, x + 1) := colour];
    var m5 := m4[(y + 2, x + 2) := colour];
    assert Painted(colours, y, x, colour, 0, 1) == colours;
    assert Painted(colours, y, x, colour, 0, 2) == m1;
    assert Painted(colours, y, x, colour, 0, 3) == m1;
    assert Painted(colours, y, x, colour, 1, 0) == m1;
    assert Painted(colours, y, x, colour, 1, 1) == m1;
    assert Painted(colours, y, x, colour, 1, 2) == m1;
    assert Painted(colours, y, x, colour, 1, 3) == m2;
    assert Painted(colours, y, x, colour, 2, 0) == m2;
    assert Painted(colours, y, x, colour, 2, 1) == m3;
    assert Painted(colours, y, x, colour, 2, 2) == m4;
    assert Painted(colours, y, x, colour, 2, 3) == m5;
    assert Painted(colours, y, x, colour, 3, 0) == m5;
  }

  /** The colour loop of `create_glider`: each glider cell of the window gets `colour`. */
  method ColourGlider(colours: map<Cell, Colour>, y: int, x: int, colour: Colour)
      returns (colours': map<Cell, Colour>)
    ensures colours'.Keys == colours.Keys + GliderCells(y, x)
    ensures forall k :: k in colours' ==> colours'[k] == if k in GliderCells(y, x) then colour else colours[k]
  {
    colours' := colours;
    for i := 0 to 3
      invariant colours' == Painted(colours, y, x, colour, i, 0)
    {
      for j := 0 to 3
        invariant colours' == Painted(colours, y, x, colour, i, j)
      {
        if Glider[i][j] {
          colours' := colours'[(y + i, x + j) := colour];
        }
      }
    }
    PaintedGlider(colours, y, x, colour);
  }

  /** Python's normalisation of a slice bound on an axis of length `n`: a negative bound counts
      from the end, and the result is clamped to 0 .. n. */
  function SliceBound(b: int, n: nat): (r: int)
    ensures 0 <= r <= n
    ensures 0 <= b <= n ==> r == b
  {
    if b < 0 then Max(b + n, 0) else Min(b, n)
  }

  /** The number of indices `start : start + 3` selects on an axis of length `n`. */
  function SliceLength(start: int, n: nat): nat {
    Max(0, SliceBound(start + 3, n) - SliceBound(start, n))
  }

  /** The slice `start : start + 3` selects exactly three indices when the window lies on the
      axis, or when a negative start counts back from the end to a whole window (-n <= start <=
      -4); a start of -3, -2 or -1 selects fewer. The first index selected is then `start`, or
      `start + n` for a negative start. */
  lemma {:induction false} SliceFitsExactly(start: int, n: nat)
    ensures SliceLength(start, n) == 3 <==> (0 <= start && start + 3 <= n) || (-(n as int) <= start <= -4)
    ensures SliceLength(start, n) == 3 ==>
              SliceBound(start, n) == (if start < 0 then start + n else start) && SliceBound(start, n) + 3 <= n
  {
  }

  /** The write `grid[y : y + 3, x : x + 3] = glider` into a window that lies on the grid. */
  method StampGlider(a: array2<bool>, y: int, x: int, ghost cells: Grid)
    requires 0 <= y && y + 3 <= a.Length0 && 0 <= x && x + 3 <= a.Length1 && cells == Contents(a)
    modifies a
    ensures Contents(a) == Stamp(cells, a.Length0, a.Length1, y, x)
  {
    forall i, j | 0 <= i < 3 && 0 <= j < 3 {
      a[y + i, x + j] := Glider[i][j];
    }
    GridsEqual(Contents(a), Stamp(cells, a.Length0, a.Length1, y, x), a.Length0, a.Length1);
  }

  /** The body of `create_glider` once its slice assignment has succeeded, on the grid array and
      the colour map: the stamp into the window at (sy, sx) that the slice selected, the colour
      loop over the keys (y + i, x + j) as written, and the rebuilt active set. */
  method Glide(a: array2<bool>, colours: map<Cell, Colour>, colour: Colour, y: int, x: int, sy: int, sx: int,
               ghost cells: Grid)
      returns (painted: map<Cell, Colour>, active: set<Cell>)
    requires 0 <= sy && sy + 3 <= a.Length0 && 0 <= sx && sx + 3 <= a.Length1 && cells == Contents(a)
    modifies a
    ensures Contents(a) == Stamp(cells, a.Length0, a.Length1, sy, sx)
    ensures painted.Keys == colours.Keys + GliderCells(y, x)
    ensures forall k :: k in painted ==> painted[k] == if k in GliderCells(y, x) then colour else colours[k]
    ensures active == InitialActive(Contents(a), a.Length0, a.Length1)
    ensures Covered(Contents(a), a.Length0, a.Length1, active)
    ensures forall c :: c in active ==> InBounds(c, a.Length0, a.Length1)
    ensures sy == y && sx == x && Live(cells, a.Length0, a.Length1) <= colours.Keys ==>
              Live(Contents(a), a.Length0, a.Length1) <= painted.Keys
  {
    var rows, cols := a.Length0, a.Length1;
    StampGlider(a, sy, sx, cells);
    ghost var after := Contents(a);
    painted := ColourGlider(colours, y, x, colour);
    active := InitializeActiveCells(a);
    InitialActiveInBounds(after, rows, cols);
    InitialActiveIsLeastCover(after, rows, cols, active);
    if sy == y && sx == x && Live(cells, rows, cols) <= colours.Keys {
      GliderKeepsColoured(cells, rows, cols, y, x, colours.Keys);
    }
  }

  /** With a negative row start such as -4, the slice writes the glider near the bottom of the
      grid while the colour loop stores its keys at negative rows: the pattern's lower-left live
      cell is live after the stamp and has no colour from the loop. */
  lemma {:induction false} NegativeStartLeavesUncoloured(g: Grid, rows: nat, cols: nat, y: int, x: int)
    requires IsGrid(g, rows, cols) && -(rows as int) <= y <= -4 && 0 <= x && x + 3 <= cols
    ensures (rows + y + 2, x) in Live(Stamp(g, rows, cols, rows + y, x), rows, cols)
    ensures (rows + y + 2, x) !in GliderCells(y, x)
  {
    StampAt(g, rows, cols, rows + y, x, rows + y + 2, x);
    LiveMember(Stamp(g, rows, cols, rows + y, x), rows, cols, (rows + y + 2, x));
    GliderMember(y, x, (rows + y + 2, x));
  }

  /** The colour bookkeeping of the toggle keeps both colour invariants: if `cell_colors` holds
      exactly the live cells, or at least them, it still does after the flip. */
  lemma {:induction false} ToggleRecolours(colours: map<Cell, Colour>, g: Grid, rows: nat, cols: nat, r: int, c: int, colour: Colour)
    requires IsGrid(g, rows, cols) && InBounds((r, c), rows, cols)
    ensures var h := Flipped(g, rows, cols, r, c);
            var m := if h[r][c] then colours[(r, c) := colour] else colours - {(r, c)};
            && (colours.Keys == Live(g, rows, cols) ==> m.Keys == Live(h, rows, cols))
            && (Live(g, rows, cols) <= colours.Keys ==> Live(h, rows, cols) <= m.Keys)
  {
    LiveAfterFlip(g, rows, cols, r, c);
  }

  /** The body of the mouse toggle of game_of_life.py, for a cell (r, c) already wrapped onto
      the grid: the cell is flipped, it gets `colour` when it becomes live and loses its entry
      when it dies, and it and its neighbourhood join the active set. */
  method ToggleColour(a: array2<bool>, colours: map<Cell, Colour>, active: set<Cell>, colour: Colour,
                      r: int, c: int, ghost cells: Grid)
      returns (painted: map<Cell, Colour>, active': set<Cell>)
    requires InBounds((r, c), a.Length0, a.Length1) && cells == Contents(a)
    modifies a
    ensures Contents(a) == Flipped(cells, a.Length0, a.Length1, r, c)
    ensures active' == active + {(r, c)} + Neighbourhood(r, c, a.Length0, a.Length1)
    ensures painted == if a[r, c] then colours[(r, c) := colour] else colours - {(r, c)}
    ensures (forall p :: p in active ==> InBounds(p, a.Length0, a.Length1)) ==>
              forall p :: p in active' ==> InBounds(p, a.Length0, a.Length1)
    ensures Covered(cells, a.Length0, a.Length1, active) ==> Covered(Contents(a), a.Length0, a.Length1, active')
    ensures colours.Keys == Live(cells, a.Length0, a.Length1) ==> painted.Keys == Live(Contents(a), a.Length0, a.Length1)
    ensures Live(cells, a.Length0, a.Length1) <= colours.Keys ==> Live(Contents(a), a.Length0, a.Length1) <= painted.Keys
  {
    var rows, cols := a.Length0, a.Length1;
    FlipCell(a, r, c, cells);
    painted := colours;
    if a[r, c] {
      painted := painted[(r, c) := colour];
    } else {
      painted := painted - {(r, c)};
    }
    active' := Activate(active, r, c, rows, cols);
    ToggleRecolours(colours, cells, rows, cols, r, c, colour);
    if Covered(cells, rows, cols, active) {
      ToggleKeepsCovered(cells, rows, cols, active, r, c);
    }
  }

  /** The body of start-up in game_of_life.py: the grid array, `cell_colors` with every live
      cell white, and `initialize_active_cells()`. */
  method Start(initial: Grid, rows: nat, cols: nat) returns (a: array2<bool>, colours: map<Cell, Colour>, active: set<Cell>)
    requires rows > 0 && cols > 0 && IsGrid(initial, rows, cols)
    ensures fresh(a) && a.Length0 == rows && a.Length1 == cols && Contents(a) == initial
    ensures colours == map c | c in Live(initial, rows, cols) :: White
    ensures active == InitialActive(initial, rows, cols) && Covered(initial, rows, cols, active)
    ensures forall c :: c in active ==> InBounds(c, rows, cols)
  {
    a := ArrayOf(initial, rows, cols);
    var live := LiveCells(a);
    active := InitializeActiveCells(a);
    InitialActiveInBounds(initial, rows, cols);
    InitialActiveIsLeastCover(initial, rows, cols, active);
    colours := map c | c in live :: White;
  }

  class ColourStepper {
    const rows: nat
    const cols: nat
    var grid: array2<bool>
    var active: set<Cell>
    /** `cell_colors` */
    var colours: map<Cell, Colour>
    /** `current_cell_color` */
    var current: Colour

    ghost predicate Valid()
      reads this
    {
      && rows > 0 && cols > 0
      && grid.Length0 == rows && grid.Length1 == cols
      && forall c :: c in active ==> InBounds(c, rows, cols)
    }

    /** The grid the object holds. */
    ghost function Cells(): Grid
      reads this, grid
    {
      Contents(grid)
    }

    /** Start-up: `create_random_grid()` with the random draw as a parameter, which colours every
        live cell with the initial white, then `initialize_active_cells()`. */
    constructor (initial: Grid, rows: nat, cols: nat)
      requires rows > 0 && cols > 0 && IsGrid(initial, rows, cols)
      ensures Valid() && fresh(grid)
      ensures Cells() == initial && current == White
      ensures colours == map c | c in Live(initial, rows, cols) :: White
      ensures active == InitialActive(initial, rows, cols)
      ensures Covered(Cells(), rows, cols, active)
    {
      var a, painted, s := Start(initial, rows, cols);
      this.rows, this.cols := rows, cols;
      grid, active, current, colours := a, s, White, painted;
    }

    /** `update_grid` of game_of_life.py: the step of `Stepper.UpdateGrid`, and `cell_colors`
        loses the cells that die and gives the cells that are born the current colour. */
    method UpdateGrid()
      requires Valid()
      modifies this
      ensures Valid() && fresh(grid) && current == old(current)
      ensures Cells() == ActiveStep(old(Cells()), rows, cols, old(active))
      ensures active == Spread(old(Cells()), rows, cols, old(active))
      ensures colours == Recolour(old(colours), old(Cells()), Cells(), rows, cols, old(active), current)
      ensures Covered(old(Cells()), rows, cols, old(active)) ==>
                Cells() == Step(old(Cells()), rows, cols) && Covered(Cells(), rows, cols, active)
    {
      ghost var cells := Cells();
      var checked := active;
      var newGrid, newActive, newColours := NextColourCells(grid, checked, colours, current, cells);
      AroundInBounds(Lives(cells, rows, cols, checked), rows, cols);
      grid, active, colours := newGrid, newActive, newColours;
      if Covered(cells, rows, cols, checked) {
        ActiveStepIsStep(cells, rows, cols, checked);
        SpreadCovers(cells, rows, cols, checked);
      }
    }
    /** The mouse toggle of game_of_life.py: the clicked position is wrapped onto the grid, that
        cell is flipped, it gets the current colour when it becomes live and loses its colour when
        it dies, and it and its neighbourhood join `active_cells`. */
    method Toggle(row: int, col: int)
      requires Valid()
      modifies this, grid
      ensures Valid() && grid == old(grid) && current == old(current)
      ensures var r, c := Wrap(row, rows), Wrap(col, cols);
              && Cells() == Flipped(old(Cells()), rows, cols, r, c)
              && active == old(active) + {(r, c)} + Neighbourhood(r, c, rows, cols)
              && colours == if Cells()[r][c] then old(colours)[(r, c) := current] else old(colours) - {(r, c)}
      ensures Covered(old(Cells()), rows, cols, old(active)) ==> Covered(Cells(), rows, cols, active)
      ensures old(colours).Keys == Live(old(Cells()), rows, cols) ==> colours.Keys == Live(Cells(), rows, cols)
      ensures Live(old(Cells()), rows, cols) <= old(colours).Keys ==> Live(Cells(), rows, cols) <= colours.Keys
    {
      WrapIsMod(row, rows);
      WrapIsMod(col, cols);
      var painted, s := ToggleColour(grid, colours, active, current, row % rows, col % cols, Cells());
      colours, active := painted, s;
    }

    /** `create_glider(x, y)`: `grid[y : y + 3, x : x + 3] = glider`, then the five live cells
        of the pattern get the current colour under the keys (y + i, x + j), and
        `initialize_active_cells()` rebuilds the active set. The colours of cells the pattern
        kills stay behind, so at most "every live cell has a colour" is kept, and only for a
        non-negative start: a negative start that still selects three indices writes the pattern
        at the other end of the grid but colours keys off the grid. When the slice selects fewer
        than three indices on an axis, numpy raises before anything is written: `placed` is
        false and nothing changes. */
    method CreateGlider(x: int, y: int) returns (placed: bool)
      requires Valid()
      modifies this, grid
      ensures Valid() && grid == old(grid) && current == old(current)
      ensures placed <==> SliceLength(y, rows) == 3 && SliceLength(x, cols) == 3
      ensures !placed ==> Cells() == old(Cells()) && colours == old(colours) && active == old(active)
      ensures placed ==> Cells() == Stamp(old(Cells()), rows, cols, SliceBound(y, rows), SliceBound(x, cols))
      ensures placed ==> colours.Keys == old(colours).Keys + GliderCells(y, x)
      ensures placed ==> forall k :: k in colours ==> colours[k] == if k in GliderCells(y, x) then current else old(colours)[k]
      ensures placed ==> active == InitialActive(Cells(), rows, cols) && Covered(Cells(), rows, cols, active)
      ensures (!placed || (0 <= x && 0 <= y)) && Live(old(Cells()), rows, cols) <= old(colours).Keys ==>
                Live(Cells(), rows, cols) <= colours.Keys
    {
      placed := SliceLength(y, rows) == 3 && SliceLength(x, cols) == 3;
      if !placed {
        return;
      }
      SliceFitsExactly(y, rows);
      SliceFitsExactly(x, cols);
      var sy, sx := SliceBound(y, rows), SliceBound(x, cols);
      var painted, s := Glide(grid, colours, current, y, x, sy, sx, Cells());
      colours, active := painted, s;
    }

    /** `reset_cells_to_white()`: every entry of `cell_colors` becomes white, and so does the
        colour for new cells. */
    method ResetCellsToWhite()
      requires Valid()
      modifies this
      ensures Valid() && grid == old(grid) && active == old(active)
      ensures colours.Keys == old(colours).Keys && current == White
      ensures forall k :: k in colours ==> colours[k] == White
    {
      colours := map k | k in colours :: White;
      current := White;
    }

    /** The population `get_statistics` reports, `np.sum(grid)`: the number of live cells. */
    method Population() returns (n: nat)
      requires Valid()
      ensures n == |Live(Cells(), rows, cols)|
    {
      ghost var cells := Cells();
      n := 0;
      LiveBeforeStart(cells, rows, cols);
      for i := 0 to rows
        invariant n == |LiveBefore(cells, rows, cols, i, 0)|
      {
        for j := 0 to cols
          invariant n == |LiveBefore(cells, rows, cols, i, j)|
        {
          LiveBeforeNext(cells, rows, cols, i, j);
          if grid[i, j] {
            n := n + 1;
          }
        }
        LiveBeforeRow(cells, rows, cols, i);
      }
      LiveBeforeEnd(cells, rows, cols);
    }
  }
}
