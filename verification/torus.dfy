/** The toroidal Life step of the active-cell steppers, stated over values: which cells a
    step looks at, how it counts neighbours, and which cells it marks active afterwards. */
module Torus {
  import opened Grids
  import opened Rules

  /** (row, col) */
  type Cell = (int, int)

  predicate InBounds(c: Cell, rows: int, cols: int) {
    0 <= c.0 < rows && 0 <= c.1 < cols
  }

  /** Python's `x % m` for a positive modulus: the representative of `x` in [0, m), negative
      `x` included. It is written by repeated addition and subtraction of `m`; `WrapIsMod`
      shows it agrees with `%`. */
  function Wrap(x: int, m: int): (r: int)
    requires m > 0
    ensures 0 <= r < m
    decreases x < 0, if x < 0 then -x else x
  {
    if x < 0 then Wrap(x + m, m) else if x < m then x else Wrap(x - m, m)
  }

  /** `Wrap` only adds or subtracts whole multiples of `m`. */
  lemma {:induction false} WrapQuotient(x: int, m: int) returns (k: int)
    requires m > 0
    ensures x == k * m + Wrap(x, m)
    decreases x < 0, if x < 0 then -x else x
  {
    if x < 0 {
      var k' := WrapQuotient(x + m, m);
      k := k' - 1;
      MulSucc(k, m);
    } else if x < m {
      k := 0;
    } else {
      var k' := WrapQuotient(x - m, m);
      k := k' + 1;
      MulSucc(k', m);
    }
  }

  lemma {:induction false} MulSucc(k: int, m: int)
    ensures (k + 1) * m == k * m + m
  {
  }

  lemma {:induction false} MulAtLeast(a: nat, m: int)
    requires m > 0 && a >= 1
    ensures a * m >= m
    decreases a
  {
    if a > 1 {
      MulAtLeast(a - 1, m);
      MulSucc(a - 1, m);
    }
  }

  /** The remainder in [0, m) of a number is unique. */
  lemma {:induction false} ModUnique(x: int, m: int, k: int, r: int)
    requires m > 0 && 0 <= r < m && x == k * m + r
    ensures x % m == r
  {
    var q := x / m;
    assert x == q * m + x % m;
    var a := k - q;
    assert a * m == k * m - q * m;
    if a >= 1 {
      MulAtLeast(a, m);
    } else if a <= -1 {
      MulAtLeast(-a, m);
    }
  }

  /** `Wrap` is the remainder of Euclidean division, which for a positive modulus is Python's
      `%` as well as Dafny's. */
  lemma {:induction false} WrapIsMod(x: int, m: int)
    requires m > 0
    ensures Wrap(x, m) == x % m
  {
    var k := WrapQuotient(x, m);
    ModUnique(x, m, k, Wrap(x, m));
  }

  /** The cases of `Wrap` a step of -1, 0 or 1 from a cell on the grid can reach. */
  lemma {:induction false} WrapSmall(x: int, m: int)
    requires m > 0
    ensures 0 <= x < m ==> Wrap(x, m) == x
    ensures x == -1 ==> Wrap(x, m) == m - 1
    ensures x == m ==> Wrap(x, m) == 0
  {
    if x == -1 {
      assert Wrap(x, m) == Wrap(m - 1, m);
    } else if x == m {
      assert Wrap(x, m) == Wrap(0, m);
    }
  }

  /** ((i + di) % rows, (j + dj) % cols), as `add_neighbors_to_set` computes it. */
  function Wrapped(i: int, j: int, di: int, dj: int, rows: int, cols: int): (c: Cell)
    requires rows > 0 && cols > 0
  {
    (Wrap(i + di, rows), Wrap(j + dj, cols))
  }

  /** The nine cells `add_neighbors_to_set(i, j, _)` adds: the wrapped cells at offsets
      di, dj in {-1, 0, 1}, the centre included. */
  function Neighbourhood(i: int, j: int, rows: int, cols: int): (s: set<Cell>)
    requires rows > 0 && cols > 0
  {
    { Wrapped(i, j, -1, -1, rows, cols), Wrapped(i, j, -1, 0, rows, cols), Wrapped(i, j, -1, 1, rows, cols),
      Wrapped(i, j, 0, -1, rows, cols),  Wrapped(i, j, 0, 0, rows, cols),  Wrapped(i, j, 0, 1, rows, cols),
      Wrapped(i, j, 1, -1, rows, cols),  Wrapped(i, j, 1, 0, rows, cols),  Wrapped(i, j, 1, 1, rows, cols) }
  }

  /** Every offset in {-1, 0, 1} squared gives a member of the neighbourhood, and nothing else is one. */
  lemma {:induction false} NeighbourhoodMembers(i: int, j: int, rows: int, cols: int, p: Cell)
    requires rows > 0 && cols > 0
    ensures p in Neighbourhood(i, j, rows, cols) <==>
              exists di, dj :: -1 <= di <= 1 && -1 <= dj <= 1 && p == Wrapped(i, j, di, dj, rows, cols)
  {
    if p in Neighbourhood(i, j, rows, cols) {
      if p == Wrapped(i, j, -1, -1, rows, cols) {
      } else if p == Wrapped(i, j, -1, 0, rows, cols) {
      } else if p == Wrapped(i, j, -1, 1, rows, cols) {
      } else if p == Wrapped(i, j, 0, -1, rows, cols) {
      } else if p == Wrapped(i, j, 0, 0, rows, cols) {
      } else if p == Wrapped(i, j, 0, 1, rows, cols) {
      } else if p == Wrapped(i, j, 1, -1, rows, cols) {
      } else if p == Wrapped(i, j, 1, 0, rows, cols) {
      } else {
        assert p == Wrapped(i, j, 1, 1, rows, cols);
      }
    }
  }

  /** A wrapped offset in {-1, 0, 1} squared lies in the neighbourhood. */
  lemma {:induction false} WrappedInNeighbourhood(i: int, j: int, di: int, dj: int, rows: int, cols: int)
    requires rows > 0 && cols > 0 && -1 <= di <= 1 && -1 <= dj <= 1
    ensures Wrapped(i, j, di, dj, rows, cols) in Neighbourhood(i, j, rows, cols)
  {
  }

  /** The union of the neighbourhoods of the cells of `s`. */
  ghost function Around(s: set<Cell>, rows: int, cols: int): set<Cell>
    requires rows > 0 && cols > 0
  {
    set c, p | c in s && p in Neighbourhood(c.0, c.1, rows, cols) :: p
  }

  /** The live cells of `g`, as `initialize_active_cells` first collects them. */
  ghost function Live(g: Grid, rows: nat, cols: nat): set<Cell>
    requires IsGrid(g, rows, cols)
  {
    set i, j | 0 <= i < rows && 0 <= j < cols && g[i][j] :: (i, j)
  }

  /** A cell is in `Live(g)` exactly when it lies on the grid and is live in `g`. */
  lemma {:induction false} LiveMember(g: Grid, rows: nat, cols: nat, p: Cell)
    requires IsGrid(g, rows, cols)
    ensures p in Live(g, rows, cols) <==> InBounds(p, rows, cols) && g[p.0][p.1]
  {
    if p in Live(g, rows, cols) {
      var i, j :| 0 <= i < rows && 0 <= j < cols && g[i][j] && p == (i, j);
    }
  }

  /** What `initialize_active_cells` stores: the live cells and their toroidal neighbourhoods. */
  ghost function InitialActive(g: Grid, rows: nat, cols: nat): set<Cell>
    requires IsGrid(g, rows, cols) && rows > 0 && cols > 0
  {
    Live(g, rows, cols) + Around(Live(g, rows, cols), rows, cols)
  }

  /** The eight wrapped neighbours of (i, j) that are live, summed in the order `update_grid`
      adds them. */
  function WrapCount(g: Grid, rows: nat, cols: nat, i: int, j: int): nat
    requires IsGrid(g, rows, cols) && InBounds((i, j), rows, cols)
  {
    Bit(g[i][Wrap(j - 1, cols)]) + Bit(g[i][Wrap(j + 1, cols)])
    + Bit(g[Wrap(i - 1, rows)][j]) + Bit(g[Wrap(i + 1, rows)][j])
    + Bit(g[Wrap(i - 1, rows)][Wrap(j - 1, cols)]) + Bit(g[Wrap(i - 1, rows)][Wrap(j + 1, cols)])
    + Bit(g[Wrap(i + 1, rows)][Wrap(j - 1, cols)]) + Bit(g[Wrap(i + 1, rows)][Wrap(j + 1, cols)])
  }

  /** The state of cell (i, j) after one toroidal step of `g`. */
  function NextAt(g: Grid, rows: nat, cols: nat, i: int, j: int): bool
    requires IsGrid(g, rows, cols) && InBounds((i, j), rows, cols)
  {
    Rule(g[i][j], WrapCount(g, rows, cols, i, j))
  }

  /** The full toroidal Life step: every cell follows the rule. */
  ghost function Step(g: Grid, rows: nat, cols: nat): (r: Grid)
    requires IsGrid(g, rows, cols)
    ensures IsGrid(r, rows, cols)
  {
    seq(rows, i requires 0 <= i < rows =>
      seq(cols, j requires 0 <= j < cols => NextAt(g, rows, cols, i, j)))
  }

  /** What `update_grid` writes: the cells of `active` follow the rule, evaluated against `g`;
      every other cell keeps its value, since the step writes into a copy of `g`. */
  ghost function ActiveStep(g: Grid, rows: nat, cols: nat, active: set<Cell>): (r: Grid)
    requires IsGrid(g, rows, cols)
    ensures IsGrid(r, rows, cols)
  {
    seq(rows, i requires 0 <= i < rows =>
      seq(cols, j requires 0 <= j < cols =>
        if (i, j) in active then NextAt(g, rows, cols, i, j) else g[i][j]))
  }

  /** Checking one more cell changes that cell of the written grid and no other. */
  lemma {:induction false} ActiveStepAdd(g: Grid, rows: nat, cols: nat, done: set<Cell>, c: Cell)
    requires IsGrid(g, rows, cols) && InBounds(c, rows, cols)
    ensures var r := ActiveStep(g, rows, cols, done);
            ActiveStep(g, rows, cols, done + {c}) == r[c.0 := r[c.0][c.1 := NextAt(g, rows, cols, c.0, c.1)]]
  {
    var r := ActiveStep(g, rows, cols, done);
    GridsEqual(ActiveStep(g, rows, cols, done + {c}), r[c.0 := r[c.0][c.1 := NextAt(g, rows, cols, c.0, c.1)]], rows, cols);
  }

  /** Checking no cell writes nothing. */
  lemma {:induction false} ActiveStepNone(g: Grid, rows: nat, cols: nat)
    requires IsGrid(g, rows, cols)
    ensures ActiveStep(g, rows, cols, {}) == g
  {
    GridsEqual(ActiveStep(g, rows, cols, {}), g, rows, cols);
  }

  /** The cells of `s` that are live after the step. */
  ghost function Lives(g: Grid, rows: nat, cols: nat, s: set<Cell>): set<Cell>
    requires IsGrid(g, rows, cols)
  {
    set c | c in s && InBounds(c, rows, cols) && NextAt(g, rows, cols, c.0, c.1)
  }

  /** The active set `update_grid` rebuilds: the neighbourhoods of the checked cells that are
      live after the step. */
  ghost function Spread(g: Grid, rows: nat, cols: nat, active: set<Cell>): set<Cell>
    requires IsGrid(g, rows, cols) && rows > 0 && cols > 0
  {
    Around(Lives(g, rows, cols, active), rows, cols)
  }

  /** The active-set invariant: every live cell has its whole neighbourhood in `active`. */
  ghost predicate Covered(g: Grid, rows: nat, cols: nat, active: set<Cell>)
    requires IsGrid(g, rows, cols) && rows > 0 && cols > 0
  {
    forall i, j :: 0 <= i < rows && 0 <= j < cols && g[i][j] ==>
      Neighbourhood(i, j, rows, cols) <= active
  }

  /** The neighbourhood holds the wrapped centre and only in-bounds cells. */
  lemma {:induction false} NeighbourhoodShape(i: int, j: int, rows: int, cols: int)
    requires rows > 0 && cols > 0
    ensures (Wrap(i, rows), Wrap(j, cols)) in Neighbourhood(i, j, rows, cols)
    ensures forall c :: c in Neighbourhood(i, j, rows, cols) ==> InBounds(c, rows, cols)
  {
  }

  /** The union of neighbourhoods stays in bounds. */
  lemma {:induction false} AroundInBounds(s: set<Cell>, rows: int, cols: int)
    requires rows > 0 && cols > 0
    ensures forall p :: p in Around(s, rows, cols) ==> InBounds(p, rows, cols)
  {
    forall p | p in Around(s, rows, cols) ensures InBounds(p, rows, cols) {
      var c :| c in s && p in Neighbourhood(c.0, c.1, rows, cols);
      NeighbourhoodShape(c.0, c.1, rows, cols);
    }
  }

  /** A wrapped step of -1, 0 or 1 is undone by the opposite step. */
  lemma {:induction false} WrapBack(x: int, d: int, m: int)
    requires 0 <= x < m && -1 <= d <= 1
    ensures Wrap(Wrap(x + d, m) - d, m) == x
  {
    WrapSmall(x + d, m);
    WrapSmall(x, m);
    if x + d == m {
      WrapSmall(-1, m);
    } else if x + d == -1 {
      WrapSmall(m, m);
    }
  }

  /** Adjacency on the torus is symmetric: (i, j) lies in the neighbourhood of each of its
      eight neighbours. */
  lemma {:induction false} NeighbourSymmetric(i: int, j: int, di: int, dj: int, rows: int, cols: int)
    requires InBounds((i, j), rows, cols) && -1 <= di <= 1 && -1 <= dj <= 1
    ensures (i, j) in Neighbourhood(Wrap(i + di, rows), Wrap(j + dj, cols), rows, cols)
  {
    WrapBack(i, di, rows);
    WrapBack(j, dj, cols);
    var n := Wrapped(i, j, di, dj, rows, cols);
    assert (i, j) == Wrapped(n.0, n.1, -di, -dj, rows, cols);
    WrappedInNeighbourhood(n.0, n.1, -di, -dj, rows, cols);
  }

  /** Under the invariant, a neighbour of a cell outside `active` is dead. */
  lemma {:induction false} NeighbourIsDead(g: Grid, rows: nat, cols: nat, active: set<Cell>, i: int, j: int, di: int, dj: int)
    requires IsGrid(g, rows, cols) && rows > 0 && cols > 0
    requires Covered(g, rows, cols, active)
    requires InBounds((i, j), rows, cols) && (i, j) !in active
    requires -1 <= di <= 1 && -1 <= dj <= 1
    ensures !g[Wrap(i + di, rows)][Wrap(j + dj, cols)]
  {
    var n := (Wrap(i + di, rows), Wrap(j + dj, cols));
    if g[n.0][n.1] {
      NeighbourSymmetric(i, j, di, dj, rows, cols);
    }
  }

  /** Under the invariant, a cell outside `active` is dead and has no live neighbour. */
  lemma {:induction false} OutsideIsQuiet(g: Grid, rows: nat, cols: nat, active: set<Cell>, i: int, j: int)
    requires IsGrid(g, rows, cols) && rows > 0 && cols > 0
    requires Covered(g, rows, cols, active)
    requires InBounds((i, j), rows, cols) && (i, j) !in active
    ensures !g[i][j] && WrapCount(g, rows, cols, i, j) == 0
  {
    WrapSmall(i, rows);
    WrapSmall(j, cols);
    assert Wrap(i + 0, rows) == i && Wrap(j + 0, cols) == j;
    NeighbourIsDead(g, rows, cols, active, i, j, 0, 0);
    NeighbourIsDead(g, rows, cols, active, i, j, 0, -1);
    NeighbourIsDead(g, rows, cols, active, i, j, 0, 1);
    NeighbourIsDead(g, rows, cols, active, i, j, -1, 0);
    NeighbourIsDead(g, rows, cols, active, i, j, 1, 0);
    NeighbourIsDead(g, rows, cols, active, i, j, -1, -1);
    NeighbourIsDead(g, rows, cols, active, i, j, -1, 1);
    NeighbourIsDead(g, rows, cols, active, i, j, 1, -1);
    NeighbourIsDead(g, rows, cols, active, i, j, 1, 1);
  }

  /** When the invariant holds, stepping only the active cells is the full toroidal step. */
  lemma {:induction false} ActiveStepIsStep(g: Grid, rows: nat, cols: nat, active: set<Cell>)
    requires IsGrid(g, rows, cols) && rows > 0 && cols > 0
    requires Covered(g, rows, cols, active)
    ensures ActiveStep(g, rows, cols, active) == Step(g, rows, cols)
  {
    var a, s := ActiveStep(g, rows, cols, active), Step(g, rows, cols);
    forall i | 0 <= i < rows ensures a[i] == s[i] {
      forall j | 0 <= j < cols ensures a[i][j] == s[i][j] {
        if (i, j) !in active {
          OutsideIsQuiet(g, rows, cols, active, i, j);
        }
      }
    }
  }

  /** The active set `update_grid` rebuilds keeps the invariant for the grid it writes. */
  lemma {:induction false} SpreadCovers(g: Grid, rows: nat, cols: nat, active: set<Cell>)
    requires IsGrid(g, rows, cols) && rows > 0 && cols > 0
    requires Covered(g, rows, cols, active)
    ensures Covered(ActiveStep(g, rows, cols, active), rows, cols, Spread(g, rows, cols, active))
  {
    var a := ActiveStep(g, rows, cols, active);
    var lives := Lives(g, rows, cols, active);
    forall i, j | 0 <= i < rows && 0 <= j < cols && a[i][j]
      ensures Neighbourhood(i, j, rows, cols) <= Spread(g, rows, cols, active)
    {
      if (i, j) !in active {
        OutsideIsQuiet(g, rows, cols, active, i, j);
      }
      assert (i, j) in lives;
      forall p | p in Neighbourhood(i, j, rows, cols) ensures p in Around(lives, rows, cols) {
        assert (i, j).0 == i && (i, j).1 == j;
      }
    }
  }

  /** The set `initialize_active_cells` stores lies on the grid. */
  lemma {:induction false} InitialActiveInBounds(g: Grid, rows: nat, cols: nat)
    requires IsGrid(g, rows, cols) && rows > 0 && cols > 0
    ensures forall p :: p in InitialActive(g, rows, cols) ==> InBounds(p, rows, cols)
  {
    var live := Live(g, rows, cols);
    AroundInBounds(live, rows, cols);
    forall p | p in InitialActive(g, rows, cols) ensures InBounds(p, rows, cols) {
      if p in live {
        var i, j :| 0 <= i < rows && 0 <= j < cols && g[i][j] && p == (i, j);
      }
    }
  }

  /** An in-bounds cell lies in its own neighbourhood. */
  lemma {:induction false} CentreInNeighbourhood(c: Cell, rows: int, cols: int)
    requires InBounds(c, rows, cols)
    ensures c in Neighbourhood(c.0, c.1, rows, cols)
  {
    WrapSmall(c.0, rows);
    WrapSmall(c.1, cols);
  }

  /** `initialize_active_cells` establishes the invariant, and its set is the least one that
      does. */
  lemma {:induction false} InitialActiveIsLeastCover(g: Grid, rows: nat, cols: nat, s: set<Cell>)
    requires IsGrid(g, rows, cols) && rows > 0 && cols > 0
    ensures Covered(g, rows, cols, InitialActive(g, rows, cols))
    ensures Covered(g, rows, cols, s) ==> InitialActive(g, rows, cols) <= s
  {
    var live := Live(g, rows, cols);
    forall i, j | 0 <= i < rows && 0 <= j < cols && g[i][j]
      ensures Neighbourhood(i, j, rows, cols) <= InitialActive(g, rows, cols)
    {
      assert (i, j) in live;
      forall p | p in Neighbourhood(i, j, rows, cols) ensures p in Around(live, rows, cols) {
        assert (i, j).0 == i && (i, j).1 == j;
      }
    }
    if Covered(g, rows, cols, s) {
      forall p | p in InitialActive(g, rows, cols) ensures p in s {
        if p in live {
          CentreInNeighbourhood(p, rows, cols);
        } else {
          var c :| c in live && p in Neighbourhood(c.0, c.1, rows, cols);
        }
      }
    }
  }

  /** Growing a set by one cell grows the union of neighbourhoods by that cell's. */
  lemma {:induction false} AroundAdd(s: set<Cell>, c: Cell, rows: int, cols: int)
    requires rows > 0 && cols > 0
    ensures Around(s + {c}, rows, cols) == Around(s, rows, cols) + Neighbourhood(c.0, c.1, rows, cols)
  {
    forall p | p in Around(s + {c}, rows, cols)
      ensures p in Around(s, rows, cols) + Neighbourhood(c.0, c.1, rows, cols)
    {
      var d :| d in s + {c} && p in Neighbourhood(d.0, d.1, rows, cols);
      if d != c {
        assert d in s;
      }
    }
  }
}
