/** What `HashLife.next_generation` computes, as functions on node values: the clipped
    brute-force step of `evolve_cells`, the 4 x 4 window of the base case, `cell_to_node`,
    `get_sub_node` and the recursion that combines the four advanced sub-nodes. */
module Advance {
  import opened Grids
  import opened Rules
  import opened Quadtree

  /** The live neighbour count of `evolve_cells`: the sum of the slice
      `cells[max(0, i - 1) : min(i + 2, rows), max(0, j - 1) : min(j + 2, cols)]`, less the cell
      itself. The slice is clipped at the edges of the array; nothing wraps. */
  function ClipCount(g: Grid, rows: nat, cols: nat, i: nat, j: nat): int
    requires IsGrid(g, rows, cols) && i < rows && j < cols
  {
    Count(Slice(g, Max(0, i - 1), Min(i + 2, rows), Max(0, j - 1), Min(j + 2, cols))) - Bit(g[i][j])
  }

  /** The next value of cell (i, j) under `evolve_cells`: the rule with its clipped count. */
  function EvolveAt(g: Grid, rows: nat, cols: nat, i: nat, j: nat): bool
    requires IsGrid(g, rows, cols) && i < rows && j < cols
  {
    Rule(g[i][j], ClipCount(g, rows, cols, i, j))
  }

  /** `evolve_cells(cells)`: every cell follows the rule with its clipped neighbour count. */
  function Evolve(g: Grid, rows: nat, cols: nat): (r: Grid)
    requires IsGrid(g, rows, cols)
    ensures IsGrid(r, rows, cols)

  {
    seq(rows, i requires 0 <= i < rows =>
      seq(cols, j requires 0 <= j < cols => EvolveAt(g, rows, cols, i, j)))
  }

  /** `e` is the grid `evolve_cells` makes of `g`. The cell-wise equation is only instantiated
      where a cell's rule is asked for, so a method that passes `e` along does not expand the
      rule at every cell it touches. */
  ghost predicate Evolved(g: Grid, e: Grid, rows: nat, cols: nat) {
    && IsGrid(g, rows, cols) && IsGrid(e, rows, cols)
    && forall i, j {:trigger EvolveAt(g, rows, cols, i, j)} :: 0 <= i < rows && 0 <= j < cols ==>
         e[i][j] == EvolveAt(g, rows, cols, i, j)
  }

  lemma {:induction false} EvolveIsEvolved(g: Grid, rows: nat, cols: nat)
    requires IsGrid(g, rows, cols)
    ensures Evolved(g, Evolve(g, rows, cols), rows, cols)
  {
    var e := Evolve(g, rows, cols);
    forall i, j | 0 <= i < rows && 0 <= j < cols
      ensures e[i][j] == EvolveAt(g, rows, cols, i, j)
    {
    }
  }

  /** 1 for a live cell inside the array, 0 for a dead one or a position off the array. */
  function At(g: Grid, rows: nat, cols: nat, r: int, c: int): nat
    requires IsGrid(g, rows, cols)
  {
    if 0 <= r < rows && 0 <= c < cols then Bit(g[r][c]) else 0
  }

  /** The eight neighbours of (i, j) that lie inside the array and are live. */
  function InsideNeighbours(g: Grid, rows: nat, cols: nat, i: int, j: int): nat
    requires IsGrid(g, rows, cols)
  {
    At(g, rows, cols, i - 1, j - 1) + At(g, rows, cols, i - 1, j) + At(g, rows, cols, i - 1, j + 1)
    + At(g, rows, cols, i, j - 1) + At(g, rows, cols, i, j + 1)
    + At(g, rows, cols, i + 1, j - 1) + At(g, rows, cols, i + 1, j) + At(g, rows, cols, i + 1, j + 1)
  }

  lemma {:induction false} RowCountSmall(s: seq<bool>)
    requires 1 <= |s| <= 3
    ensures RowCount(s) == Bit(s[0]) + (if |s| >= 2 then Bit(s[1]) else 0) + (if |s| == 3 then Bit(s[2]) else 0)
  {
    var n := |s|;
    var u := s[..n - 1];
    assert RowCount(s) == RowCount(u) + Bit(s[n - 1]);
    if n >= 2 {
      var t := u[..n - 2];
      assert RowCount(u) == RowCount(t) + Bit(u[n - 2]);
      if n == 3 {
        assert RowCount(t) == RowCount(t[..0]) + Bit(t[0]);
      }
    }
  }

  lemma {:induction false} CountSmall(g: Grid)
    requires 1 <= |g| <= 3
    ensures Count(g) == RowCount(g[0]) + (if |g| >= 2 then RowCount(g[1]) else 0) + (if |g| == 3 then RowCount(g[2]) else 0)
  {
    var n := |g|;
    var u := g[..n - 1];
    assert Count(g) == Count(u) + RowCount(g[n - 1]);
    if n >= 2 {
      var t := u[..n - 2];
      assert Count(u) == Count(t) + RowCount(u[n - 2]);
      if n == 3 {
        assert Count(t) == Count(t[..0]) + RowCount(t[0]);
      }
    }
  }

  /** The clipped slice of one row holds the row's cells at j - 1, j and j + 1 that exist. */
  lemma {:induction false} RowWindow(g: Grid, rows: nat, cols: nat, r: nat, j: nat)
    requires IsGrid(g, rows, cols) && r < rows && j < cols
    ensures RowCount(g[r][Max(0, j - 1)..Min(j + 2, cols)]) == Row3(g, rows, cols, r, j)
  {
    var lo, hi := Max(0, j - 1), Min(j + 2, cols);
    var s := g[r][lo..hi];
    RowCountSmall(s);
    assert s[0] == g[r][lo];
    if hi - lo >= 2 {
      assert s[1] == g[r][lo + 1];
    }
    if hi - lo == 3 {
      assert s[2] == g[r][lo + 2];
    }
  }

  /** The clipped slice count of `evolve_cells` is the number of live neighbours inside the array. */
  lemma {:induction false} ClipCountIsInside(g: Grid, rows: nat, cols: nat, i: nat, j: nat)
    requires IsGrid(g, rows, cols) && i < rows && j < cols
    ensures ClipCount(g, rows, cols, i, j) == InsideNeighbours(g, rows, cols, i, j)
  {
    var lo, hi := Max(0, i - 1), Min(i + 2, rows);
    var s := Slice(g, lo, hi, Max(0, j - 1), Min(j + 2, cols));
    SliceCount(g, rows, cols, lo, hi, i, j);
    assert Count(s) == Row3(g, rows, cols, i - 1, j) + Row3(g, rows, cols, i, j) + Row3(g, rows, cols, i + 1, j);
  }

  /** The clipped 3 x 3 slice around (i, j) counts the live cells of the three rows around i
      that exist. */
  lemma {:induction false} SliceCount(g: Grid, rows: nat, cols: nat, lo: nat, hi: nat, i: nat, j: nat)
    requires IsGrid(g, rows, cols) && i < rows && j < cols
    requires lo == Max(0, i - 1) && hi == Min(i + 2, rows)
    ensures Count(Slice(g, lo, hi, Max(0, j - 1), Min(j + 2, cols)))
            == Row3(g, rows, cols, i - 1, j) + Row3(g, rows, cols, i, j) + Row3(g, rows, cols, i + 1, j)
  {
    var s := Slice(g, lo, hi, Max(0, j - 1), Min(j + 2, cols));
    CountSmall(s);
    RowWindow(g, rows, cols, i, j);
    if i > 0 {
      RowWindow(g, rows, cols, i - 1, j);
      assert s[0] == g[i - 1][Max(0, j - 1)..Min(j + 2, cols)];
      assert s[1] == g[i][Max(0, j - 1)..Min(j + 2, cols)];
    } else {
      assert Row3(g, rows, cols, i - 1, j) == 0;
      assert s[0] == g[i][Max(0, j - 1)..Min(j + 2, cols)];
    }
    if i + 1 < rows {
      RowWindow(g, rows, cols, i + 1, j);
      assert s[hi - lo - 1] == g[i + 1][Max(0, j - 1)..Min(j + 2, cols)];
    } else {
      assert Row3(g, rows, cols, i + 1, j) == 0;
    }
  }

  /** The cells of row r at j - 1, j and j + 1 that lie inside the array and are live. */
  function Row3(g: Grid, rows: nat, cols: nat, r: int, j: int): nat
    requires IsGrid(g, rows, cols)
  {
    At(g, rows, cols, r, j - 1) + At(g, rows, cols, r, j) + At(g, rows, cols, r, j + 1)
  }

  /** `evolve_cells` applies B3/S23 with the clipped count: a live cell stays live with two or
      three live neighbours inside the array, a dead cell comes alive with exactly three, and the
      shape is kept. */
  lemma {:induction false} EvolveRule(g: Grid, rows: nat, cols: nat, i: nat, j: nat)
    requires IsGrid(g, rows, cols) && i < rows && j < cols
    ensures var n := InsideNeighbours(g, rows, cols, i, j);
            Evolve(g, rows, cols)[i][j] <==> (g[i][j] && 2 <= n <= 3) || (!g[i][j] && n == 3)
  {
    ClipCountIsInside(g, rows, cols, i, j);
  }

  /** The children of a full level-1 node are leaves. */
  lemma {:induction false} ChildrenAreLeaves(n: Node)
    requires Square(n) && Level(n) == 1
    ensures n.Quad? && n.nw.Leaf? && n.ne.Leaf? && n.sw.Leaf? && n.se.Leaf?
  {
    assert Square(n.nw) && Square(n.ne) && Square(n.sw) && Square(n.se);
  }

  /** The 4 x 4 window of `next_generation_base` for a level-1 node whose leaves hold `a`, `b`,
      `c` and `d`: `get_cells` of each leaf is a 1 x 1 array, which numpy broadcasts over the
      leaf's 2 x 2 slot. */
  function BaseWindow(a: bool, b: bool, c: bool, d: bool): (w: Grid)
    ensures IsGrid(w, 4, 4)
    ensures forall i, j :: 0 <= i < 4 && 0 <= j < 4 ==>
              w[i][j] == (if i < 2 then (if j < 2 then a else b) else (if j < 2 then c else d))
  {
    seq(4, i requires 0 <= i < 4 =>
      seq(4, j requires 0 <= j < 4 => if i < 2 then (if j < 2 then a else b) else (if j < 2 then c else d)))
  }

  /** `cell_to_node(cells)`: a 1 x 1 array becomes a leaf holding a numpy bool; anything larger
      becomes a node over the four 1 x 1 slices at its top-left corner. The source only hands it
      2 x 2 quarters of the evolved window. */
  function CellNode(cells: Grid): (n: Node)
    requires IsGrid(cells, 1, 1) || IsGrid(cells, 2, 2)
    ensures Square(n) && Level(n) == |cells| - 1
    decreases |cells|
  {
    if |cells| == 1 then Leaf(cells[0][0], Words)
    else MakeQuad(CellNode(Slice(cells, 0, 1, 0, 1)), CellNode(Slice(cells, 0, 1, 1, 2)),
                  CellNode(Slice(cells, 1, 2, 0, 1)), CellNode(Slice(cells, 1, 2, 1, 2)))
  }

  /** `cell_to_node` of a 1 x 1 slice is a leaf holding that cell. */
  lemma {:induction false} LeafOfSlice(cells: Grid, r: nat, c: nat)
    requires IsGrid(cells, 2, 2) && r < 2 && c < 2
    ensures CellNode(Slice(cells, r, r + 1, c, c + 1)) == Leaf(cells[r][c], Words)
  {
    var q := Slice(cells, r, r + 1, c, c + 1);
    assert |q| == 1 && q[0] == cells[r][c..c + 1];
  }

  /** `cell_to_node` loses nothing: the node expands back to the 2 x 2 array it was built from. */
  lemma {:induction false} CellNodeRoundTrip(cells: Grid)
    requires IsGrid(cells, 2, 2)
    ensures FullGrid(CellNode(cells)) == cells
  {
    var n := CellNode(cells);
    LeafOfSlice(cells, 0, 0);
    LeafOfSlice(cells, 0, 1);
    LeafOfSlice(cells, 1, 0);
    LeafOfSlice(cells, 1, 1);
    forall i, j | 0 <= i < 2 && 0 <= j < 2 ensures FullGrid(n)[i][j] == cells[i][j] {
      FullGridCell(n, i, j);
    }
    GridsEqual(FullGrid(n), cells, 2, 2);
  }

  /** The `create_node` of `next_generation_base` over `cell_to_node` of the four 2 x 2 quarters
      of a 4 x 4 array. */
  function Rebuilt(e: Grid): (n: Node)
    requires IsGrid(e, 4, 4)
    ensures Square(n) && Level(n) == 2
  {
    MakeQuad(CellNode(Slice(e, 0, 2, 0, 2)), CellNode(Slice(e, 0, 2, 2, 4)),
             CellNode(Slice(e, 2, 4, 0, 2)), CellNode(Slice(e, 2, 4, 2, 4)))
  }

  /** Rebuilding the four 2 x 2 quarters of a 4 x 4 array gives back the array. */
  lemma {:induction false} QuartersRoundTrip(e: Grid)
    requires IsGrid(e, 4, 4)
    ensures FullGrid(Rebuilt(e)) == e
  {
    CellNodeRoundTrip(Slice(e, 0, 2, 0, 2));
    CellNodeRoundTrip(Slice(e, 0, 2, 2, 4));
    CellNodeRoundTrip(Slice(e, 2, 4, 0, 2));
    CellNodeRoundTrip(Slice(e, 2, 4, 2, 4));
    var g := FullGrid(Rebuilt(e));
    forall i | 0 <= i < 4 ensures g[i] == e[i] {
      assert e[i] == e[i][0..2] + e[i][2..4];
    }
  }

  /** The window of a full level-1 node. */
  function Window(n: Node): (w: Grid)
    requires Square(n) && Level(n) == 1
    ensures IsGrid(w, 4, 4)
  {
    ChildrenAreLeaves(n);
    BaseWindow(n.nw.alive, n.ne.alive, n.sw.alive, n.se.alive)
  }

  /** `next_generation_base(node)` for a level-1 node: evolve the broadcast window and rebuild its
      four 2 x 2 quarters into a level-2 node. */
  function Base(n: Node): (r: Node)
    requires Square(n) && Level(n) == 1
    ensures Square(r) && Level(r) == 2
  {
    Rebuilt(Evolve(Window(n), 4, 4))
  }

  /** The base case yields the evolved window itself: the result of `next_generation_base`
      expands to `evolve_cells` of the broadcast window. */
  lemma {:induction false} BaseIsEvolvedWindow(n: Node)
    requires Square(n) && Level(n) == 1
    ensures FullGrid(Base(n)) == Evolve(Window(n), 4, 4)
  {
    QuartersRoundTrip(Evolve(Window(n), 4, 4));
  }

  /** A full internal node of level l + 1: four full children of level l. */
  predicate FullQuad(c: Node, l: nat) {
    && c.Quad? && Level(c) == l + 1
    && Square(c.nw) && Square(c.ne) && Square(c.sw) && Square(c.se)
    && Level(c.nw) == l && Level(c.ne) == l && Level(c.sw) == l && Level(c.se) == l
  }

  /** The four children of a full node of level two or more are full internal nodes. */
  lemma {:induction false} ChildrenAreQuads(n: Node)
    requires Square(n) && Level(n) >= 2
    ensures FullQuad(n, Level(n) - 1)
    ensures FullQuad(n.nw, Level(n) - 2) && FullQuad(n.ne, Level(n) - 2)
    ensures FullQuad(n.sw, Level(n) - 2) && FullQuad(n.se, Level(n) - 2)
  {
    assert Square(n.nw) && Square(n.ne) && Square(n.sw) && Square(n.se);
    assert Square(n.nw.nw) && Square(n.ne.nw) && Square(n.sw.nw) && Square(n.se.nw);
  }

  /** `get_sub_node(node, x, y)`, as written: (0, 0) and (1, 1) both take the four grandchildren
      around the centre, (0, 1) takes nw.ne, ne.nw, sw.se, se.sw, and (1, 0) takes nw.sw, ne.se,
      sw.nw, se.ne. */
  function SubNode(n: Node, x: int, y: int): (r: Node)
    requires Square(n) && Level(n) >= 2
    ensures Square(r) && Level(r) == Level(n) - 1
  {
    ChildrenAreQuads(n);
    if x == 0 && y == 0 then MakeQuad(n.nw.se, n.ne.sw, n.sw.ne, n.se.nw)
    else if x == 0 && y == 1 then MakeQuad(n.nw.ne, n.ne.nw, n.sw.se, n.se.sw)
    else if x == 1 && y == 0 then MakeQuad(n.nw.sw, n.ne.se, n.sw.nw, n.se.ne)
    else MakeQuad(n.nw.se, n.ne.sw, n.sw.ne, n.se.nw)
  }

  /** The first and last sub-nodes the recursion advances are one and the same node. */
  lemma {:induction false} SubNodeDuplicate(n: Node)
    requires Square(n) && Level(n) >= 2
    ensures SubNode(n, 0, 0) == SubNode(n, 1, 1)
    ensures SubNode(n, 0, 0).nw == n.nw.se && SubNode(n, 0, 1).nw == n.nw.ne && SubNode(n, 1, 0).nw == n.nw.sw
  {
  }

  /** `next_generation(node)` for a full node of level one or more: the base case at level one,
      the recursion above it. Every result is a full node of level two, whatever the level of the
      input. */
  function NextGen(n: Node): (r: Node)
    requires Square(n) && Level(n) >= 1
    ensures Square(r) && Level(r) == 2
    decreases Level(n), 1
  {
    if Level(n) == 1 then Base(n) else Assemble(n)
  }

  /** The recursive case of `next_generation`: the four sub-nodes are advanced and the inner
      quarters of their results combined. */
  function Assemble(n: Node): (r: Node)
    requires Square(n) && Level(n) >= 2
    ensures Square(r) && Level(r) == 2
    decreases Level(n), 0
  {
    var n00, n01 := NextGen(SubNode(n, 0, 0)), NextGen(SubNode(n, 0, 1));
    var n10, n11 := NextGen(SubNode(n, 1, 0)), NextGen(SubNode(n, 1, 1));
    ChildrenAreQuads(n00);
    ChildrenAreQuads(n01);
    ChildrenAreQuads(n10);
    ChildrenAreQuads(n11);
    MakeQuad(n00.se, n01.sw, n10.ne, n11.nw)
  }

  /** Why `next_generation` on a leaf fails: `get_cells` is handed the leaf's missing child. */
  datatype Failure = MissingChild

  datatype Outcome = Advanced(node: Node) | Failed(failure: Failure)

  /** `next_generation(node)` on any full node: a leaf fails, anything else advances. */
  function NextGenOutcome(n: Node): (r: Outcome)
    requires Square(n)
    ensures r.Failed? <==> Level(n) == 0
    ensures r.Advanced? ==> Square(r.node) && Level(r.node) == 2
  {
    if Level(n) == 0 then Failed(MissingChild) else Advanced(NextGen(n))
  }

  /** `evolve_cells` brings nothing to life in a dead array. */
  lemma {:induction false} EvolveDead(g: Grid, rows: nat, cols: nat)
    requires IsGrid(g, rows, cols) && Dead(g)
    ensures Dead(Evolve(g, rows, cols))
  {
    var e := Evolve(g, rows, cols);
    forall i, j | 0 <= i < |e| && 0 <= j < |e[i]| ensures !e[i][j] {
      EvolveRule(g, rows, cols, i, j);
      assert InsideNeighbours(g, rows, cols, i, j) == 0;
    }
  }

  /** The base case keeps a dead node dead. */
  lemma {:induction false} BaseEmpty(n: Node)
    requires Square(n) && Level(n) == 1 && Empty(n)
    ensures Empty(Base(n))
  {
    ChildrenAreLeaves(n);
    var w := Window(n);
    assert Dead(w);
    EvolveDead(w, 4, 4);
    BaseIsEvolvedWindow(n);
    EmptyIsDead(Base(n));
  }

  /** `next_generation` keeps a dead node dead: the empty universe is a fixed point. */
  lemma {:induction false} NextGenEmpty(n: Node)
    requires Square(n) && Level(n) >= 1 && Empty(n)
    ensures Empty(NextGen(n))
    decreases Level(n), 1
  {
    if Level(n) == 1 {
      BaseEmpty(n);
    } else {
      AssembleEmpty(n);
    }
  }

  lemma {:induction false} AssembleEmpty(n: Node)
    requires Square(n) && Level(n) >= 2 && Empty(n)
    ensures Empty(Assemble(n))
    decreases Level(n), 0
  {
    ChildrenAreQuads(n);
    SubNodeEmpty(n, 0, 0);
    SubNodeEmpty(n, 0, 1);
    SubNodeEmpty(n, 1, 0);
    SubNodeEmpty(n, 1, 1);
    NextGenEmpty(SubNode(n, 0, 0));
    NextGenEmpty(SubNode(n, 0, 1));
    NextGenEmpty(SubNode(n, 1, 0));
    NextGenEmpty(SubNode(n, 1, 1));
  }

  /** The sub-nodes of a dead node are dead. */
  lemma {:induction false} SubNodeEmpty(n: Node, x: int, y: int)
    requires Square(n) && Level(n) >= 2 && Empty(n)
    ensures Empty(SubNode(n, x, y))
  {
    ChildrenAreQuads(n);
  }
}
