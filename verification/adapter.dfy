/** The conversion between the dense grid of game_of_life_draft.py and its quadtree:
    `grid_to_quadtree` with its inner `build_tree`, and `quadtree_to_grid`. */
module Adapter {
  import opened Grids
  import opened Quadtree
  import opened Engine

  /** Python's `int.bit_length()`: the number of binary digits of n, 0 for 0. */
  function BitLength(n: nat): nat {
    if n == 0 then 0 else 1 + BitLength(n / 2)
  }

  /** The side `2 ** max(rows, cols).bit_length()` of the padded grid is strictly greater than
      n, and for n >= 1 at most twice n. */
  lemma {:induction false} BitLengthBounds(n: nat)
    ensures n < Pow2(BitLength(n))
    ensures n >= 1 ==> BitLength(n) >= 1 && Pow2(BitLength(n)) <= 2 * n
  {
    if n > 0 {
      BitLengthBounds(n / 2);
    }
  }

  /** `n` is the tree `build_tree(x, y, size)` builds over the square grid `p`: a full quadtree
      of side `size` whose leaves hold numpy ints and whose grid is the size x size window of `p`
      with top-left cell at row y, column x. */
  ghost predicate Encodes(n: Node, p: Grid, x: nat, y: nat, size: nat) {
    && IsGrid(p, |p|, |p|) && x + size <= |p| && y + size <= |p|
    && Square(n) && Pow2(Level(n)) == size && Spelled(n, Digits)
    && FullGrid(n) == SquareWindow(p, x, y, size)
  }

  /** Four trees of the four quarter windows make the tree of the whole window; x2 and y2 are
      the column and row where the second quarters start. */
  lemma {:induction false} EncodesQuad(nw: Node, ne: Node, sw: Node, se: Node, p: Grid, x: nat, y: nat, x2: nat, y2: nat, half: nat, size: nat)
    requires size == half + half && x2 == x + half && y2 == y + half
    requires Encodes(nw, p, x, y, half) && Encodes(ne, p, x2, y, half)
    requires Encodes(sw, p, x, y2, half) && Encodes(se, p, x2, y2, half)
    ensures Encodes(MakeQuad(nw, ne, sw, se), p, x, y, size)
  {
    Pow2Injective(Level(ne), Level(nw));
    Pow2Injective(Level(sw), Level(nw));
    Pow2Injective(Level(se), Level(nw));
    QuadLevel(nw, ne, sw, se, half);
    QuadSpelled(nw, ne, sw, se, Digits);
    QuadWindow(nw, ne, sw, se, p, x, y, x2, y2, half, size);
  }

  lemma {:induction false} QuadLevel(nw: Node, ne: Node, sw: Node, se: Node, h: nat)
    requires Square(nw) && Square(ne) && Square(sw) && Square(se)
    requires Level(ne) == Level(nw) && Level(sw) == Level(nw) && Level(se) == Level(nw)
    requires Pow2(Level(nw)) == h
    ensures Square(MakeQuad(nw, ne, sw, se)) && Pow2(Level(MakeQuad(nw, ne, sw, se))) == h + h
  {
    MakeQuadSquare(nw, ne, sw, se);
    Pow2Succ(Level(nw), Level(MakeQuad(nw, ne, sw, se)));
  }

  lemma {:induction false} QuadSpelled(nw: Node, ne: Node, sw: Node, se: Node, s: Spelling)
    requires Spelled(nw, s) && Spelled(ne, s) && Spelled(sw, s) && Spelled(se, s)
    ensures Spelled(MakeQuad(nw, ne, sw, se), s)
  {
  }

  lemma {:induction false} QuadWindow(nw: Node, ne: Node, sw: Node, se: Node, p: Grid, x: nat, y: nat, x2: nat, y2: nat, h: nat, s: nat)
    requires Square(nw) && Square(ne) && Square(sw) && Square(se)
    requires Level(ne) == Level(nw) && Level(sw) == Level(nw) && Level(se) == Level(nw)
    requires s == h + h && x2 == x + h && y2 == y + h
    requires IsGrid(p, |p|, |p|) && x + s <= |p| && y + s <= |p|
    requires FullGrid(nw) == SquareWindow(p, x, y, h)
    requires FullGrid(ne) == SquareWindow(p, x2, y, h)
    requires FullGrid(sw) == SquareWindow(p, x, y2, h)
    requires FullGrid(se) == SquareWindow(p, x2, y2, h)
    ensures Square(MakeQuad(nw, ne, sw, se))
    ensures FullGrid(MakeQuad(nw, ne, sw, se)) == SquareWindow(p, x, y, s)
  {
    FullGridQuad(nw, ne, sw, se);
    BlockWindows(p, x, y, x2, y2, h, s);
  }

  /** Every window of side 2^k has a tree. */
  lemma {:induction false} EncodingExists(p: Grid, x: nat, y: nat, k: nat)
    requires IsGrid(p, |p|, |p|) && x + Pow2(k) <= |p| && y + Pow2(k) <= |p|
    ensures exists n :: Encodes(n, p, x, y, Pow2(k))
    decreases k, 0
  {
    if k == 0 {
      assert p[y][x..x + 1] == [p[y][x]];
      assert SquareWindow(p, x, y, 1) == [[p[y][x]]];
      assert Encodes(Leaf(p[y][x], Digits), p, x, y, 1);
    } else {
      Pow2Succ(k - 1, k);
      QuartersExist(p, x, y, x + Pow2(k - 1), y + Pow2(k - 1), k - 1, Pow2(k - 1), Pow2(k));
    }
  }

  /** The step of `EncodingExists`: the four quarter windows have trees, so the window has one. */
  lemma {:induction false} QuartersExist(p: Grid, x: nat, y: nat, x2: nat, y2: nat, k: nat, half: nat, size: nat)
    requires IsGrid(p, |p|, |p|) && half == Pow2(k) && size == half + half
    requires x2 == x + half && y2 == y + half && x + size <= |p| && y + size <= |p|
    ensures exists n :: Encodes(n, p, x, y, size)
    decreases k, 1
  {
    EncodingExists(p, x, y, k);
    EncodingExists(p, x2, y, k);
    EncodingExists(p, x, y2, k);
    EncodingExists(p, x2, y2, k);
    var nw :| Encodes(nw, p, x, y, half);
    var ne :| Encodes(ne, p, x2, y, half);
    var sw :| Encodes(sw, p, x, y2, half);
    var se :| Encodes(se, p, x2, y2, half);
    EncodesQuad(nw, ne, sw, se, p, x, y, x2, y2, half, size);
  }

  /** A window has only one tree. */
  lemma {:induction false} EncodesUnique(a: Node, b: Node, p: Grid, x: nat, y: nat, size: nat)
    requires Encodes(a, p, x, y, size) && Encodes(b, p, x, y, size)
    ensures a == b
  {
    Pow2Injective(Level(a), Level(b));
    FullGridDetermines(a, b, Digits);
  }

  /** The side `2 ** max(rows, cols).bit_length()` of `grid_to_quadtree` and its level. */
  function PaddedLevel(rows: nat, cols: nat): nat {
    BitLength(Max(rows, cols))
  }

  /** The grid padded with dead cells to the side of its tree. */
  function Padded(g: Grid, rows: nat, cols: nat): (p: Grid)
    requires IsGrid(g, rows, cols)
    ensures IsGrid(p, Pow2(PaddedLevel(rows, cols)), Pow2(PaddedLevel(rows, cols)))
  {
    BitLengthBounds(Max(rows, cols));
    PadTo(g, rows, cols, Pow2(PaddedLevel(rows, cols)), Pow2(PaddedLevel(rows, cols)))
  }

  /** `grid_to_quadtree(grid)` as a value: the tree of the padded grid. */
  ghost function Encode(g: Grid, rows: nat, cols: nat): (n: Node)
    requires IsGrid(g, rows, cols)
    ensures Encodes(n, Padded(g, rows, cols), 0, 0, Pow2(PaddedLevel(rows, cols)))
  {
    EncodingExists(Padded(g, rows, cols), 0, 0, PaddedLevel(rows, cols));
    var n :| Encodes(n, Padded(g, rows, cols), 0, 0, Pow2(PaddedLevel(rows, cols)));
    n
  }

  /** The padded side exceeds both dimensions, is at most twice the larger one, and gives a
      tree of level 1 or more for any non-empty grid. */
  lemma {:induction false} EncodeSide(g: Grid, rows: nat, cols: nat)
    requires IsGrid(g, rows, cols)
    ensures var n := Encode(g, rows, cols);
            Square(n) && rows < Pow2(Level(n)) && cols < Pow2(Level(n))
    ensures rows + cols > 0 ==> Level(Encode(g, rows, cols)) >= 1 && Pow2(Level(Encode(g, rows, cols))) <= 2 * Max(rows, cols)
  {
    BitLengthBounds(Max(rows, cols));
  }

  /** The tree holds the grid in its top-left corner and dead cells everywhere else. */
  lemma {:induction false} EncodeGrid(g: Grid, rows: nat, cols: nat)
    requires IsGrid(g, rows, cols)
    ensures FullGrid(Encode(g, rows, cols)) == Padded(g, rows, cols)
  {
    var p := Padded(g, rows, cols);
    var s := Pow2(PaddedLevel(rows, cols));
    GridsEqual(SquareWindow(p, 0, 0, s), p, s, s);
  }

  /** `quadtree_to_grid(node, rows, cols)`: the expanded grid cut to its first rows and columns. */
  function ToGrid(n: Node, rows: nat, cols: nat): (g: Grid)
    requires Square(n)
    ensures var s := Pow2(Level(n)); IsGrid(g, Min(s, rows), Min(s, cols))
  {
    Clip(FullGrid(n), rows, cols)
  }

  /** Round trip: converting a grid to its quadtree and back gives the grid. */
  lemma {:induction false} RoundTrip(g: Grid, rows: nat, cols: nat)
    requires IsGrid(g, rows, cols)
    ensures ToGrid(Encode(g, rows, cols), rows, cols) == g
  {
    EncodeGrid(g, rows, cols);
    EncodeSide(g, rows, cols);
    GridsEqual(ToGrid(Encode(g, rows, cols), rows, cols), g, rows, cols);
  }

  /** The tree of a grid stores its number of live cells as its population. */
  lemma {:induction false} EncodePopulation(g: Grid, rows: nat, cols: nat)
    requires IsGrid(g, rows, cols)
    ensures Population(Encode(g, rows, cols)) == Count(g)
  {
    EncodeGrid(g, rows, cols);
    PopulationCountsCells(Encode(g, rows, cols));
    BitLengthBounds(Max(rows, cols));
    CountPad(g, rows, cols, Pow2(PaddedLevel(rows, cols)), Pow2(PaddedLevel(rows, cols)));
  }

  /** The tree of a grid has only dead leaves exactly when the grid is dead. */
  lemma {:induction false} EncodeEmpty(g: Grid, rows: nat, cols: nat)
    requires IsGrid(g, rows, cols)
    ensures Empty(Encode(g, rows, cols)) <==> Dead(g)
  {
    EncodeGrid(g, rows, cols);
    EncodeSide(g, rows, cols);
    EmptyIsDead(Encode(g, rows, cols));
    var p := Padded(g, rows, cols);
    if Dead(g) {
      forall i, j | 0 <= i < |p| && 0 <= j < |p[i]| ensures !p[i][j] {
        assert i < rows && j < cols ==> !g[i][j];
      }
    }
    if Dead(p) {
      forall i, j | 0 <= i < |g| && 0 <= j < |g[i]| ensures !g[i][j] {
        assert !p[i][j];
      }
    }
  }

  /** Padding with dead cells adds no live cells. */
  lemma {:induction false} CountPad(g: Grid, rows: nat, cols: nat, h: nat, w: nat)
    requires IsGrid(g, rows, cols) && rows <= h && cols <= w
    ensures Count(PadTo(g, rows, cols, h, w)) == Count(g)
  {
    var p := PadTo(g, rows, cols, h, w);
    assert p == p[..rows] + p[rows..];
    CountAppend(p[..rows], p[rows..]);
    PaddedRows(g, p[..rows], rows, cols, w);
    assert Dead(p[rows..]);
    CountZero(p[rows..]);
  }

  /** Rows padded with dead cells on the right count as the rows they extend. */
  lemma {:induction false} PaddedRows(g: Grid, q: Grid, rows: nat, cols: nat, w: nat)
    requires IsGrid(g, rows, cols) && IsGrid(q, rows, w) && cols <= w
    requires forall i, j :: 0 <= i < rows && 0 <= j < w ==> q[i][j] == (j < cols && g[i][j])
    ensures Count(q) == Count(g)
  {
    forall i | 0 <= i < rows ensures RowCount(q[i]) == RowCount(g[i]) {
      assert q[i] == g[i] + q[i][cols..];
      RowCountAppend(g[i], q[i][cols..]);
      RowCountZero(q[i][cols..]);
    }
    CountRows(q, g);
  }

  /** Grids whose rows count alike count alike. */
  lemma {:induction false} CountRows(a: Grid, b: Grid)
    requires |a| == |b| && forall i :: 0 <= i < |a| ==> RowCount(a[i]) == RowCount(b[i])
    ensures Count(a) == Count(b)
  {
    if |a| > 0 {
      CountRows(a[..|a| - 1], b[..|b| - 1]);
    }
  }

  /** A size of 1 is level 0; any larger power of two halves to the level below. */
  lemma {:induction false} Halves(k: nat)
    ensures Pow2(k) == 1 <==> k == 0
    ensures k >= 1 ==> Pow2(k) / 2 == Pow2(k - 1)
  {
    if k >= 1 {
      assert Pow2(k) == 2 * Pow2(k - 1);
    }
  }

  /** `build_tree(x, y, size)`, which builds every internal node through `create_node`. */
  method BuildTree(h: HashLife, p: Grid, x: nat, y: nat, size: nat, ghost k: nat) returns (n: Node)
    requires h.Interned() && IsGrid(p, |p|, |p|) && size == Pow2(k)
    requires x + size <= |p| && y + size <= |p|
    modifies h
    ensures h.Interned() && h.memo == old(h.memo) && Extends(old(h.cache), h.cache)
    ensures Encodes(n, p, x, y, size)
    decreases k
  {
    Halves(k);
    if size == 1 {
      n := Leaf(p[y][x], Digits);
      assert p[y][x..x + 1] == [p[y][x]];
      assert SquareWindow(p, x, y, 1) == [[p[y][x]]];
      return;
    }
    var half := size / 2;
    var nw := BuildTree(h, p, x, y, half, k - 1);
    var x2, y2 := x + half, y + half;
    var ne := BuildTree(h, p, x2, y, half, k - 1);
    var sw := BuildTree(h, p, x, y2, half, k - 1);
    var se := BuildTree(h, p, x2, y2, half, k - 1);
    SquareIsBuilt(nw);
    SquareIsBuilt(ne);
    SquareIsBuilt(sw);
    SquareIsBuilt(se);
    n := h.CreateNode(nw, ne, sw, se);
    EncodesQuad(nw, ne, sw, se, p, x, y, x2, y2, half, size);
  }

  /** `grid_to_quadtree(grid)`: pad, then `build_tree(0, 0, size)`. */
  method GridToQuadtree(h: HashLife, g: Grid, rows: nat, cols: nat) returns (root: Node)
    requires h.Valid() && IsGrid(g, rows, cols)
    modifies h
    ensures h.Valid() && h.memo == old(h.memo) && Extends(old(h.cache), h.cache)
    ensures root == Encode(g, rows, cols)
  {
    var level := BitLength(Max(rows, cols));
    var size := Pow2(level);
    BitLengthBounds(Max(rows, cols));
    var padded := PadTo(g, rows, cols, size, size);
    root := BuildTree(h, padded, 0, 0, size, level);
    EncodesUnique(root, Encode(g, rows, cols), padded, 0, 0, size);
  }
}
