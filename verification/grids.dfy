/** Dense boolean grids, the numpy arrays of the source re-expressed as sequences of rows.
    A cell is `true` when it is live; the source stores the ints 1 and 0. */
module Grids {

  /** g[row][col], row-major, as numpy indexes `grid[row, col]`. */
  type Grid = seq<seq<bool>>

  /** `g` has shape (rows, cols). */
  predicate IsGrid(g: Grid, rows: nat, cols: nat) {
    |g| == rows && forall i :: 0 <= i < |g| ==> |g[i]| == cols
  }

  function Min(a: int, b: int): int { if a <= b then a else b }

  function Max(a: int, b: int): int { if a <= b then b else a }

  function Bit(b: bool): nat { if b then 1 else 0 }

  function Pow2(k: nat): (p: nat)
    ensures p >= 1
  {
    if k == 0 then 1 else 2 * Pow2(k - 1)
  }

  lemma {:induction false} Pow2Injective(a: nat, b: nat)
    requires Pow2(a) == Pow2(b)
    ensures a == b
  {
    if a > 0 && b > 0 {
      Pow2Injective(a - 1, b - 1);
    }
  }

  lemma {:induction false} Pow2Succ(a: nat, b: nat)
    requires b == a + 1
    ensures Pow2(b) == Pow2(a) + Pow2(a)
  {
  }

  /** Number of live cells in one row. */
  function RowCount(r: seq<bool>): (n: nat)
    ensures n <= |r|
  {
    if |r| == 0 then 0 else RowCount(r[..|r| - 1]) + Bit(r[|r| - 1])
  }

  /** Number of live cells in a grid: numpy's `np.sum(grid)`. */
  function Count(g: Grid): nat {
    if |g| == 0 then 0 else Count(g[..|g| - 1]) + RowCount(g[|g| - 1])
  }

  /** Two blocks of equal height side by side (one row of `np.block`). */
  function Beside(a: Grid, b: Grid): (r: Grid)
    requires |a| == |b|
    ensures |r| == |a|
    ensures forall i :: 0 <= i < |r| ==> r[i] == a[i] + b[i]
  {
    seq(|a|, i requires 0 <= i < |a| => a[i] + b[i])
  }

  /** `np.block([[nw, ne], [sw, se]])`. */
  function Block(nw: Grid, ne: Grid, sw: Grid, se: Grid): (r: Grid)
    requires |nw| == |ne| && |sw| == |se|
    ensures |r| == |nw| + |sw|
  {
    Beside(nw, ne) + Beside(sw, se)
  }

  /** Row i of a block, in its upper half, is a row of nw and ne side by side. */
  lemma {:induction false} BlockUpper(nw: Grid, ne: Grid, sw: Grid, se: Grid, i: nat)
    requires |nw| == |ne| && |sw| == |se| && i < |nw|
    ensures Block(nw, ne, sw, se)[i] == nw[i] + ne[i]
  {
    var t, b := Beside(nw, ne), Beside(sw, se);
    assert (t + b)[i] == t[i];
  }

  /** Row i of a block, in its lower half, is a row of sw and se side by side. */
  lemma {:induction false} BlockLower(nw: Grid, ne: Grid, sw: Grid, se: Grid, i: nat)
    requires |nw| == |ne| && |sw| == |se| && |nw| <= i < |nw| + |sw|
    ensures Block(nw, ne, sw, se)[i] == sw[i - |nw|] + se[i - |nw|]
  {
    var t, b := Beside(nw, ne), Beside(sw, se);
    assert (t + b)[i] == b[i - |nw|];
  }

  /** Four h x h blocks make a 2h x 2h grid whose quarters are the blocks. */
  lemma {:induction false} BlockCells(nw: Grid, ne: Grid, sw: Grid, se: Grid, h: nat)
    requires IsGrid(nw, h, h) && IsGrid(ne, h, h) && IsGrid(sw, h, h) && IsGrid(se, h, h)
    ensures IsGrid(Block(nw, ne, sw, se), 2 * h, 2 * h)
    ensures forall i, j :: 0 <= i < 2 * h && 0 <= j < 2 * h ==>
              Block(nw, ne, sw, se)[i][j] ==
                if i < h then (if j < h then nw[i][j] else ne[i][j - h])
                else (if j < h then sw[i - h][j] else se[i - h][j - h])
  {
    var r := Block(nw, ne, sw, se);
    forall i | 0 <= i < 2 * h
      ensures r[i] == if i < h then nw[i] + ne[i] else sw[i - h] + se[i - h]
    {
      if i < h {
        BlockUpper(nw, ne, sw, se, i);
      } else {
        BlockLower(nw, ne, sw, se, i);
      }
    }
  }

  /** A block of four h x h quarters determines its quarters. */
  lemma {:induction false} BlockInjective(nw: Grid, ne: Grid, sw: Grid, se: Grid, nw': Grid, ne': Grid, sw': Grid, se': Grid, h: nat)
    requires IsGrid(nw, h, h) && IsGrid(ne, h, h) && IsGrid(sw, h, h) && IsGrid(se, h, h)
    requires IsGrid(nw', h, h) && IsGrid(ne', h, h) && IsGrid(sw', h, h) && IsGrid(se', h, h)
    requires Block(nw, ne, sw, se) == Block(nw', ne', sw', se')
    ensures nw == nw' && ne == ne' && sw == sw' && se == se'
  {
    forall i | 0 <= i < h
      ensures nw[i] == nw'[i] && ne[i] == ne'[i] && sw[i] == sw'[i] && se[i] == se'[i]
    {
      BlockUpper(nw, ne, sw, se, i);
      BlockUpper(nw', ne', sw', se', i);
      BlockLower(nw, ne, sw, se, i + h);
      BlockLower(nw', ne', sw', se', i + h);
      ConcatInjective(nw[i], ne[i], nw'[i], ne'[i]);
      ConcatInjective(sw[i], se[i], sw'[i], se'[i]);
    }
  }

  /** Two joins of rows are equal, with first parts of one length, only when the parts are. */
  lemma {:induction false} ConcatInjective(a: seq<bool>, b: seq<bool>, a': seq<bool>, b': seq<bool>)
    requires |a| == |a'| && a + b == a' + b'
    ensures a == a' && b == b'
  {
    assert a == (a + b)[..|a|] && a' == (a' + b')[..|a|];
    assert b == (a + b)[|a|..] && b' == (a' + b')[|a|..];
  }

  /** A row's window [c0, c2) is its windows [c0, c1) and [c1, c2) side by side. */
  lemma {:induction false} RowSplit(r: seq<bool>, c0: nat, c1: nat, c2: nat)
    requires c0 <= c1 <= c2 <= |r|
    ensures r[c0..c2] == r[c0..c1] + r[c1..c2]
  {
  }

  /** The size x size window of the square grid `p` whose top-left cell is at row y, column x:
      numpy's `p[y:y + size, x:x + size]`. */
  function SquareWindow(p: Grid, x: nat, y: nat, size: nat): (r: Grid)
    requires IsGrid(p, |p|, |p|) && x + size <= |p| && y + size <= |p|
    ensures IsGrid(r, size, size)
    ensures forall i :: 0 <= i < size ==> r[i] == p[y + i][x..x + size]
  {
    seq(size, i requires 0 <= i < size => p[y + i][x..x + size])
  }

  /** The four h x h quarter windows of an s x s window, s = 2h, put together by `np.block`,
      are that window; x2 and y2 are the column and row where the second quarters start. */
  lemma {:induction false} BlockWindows(p: Grid, x: nat, y: nat, x2: nat, y2: nat, h: nat, s: nat)
    requires IsGrid(p, |p|, |p|) && s == h + h && x2 == x + h && y2 == y + h
    requires x + s <= |p| && y + s <= |p|
    ensures Block(SquareWindow(p, x, y, h), SquareWindow(p, x2, y, h), SquareWindow(p, x, y2, h), SquareWindow(p, x2, y2, h))
            == SquareWindow(p, x, y, s)
  {
    var b := Block(SquareWindow(p, x, y, h), SquareWindow(p, x2, y, h), SquareWindow(p, x, y2, h), SquareWindow(p, x2, y2, h));
    var w := SquareWindow(p, x, y, s);
    forall i | 0 <= i < s ensures b[i] == w[i] {
      if i < h {
        UpperWindowRow(p, x, y, x2, y2, h, s, i);
      } else {
        LowerWindowRow(p, x, y, x2, y2, h, s, i);
      }
    }
  }

  lemma {:induction false} UpperWindowRow(p: Grid, x: nat, y: nat, x2: nat, y2: nat, h: nat, s: nat, i: nat)
    requires IsGrid(p, |p|, |p|) && s == h + h && x2 == x + h && y2 == y + h
    requires x + s <= |p| && y + s <= |p| && i < h
    ensures Block(SquareWindow(p, x, y, h), SquareWindow(p, x2, y, h), SquareWindow(p, x, y2, h), SquareWindow(p, x2, y2, h))[i]
            == SquareWindow(p, x, y, s)[i]
  {
    BlockUpper(SquareWindow(p, x, y, h), SquareWindow(p, x2, y, h), SquareWindow(p, x, y2, h), SquareWindow(p, x2, y2, h), i);
    RowSplit(p[y + i], x, x2, x + s);
  }

  lemma {:induction false} LowerWindowRow(p: Grid, x: nat, y: nat, x2: nat, y2: nat, h: nat, s: nat, i: nat)
    requires IsGrid(p, |p|, |p|) && s == h + h && x2 == x + h && y2 == y + h
    requires x + s <= |p| && y + s <= |p| && h <= i < s
    ensures Block(SquareWindow(p, x, y, h), SquareWindow(p, x2, y, h), SquareWindow(p, x, y2, h), SquareWindow(p, x2, y2, h))[i]
            == SquareWindow(p, x, y, s)[i]
  {
    BlockLower(SquareWindow(p, x, y, h), SquareWindow(p, x2, y, h), SquareWindow(p, x, y2, h), SquareWindow(p, x2, y2, h), i);
    assert y2 + (i - h) == y + i;
    RowSplit(p[y + i], x, x2, x + s);
  }

  /** numpy slicing `g[:rows, :cols]`: it clips silently when the grid is smaller. */
  function Clip(g: Grid, rows: nat, cols: nat): (r: Grid)
    ensures |r| == Min(|g|, rows)
    ensures forall i :: 0 <= i < |r| ==> r[i] == g[i][..Min(|g[i]|, cols)]
  {
    seq(Min(|g|, rows), i requires 0 <= i < Min(|g|, rows) => g[i][..Min(|g[i]|, cols)])
  }

  /** `np.pad(g, ((0, h - rows), (0, w - cols)), mode="constant")`: dead cells below and to the right. */
  function PadTo(g: Grid, rows: nat, cols: nat, h: nat, w: nat): (r: Grid)
    requires IsGrid(g, rows, cols) && rows <= h && cols <= w
    ensures IsGrid(r, h, w)
    ensures forall i, j :: 0 <= i < h && 0 <= j < w ==>
              r[i][j] == (i < rows && j < cols && g[i][j])
  {
    seq(h, i requires 0 <= i < h => seq(w, j requires 0 <= j < w => i < rows && j < cols && g[i][j]))
  }

  /** numpy slicing `g[r0:r1, c0:c1]` with in-range bounds. */
  function Slice(g: Grid, r0: nat, r1: nat, c0: nat, c1: nat): (r: Grid)
    requires r0 <= r1 <= |g| && c0 <= c1
    requires forall i :: r0 <= i < r1 ==> c1 <= |g[i]|
    ensures IsGrid(r, r1 - r0, c1 - c0)
    ensures forall i :: 0 <= i < |r| ==> r[i] == g[r0 + i][c0..c1]
  {
    seq(r1 - r0, i requires 0 <= i < r1 - r0 => g[r0 + i][c0..c1])
  }

  /** No cell of `g` is live. */
  predicate Dead(g: Grid) {
    forall i, j :: 0 <= i < |g| && 0 <= j < |g[i]| ==> !g[i][j]
  }

  /** A row counts zero exactly when none of its cells is live. */
  lemma {:induction false} RowCountZero(r: seq<bool>)
    ensures RowCount(r) == 0 <==> forall j :: 0 <= j < |r| ==> !r[j]
  {
    if |r| > 0 {
      var u := r[..|r| - 1];
      RowCountZero(u);
      assert forall j :: 0 <= j < |u| ==> u[j] == r[j];
    }
  }

  /** A grid counts zero exactly when it is dead. */
  lemma {:induction false} CountZero(g: Grid)
    ensures Count(g) == 0 <==> Dead(g)
  {
    if |g| > 0 {
      var u := g[..|g| - 1];
      CountZero(u);
      RowCountZero(g[|g| - 1]);
      assert forall i :: 0 <= i < |u| ==> u[i] == g[i];
    }
  }

  /** Two grids of one shape that agree cell by cell are equal. */
  lemma {:induction false} GridsEqual(a: Grid, b: Grid, rows: nat, cols: nat)
    requires IsGrid(a, rows, cols) && IsGrid(b, rows, cols)
    requires forall i, j :: 0 <= i < rows && 0 <= j < cols ==> a[i][j] == b[i][j]
    ensures a == b
  {
    forall i | 0 <= i < rows ensures a[i] == b[i] {
      assert forall j :: 0 <= j < cols ==> a[i][j] == b[i][j];
    }
  }

  lemma {:induction false} RowCountAppend(a: seq<bool>, b: seq<bool>)
    ensures RowCount(a + b) == RowCount(a) + RowCount(b)
    decreases |b|
  {
    if |b| == 0 {
      assert a + b == a;
    } else {
      assert (a + b)[..|a + b| - 1] == a + b[..|b| - 1];
      RowCountAppend(a, b[..|b| - 1]);
    }
  }

  lemma {:induction false} CountAppend(x: Grid, y: Grid)
    ensures Count(x + y) == Count(x) + Count(y)
    decreases |y|
  {
    if |y| == 0 {
      assert x + y == x;
    } else {
      assert (x + y)[..|x + y| - 1] == x + y[..|y| - 1];
      CountAppend(x, y[..|y| - 1]);
    }
  }

  /** Placing two blocks side by side adds their live cells. */
  lemma {:induction false} CountBeside(a: Grid, b: Grid)
    requires |a| == |b|
    ensures Count(Beside(a, b)) == Count(a) + Count(b)
    decreases |a|
  {
    if |a| > 0 {
      var n := |a| - 1;
      assert Beside(a, b)[..n] == Beside(a[..n], b[..n]);
      CountBeside(a[..n], b[..n]);
      RowCountAppend(a[n], b[n]);
    }
  }

  /** The population of an `np.block` of four blocks is the sum of theirs. */
  lemma {:induction false} CountBlock(nw: Grid, ne: Grid, sw: Grid, se: Grid)
    requires |nw| == |ne| && |sw| == |se|
    ensures Count(Block(nw, ne, sw, se)) == Count(nw) + Count(ne) + Count(sw) + Count(se)
  {
    CountAppend(Beside(nw, ne), Beside(sw, se));
    CountBeside(nw, ne);
    CountBeside(sw, se);
  }
}
