/** The `HashLife` class of game_of_life_draft.py: the hash-consing cache `create_node` keeps,
    and `next_generation` with its memo. The `result` field the source stores in each node is
    kept here as the map `memo` from node to result; every node that reaches the memo is one
    `create_node` returned, and `create_node` returns one object per fingerprint, so keying the
    memo by node value keys it by object. */
module Engine {
  import opened Grids
  import opened Rules
  import opened Quadtree
  import opened Advance
  import opened ActiveCells

  /** Every entry of `a` is still in `b`: a cache that only grows. */
  ghost predicate Extends<K, V>(a: map<K, V>, b: map<K, V>) {
    forall k :: k in a ==> k in b && b[k] == a[k]
  }

  /** Every node the memo holds maps to its true next generation. */
  ghost predicate Memoised(memo: map<Node, Node>) {
    forall n :: n in memo ==> Square(n) && Level(n) >= 2 && memo[n] == NextGen(n)
  }

  class HashLife {
    /** `self.cache`: fingerprint to node. */
    var cache: map<Print, Node>
    /** The `result` fields of the nodes advanced so far. */
    var memo: map<Node, Node>

    /** The cache holds each node under its own fingerprint. */
    ghost predicate Interned()
      reads this
    {
      forall p :: p in cache ==> Built(cache[p]) && Fingerprint(cache[p]) == p
    }

    /** The cache is sound and the memo holds each node's true next generation. */
    ghost predicate Valid()
      reads this
    {
      Interned() && Memoised(memo)
    }

    constructor ()
      ensures Valid() && cache == map[] && memo == map[]
    {
      cache, memo := map[], map[];
    }

    /** `create_node(nw, ne, sw, se)`: the node one level above `nw` with the summed population.
        When a node with its fingerprint is cached, the cached node is returned, and it is the
        same node; otherwise the new node is cached. Either way the cache then maps the node's
        fingerprint to it. */
    method CreateNode(nw: Node, ne: Node, sw: Node, se: Node) returns (n: Node)
      requires Interned() && Built(nw) && Built(ne) && Built(sw) && Built(se)
      modifies this
      ensures Interned() && memo == old(memo)
      ensures n == MakeQuad(nw, ne, sw, se)
      ensures Fingerprint(n) in cache && cache[Fingerprint(n)] == n
      ensures Fingerprint(n) in old(cache) ==> cache == old(cache)
      ensures Fingerprint(n) !in old(cache) ==> cache == old(cache)[Fingerprint(n) := n]
    {
      var node := MakeQuad(nw, ne, sw, se);
      var hash := Fingerprint(node);
      if hash in cache {
        FingerprintInjective(cache[hash], node);
        return cache[hash];
      }
      cache := cache[hash := node];
      return node;
    }

    /** `get_sub_node(node, x, y)`. */
    method GetSubNode(node: Node, x: int, y: int) returns (n: Node)
      requires Interned() && Square(node) && Level(node) >= 2
      modifies this
      ensures Interned() && memo == old(memo) && Extends(old(cache), cache)
      ensures n == SubNode(node, x, y)
    {
      ChildrenAreQuads(node);
      SquareIsBuilt(node);
      if x == 0 && y == 0 {
        n := CreateNode(node.nw.se, node.ne.sw, node.sw.ne, node.se.nw);
      } else if x == 0 && y == 1 {
        n := CreateNode(node.nw.ne, node.ne.nw, node.sw.se, node.se.sw);
      } else if x == 1 && y == 0 {
        n := CreateNode(node.nw.sw, node.ne.se, node.sw.nw, node.se.ne);
      } else {
        n := CreateNode(node.nw.se, node.ne.sw, node.sw.ne, node.se.nw);
      }
    }

    /** `cell_to_node(cells)`, which builds through `create_node`. */
    method CellToNode(cells: Grid) returns (n: Node)
      requires Interned() && (IsGrid(cells, 1, 1) || IsGrid(cells, 2, 2))
      modifies this
      ensures Interned() && memo == old(memo) && Extends(old(cache), cache)
      ensures n == CellNode(cells)
      decreases |cells|
    {
      if |cells| == 1 {
        return Leaf(cells[0][0], Words);
      }
      var nw := CellToNode(Slice(cells, 0, 1, 0, 1));
      var ne := CellToNode(Slice(cells, 0, 1, 1, 2));
      var sw := CellToNode(Slice(cells, 1, 2, 0, 1));
      var se := CellToNode(Slice(cells, 1, 2, 1, 2));
      n := CreateNode(nw, ne, sw, se);
    }

    /** `evolve_cells(cells)`: a fresh array in which every cell follows the rule with its
        clipped neighbour count, read from the unchanged input. */
    method EvolveCells(cells: array2<bool>, ghost g: Grid) returns (newCells: array2<bool>)
      requires g == Contents(cells)
      ensures fresh(newCells) && newCells.Length0 == cells.Length0 && newCells.Length1 == cells.Length1
      ensures Contents(newCells) == Evolve(g, cells.Length0, cells.Length1)
    {
      var rows, cols := cells.Length0, cells.Length1;
      newCells := new bool[rows, cols];
      ghost var e := Evolve(g, rows, cols);
      EvolveIsEvolved(g, rows, cols);
      FillCells(cells, g, e, newCells);
      GridsEqual(Contents(newCells), e, rows, cols);
    }

    /** The two loops of `evolve_cells`, row by row and column by column, writing each cell's
        next value, which `e` holds, into `newCells`. */
    method FillCells(cells: array2<bool>, ghost g: Grid, ghost e: Grid, newCells: array2<bool>)
      requires g == Contents(cells) && Evolved(g, e, cells.Length0, cells.Length1) && newCells != cells
      requires newCells.Length0 == cells.Length0 && newCells.Length1 == cells.Length1
      modifies newCells
      ensures forall r, c :: 0 <= r < cells.Length0 && 0 <= c < cells.Length1 ==> newCells[r, c] == e[r][c]
    {
      var rows, cols := cells.Length0, cells.Length1;
      for i := 0 to rows
        invariant forall r, c :: 0 <= r < i && 0 <= c < cols ==> newCells[r, c] == e[r][c]
      {
        for j := 0 to cols
          invariant forall c :: 0 <= c < j ==> newCells[i, c] == e[i][c]
          invariant forall r, c :: 0 <= r < i && 0 <= c < cols ==> newCells[r, c] == e[r][c]
        {
          var alive := EvolveCell(cells, g, e, i, j);
          newCells[i, j] := alive;
        }
      }
    }

    /** The body of the loops of `evolve_cells`: the sum of the clipped slice around (i, j), less
        the cell itself, decides the cell's next value, the one `EvolveAt` gives and `e` holds. */
    method EvolveCell(cells: array2<bool>, ghost g: Grid, ghost e: Grid, i: nat, j: nat) returns (alive: bool)
      requires g == Contents(cells) && Evolved(g, e, cells.Length0, cells.Length1)
      requires i < cells.Length0 && j < cells.Length1
      ensures alive == e[i][j]
    {
      var rows, cols := cells.Length0, cells.Length1;
      var window := Slice(Contents(cells), Max(0, i - 1), Min(i + 2, rows), Max(0, j - 1), Min(j + 2, cols));
      var neighbours := Count(window) - Bit(cells[i, j]);
      if cells[i, j] {
        alive := neighbours == 2 || neighbours == 3;
      } else {
        alive := neighbours == 3;
      }
      assert alive == EvolveAt(g, rows, cols, i, j);
    }

    /** `next_generation_base(node)`: the four leaves are broadcast into a 4 x 4 array, which is
        evolved and rebuilt into a level-2 node. A leaf has no children to read, so it fails. */
    method NextGenerationBase(node: Node) returns (r: Outcome)
      requires Interned() && Square(node) && Level(node) <= 1
      modifies this
      ensures Interned() && memo == old(memo) && Extends(old(cache), cache)
      ensures r == NextGenOutcome(node)
    {
      if node.Leaf? {
        return Failed(MissingChild);
      }
      var cells := GetWindow(node);
      var newCells := EvolveCells(cells, Window(node));
      var n := Rebuild(Contents(newCells));
      return Advanced(n);
    }

    /** The four `get_cells` assignments of `next_generation_base`: each leaf's 1 x 1 array is
        broadcast over its 2 x 2 slot of a fresh 4 x 4 array. */
    method GetWindow(node: Node) returns (cells: array2<bool>)
      requires Square(node) && Level(node) == 1
      ensures fresh(cells) && cells.Length0 == 4 && cells.Length1 == 4
      ensures Contents(cells) == Window(node)
    {
      ChildrenAreLeaves(node);
      var a, b, c, d := FullGrid(node.nw), FullGrid(node.ne), FullGrid(node.sw), FullGrid(node.se);
      cells := new bool[4, 4];
      forall i, j | 0 <= i < 4 && 0 <= j < 4 {
        cells[i, j] := if i < 2 then (if j < 2 then a[0][0] else b[0][0]) else (if j < 2 then c[0][0] else d[0][0]);
      }
      GridsEqual(Contents(cells), Window(node), 4, 4);
    }

    /** The `create_node` over the `cell_to_node` of the four 2 x 2 quarters of the evolved window. */
    method Rebuild(e: Grid) returns (n: Node)
      requires Interned() && IsGrid(e, 4, 4)
      modifies this
      ensures Interned() && memo == old(memo) && Extends(old(cache), cache)
      ensures n == Rebuilt(e)
    {
      var nw := Quarter(e, 0, 0);
      var ne := Quarter(e, 0, 2);
      var sw := Quarter(e, 2, 0);
      var se := Quarter(e, 2, 2);
      n := CreateNode(nw, ne, sw, se);
    }

    /** `cell_to_node(new_cells[r:r + 2, c:c + 2])`. */
    method Quarter(e: Grid, r: nat, c: nat) returns (n: Node)
      requires Interned() && IsGrid(e, 4, 4) && r <= 2 && c <= 2
      modifies this
      ensures Interned() && memo == old(memo) && Extends(old(cache), cache)
      ensures n == CellNode(Slice(e, r, r + 2, c, c + 2)) && Built(n)
    {
      n := CellToNode(Slice(e, r, r + 2, c, c + 2));
      SquareIsBuilt(n);
    }

    /** `next_generation(node)`: at level one or below, the base case, which is never memoised;
        above it, the memoised result when there is one, with nothing recomputed and no cache
        touched; otherwise the four sub-nodes are advanced and the inner quarters of their results
        combined, and the result is stored for the node. */
    method NextGeneration(node: Node) returns (r: Outcome)
      requires Valid() && Square(node)
      modifies this
      ensures Valid() && Extends(old(cache), cache) && Extends(old(memo), memo)
      ensures r == NextGenOutcome(node)
      ensures Level(node) <= 1 ==> memo == old(memo)
      ensures Level(node) >= 2 ==> node in memo && r == Advanced(memo[node])
      ensures node in old(memo) ==> cache == old(cache) && memo == old(memo)
      decreases Level(node), 1
    {
      if Level(node) <= 1 {
        r := NextGenerationBase(node);
        return;
      }
      if node in memo {
        return Advanced(memo[node]);
      }
      var r00 := AdvanceSub(node, 0, 0);
      var r01 := AdvanceSub(node, 0, 1);
      var r10 := AdvanceSub(node, 1, 0);
      var r11 := AdvanceSub(node, 1, 1);
      var result := Combine(r00, r01, r10, r11);
      Remember(node, result);
      return Advanced(result);
    }

    /** `node.result = result`: the memo learns a node's next generation. */
    method Remember(node: Node, result: Node)
      requires Valid() && Square(node) && Level(node) >= 2 && result == NextGen(node)
      modifies this
      ensures Valid() && cache == old(cache) && memo == old(memo)[node := result]
    {
      memo := memo[node := result];
    }

    /** `self.next_generation(self.get_sub_node(node, x, y))`. */
    method AdvanceSub(node: Node, x: int, y: int) returns (r: Node)
      requires Valid() && Square(node) && Level(node) >= 2
      modifies this
      ensures Valid() && Extends(old(cache), cache) && Extends(old(memo), memo)
      ensures r == NextGen(SubNode(node, x, y))
      decreases Level(node), 0
    {
      var sub := GetSubNode(node, x, y);
      var o := NextGeneration(sub);
      r := o.node;
    }

    /** `create_node(n00.se, n01.sw, n10.ne, n11.nw)` over four advanced sub-nodes. */
    method Combine(n00: Node, n01: Node, n10: Node, n11: Node) returns (n: Node)
      requires Interned()
      requires Square(n00) && Square(n01) && Square(n10) && Square(n11)
      requires Level(n00) == 2 && Level(n01) == 2 && Level(n10) == 2 && Level(n11) == 2
      modifies this
      ensures Interned() && memo == old(memo) && Extends(old(cache), cache)
      ensures n == MakeQuad(n00.se, n01.sw, n10.ne, n11.nw)
    {
      ChildrenAreQuads(n00);
      ChildrenAreQuads(n01);
      ChildrenAreQuads(n10);
      ChildrenAreQuads(n11);
      SquareIsBuilt(n00.se);
      SquareIsBuilt(n01.sw);
      SquareIsBuilt(n10.ne);
      SquareIsBuilt(n11.nw);
      n := CreateNode(n00.se, n01.sw, n10.ne, n11.nw);
    }
  }
}
