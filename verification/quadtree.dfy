/** The quadtree nodes of game_of_life_draft.py. A `QuadTree` object never changes after
    `create_node` has filled it in, apart from two caches: the lazily computed fingerprint,
    which is a pure function of the node and is modelled as one, and the memoised next
    generation, which the engine keeps. So a node is a value here. */
module Quadtree {
  import opened Grids

  /** How a leaf's `alive` value prints. Leaves built from the int grid of `grid_to_quadtree`
      hold numpy ints, which print as "1" and "0"; leaves built by `cell_to_node` from a bool
      array hold numpy bools, which print as "True" and "False". */
  datatype Spelling = Digits | Words

  /** A leaf (level 0) or a node with four children, carrying the level and population the
      source stores in it. */
  datatype Node =
    | Leaf(alive: bool, spelling: Spelling)
    | Quad(level: nat, nw: Node, ne: Node, sw: Node, se: Node, population: nat)

  function Level(n: Node): nat {
    if n.Leaf? then 0 else n.level
  }

  /** `node.population`: a leaf counts 1 when alive. */
  function Population(n: Node): nat {
    if n.Leaf? then Bit(n.alive) else n.population
  }

  /** The node `create_node(nw, ne, sw, se)` fills in: one level above `nw`, with the children's
      populations summed. */
  function MakeQuad(nw: Node, ne: Node, sw: Node, se: Node): (n: Node)
    ensures n.Quad? && n.nw == nw && n.ne == ne && n.sw == sw && n.se == se
  {
    Quad(Level(nw) + 1, nw, ne, sw, se, Population(nw) + Population(ne) + Population(sw) + Population(se))
  }

  /** Every internal node of `n` is as `create_node` builds it. */
  predicate Built(n: Node) {
    n.Leaf? || (n == MakeQuad(n.nw, n.ne, n.sw, n.se) && Built(n.nw) && Built(n.ne) && Built(n.sw) && Built(n.se))
  }

  /** A full quadtree: built by `create_node`, with four children of one level at every
      internal node, so that it covers a square of side 2^level. */
  predicate Square(n: Node) {
    n.Leaf? ||
    (&& n == MakeQuad(n.nw, n.ne, n.sw, n.se)
     && Level(n.ne) == Level(n.nw) && Level(n.sw) == Level(n.nw) && Level(n.se) == Level(n.nw)
     && Square(n.nw) && Square(n.ne) && Square(n.sw) && Square(n.se))
  }

  lemma {:induction false} SquareIsBuilt(n: Node)
    requires Square(n)
    ensures Built(n)
  {
    if n.Quad? {
      SquareIsBuilt(n.nw);
      SquareIsBuilt(n.ne);
      SquareIsBuilt(n.sw);
      SquareIsBuilt(n.se);
    }
  }

  /** Four full quadtrees of one level make a full quadtree one level up. */
  lemma {:induction false} MakeQuadSquare(nw: Node, ne: Node, sw: Node, se: Node)
    requires Square(nw) && Square(ne) && Square(sw) && Square(se)
    requires Level(ne) == Level(nw) && Level(sw) == Level(nw) && Level(se) == Level(nw)
    ensures Square(MakeQuad(nw, ne, sw, se)) && Level(MakeQuad(nw, ne, sw, se)) == Level(nw) + 1
  {
  }

  /** `str(alive)` for the two spellings. */
  function Text(alive: bool, spelling: Spelling): string {
    match spelling
    case Digits => if alive then "1" else "0"
    case Words => if alive then "True" else "False"
  }

  /** An md5 digest, kept as the input it was computed from: a leaf digests its text, an internal
      node the concatenation of its children's digests in nw, ne, sw, se order. Keeping the input
      assumes md5 has no collisions, which is what the source relies on. */
  datatype Print =
    | LeafDigest(text: string)
    | NodeDigest(nw: Print, ne: Print, sw: Print, se: Print)

  /** `compute_hash()`. */
  function Fingerprint(n: Node): Print {
    match n
    case Leaf(alive, spelling) => LeafDigest(Text(alive, spelling))
    case Quad(_, nw, ne, sw, se, _) =>
      NodeDigest(Fingerprint(nw), Fingerprint(ne), Fingerprint(sw), Fingerprint(se))
  }

  /** A leaf's fingerprint depends only on its value and spelling, and an internal node's only on
      its children's fingerprints, in nw, ne, sw, se order. */
  lemma {:induction false} FingerprintDependsOnChildren(a: Node, b: Node)
    ensures a.Leaf? && b.Leaf? ==>
              (Fingerprint(a) == Fingerprint(b) <==> a.alive == b.alive && a.spelling == b.spelling)
    ensures a.Quad? && b.Quad? ==>
              (Fingerprint(a) == Fingerprint(b) <==>
                 Fingerprint(a.nw) == Fingerprint(b.nw) && Fingerprint(a.ne) == Fingerprint(b.ne) &&
                 Fingerprint(a.sw) == Fingerprint(b.sw) && Fingerprint(a.se) == Fingerprint(b.se))
  {
    if a.Leaf? && b.Leaf? && Fingerprint(a) == Fingerprint(b) {
      TextInjective(a.alive, a.spelling, b.alive, b.spelling);
    }
  }

  lemma {:induction false} TextInjective(a: bool, s: Spelling, b: bool, t: Spelling)
    requires Text(a, s) == Text(b, t)
    ensures a == b && s == t
  {
  }

  /** Equal fingerprints mean equal nodes, so the node the cache holds for a fingerprint is the
      very node `create_node` was about to build. */
  lemma {:induction false} FingerprintInjective(a: Node, b: Node)
    requires Built(a) && Built(b) && Fingerprint(a) == Fingerprint(b)
    ensures a == b
  {
    FingerprintDependsOnChildren(a, b);
    if a.Quad? && b.Quad? {
      FingerprintInjective(a.nw, b.nw);
      FingerprintInjective(a.ne, b.ne);
      FingerprintInjective(a.sw, b.sw);
      FingerprintInjective(a.se, b.se);
    }
  }

  /** `quadtree_to_full_grid(node)` (and `get_cells`, which builds the same array as bools): a leaf
      is a 1 x 1 grid, an internal node the `np.block` of its children's grids. */
  function FullGrid(n: Node): (g: Grid)
    requires Square(n)
    ensures IsGrid(g, Pow2(Level(n)), Pow2(Level(n)))
  {
    if n.Leaf? then [[n.alive]]
    else
      BlockCells(FullGrid(n.nw), FullGrid(n.ne), FullGrid(n.sw), FullGrid(n.se), Pow2(Level(n.nw)));
      Block(FullGrid(n.nw), FullGrid(n.ne), FullGrid(n.sw), FullGrid(n.se))
  }

  /** An internal node expands to the `np.block` of its children's grids. */
  lemma {:induction false} FullGridQuad(nw: Node, ne: Node, sw: Node, se: Node)
    requires Square(nw) && Square(ne) && Square(sw) && Square(se)
    requires Level(ne) == Level(nw) && Level(sw) == Level(nw) && Level(se) == Level(nw)
    ensures Square(MakeQuad(nw, ne, sw, se)) && Level(MakeQuad(nw, ne, sw, se)) == Level(nw) + 1
    ensures FullGrid(MakeQuad(nw, ne, sw, se)) == Block(FullGrid(nw), FullGrid(ne), FullGrid(sw), FullGrid(se))
  {
    MakeQuadSquare(nw, ne, sw, se);
  }

  /** A cell of an internal node's grid is the cell of the child whose quarter holds it. */
  lemma {:induction false} FullGridCell(n: Node, i: int, j: int)
    requires Square(n) && n.Quad? && 0 <= i < Pow2(Level(n)) && 0 <= j < Pow2(Level(n))
    ensures var h := Pow2(Level(n.nw));
            FullGrid(n)[i][j] ==
              if i < h then (if j < h then FullGrid(n.nw)[i][j] else FullGrid(n.ne)[i][j - h])
              else (if j < h then FullGrid(n.sw)[i - h][j] else FullGrid(n.se)[i - h][j - h])
  {
    FullGridQuad(n.nw, n.ne, n.sw, n.se);
    Pow2Succ(Level(n.nw), Level(n));
    BlockCells(FullGrid(n.nw), FullGrid(n.ne), FullGrid(n.sw), FullGrid(n.se), Pow2(Level(n.nw)));
  }

  /** Every leaf of `n` holds its value in spelling `s`. */
  predicate Spelled(n: Node, s: Spelling) {
    if n.Leaf? then n.spelling == s
    else Spelled(n.nw, s) && Spelled(n.ne, s) && Spelled(n.sw, s) && Spelled(n.se, s)
  }

  /** A full quadtree whose leaves share one spelling is determined by its level and grid. */
  lemma {:induction false} FullGridDetermines(a: Node, b: Node, s: Spelling)
    requires Square(a) && Square(b) && Level(a) == Level(b) && Spelled(a, s) && Spelled(b, s)
    requires FullGrid(a) == FullGrid(b)
    ensures a == b
  {
    if a.Quad? {
      BlockInjective(FullGrid(a.nw), FullGrid(a.ne), FullGrid(a.sw), FullGrid(a.se),
                     FullGrid(b.nw), FullGrid(b.ne), FullGrid(b.sw), FullGrid(b.se), Pow2(Level(a.nw)));
      FullGridDetermines(a.nw, b.nw, s);
      FullGridDetermines(a.ne, b.ne, s);
      FullGridDetermines(a.sw, b.sw, s);
      FullGridDetermines(a.se, b.se, s);
    } else {
      assert FullGrid(a)[0][0] == FullGrid(b)[0][0];
    }
  }

  /** Every leaf of `n` is dead. */
  predicate Empty(n: Node) {
    if n.Leaf? then !n.alive else Empty(n.nw) && Empty(n.ne) && Empty(n.sw) && Empty(n.se)
  }

  /** The population `create_node` sums is the number of live cells of the grid the node
      expands to. */
  lemma {:induction false} PopulationCountsCells(n: Node)
    requires Square(n)
    ensures Population(n) == Count(FullGrid(n))
  {
    if n.Quad? {
      PopulationCountsCells(n.nw);
      PopulationCountsCells(n.ne);
      PopulationCountsCells(n.sw);
      PopulationCountsCells(n.se);
      CountBlock(FullGrid(n.nw), FullGrid(n.ne), FullGrid(n.sw), FullGrid(n.se));
    }
  }

  /** A full quadtree has no live leaf exactly when its population is zero. */
  lemma {:induction false} EmptyIsUnpopulated(n: Node)
    requires Square(n)
    ensures Empty(n) <==> Population(n) == 0
  {
    if n.Quad? {
      EmptyIsUnpopulated(n.nw);
      EmptyIsUnpopulated(n.ne);
      EmptyIsUnpopulated(n.sw);
      EmptyIsUnpopulated(n.se);
    }
  }

  /** A full quadtree has only dead leaves exactly when the grid it expands to has no live cell. */
  lemma {:induction false} EmptyIsDead(n: Node)
    requires Square(n)
    ensures Empty(n) <==> Dead(FullGrid(n))
  {
    EmptyIsUnpopulated(n);
    PopulationCountsCells(n);
    CountZero(FullGrid(n));
  }
}
