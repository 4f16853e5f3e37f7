# Conway's Game of Life: a HashLife engine and active-cell steppers

This project models the simulation logic of a small Python/pygame Game of Life program and
proves properties about it in Dafny. The program exists in four versions. They share the
same B3/S23 rule: a live cell survives with two or three live neighbours, and a dead cell
is born with exactly three.

- `game_of_life_draft.py` advances the grid with a HashLife-style quadtree engine:
  - `HashLife` interns nodes by an md5 fingerprint;
  - it memoises `next_generation`;
  - it evolves level-1 nodes through a 4 x 4 window;
  - it converts between numpy grids and quadtrees.
- `game_of_life.py`, `game_of_life_v2.py` and `game_of_life_v1.py` step a toroidal grid by
  visiting only the *active* cells: the live cells and their wrapped neighbourhoods.
  `game_of_life.py` adds a colour per live cell, a glider stamp, a reset to white and a
  population count.

The modules follow the program's structure:

| module | file | what it holds |
|---|---|---|
| `Grids` | grids.dfy | grids as `seq<seq<bool>>`, numpy slicing, padding, `np.block`, live-cell counts |
| `Rules` | rules.dfy | the B3/S23 rule |
| `Torus` | torus.dfy | `%` wrapping, the nine-cell neighbourhood, the whole-grid step, the step restricted to an active set, and the covering invariant that makes the two agree |
| `Quadtree` | quadtree.dfy | quadtree nodes as values, `compute_hash` as an injective fingerprint, `quadtree_to_full_grid`, populations |
| `Advance` | advance.dfy | what `next_generation` computes, as functions: the base case (`get_cells`, `evolve_cells`, `cell_to_node`), `get_sub_node` and the recursive assembly |
| `Engine` | engine.dfy | the `HashLife` class: the node cache and the memo are fields that its methods update; each method is proved equal to its `Advance` function |
| `Adapter` | adapter.dfy | `grid_to_quadtree` (`bit_length`, padding, `build_tree`) and `quadtree_to_grid`, with the round trip |
| `Draft` | draft.dfy | one frame of the draft's main loop, the start-up, the space-bar reset and the mouse toggle |
| `ActiveCells` | active_cells.dfy | `add_neighbors_to_set`, the neighbour total and `initialize_active_cells` on a 2-D array |
| `ActiveLife` | active_life.dfy | `update_grid` of the v1/v2 versions and their toggle, as a class over an array |
| `ColourLife` | colour_life.dfy | `update_grid` of `game_of_life.py` with `cell_colors`, plus `create_glider`, `reset_cells_to_white`, `get_statistics` and the toggle |
| `Controls` | controls.dfy | `update_p_values` and `update_simulation_speed` |

Main results:
- The active-cell step equals the whole-grid toroidal step whenever the active set covers
  every live cell's neighbourhood (`Torus.ActiveStepIsStep`).
- Every stepper keeps that covering (`Torus.SpreadCovers`, `Torus.InitialActiveIsLeastCover`,
  `ActiveLife.ToggleKeepsCovered`).
- `update_grid` and the mouse toggle of `game_of_life.py` keep `cell_colors` keyed by exactly
  the live cells (`ColourLife.RecolourFollowsCells`, `ColourLife.ToggleRecolours`).
  `create_glider` keeps only the weaker fact that every live cell has a colour
  (`ColourLife.GliderKeepsColoured`): a cell the pattern kills keeps its entry. Even that
  holds only for a non-negative start: Python's negative slice indices move the pattern to the
  far end of the grid while its colours go to keys off the grid
  (`ColourLife.NegativeStartLeavesUncoloured`).
- The quadtree conversion round-trips (`Adapter.RoundTrip`).
- Node populations count live cells (`Quadtree.PopulationCountsCells`).
- The md5 cache never confuses two nodes (`Quadtree.FingerprintInjective`).
- The engine's methods compute exactly the `Advance` functions, memo and all.
- The draft's frame leaves every cell outside the top-left 4 x 4 corner dead
  (`Draft.FrameConfined`).

### Behaviour of the code worth knowing (the model follows the code)

- **`next_generation` always returns a level-2 node.** The class is named `HashLife`, but
  `next_generation` of a node of level 2 or more returns the
  recombined centre of four level-1 results, and those results are level-2 nodes built by
  `next_generation_base`. So every result is a level-2 node: a 4 x 4 grid. After
  `quadtree_to_grid` and the shape check, a frame keeps at most the top-left 4 x 4 corner
  and clears the rest (`Draft.FrameConfined`).
- **The base case clips at the window's edge.** `evolve_cells` evolves the 4 x 4 window with
  clipped neighbourhoods, so cells outside the window count as dead. It does not wrap.
- **`bit_length` overshoots.** `grid_to_quadtree` takes `max(rows, cols).bit_length()` as the
  level. That gives a side strictly greater than `max(rows, cols)`, which is twice the
  needed size when the larger dimension is a power of two (`Adapter.BitLengthBounds`).
- **`create_node` does not compare its children's levels.** It takes the four children as
  they are and sets the new level from the first; the model's nodes always have four children.
- **The v1/v2 toggles do not wrap.** Their mouse toggles index the grid with the clicked cell
  as it is. Only `game_of_life.py` applies `% rows` and `% cols`. So the v1/v2/draft
  toggles require the cell to lie on the grid.
- **Leaf spellings differ.** Leaves made by `grid_to_quadtree` hold numpy ints and print as
  "1"/"0". Leaves made by `cell_to_node` hold numpy bools and print as "True"/"False". So
  equal cells can have different fingerprints, and the model keeps the spelling in the leaf.
- **The memo lives on the node.** The memo is the `result` attribute of a node object. Since
  nodes are values here, it is modelled as a map from node to result.

## Model

| member | source | states |
|---|---|---|
| Rules.Rule | game_of_life.py:139-154 | B3/S23: three neighbours always give life; two keep a live cell alive and leave a dead one dead; any count outside 2..3 leaves the cell dead |
| Torus.Wrap | game_of_life.py:104 | the wrapped coordinate lies in 0..m-1 |
| Torus.WrapIsMod | game_of_life.py:104 | wrapping is Python's `%` with a positive modulus, which never returns a negative result |
| Torus.WrapSmall | game_of_life_v2.py:81 | an in-range index is unchanged; -1 wraps to m-1 and m wraps to 0 |
| Torus.WrapBack | game_of_life_v2.py:81 | stepping by d and wrapping, then stepping back by -d, returns to the starting cell |
| Torus.NeighbourhoodMembers | game_of_life.py:101-105 | a cell is in the neighbourhood added by `add_neighbors_to_set` exactly when it is the wrap of (i+di, j+dj) for some di, dj in -1..1 |
| Torus.NeighbourhoodShape | game_of_life_v2.py:78-82 | the neighbourhood contains the wrapped centre, and all its cells lie on the grid |
| Torus.CentreInNeighbourhood | game_of_life_v1.py:31-35 | an on-grid cell belongs to its own neighbourhood |
| Torus.NeighbourSymmetric | game_of_life.py:101-105 | if q is in p's wrapped neighbourhood then p is in q's |
| Torus.LiveMember | game_of_life.py:110-112 | the set comprehension of live cells holds exactly the on-grid cells whose value is 1 |
| Torus.AroundInBounds | game_of_life_v1.py:38-46 | every cell added around a set of cells lies on the grid |
| Torus.AroundAdd | game_of_life_v1.py:44-45 | adding one more cell's neighbourhood to the active set is a union |
| Torus.InitialActiveInBounds | game_of_life_v2.py:85-93 | `initialize_active_cells` yields only on-grid cells |
| Torus.InitialActiveIsLeastCover | game_of_life_v1.py:38-46 | the set `initialize_active_cells` builds covers every live cell's neighbourhood, and every set that does so contains it |
| Torus.ActiveStepAdd | game_of_life_v2.py:102-127 | checking one more cell writes that cell's next value and changes no other cell |
| Torus.ActiveStepNone | game_of_life_v2.py:98 | before any cell is checked, the new grid is the copy of the old one |
| Torus.NeighbourIsDead | game_of_life_v2.py:116-127 | under the covering invariant, every neighbour of an inactive cell is dead |
| Torus.OutsideIsQuiet | game_of_life_v1.py:51-55 | under the covering invariant, an inactive cell is dead and has no live neighbour, so the rule leaves it dead |
| Torus.ActiveStepIsStep | game_of_life_v2.py:96-130 | under the covering invariant, updating only the active cells gives the same grid as the full toroidal B3/S23 step |
| Torus.SpreadCovers | game_of_life_v1.py:69-83 | the new active set `update_grid` builds covers the new grid's live cells, so the invariant holds at the next frame |
| ActiveCells.CopyOf | game_of_life.py:121 | `grid.copy()` is a fresh array with the same shape and cells |
| ActiveCells.AddNeighbours | game_of_life.py:101-105 | the set grows by exactly the nine wrapped cells around (i, j) |
| ActiveCells.NeighbourTotal | game_of_life.py:126-137 | the eight-term sum equals the count of live wrapped neighbours, and the rule applied to it gives the toroidal next state |
| ActiveCells.LiveCells | game_of_life.py:110-112 | the comprehension yields exactly the live cells of the array |
| ActiveCells.InitializeStep | game_of_life.py:114-115 | after one more loop round, the set is the live cells plus the neighbourhoods of the live cells handled so far |
| ActiveCells.InitializeActiveCells | game_of_life.py:108-116 | the result is the live cells together with all their wrapped neighbourhoods, and the empty set for a grid without cells |
| ActiveLife.SpreadStep | game_of_life_v2.py:116-127 | a cell that lives on adds itself and its neighbourhood to the new active set; a dead one adds nothing |
| ActiveLife.CheckCell | game_of_life_v2.py:102-127 | one loop body writes the cell's B3/S23 next value and adds its neighbourhood exactly when it lives |
| ActiveLife.CheckRound | game_of_life_v2.py:102-127 | after each round, the new grid and new active set are the step and spread over the cells checked so far |
| ActiveLife.NextCells | game_of_life_v2.py:96-130 | `update_grid`'s loop yields a fresh grid equal to the active step and the new active set equal to its spread |
| ActiveLife.Flipped | game_of_life_v2.py:160 | the clicked cell is inverted and every other cell is unchanged |
| ActiveLife.LiveAfterFlip | game_of_life.py:255-259 | after a flip, the live set gains the clicked cell if it became live and loses it if it died |
| ActiveLife.ToggleKeepsCovered | game_of_life_v2.py:160-162 | adding the clicked cell and its neighbourhood to the active set keeps the covering invariant |
| ActiveLife.FlipCell | game_of_life_v1.py:99 | `grid[row, col] = 1 - grid[row, col]` flips that one cell of the array |
| ActiveLife.Activate | game_of_life_v1.py:100-101 | the active set gains the clicked cell and its neighbourhood, and stays on the grid |
| ActiveLife.Stepper.constructor | game_of_life_v1.py:86 | start-up holds the given grid, with the active set built by `initialize_active_cells`, which covers it |
| ActiveLife.Stepper.UpdateGrid | game_of_life_v1.py:49-83 | the new grid is the active step of the old one and the new active set its spread; when the old set covered the grid, the new grid is the full toroidal step and the new set covers it |
| ActiveLife.Stepper.Toggle | game_of_life_v2.py:156-162 | the clicked cell flips in place, the active set gains it and its neighbourhood, and covering is kept |
| ColourLife.RecolourCell | game_of_life.py:139-154 | a cell that dies loses its colour; a cell that is born gets the current colour; every other entry is kept |
| ColourLife.RepaintDie | game_of_life.py:146 | recording one more death removes that key |
| ColourLife.RepaintBirth | game_of_life.py:152-154 | recording one more birth sets that key to the current colour |
| ColourLife.RecolourAdd | game_of_life.py:125-154 | checking one more cell applies that cell's recolouring to the map built so far |
| ColourLife.RecolourNone | game_of_life.py:119-125 | before any cell is checked, `cell_colors` is unchanged |
| ColourLife.RecolourRound | game_of_life.py:139-154 | after each round, the colour map is the recolouring over the cells checked so far |
| ColourLife.RecolourFollowsCells | game_of_life.py:139-157 | when the colour keys were exactly the live cells and the active set covered the grid, after the step they are exactly the new live cells |
| ColourLife.CheckColourCell | game_of_life.py:126-154 | one loop body writes the cell's next value, grows the active set and updates its colour entry as the branches say |
| ColourLife.CheckColourRound | game_of_life.py:125-154 | after each round, grid, active set and colours are the step, spread and recolouring over the cells checked so far |
| ColourLife.NextColourCells | game_of_life.py:119-157 | `update_grid` yields the active step, its spread and the recoloured map |
| ColourLife.LiveBeforeNext | game_of_life.py:195 | scanning one more cell adds one to the count exactly when that cell is live |
| ColourLife.LiveBeforeEnd | game_of_life.py:195 | after the whole scan, the cells counted are exactly the live cells |
| ColourLife.StampAt | game_of_life.py:185-186 | after the stamp, each on-grid cell of the 3 x 3 window at (y, x) holds the glider's value there, and every other cell keeps its value |
| ColourLife.WindowMember | game_of_life.py:186 | the window is the 3 x 3 block starting at (y, x) |
| ColourLife.GliderMember | game_of_life.py:187-190 | a cell gets coloured exactly when the glider has a 1 at its offset inside the window |
| ColourLife.GliderCellsShape | game_of_life.py:185 | the glider has exactly five live cells, all inside its window |
| ColourLife.GliderStamp | game_of_life.py:183-186 | after the stamp, the live cells are the old ones outside the window plus the glider's on-grid cells |
| ColourLife.GliderKeepsColoured | game_of_life.py:183-190 | if every live cell had a colour before the stamp, every live cell has one after it |
| ColourLife.PaintedGlider | game_of_life.py:187-190 | the double loop adds the glider's five cells, in the current colour, to the colour map and keeps every other entry |
| ColourLife.ColourGlider | game_of_life.py:187-190 | the colour loop's result has the keys of the old map plus the glider cells, with the current colour on those |
| ColourLife.StampGlider | game_of_life.py:186 | the slice assignment writes the glider into the 3 x 3 window the slice selected and changes no other cell |
| ColourLife.SliceFitsExactly | game_of_life.py:186 | the slice `s : s + 3` selects three indices exactly when the window lies on the axis or a negative start lies in -n..-4; it then starts at s, or at s + n for a negative s |
| ColourLife.Glide | game_of_life.py:183-191 | once the slice assignment has succeeded, `create_glider` stamps the selected window, colours the keys (y + i, x + j) as written, rebuilds the active set as a cover, and keeps every live cell coloured when the window starts at (y, x) |
| ColourLife.NegativeStartLeavesUncoloured | game_of_life.py:186-190 | with a row start in -rows..-4 the stamped glider has a live cell that the colour loop does not colour |
| ColourLife.ToggleRecolours | game_of_life.py:255-259 | after a flip, recolouring the clicked cell keeps the colour keys equal to the live cells |
| ColourLife.ToggleColour | game_of_life.py:255-261 | the wrapped click flips the cell, sets or drops its colour, grows the active set, and keeps covering and colour keys |
| ColourLife.Start | game_of_life.py:39-44 | start-up colours exactly the live cells white and builds a covering active set |
| ColourLife.ColourStepper.constructor | game_of_life.py:48 | start-up state: the given grid, white current colour, every live cell white, and a covering active set |
| ColourLife.ColourStepper.UpdateGrid | game_of_life.py:119-157 | a step of grid, active set and colours, equal to the full toroidal step under the covering invariant, and keeping colours keyed by live cells |
| ColourLife.ColourStepper.Toggle | game_of_life.py:252-261 | the click is wrapped with `%`; the cell flips; its colour is set or popped; covering and colour keys are kept |
| ColourLife.ColourStepper.CreateGlider | game_of_life.py:183-191 | the glider is placed exactly when both slices select three indices (Python's negative indexing included); then it is stamped at the normalised start, the keys (y + i, x + j) get the current colour, the active set is rebuilt as a cover, and for a non-negative start live cells stay coloured; otherwise numpy raises before writing and nothing changes |
| ColourLife.ColourStepper.ResetCellsToWhite | game_of_life.py:220-223 | every coloured cell keeps its key and becomes white, and so does the current colour |
| ColourLife.ColourStepper.Population | game_of_life.py:194-196 | `np.sum(grid)` is the number of live cells |
| Controls.ClampPercent | game_of_life_draft.py:227 | the value is clamped to 0..100 and left alone inside it |
| Controls.AtLeastOne | game_of_life_draft.py:233 | the value is raised to 1 when it falls below and left alone otherwise |
| Controls.Settings.constructor | game_of_life_draft.py:24-25 | the start values are 7% alive, 93% dead and speed 10 |
| Controls.Settings.UpdatePValues | game_of_life_draft.py:226-229 | `p_alive` moves by the increment clamped to 0..100, `p_dead` is its complement, and the speed is unchanged |
| Controls.Settings.UpdateSimulationSpeed | game_of_life_draft.py:231-233 | the speed moves by the increment but never below 1, and the percentages are unchanged |
| Grids.Clip | game_of_life_draft.py:261 | `grid[:rows, :cols]` keeps exactly the top-left cells |
| Grids.PadTo | game_of_life_draft.py:242-244 | `np.pad` with zeros keeps the cells and adds dead ones below and to the right |
| Grids.Slice | game_of_life_draft.py:90-93 | a numpy slice holds the cells of the sub-rectangle |
| Grids.BlockCells | game_of_life_draft.py:98-104 | each cell of `np.block` comes from the quarter that holds it |
| Grids.BlockInjective | game_of_life_draft.py:98-104 | `np.block` of four equal-sized quarters determines the quarters |
| Grids.BlockWindows | game_of_life_draft.py:249-254 | the four quarter windows of a square window, put together with `np.block`, make that window |
| Grids.CountBlock | game_of_life_draft.py:58 | a block's live cells are the sum of its quarters' live cells |
| Grids.CountZero | game_of_life_draft.py:264-272 | a grid with no live cell is exactly one whose sum is 0; `Quadtree.EmptyIsDead` and `Adapter.EncodeEmpty` use it for the all-dead node |
| Quadtree.MakeQuad | game_of_life_draft.py:55-58 | `create_node` builds a node with exactly the four given children |
| Quadtree.MakeQuadSquare | game_of_life_draft.py:55-58 | four full quadtrees of one level make a full quadtree one level up |
| Quadtree.SquareIsBuilt | game_of_life_draft.py:55-63 | every internal node of a full quadtree is as `create_node` fills it in |
| Quadtree.TextInjective | game_of_life_draft.py:40 | the four leaf texts are pairwise distinct |
| Quadtree.FingerprintDependsOnChildren | game_of_life_draft.py:37-48 | a leaf's hash depends exactly on its value's text, and an internal node's on its children's hashes in nw, ne, sw, se order |
| Quadtree.FingerprintInjective | game_of_life_draft.py:37-48 | with md5 taken as collision-free, equal hashes of built nodes mean equal nodes, so the cache lookup in `create_node` returns the node being built |
| Quadtree.FullGrid | game_of_life_draft.py:264-272 | a full quadtree of level k expands to a 2^k x 2^k grid |
| Quadtree.FullGridQuad | game_of_life_draft.py:267-272 | an internal node expands to the `np.block` of its children's grids |
| Quadtree.FullGridCell | game_of_life_draft.py:267-272 | each cell of an internal node's grid is the cell of the child whose quarter holds it |
| Quadtree.FullGridDetermines | game_of_life_draft.py:264-272 | two full quadtrees of one level and spelling with the same grid are the same node |
| Quadtree.PopulationCountsCells | game_of_life_draft.py:58 | the population `create_node` sums is the number of live cells the node expands to |
| Quadtree.EmptyIsUnpopulated | game_of_life_draft.py:58 | a node has no live leaf exactly when its population is 0 |
| Quadtree.EmptyIsDead | game_of_life_draft.py:264-272 | a node has no live leaf exactly when its grid has no live cell |
| Advance.EvolveRule | game_of_life_draft.py:116-134 | each cell of `evolve_cells` follows B3/S23 with the neighbours inside the array, counting cells beyond the edge as dead |
| Advance.ClipCountIsInside | game_of_life_draft.py:121-129 | the clipped 3 x 3 slice sum minus the cell itself is the number of live in-array neighbours |
| Advance.EvolveIsEvolved | game_of_life_draft.py:116-134 | the evolved grid satisfies the cell-by-cell rule |
| Advance.ChildrenAreLeaves | game_of_life_draft.py:83-86 | the children of a level-1 node are leaves, so `get_cells` gives 1 x 1 arrays |
| Advance.BaseWindow | game_of_life_draft.py:82-86 | the 4 x 4 window holds in each 2 x 2 quarter the value of the matching child's leaf |
| Advance.CellNode | game_of_life_draft.py:106-114 | `cell_to_node` of a 1 x 1 or 2 x 2 array builds a full quadtree of level 0 or 1 |
| Advance.LeafOfSlice | game_of_life_draft.py:107-108 | a 1 x 1 slice becomes a leaf with that cell's value |
| Advance.CellNodeRoundTrip | game_of_life_draft.py:106-114 | `cell_to_node` then `get_cells` gives the array back |
| Advance.Rebuilt | game_of_life_draft.py:89-94 | the node rebuilt from the evolved window is a full level-2 node |
| Advance.QuartersRoundTrip | game_of_life_draft.py:89-94 | the rebuilt node expands to the evolved 4 x 4 array |
| Advance.Base | game_of_life_draft.py:81-94 | `next_generation_base` yields a full level-2 node |
| Advance.BaseIsEvolvedWindow | game_of_life_draft.py:81-94 | the base result expands to the evolved 4 x 4 window |
| Advance.ChildrenAreQuads | game_of_life_draft.py:72-77 | the children and grandchildren of a full node of level 2 or more are full nodes one and two levels down |
| Advance.SubNode | game_of_life_draft.py:136-144 | `get_sub_node` yields a full node one level down |
| Advance.SubNodeDuplicate | game_of_life_draft.py:137-144 | the (0, 0) and (1, 1) cases build the same node, since the first `if` catches both |
| Advance.NextGen | game_of_life_draft.py:65-79 | `next_generation` of any full node of level 1 or more is a full level-2 node |
| Advance.Assemble | game_of_life_draft.py:72-77 | combining the four sub-results gives a level-2 node |
| Advance.NextGenOutcome | game_of_life_draft.py:65-97 | `next_generation` fails exactly on a leaf, and otherwise yields a level-2 node |
| Advance.EvolveDead | game_of_life_draft.py:116-134 | a dead array evolves to a dead array |
| Advance.BaseEmpty | game_of_life_draft.py:81-94 | the base step of a node with no live leaf has no live leaf |
| Advance.NextGenEmpty | game_of_life_draft.py:65-79 | `next_generation` of a node with no live leaf has no live leaf |
| Advance.AssembleEmpty | game_of_life_draft.py:72-77 | combining sub-results of an empty node yields an empty node |
| Advance.SubNodeEmpty | game_of_life_draft.py:136-144 | a sub-node of an empty node is empty |
| Adapter.BitLengthBounds | game_of_life_draft.py:240-241 | `n.bit_length()` gives a side 2^k with n < 2^k, and 2^k <= 2n when n > 0 |
| Adapter.EncodesQuad | game_of_life_draft.py:249-254 | the node `build_tree` makes from its four quarter nodes encodes the whole window |
| Adapter.EncodingExists | game_of_life_draft.py:246-254 | every power-of-two window of a square grid has a quadtree encoding it |
| Adapter.EncodesUnique | game_of_life_draft.py:246-254 | two quadtrees encoding the same window are the same node |
| Adapter.Padded | game_of_life_draft.py:242-244 | the padded grid is a square of side 2^level |
| Adapter.Encode | game_of_life_draft.py:239-256 | `grid_to_quadtree` yields a full quadtree with digit leaves whose grid is the padded grid |
| Adapter.EncodeSide | game_of_life_draft.py:240-241 | the root's side 2^level is strictly greater than both rows and cols, and for a non-empty grid the level is at least 1 and the side at most 2 max(rows, cols) |
| Adapter.EncodeGrid | game_of_life_draft.py:239-256 | the root expands to exactly the padded grid |
| Adapter.ToGrid | game_of_life_draft.py:259-261 | `quadtree_to_grid` has shape (min(side, rows), min(side, cols)) |
| Adapter.RoundTrip | game_of_life_draft.py:239-272 | `quadtree_to_grid(grid_to_quadtree(g))` is g |
| Adapter.EncodePopulation | game_of_life_draft.py:239-256 | the root's population is the grid's number of live cells |
| Adapter.EncodeEmpty | game_of_life_draft.py:239-256 | the root has no live leaf exactly when the grid has no live cell |
| Adapter.CountPad | game_of_life_draft.py:242-244 | padding adds no live cells |
| Adapter.BuildTree | game_of_life_draft.py:246-254 | `build_tree` on a power-of-two window returns a full quadtree with digit leaves whose grid is that window; the engine's cache only grows |
| Adapter.GridToQuadtree | game_of_life_draft.py:239-256 | the imperative conversion returns `Encode(g)`, and the engine's caches only grow |
| Engine.HashLife.constructor | game_of_life_draft.py:52-53 | a new engine has an empty cache and an empty memo |
| Engine.HashLife.CreateNode | game_of_life_draft.py:55-63 | returns the node the children make; stores it under its hash when absent, and otherwise leaves the cache as it was |
| Engine.HashLife.GetSubNode | game_of_life_draft.py:136-144 | returns the sub-node function's value; the cache only grows |
| Engine.HashLife.CellToNode | game_of_life_draft.py:106-114 | returns `cell_to_node`'s full quadtree of the array |
| Engine.HashLife.EvolveCells | game_of_life_draft.py:116-134 | returns a fresh array of the same shape holding the clipped B3/S23 step |
| Engine.HashLife.FillCells | game_of_life_draft.py:119-133 | after the double loop every cell holds its evolved value |
| Engine.HashLife.EvolveCell | game_of_life_draft.py:121-133 | one loop body computes the cell's evolved value |
| Engine.HashLife.NextGenerationBase | game_of_life_draft.py:81-94 | returns the outcome of the base case: failure on a leaf, the evolved window otherwise |
| Engine.HashLife.GetWindow | game_of_life_draft.py:82-86 | the four `get_cells` writes fill a fresh 4 x 4 window |
| Engine.HashLife.Rebuild | game_of_life_draft.py:89-94 | the four `cell_to_node` calls and `create_node` rebuild the evolved window |
| Engine.HashLife.Quarter | game_of_life_draft.py:90-93 | one quarter's node is `cell_to_node` of that 2 x 2 slice |
| Engine.HashLife.NextGeneration | game_of_life_draft.py:65-79 | returns the outcome function's value; the result is memoised for nodes of level 2 or more; a memo hit changes nothing |
| Engine.HashLife.Remember | game_of_life_draft.py:78 | `node.result = result` records that entry in the memo |
| Engine.HashLife.AdvanceSub | game_of_life_draft.py:72-75 | `next_generation(get_sub_node(...))` gives the sub-node's next generation |
| Engine.HashLife.Combine | game_of_life_draft.py:77 | the result is built from n00.se, n01.sw, n10.ne and n11.nw |
| Draft.Fit | game_of_life_draft.py:316-322 | the shape check yields a rows x cols grid keeping the shared cells and dead elsewhere |
| Draft.Frame | game_of_life_draft.py:308-322 | a frame that advances yields a rows x cols grid |
| Draft.FrameAdvances | game_of_life_draft.py:308-313 | a frame falls into the `except` branch exactly when the grid has no rows and no columns |
| Draft.FrameConfined | game_of_life_draft.py:308-322 | after a frame, every cell outside the top-left 4 x 4 corner is dead |
| Draft.FrameKeepsDead | game_of_life_draft.py:308-322 | a dead grid stays the same dead grid |
| Draft.Generation | game_of_life_draft.py:308-322 | the `try` block on the array returns a fresh array holding the frame's grid, or reports failure and hands back the old array |
| Draft.Simulation.constructor | game_of_life_draft.py:236 | a new engine with empty caches, the given grid, and the active set from `initialize_active_cells` |
| Draft.Simulation.Reset | game_of_life_draft.py:284-286 | the space bar installs the given grid and rebuilds a covering active set; the engine keeps its caches |
| Draft.Simulation.Toggle | game_of_life_draft.py:287-293 | the click flips the cell in place and adds it and its neighbourhood to the active set |
| Draft.Simulation.Step | game_of_life_draft.py:308-331 | the grid becomes the frame's grid, the active set is rebuilt from it and covers it, and the engine's caches only grow |

## Left out

- Drawing, fonts, the event loop, key bindings and the fullscreen window: these are pygame I/O.
  Each handler is modelled as the method the event calls.
- `create_random_grid`: random draws are not modelled. The grid it would draw is a parameter of
  the constructors and of `Draft.Simulation.Reset`. In `game_of_life.py` the space bar also
  re-colours the new grid, which is left out for the same reason.
- `change_cell_color`: it draws a random colour. Colours are opaque values here, and
  `current` changes only through `ResetCellsToWhite`.
- `save_grid` and `load_grid`: pickle file I/O.
- Zoom and the pixel-to-cell conversion: floating point and mouse I/O. The toggles take the
  cell's row and column.
- md5: modelled as an injective digest (`Quadtree.Print`) that keeps its input. This is the
  collision-freedom the cache relies on.
- The lazy `self.hash` field of a node: a pure function of the node, so it is modelled as
  `Quadtree.Fingerprint`.
- `sys.setrecursionlimit`, the `RecursionError` handler and the debug prints. The generic
  `except` branch is modelled only as `Draft.Redraw`, because its new grid is random.
  `Draft.Simulation` never reaches it because its grid has cells.
- numpy's int grid is modelled as `bool` cells. Sums become `Grids.Count`.
- `get_statistics` returns the text "Population: n". `ColourLife.ColourStepper.Population`
  models only n.
- Draft.Simulation.Toggle: requires the clicked cell to be on the grid, because the draft
  indexes the array without wrapping and a cell off the grid would raise.
- ColourLife.StampGlider: takes the window after Python has normalised the slice, so it
  requires a start on the grid. `ColourLife.ColourStepper.CreateGlider` computes that start,
  including a negative one, and models the slices that select fewer than three indices.
- ColourLife.Glide: models only the body after a successful slice assignment. The slices that
  select fewer than three indices are in `ColourLife.ColourStepper.CreateGlider`.
- ColourLife.ColourStepper.CreateGlider: when a slice selects fewer than three indices, the
  source's `ValueError` is not caught and ends the program. The model reports `placed` false
  with the state unchanged, and does not model the program's end. It promises that every live
  cell keeps a colour only for a non-negative start: with a start in -n..-4 the colour loop
  writes keys off the grid, so the stamped cells stay uncoloured
  (`ColourLife.NegativeStartLeavesUncoloured`). The only call, `create_glider(cols // 2, rows // 2)`,
  passes a non-negative start.
- ActiveLife.Stepper.Toggle: requires the clicked cell to be on the grid, for the same reason
  as in the v1/v2 sources.
