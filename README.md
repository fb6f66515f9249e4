# 2048 grid engine

This is a model of the grid engine of a terminal 2048 game (`main.py`). The board is an
n by n grid of cells stored row-major in one flat list. Each cell holds 0 (empty) or a
tile value. A move in one of four directions does three things:

1. It shifts every tile as far as it can go towards the destination edge ("shift").
2. It merges equal neighbours, visiting the cells from the edge inwards ("collapse").
3. It shifts again.

Between moves the game adds new tiles of value 2 or 4 on random empty cells. The game is
over when no cell is empty and no two orthogonal neighbours are equal.

The project has six modules:

- `Block` (block.dfy): the cell constants, the tile-value invariant, and the fixed-width
  text of a cell.
- `Directions` (directions.dfy): the direction table, which holds the flat step, the
  traversal order and the bound check. It also maps every flat index to a line and an
  offset along that line, counted from the destination edge.
- `Lines` (lines.dfy): what one move does to one line, on values. This covers compaction,
  the in-order merge pass, and the standard 2048 merge rule as an independent reference.
- `Board` (board.dfy): the same operations on the whole grid, line by line. It also holds
  the traversal invariants that relate the in-place loops to the line-level functions,
  and the game-over predicate.
- `Game` (game.dfy): the `Grid` class. Its `cells` array is updated in place by `Shift`,
  `Collapse`, `ShiftAndCollapse` and `MakeNewBlocks`. Each method is proved against the
  `Board` function that describes its result.
- `Display` (display.dfy): the plain-text picture of the grid, and where each cell's
  text appears in it.

Each method keeps the loops of the source:

- the traversal of all n² cells in the direction's order;
- the inner walk of a tile towards the edge;
- the spawning loop with its early exit;
- the game-over scan.

The walk and the merge test sit in helper methods (`Visit`, `Slide`, `MergeCell`), each
with its own contract.

A Block object is modelled as the integer it holds. Copying a Block with `deepcopy`
becomes copying the value.

## Model

| member | source | states |
|---|---|---|
| Block.IsEmpty | main.py:37-38 | A cell is empty exactly when it holds 0. |
| Block.StringifyVal | main.py:46-57 | An empty cell is Width (6) spaces. A value whose decimal text fits is centred in 6 characters, with the odd space on the right. A wider value is its bare decimal text. |
| Block.StringifyValPadded | main.py:49-54 | The text of a non-empty cell is some spaces, then its decimal digits, then some spaces. |
| Block.StringifyValReadable | main.py:46-57 | Stripping the spaces from a non-empty cell's text leaves a decimal numeral that parses back to the cell's value. |
| Block.DecimalRoundTrip | main.py:49 | `str` of an integer parses back to the same integer. |
| Block.NewValueIsTile | main.py:34-35 | `randint(1, 2) * 2` is a non-empty tile value (2 or 4). |
| Block.DoubleIsTile | main.py:126 | Doubling a tile value gives a tile value, and doubling a non-empty one gives a non-empty one. |
| Directions.Step | main.py:71-74 | The flat step of each direction: -n, -1, n or 1. It is never 0, and it is negative exactly for Up and Left, whose traversal runs upwards. |
| Directions.Order | main.py:71-74 | The t-th cell of the traversal: t for Up and Left, n² - 1 - t for Down and Right. It is always a cell of the grid. |
| Directions.InBound | main.py:71-74 | The four bound checks `x >= 0`, `(x + 1) % n != 0`, `x < n ** 2` and `x % n != 0`, with Python's modulo. |
| Directions.ToFlat | main.py:77 | `r * n + c` is an index of the grid, and `/ n` and `% n` recover r and c. |
| Directions.BoundTable | main.py:69-75 | For every direction, the bound check accepts the destination i + step exactly when it is inside the grid and in the same row (Left, Right) or column (Up, Down) as i. |
| Directions.BoundLeft | main.py:72 | The Left check `(x + 1) % n != 0` on x = i - 1 means "i - 1 is in i's row". |
| Directions.BoundRight | main.py:74 | The Right check `x % n != 0` on x = i + 1 means "i + 1 is in i's row". |
| Directions.BoundUp | main.py:71 | The Up check `x >= 0` on x = i - n means "i - n is in i's column". |
| Directions.BoundDown | main.py:73 | The Down check `x < n * n` on x = i + n means "i + n is in i's column". |
| Directions.StepAlongLine | main.py:69-75 | From offset k of a line, the step passes the bound check exactly when k >= 1, and it leads to offset k - 1 of the same line. |
| Directions.IdxInjective | main.py:69-75 | Distinct (line, offset) pairs are distinct cells. |
| Directions.IdxCover | main.py:69-75 | Every cell lies on some line at some offset. |
| Directions.RankStep | main.py:71-74 | The traversal visits offset k - 1 of a line before offset k, because the ascending and descending ranges start at the destination edge. |
| Directions.ProgressAt | main.py:111 | At step t the traversal is at the first unvisited offset of the current cell's line. |
| Directions.ProgressDone | main.py:111 | After n² steps every offset of every line has been visited. |
| Lines.MoveTotals | main.py:117-118 | Moving a tile into an empty cell keeps the multiset of values, the sum and the number of empty cells. |
| Lines.MergeInto | main.py:125-127 | Doubling the destination and clearing the equal source keeps the sum and the tile-value invariant. It frees one cell when the source was a tile. |
| Lines.CompactPermutes | main.py:109-120 | Shifting a line only rearranges it: the result is a permutation of the line. |
| Lines.CompactKeeps | main.py:109-120 | Shifting keeps the tiles in their order, the sum and the number of empty cells. |
| Lines.CompactIsCompacted | main.py:109-120 | After a shift no tile has an empty cell between it and the edge. |
| Lines.CompactIdempotent | main.py:109-120 | Shifting twice is the same as shifting once. |
| Lines.CompactedFixed | main.py:109-120 | Shifting leaves an already compacted line unchanged. |
| Lines.CompactUnique | main.py:109-120 | The shifted line is the only compacted line with the same length and the same tiles, in the same order. |
| Lines.ShiftPrefixLayout | main.py:114-116 | When the traversal reaches offset k, the q tiles in front of k are at offsets 0 .. q - 1 and offsets q .. k - 1 are empty. |
| Lines.ShiftPrefixJump | main.py:114-120 | The inner walk, which takes the tile at k to offset q, is exactly one more step of the shift. |
| Lines.MergeAtExact | main.py:125-127 | Two equal tiles at k - 1 and k become one tile of double value at k - 1, with k emptied. The sum holds and one more cell is empty. |
| Lines.MergeAtGuardIrrelevant | main.py:125 | The merge pass without the source's missing emptiness test equals the pass with it. |
| Lines.CollapseLineKeeps | main.py:122-127 | The merge pass keeps the sum and the tile-value invariant, and never decreases the number of empty cells. |
| Lines.CollapseLineIsRef | main.py:122-127 | The in-order merge pass equals a head-first recursive reference: the first of two equal neighbours absorbs the second, and the result is never merged again. |
| Lines.MergedSum | main.py:139-142 | The reference 2048 merge rule keeps the sum of the tiles. |
| Lines.MergedKeepsHalf | main.py:139-142 | The 2048 rule keeps at least half of the tiles: a line of k tiles merges into at least k / 2 tiles. |
| Lines.MoveLineIsMerged | main.py:139-142 | A move on a line equals the reference 2048 rule applied to its tiles, padded with empty cells. |
| Lines.MoveLineProperties | main.py:139-142 | A move keeps the sum and the tile-value invariant and leaves the line compacted. It never adds a tile, so the number of empty cells does not decrease, and it keeps at least half of the tiles. |
| Lines.StuckLine | main.py:139-142 | A line that is full and has no equal neighbours does not change under a move. |
| Lines.MoveLineFourEqual | main.py:139-142 | `[v, v, v, v]` becomes `[2v, 2v, 0, 0]`. |
| Lines.MoveLineNoRemerge | main.py:139-142 | `[2v, v, v, 0]` becomes `[2v, 2v, 0, 0]`: a merged tile does not merge again. |
| Lines.MoveLineEdgePairFirst | main.py:139-142 | `[v, v, v, 0]` becomes `[2v, v, 0, 0]`: the pair nearest the edge merges. |
| Lines.MoveLineMergedStays | main.py:139-142 | `[v, v, 2v, 0]` becomes `[2v, 2v, 0, 0]`. |
| Lines.MoveLineThreeTiles | main.py:139-142 | Three tiles followed by an empty cell move exactly as the reference rule says. |
| Lines.TileSum | main.py:162-163 | With tile values, the sum is at least 2 per tile, and it is 0 exactly when every cell is empty. |
| Lines.EmptyCountZero | main.py:132 | The count of empty cells is 0 exactly when no cell is empty. |
| Board.LinesOfRebuild | main.py:69-75 | Cutting a grid rebuilt from lines gives back those lines. |
| Board.RebuildOfLines | main.py:69-75 | Rebuilding a grid from its own lines gives back the grid. |
| Board.ShiftGridLines | main.py:109-120 | A grid shift compacts every line of the direction. |
| Board.CollapseGridLines | main.py:122-127 | A grid collapse applies the merge pass to every line of the direction. |
| Board.MoveGridLines | main.py:139-142 | A grid move applies the line move to every line of the direction. |
| Board.ShiftCollapseShiftIsMove | main.py:139-142 | Shift, collapse, shift on the grid is the grid move. |
| Board.ShiftAfterStep | main.py:111-120 | Visiting cell t of the traversal advances the shift of exactly that cell's line by one offset. |
| Board.CollapseAfterStep | main.py:124-127 | Visiting cell t advances the merge pass of exactly that cell's line by one offset. |
| Board.ShiftingJump | main.py:114-120 | Moving the visited tile to its landing cell keeps the in-place shift invariant. |
| Board.ShiftingSkip | main.py:112-113 | Skipping an empty cell keeps the in-place shift invariant. |
| Board.ShiftingEnd | main.py:109-120 | After the whole traversal the array holds the grid shift of the original grid. |
| Board.CollapsingMerge | main.py:125-127 | Merging the visited cell into its equal neighbour keeps the in-place collapse invariant. |
| Board.CollapsingKeep | main.py:125 | Leaving a cell whose neighbour differs or is out of bound keeps the in-place collapse invariant. |
| Board.CollapsingEnd | main.py:122-127 | After the traversal the array holds the grid collapse of the original grid. |
| Board.ShiftGridCompacted | main.py:109-120 | After a shift no tile has an empty in-bound cell on its destination side. |
| Board.ShiftGridIdempotent | main.py:109-120 | Shifting the grid twice is the same as shifting it once. |
| Board.ShiftGridFixesCompacted | main.py:109-120 | Shifting leaves an already compacted grid unchanged. |
| Board.MoveGridCompacted | main.py:139-142 | After a whole move the grid is compacted towards the edge. |
| Board.FlatNeighbours | main.py:149-155 | The four flat tests mean: a left, right, upper or lower neighbour exists, and it is at i - 1, i + 1, i - n or i + n. |
| Board.GameOverIsFlat | main.py:144-157 | "Every cell is a tile and differs from each neighbour that exists" is the same as the 2D game-over condition. |
| Board.GameOverNoMove | main.py:144-157 | When the game is over, no move in any direction changes the grid. |
| Board.GameOverExamples | main.py:144-157 | `[2, 4, 4, 2]` on a 2 by 2 grid is over; `[2, 2, 4, 4]` is not. |
| Game.Grid.constructor | main.py:61-78 | The grid is n² cells and holds min(init_blocks, n²) tiles, each a 2 or a 4. The other cells are empty. |
| Game.Grid.ClearCell | main.py:40-41 | The cell becomes empty; nothing else changes. |
| Game.Grid.NewVal | main.py:34-35 | The cell becomes 2 or 4; nothing else changes. |
| Game.Grid.Available | main.py:80-81 | True exactly when the destination is in the grid, on the source's own line, and empty. |
| Game.Grid.Shift | main.py:109-120 | The array becomes the grid shift of its old contents. It is a permutation with the same sum and empty count, and it is compacted. |
| Game.Grid.Visit | main.py:111-120 | One round of the outer loop keeps the in-place shift invariant one step further. |
| Game.Grid.Slide | main.py:114-120 | The inner loop takes the tile to the first cell after the nearest tile towards the edge (or to the edge) and empties its old cell. |
| Game.Grid.Collapse | main.py:122-127 | The array becomes the grid collapse of its old contents. The sum holds, empty cells do not decrease, and tile values stay tile values. |
| Game.Grid.MergeCell | main.py:124-127 | One round of the merge loop keeps the in-place collapse invariant one step further. |
| Game.Grid.ShiftAndCollapse | main.py:139-142 | The array becomes the grid move of its old contents. The sum holds, the result is compacted, tile values stay tile values, and the number of empty cells does not decrease. |
| Game.Grid.EmptyCells | main.py:132 | The number of empty cells, between 0 and n²; it is 0 exactly when no cell is empty. |
| Game.Grid.MakeNewBlocks | main.py:129-137 | Exactly min(num_blocks, empty cells) empty cells become 2 or 4, and no other cell changes. |
| Game.Grid.IsGameOver | main.py:144-157 | Returns true exactly when the game is over: no empty cell and no equal orthogonal neighbours. |
| Game.Grid.GetScore | main.py:162-163 | The sum of the cells. With tile values it is at least 2 per tile, and 0 exactly on an empty grid. |
| Game.NotStuckNotOver | main.py:146-156 | A cell that fails any of the early-return tests means the game is not over. |
| Display.RuleLength | main.py:84 | The horizontal rule is 7n + 2 characters long. |
| Display.CellsLineCell | main.py:87-91 | In one text line, the text of the cell in column c sits at characters 7c + 1 to 7c + 6. |
| Display.RowTextShowsCell | main.py:85-92 | In the text of a row, the value line (sub-line int(6 / 4) = 1) shows the cell's text at column offset 7c + 1. |
| Display.DisplayLength | main.py:83-93 | When every cell's text is 6 wide, the picture is (4n + 1)(7n + 2) characters long. |
| Display.PlaintextDisp | main.py:83-93 | The picture is the rule followed by the text of each row, each row being three sub-lines and a rule. |
| Display.RowTextLineEnd | main.py:85-92 | When every cell's text is 6 wide, the text of a row ends each of its four lines of 7n + 2 characters with a newline. |
| Display.BandLineEnd | main.py:83-93 | When every cell's text is 6 wide, the character at the end of line s of row r of the picture is a newline. |
| Display.DisplayLines | main.py:83-93 | When every cell's text is 6 wide, the picture is (4n + 1)(7n + 2) characters long, and the last character of each of its 4n + 1 consecutive stretches of 7n + 2 characters is a newline. |
| Display.DisplayShowsCell | main.py:83-93 | The picture shows the text of cell (r, c) at a fixed offset computed from r and c. |
| Display.DisplayReadable | main.py:83-93 | The window for cell (r, c) shows blanks for an empty cell; otherwise it strips to a numeral that parses back to the cell's value. |
| Display.CellValueIsFlat | main.py:88 | The display reads cell (r, c) at the flat index `to_flat(r, c)`. |
| Display.FitsIff | main.py:46-57 | A cell's text is exactly 6 wide when the cell is empty or its decimal text has at most 6 characters. |
| Display.SmallValueFits | main.py:46-57 | Every value from 0 to 999999 has a 6-wide text. |

## Left out

- The game loop (`GameLoop`, `main`) and the key table `DIR_TABLE` (main.py:18-23, 166-201). They are terminal input and output around the engine.
- `_colored_disp` and `get_display` (main.py:95-107, 159-160): ANSI colour codes and a floating-point `log2`, only for the terminal.
- Randomness: `rd.randint` and `rd.choice` become a nondeterministic choice (`:|`). The retry loop of make_new_blocks (main.py:134-136) becomes one choice among the empty cells. That is the only outcome the loop can end with, and its termination depends on the random source.
- Lines.MergedKeepsHalf: bounds the number of tiles over the whole line only. There is no separate per-tile lemma that each resulting tile comes from one tile or from two equal neighbours, because that is how `Lines.Merged` is defined.
- Game.Grid.constructor: requires n >= 1. With n = 0 the source builds a degenerate board with no cells: every traversal is empty, no move changes anything, the game is over at once and the score is 0. A negative n is not a board at all: with n = -1 the grid has one cell, and an Up move on a tile tests `grid[1]`, which is out of range.
- The default arguments of `Grid.__init__` (n = 4, init_blocks = 2, blocks_per_round = [1, 1, 1, 2]) are not modelled. The constructor takes all four explicitly, and `Grid(colors=True)` in `main` is the call `Grid(4, 2, [1, 1, 1, 2], true)`. `bpr` and `colors` are stored. The game loop reads `bpr`, and `get_display` (main.py:159-160) reads `colors` to choose between the coloured picture, which is left out, and the plain one.
- `Block.__init__`, `get_val` and `is_empty` are not separate members. A Block is the integer it holds, so these are reading the value and the predicate `Block.IsEmpty`.
- The shift_map tuples and lambdas are not first-class values. `Directions.Step`, `Directions.Order` and `Directions.InBound` give the three parts of each entry, and `Directions.BoundTable` relates them.
- Display.DisplayLength, Display.DisplayLines, Display.DisplayShowsCell and Display.DisplayReadable: proved only when every cell's text is Width wide (`Display.Fits`, which holds for every value below 10^6). The picture of a grid with a wider value is defined (`Display.PlaintextDisp`) but its layout is not proved.
- `_plaintext_disp` is modelled as `Display.PlaintextDisp` on the side length and the cell list, not as a method of `Game.Grid`. It only reads the grid.
