# Minesweeper game engine

This project models the rules engine of a browser Minesweeper game, in
`libraries/gameEngine.js`, and proves properties of the model in Dafny.

The engine has two classes.

- A `Cell` holds the state of one grid position: whether it is a mine, revealed or flagged, and how many mines surround it. Its transitions are guarded.
- A `Board` owns a rows × cols grid of cells. It provides:
  - deferred mine placement that avoids the first clicked cell;
  - the clipped eight-direction neighbourhood;
  - adjacent-mine counting;
  - reveal with a recursive flood-fill;
  - the loss reveal of every mine;
  - the win check;
  - flag toggling and the remaining-flag counter.

The project is split into four modules:

- `Cells` (`cell.dfy`). The cell record is a datatype. Each mutating method of the JavaScript class becomes a function that returns the updated cell.
- `Grids` (`grid.dfy`). Positions, the neighbour list with its exact characterisation, and counting the cells that have a given trait.
- `Layout` (`layout.dfy`). Specification functions for what the grid looks like after each phase, with lemmas about them:
  - `Sample`: the positions that rejection sampling picks;
  - `Lay`: setting those mines;
  - `Annotate`: the adjacent-mine pass;
  - `Armed`: the three composed;
  - `RevealMines`: the loss reveal;
  - `FloodGrows`, `Closed` and `NewZerosClosed`: what flood-fill preserves and establishes;
  - `RevealOutcome`: the three outcomes of a reveal.
- `GameEngine` (`board.dfy`). The `Board` class. The cells live in an `array2<Cell>` that the methods update in place. A ghost `grid` mirrors the array as a sequence of rows. `Valid()` is the board invariant:
  - before the first reveal, no cell is a mine or revealed and the game is not over;
  - afterwards, there are exactly `mineCount` mines and every non-mine cell holds the number of mines around it;
  - `isWon` implies `isGameOver`.

  Every method is proved against the `Layout` functions.

The random generator is an input. `PlaceMines` and `RevealCell` take `draws`, the sequence of positions that `Math.floor(Math.random() * rows)` and `Math.floor(Math.random() * cols)` would yield, in order.

`revealCell` does not check `isGameOver`; the page script does. So after the game ends, a reveal can still uncover cells, set `isGameOver` again, and even set `isWon` after a loss. `GameEngine.Board.RevealCell` accepts a finished game and does what the code does.

## Model

| member | source | states |
|---|---|---|
| `Cells.Cell.Reveal` | libraries/gameEngine.js:12-18 | the transition happens exactly when the cell is neither flagged nor revealed; then only `isRevealed` changes, to true, and otherwise the cell is unchanged |
| `Cells.Cell.ToggleFlag` | libraries/gameEngine.js:20-24 | the flag flips exactly when the cell is unrevealed; no other field changes |
| `Cells.Cell.SetMine` | libraries/gameEngine.js:26-28 | the cell becomes a mine and nothing else about it changes |
| `Cells.Cell.IncrementAdjacentMines` | libraries/gameEngine.js:30-32 | the adjacent count goes up by one and nothing else changes |
| `Cells.NewCell` | libraries/gameEngine.js:3-10 | a new cell carries its coordinates, is no mine, hidden, unflagged, with count 0 |
| `Cells.RevealIdempotent` | libraries/gameEngine.js:12-18 | revealing twice equals revealing once, and the second attempt reports failure |
| `Cells.ToggleFlagInvolution` | libraries/gameEngine.js:20-24 | toggling a flag twice gives back the original cell |
| `Cells.FlagAndRevealExclude` | libraries/gameEngine.js:12-24 | a flagged cell cannot be revealed and a revealed cell cannot be (un)flagged |
| `Grids.FreshGrid` | libraries/gameEngine.js:49-56 | the starting grid is rows × cols, every cell fresh and labelled with its own position |
| `GameEngine.Board.constructor` | libraries/gameEngine.js:36-46 | a new board keeps its dimensions and mine count, holds the fresh grid, is valid, and the game is neither over nor won, with the first click pending |
| `GameEngine.Board.InitializeCells` | libraries/gameEngine.js:49-56 | after the nested loops the array holds a fresh cell at every position |
| `Grids.ClipMembers` | libraries/gameEngine.js:109-116 | a position is kept by clipping exactly when it is on the board and its offset is one of the directions; at most one position per direction |
| `Grids.ClipDistinct` | libraries/gameEngine.js:109-116 | distinct directions give distinct neighbours |
| `Grids.DirectionsExactly` | libraries/gameEngine.js:103-107 | the eight direction pairs are exactly the non-zero offsets of at most one step in each axis |
| `Grids.ClipAdjacent` | libraries/gameEngine.js:109-116 | clipping any list of exactly those eight offsets keeps precisely the on-board positions adjacent to (row, col) |
| `Grids.NeighborMember` | libraries/gameEngine.js:101-123 | a position is a neighbour exactly when it satisfies the board's bounds test and touches (row, col) |
| `Grids.NeighborsExactly` | libraries/gameEngine.js:101-123 | the neighbour list is exactly the adjacent on-board positions, without repeats, at most 8 of them and never (row, col) itself |
| `GameEngine.Board.IsValidPosition` | libraries/gameEngine.js:121-123 | a position is valid exactly when its row lies in 0..rows-1 and its column in 0..cols-1 |
| `GameEngine.Board.GetNeighbors` | libraries/gameEngine.js:101-123 | the scan over the eight directions, keeping the positions that pass `IsValidPosition`, returns exactly the adjacent on-board positions, at most 8, not (row, col) |
| `Layout.MinesAmong` | libraries/gameEngine.js:92-96 | the number of mines among a list of positions is at most its length |
| `Layout.NeighborMinesBound` | libraries/gameEngine.js:88-99 | the number of mines around a cell lies between 0 and 8 |
| `Layout.NeighborMinesSame` | libraries/gameEngine.js:88-99 | the adjacent-mine count depends only on where the mines are |
| `GameEngine.Board.CountAdjacentMines` | libraries/gameEngine.js:88-99 | the loop counts the mines among the neighbours of (row, col), a number at most 8 |
| `Layout.AnnotateCells` | libraries/gameEngine.js:77-86 | the adjacent pass sets each non-mine cell's count to the mines around it and leaves mine cells and every other field untouched |
| `Layout.AnnotateCounts` | libraries/gameEngine.js:77-99 | after the pass the mines are where they were, every non-mine cell's count is right, and each count lies in 0..8 |
| `GameEngine.Board.CalculateAdjacentMines` | libraries/gameEngine.js:77-86 | the nested loops leave the grid equal to the adjacent pass applied to the old grid |
| `Layout.SafeDrawsMembers` | libraries/gameEngine.js:62-68 | the positions that can become mines are exactly the drawn positions other than the avoided one |
| `Layout.SampleFromExact` | libraries/gameEngine.js:61-72 | with enough distinct usable draws, the rejection loop from a partial set ends with exactly n mines, all drawn, none at the avoided cell, keeping those already chosen |
| `Layout.SampleExact` | libraries/gameEngine.js:58-72 | placement picks exactly mineCount positions, never the avoided cell, all of them drawn |
| `Layout.DrawsLeft` | libraries/gameEngine.js:61-63 | while fewer than mineCount mines are placed, another draw remains |
| `Layout.SampleStep` | libraries/gameEngine.js:61-71 | one draw is rejected when it is the avoided cell or already a mine and is otherwise added, growing the set by one, and the rest of the loop carries on from there |
| `Layout.LayCells` | libraries/gameEngine.js:70 | laying mines sets a mine exactly on the chosen positions and changes nothing else |
| `Layout.LayAdd` | libraries/gameEngine.js:70 | laying one more mine changes only that cell |
| `Layout.LayStep` | libraries/gameEngine.js:66-71 | on a mine-free grid a cell is a mine exactly when it was chosen, and choosing a new one adds exactly one to the mine count |
| `GameEngine.Board.TryMine` | libraries/gameEngine.js:62-71 | one pass of the loop places a mine exactly when the draw is neither the avoided cell nor already a mine, adding one to the mine count and keeping the sampling state in step |
| `GameEngine.Board.LayMines` | libraries/gameEngine.js:59-72 | the `while` loop leaves mines exactly at the sampled positions and exactly mineCount mines on the board |
| `GameEngine.Board.PlaceMines` | libraries/gameEngine.js:58-75 | the grid afterwards is the armed grid: the sampled mines laid and the counts annotated, with exactly mineCount mines |
| `Layout.ArmedCounted` | libraries/gameEngine.js:58-99 | the armed grid keeps the board's shape, counts every non-mine cell right, and has no mine at the avoided cell |
| `Layout.ArmedLayout` | libraries/gameEngine.js:58-75 | in the armed grid a cell is a mine exactly when it was sampled; flags, positions and hidden state are kept |
| `GameEngine.Board.ArmMines` | libraries/gameEngine.js:128-131 | the first reveal arms the grid, keeps the board invariant, leaves the clicked cell mine-free and ends the first-click phase for good |
| `Layout.RevealMinesEffect` | libraries/gameEngine.js:172-180 | after a loss every mine is revealed and keeps its flag, so a flagged mine ends up both flagged and revealed; non-mine cells are unchanged |
| `GameEngine.Board.RevealAllMines` | libraries/gameEngine.js:172-180 | the nested loops leave the grid equal to the old grid with every mine revealed |
| `GameEngine.Board.CountCells` | libraries/gameEngine.js:183-192 | the nested loops count the cells with the given trait |
| `Layout.AllSafeRevealed` | libraries/gameEngine.js:182-198 | the revealed non-mine count never exceeds rows × cols minus the number of mines, and equals it exactly when every non-mine cell is revealed |
| `GameEngine.Board.CheckWinCondition` | libraries/gameEngine.js:182-198 | `isWon` and `isGameOver` are both set exactly when the revealed non-mine count equals rows × cols − mineCount, and are left as they were otherwise |
| `GameEngine.Board.GetRemainingFlags` | libraries/gameEngine.js:200-212 | the result is mineCount minus the number of flagged cells, with no clamping, so it goes negative when the player over-flags; it is never below mineCount − rows × cols |
| `Layout.SameLayoutKeeps` | libraries/gameEngine.js:166-170 | changing only revealed and flagged states keeps the labels, the mine count and every adjacent count |
| `GameEngine.Board.ToggleFlag` | libraries/gameEngine.js:166-170 | once the game is over nothing changes; otherwise exactly the target cell's flag toggles, and the board invariant holds |
| `Layout.FloodGrowsTrans` | libraries/gameEngine.js:152-164 | two flood stretches in a row are one flood stretch |
| `Layout.FloodGrowsHidden` | libraries/gameEngine.js:152-164 | flood-fill only reveals, so mines, flags and counts stay and the number of hidden cells never grows |
| `Layout.SettledGrows` | libraries/gameEngine.js:155-156 | a neighbour that flood-fill skips stays skipped as flooding goes on |
| `Layout.ClosedGrows` | libraries/gameEngine.js:152-164 | a cell whose neighbours are all settled stays so as flooding goes on |
| `Layout.NewZerosCompose` | libraries/gameEngine.js:152-164 | two flood stretches each closing the zero cells they reveal close every zero cell revealed by both |
| `Layout.RevealThenFlood` | libraries/gameEngine.js:156-161 | revealing a cell and flooding from it when its count is zero closes every zero cell revealed |
| `Layout.RevealOne` | libraries/gameEngine.js:156-157 | revealing a hidden, unflagged, safe cell is a flood step that hides one cell fewer |
| `Layout.NeighborDone` | libraries/gameEngine.js:155-163 | after one neighbour is handled, everything met so far is settled and every zero cell revealed since the start is closed |
| `GameEngine.Board.FloodFill` | libraries/gameEngine.js:152-164 | only hidden, unflagged, non-mine cells are revealed and nothing else changes; afterwards every neighbour of the start, and of every zero cell it revealed, is revealed, flagged or a mine |
| `GameEngine.Board.Open` | libraries/gameEngine.js:143-145 | the cell is revealed; a zero cell is flooded from and every zero cell revealed is closed; a non-zero cell is the only change |
| `GameEngine.Board.Explode` | libraries/gameEngine.js:137-141 | revealing a hidden mine ends the game and shows every mine, and nothing else changes |
| `GameEngine.Board.Uncover` | libraries/gameEngine.js:143-149 | revealing a hidden safe cell reveals it and floods a zero cell, then wins (and ends) the game exactly when all safe cells are revealed |
| `GameEngine.Board.RevealPlaced` | libraries/gameEngine.js:133-149 | on a board with mines placed: a flagged or revealed cell changes nothing and returns true; a mine returns false, ends the game and shows every mine; a safe cell returns true and is revealed, flooded and checked for a win |
| `GameEngine.Board.RevealCell` | libraries/gameEngine.js:125-150 | the first call places exactly mineCount mines away from the clicked cell, never returns false and never runs placement again; every call then has the outcome of a reveal on the armed or current grid, keeping the board invariant |

## Left out

- `Math.random` and the floating-point arithmetic in `placeMines` are not modelled. They become the `draws` input, whose positions are on the board.
- `GameEngine.Board.PlaceMines` requires the draws to hold at least mineCount distinct positions other than the avoided cell. This is the case in which the source's rejection loop ends. The model does not capture the probabilistic termination. It also does not capture the endless loop that the source enters when mineCount is at least rows × cols.
- `GameEngine.Board.FloodFill` states what flood-fill reveals only as a closure: only hidden, unflagged, safe cells; the start and every zero cell revealed are closed. It does not state that the revealed region is the smallest such region, i.e. that only cells connected to the start through zero cells are revealed.
- `GameEngine.Board.Open` inherits the same gap: for a zero-count cell it states the closure but not that nothing beyond the zero-connected region is revealed.
- `GameEngine.Board.Uncover` inherits the same gap in its zero-count case; its win and game-over update is stated in full.
- `GameEngine.Board.RevealPlaced` inherits the same gap through `RevealOutcome`, whose zero-count case states only the closure.
- `GameEngine.Board.RevealCell` inherits the same gap through `RevealOutcome`; its first-click, loss and no-op outcomes are exact.
- The cells are values in an `array2<Cell>`, not objects. The source never shares a cell object between two positions, so writing the updated value back has the same effect as the in-place update. `GetNeighbors` returns positions rather than the cell objects themselves.
- Coordinates outside the board passed to `revealCell` or `toggleFlag` are excluded by precondition. The source does not check them.
- `rows`, `cols` and `mineCount` are natural numbers. Negative arguments to the constructor are not modelled. JavaScript numbers are modelled as unbounded integers, because every count here is far below 2^53.
- `GameEngine.Board.CheckWinCondition` promises that the board invariant still holds only after the mines are placed. This is the only situation in which the source calls it.
- The page script `app.js` is not part of this model. That covers the DOM rendering, the event handlers, the difficulty settings, the timer (a wall-clock input) and the counter formatting.
