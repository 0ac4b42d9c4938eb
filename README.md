# Minesweeper core in Dafny

This project models the game logic of `minesweeper.rb`, a terminal Minesweeper.

- The player picks a board size and a bomb count. `Board.new` clamps both into legal ranges using `Value.adjust`.
- Each turn is a move on one cell: Expose, Flag, Question or Unmark.
- On the first Expose, `Move#initialize_bombs` places the bombs at random. It keeps the exposed cell and its neighbours clear, and it increments the counter of every cell around each bomb.
- Exposing an EMPTY cell floods outward through `apply_function_to_neighbors`.
- Exposing a hidden bomb loses the game and shows every bomb.
- When the exposed-cell counter reaches `num_cells - num_bombs`, the game is won and the whole board is shown.

The modules follow the classes of the program:

- `Value`: `Value.adjust`, plus the `[a, b].max` used by the Board constructor.
- `Cells`: class `Cell`. Its fields are `content` (EMPTY, a count, or BOMB), `exposed` and `marking`.
  - The methods update the fields in place.
  - Each method is specified by a value-level transition function: `AfterMark`, `AfterExpose`, `AfterPlaceBomb` or `AfterIncrement`.
- `Boards`: class `Board`.
  - It holds a fixed grid of `Cell` objects, the bomb count, and the mutable counters `numFlags` and `numExposed`.
  - `Snap()` reads the cells as a map from positions to cell states, and `Positions(rows, columns)` is the set of in-bounds positions. These two are the vocabulary the other contracts are written in.
  - A ghost index of the cell objects shows that no cell object appears twice.
- `MoveSpec`: the state of a Move and its Board as a value (`Snapshot`).
  - The invariant between moves is `Sound`: the counters agree with the cells, the counts agree with the bombs, bombs show exactly when the game is over, and the status is WON exactly when `won?` holds.
  - `ExposeOutcome` states what an expose does. Its flood bound uses `Reaches`: a chain of adjacent cells from the exposed cell, all EMPTY but the last, all hidden before between the ends.
  - The large predicates (`Inv`, `Progress`, `ExposeOutcome`, `Flooded`, `IncrementedUpTo`) are guarded by a trivially true key predicate, so the verifier unfolds them only where a proof asks for it.
  - `FlagResult`, `QuestionResult` and `UnmarkResult` state what the marking moves do.
  - It also holds `contiguous?`, `neighbors?`, `convert_to_indices`, and the lemmas.
- `Moves`: class `Move`. Its methods are imperative and follow the Ruby code.
  - `Expose` keeps its recursion.
  - `initialize_bombs` and the neighbour loops keep their `while` loops, with invariants.
  - Each method is proved against the `MoveSpec` functions.

## Model

| member | source | states |
|---|---|---|
| Value.Adjust | minesweeper.rb:61-71 | a value already in range is returned unchanged; a value below the range becomes the minimum; a value above a non-empty range becomes the maximum; so with a non-empty range the result always lies in it |
| Value.AdjustIsNearest | minesweeper.rb:61-71 | on a non-empty range the clamped value is at least as close to the input as any value of the range |
| Value.AdjustIdempotent | minesweeper.rb:61-71 | clamping a clamped value again changes nothing |
| Value.Max | minesweeper.rb:190 | `[a, b].max` is at least both arguments and is one of them |
| Cells.Decimal | minesweeper.rb:126-128 | the count `to_s` writes is a non-empty string of decimal digits with no leading zero, and read back as a decimal number it is the count itself |
| Cells.Cell.constructor | minesweeper.rb:87-91 | a new cell is EMPTY, hidden and unmarked |
| Cells.Cell.Expose | minesweeper.rb:101-104 | the cell becomes exposed; its marking is cleared if it was hidden and kept if it was already exposed |
| Cells.Cell.Mark | minesweeper.rb:134-136 | the marking changes only while the cell is hidden |
| Cells.Cell.Flag | minesweeper.rb:138-140 | marking with FLAG, under the same hidden-only rule |
| Cells.Cell.Question | minesweeper.rb:142-144 | marking with QUESTION, under the same hidden-only rule |
| Cells.Cell.Unmark | minesweeper.rb:158-160 | clears the marking, under the same hidden-only rule |
| Cells.Cell.PlaceBomb | minesweeper.rb:118-120 | the content becomes BOMB and nothing else changes |
| Cells.Cell.Increment | minesweeper.rb:126-128 | a bomb is left alone; any other cell's count becomes `to_i + 1`, so EMPTY becomes 1 |
| Cells.Cell.Display | minesweeper.rb:162-172 | an exposed cell shows its symbol; a hidden cell shows its marking or ".". The shown text tells exactly whether the cell is exposed, and a hidden cell never reveals its content |
| Cells.Cell.SymbolQueries | minesweeper.rb:110-124 | `empty?` and `bomb?` hold exactly when the symbol is EMPTY or BOMB, and `number?` exactly when the content is a count |
| Cells.Cell.ExposureShows | minesweeper.rb:93-99 | `hidden?` holds exactly when the cell shows ".", a flag or a question mark, and `exposed?` exactly when it shows anything else |
| Cells.Cell.MarkingShows | minesweeper.rb:130-156 | on a hidden cell, `marked?`, `flagged?` and `question?` hold exactly when the cell shows a marking, the flag or the question mark |
| Boards.PositionsCount | minesweeper.rb:226-228 | a rows-by-columns board has rows * columns positions |
| Boards.AreaIsProduct | minesweeper.rb:226-228 | the recursive count of cells equals the product rows * columns |
| Boards.RowPositionsCount | minesweeper.rb:185-187 | one row holds `columns` cells |
| Boards.Board.constructor | minesweeper.rb:179-196 | dimensions are clamped to 4..16 rows and 4..30 columns; the bomb count is clamped to [1, max(rows*columns-9, 1)]; every cell is EMPTY, hidden and unmarked; both counters are 0 |
| Boards.Board.CellsDistinct | minesweeper.rb:182-188 | the constructor builds a new cell for every position, so two positions never share a cell object |
| Boards.Board.CellAt | minesweeper.rb:206-208 | an in-bounds position names the one cell object indexed at that position |
| Boards.Board.InBounds | minesweeper.rb:218-220 | in bounds exactly when the position is on the board |
| Boards.Board.OutOfBounds | minesweeper.rb:222-224 | out of bounds exactly when the position is not on the board |
| Boards.Board.NumCells | minesweeper.rb:226-228 | the number of cells is the number of positions on the board |
| Boards.Board.Won | minesweeper.rb:230-232 | `won?` holds exactly when the exposed counter plus the bomb count is rows * columns |
| Boards.Board.ApplyToAllCells | minesweeper.rb:263-269 | after the two nested loops, every cell has had the block applied once, and nothing else has changed |
| Boards.Board.ExposeAll | minesweeper.rb:210-212 | every cell is exposed and unmarked; contents are unchanged |
| Boards.Board.ExposeAllBombs | minesweeper.rb:214-216 | a cell ends up exposed exactly when it was exposed before or is a bomb |
| Boards.AppliedEnd | minesweeper.rb:263-269 | the loop invariant of apply_to_all_cells, at the end of the last row, gives the whole-grid result |
| Boards.Board.SnapUpdate | minesweeper.rb:206-208 | changing one cell object changes the board's value at that cell's position and nowhere else (the cells do not alias) |
| Boards.MaxBombsIsArea | minesweeper.rb:190-191 | on any clamped board `rows*columns - 9` is at least 7, so the bomb ceiling is `rows*columns - 9` |
| MoveSpec.Contiguous | minesweeper.rb:406-408 | `(a - b).abs <= 1` holds exactly when a is b-1, b or b+1 |
| MoveSpec.ConvertToIndices | minesweeper.rb:410-414 | the row is below `rows`, and number == column * rows + row (column-major) |
| MoveSpec.ConvertToIndicesInBounds | minesweeper.rb:385-386 | every draw from `rand(rows * columns)` names a cell on the board |
| MoveSpec.ConvertToIndicesOnto | minesweeper.rb:385-386 | every cell on the board is named by exactly one draw, so the random draw can reach any cell |
| MoveSpec.SafeCount | minesweeper.rb:230-232 | the non-bomb cells number num_cells minus the bombs |
| MoveSpec.WonCountSafe | minesweeper.rb:230-232 | once num_bombs bombs are on the board, `won?` holds exactly when the exposed counter equals the number of non-bomb cells |
| MoveSpec.WonCountIffAllSafeExposed | minesweeper.rb:230-232 | once bombs are placed, `won?` holds exactly when every non-bomb cell is exposed |
| MoveSpec.ContinueCountsExposed | minesweeper.rb:338 | while the game goes on, num_exposed equals the number of exposed cells |
| MoveSpec.WonMeansAllExposed | minesweeper.rb:341-344 | in a WON game the counter meets `won?`, and every cell is exposed and unmarked |
| MoveSpec.EmptyHasSafeNeighbors | minesweeper.rb:339 | no neighbour of an EMPTY cell is a bomb, so the flood fill never exposes a bomb |
| MoveSpec.NoBombNearMeansEmpty | minesweeper.rb:392-395 | a cell with no bomb at it or next to it is EMPTY, so the first exposed cell always floods |
| MoveSpec.FlagResult | minesweeper.rb:349-354 | an exposed or already-flagged cell is left alone; otherwise the flag and num_flags rise together, so their difference is kept |
| MoveSpec.QuestionResult | minesweeper.rb:356-358 | num_flags never changes; the flagged cells drop by one exactly when a hidden flagged cell is questioned |
| MoveSpec.UnmarkResult | minesweeper.rb:360-366 | an unmarked cell is untouched; on a hidden cell num_flags and the flagged cells fall together |
| MoveSpec.FlagThenUnmark | minesweeper.rb:349-366 | flagging then unmarking a hidden, unflagged cell restores num_flags and leaves the cell unmarked |
| MoveSpec.QuestionOnFlagMiscounts | minesweeper.rb:356-358 | questioning a flagged cell leaves num_flags one above the number of flags on the board |
| MoveSpec.FlagKeepsSound | minesweeper.rb:349-354 | flag keeps the invariant between moves |
| MoveSpec.QuestionKeepsSound | minesweeper.rb:356-358 | question keeps the invariant between moves |
| MoveSpec.UnmarkKeepsSound | minesweeper.rb:360-366 | unmark keeps the invariant between moves |
| MoveSpec.IncrementedAround | minesweeper.rb:395 | incrementing around a bomb leaves the board's positions unchanged |
| MoveSpec.UntouchedConsistent | minesweeper.rb:186 | a board of fresh cells has no bombs, and every count on it is right |
| MoveSpec.FirstExposeUntouched | minesweeper.rb:328 | before the first expose there are no bombs, and every count is right |
| MoveSpec.PlaceBombKeepsConsistent | minesweeper.rb:392-395 | placing a bomb on a non-bomb cell and incrementing its neighbours adds exactly that bomb, and keeps every count equal to the number of bombs around the cell |
| MoveSpec.PlacedStart | minesweeper.rb:380-383 | the loop invariant of initialize_bombs holds before the first round |
| MoveSpec.PlaceBombStep | minesweeper.rb:384-397 | one successful round keeps the loop invariant with one bomb more: none at or next to the exposed cell, and all counts right |
| MoveSpec.ZoneSize | minesweeper.rb:402-404 | at most 9 cells are neighbours of a position |
| MoveSpec.NeighborsSymmetric | minesweeper.rb:402-404 | `neighbors?` is symmetric, and every position is its own neighbour |
| MoveSpec.RoomForBomb | minesweeper.rb:190-191 | while fewer than num_bombs bombs are placed, some cell passes the test of initialize_bombs, because num_bombs is at most num_cells - 9 |
| MoveSpec.IncrementedUpToStart | minesweeper.rb:370-378 | the neighbour-loop invariant for increment_cell holds before the first offset |
| MoveSpec.IncrementedUpToNextRow | minesweeper.rb:371-372 | the invariant carries over from the end of one value of i to the next i |
| MoveSpec.IncrementedUpToEnd | minesweeper.rb:370-378 | after all nine offsets, exactly the eight neighbours have been incremented |
| MoveSpec.ExposedUpToStart | minesweeper.rb:370-378 | the neighbour-loop invariant of the flood fill holds before the first offset |
| MoveSpec.ExposedUpToSkip | minesweeper.rb:373 | the centre and off-board offsets are skipped without breaking the invariant |
| MoveSpec.ExposedUpToNextRow | minesweeper.rb:371-372 | the flood-fill invariant carries over from one value of i to the next |
| MoveSpec.ExposedUpToStep | minesweeper.rb:374 | once the neighbour at the current offset is exposed, it counts as visited |
| MoveSpec.PreparedFacts | minesweeper.rb:328 | after the bomb placement of the first expose, the invariant holds, bombs are placed, and the exposed cell is EMPTY and hidden |
| MoveSpec.ExposedAlready | minesweeper.rb:330 | exposing an exposed cell changes nothing beyond the first-expose placement |
| MoveSpec.ExposeBombsFacts | minesweeper.rb:214-216 | exposing all bombs keeps contents, only adds exposure, and shows every bomb |
| MoveSpec.LossStep | minesweeper.rb:331-333 | exposing a hidden bomb keeps the invariant, and is the LOST outcome of expose |
| MoveSpec.LossKeepsInv | minesweeper.rb:331-333 | after a loss the invariant still holds, with every bomb shown |
| MoveSpec.LossOutcome | minesweeper.rb:331-333 | a loss is exactly the expose_all_bombs board with status LOST |
| MoveSpec.LossAfterPrepared | minesweeper.rb:328-333 | a loss after the first-expose placement is the LOST outcome of expose |
| MoveSpec.ExposeCellSets | minesweeper.rb:337-338 | exposing one hidden non-bomb cell adds exactly it to the exposed safe cells and removes it from the hidden ones |
| MoveSpec.ExposeCellKeeps | minesweeper.rb:337 | exposing one cell keeps contents, adds exposure only there, and keeps markings clear; the flood closure still holds with that cell pending |
| MoveSpec.ExposeOneProgress | minesweeper.rb:335-338 | one exposed cell is progress, and strictly fewer cells are hidden; this is the decrease that ends the recursion |
| MoveSpec.ExposeOneCounted | minesweeper.rb:335-338 | lowering num_flags (if flagged) and raising num_exposed keeps both counters right |
| MoveSpec.ExposeOneStep | minesweeper.rb:335-338 | exposing one hidden non-bomb cell keeps the invariant, with that cell added to the pending flood |
| MoveSpec.OffsetAdjacent | minesweeper.rb:371-373 | every non-centre offset of the loops names an adjacent cell |
| MoveSpec.NeighborSafe | minesweeper.rb:339 | during the flood fill, a neighbour of an EMPTY cell is not a bomb |
| MoveSpec.NeighborVisit | minesweeper.rb:373-374 | the recursive expose of one neighbour is progress, marks that offset visited, and keeps every newly exposed cell reachable from the EMPTY centre |
| MoveSpec.ReachesSelf | minesweeper.rb:335-337 | a cell is reachable from itself by the one-cell path |
| MoveSpec.ReachesWiden | minesweeper.rb:339 | a flood path stays a flood path when its cells were hidden in an earlier state and the contents do not change |
| MoveSpec.ReachesPrepend | minesweeper.rb:339 | a path from a hidden neighbour of an EMPTY cell extends to a path from that EMPTY cell |
| MoveSpec.FloodVisit | minesweeper.rb:373-374 | what the recursive expose of a neighbour of an EMPTY cell exposes is reachable from that EMPTY cell |
| MoveSpec.AssembleFlood | minesweeper.rb:334-339 | the flood from the freshly exposed cell, together with that cell, is the flood bound of the whole expose |
| MoveSpec.NumberExposesOnlyItself | minesweeper.rb:334-339 | exposing a hidden numbered cell, short of winning, exposes that cell and no other |
| MoveSpec.SafeOutcome | minesweeper.rb:330-345 | exposing a non-bomb cell is progress, and leaves that cell exposed |
| MoveSpec.ProgressHidden | minesweeper.rb:339 | progress never adds hidden cells |
| MoveSpec.CloseAround | minesweeper.rb:339 | once every neighbour of an EMPTY cell is exposed, the cell can leave the pending set |
| MoveSpec.FloodDone | minesweeper.rb:370-378 | after the neighbour loops the exposed cell is no longer pending |
| MoveSpec.ExposeAllFacts | minesweeper.rb:210-212 | expose_all keeps contents, exposes and unmarks every cell, and gains no exposed safe cell once every safe cell is exposed |
| MoveSpec.WonStep | minesweeper.rb:341-344 | winning and exposing all keeps the invariant, and is progress |
| MoveSpec.AssembleSafe | minesweeper.rb:334-345 | the pieces of the non-bomb branch together give expose's outcome |
| MoveSpec.ExposeKeepsSound | minesweeper.rb:327-347 | expose keeps the invariant between moves, the status is WON exactly when won? holds |
| MoveSpec.FirstExposeNeverLoses | minesweeper.rb:328-339 | the first expose never loses: the chosen cell ends up EMPTY and exposed, so it floods |
| MoveSpec.GrowthCount | minesweeper.rb:338 | the exposed safe cells grow by exactly the newly exposed safe cells |
| MoveSpec.ExposedCountGrowth | minesweeper.rb:338 | across a whole expose, num_exposed grows by exactly the number of newly exposed non-bomb cells |
| MoveSpec.LossExposesOnlyBombs | minesweeper.rb:330-333 | on a loss, status is LOST, both counters stay, and a cell is exposed exactly when it was before or is a bomb |
| MoveSpec.FreshIsSound | minesweeper.rb:315-319 | a fresh board with a fresh move satisfies the invariant between moves |
| Moves.Move.Abs | minesweeper.rb:312-319 | the move and its board, as a value, have the shape Board.new gives |
| Moves.Move.constructor | minesweeper.rb:315-319 | status CONTINUE, bombs still to be placed, and the invariant holds |
| Moves.Move.Go | minesweeper.rb:321-325 | off the board nothing changes; on the board the chosen move's outcome happens; the invariant between moves is kept |
| Moves.Move.Expose | minesweeper.rb:327-347 | the outcome of expose: the first-expose bomb placement, then the no-change, the loss or the flood-and-maybe-win branch; short of a win, every cell the flood exposes is reached from the chosen cell by a chain of adjacent cells in which every cell but the last is EMPTY and every cell between the ends was hidden before |
| Moves.Move.ExposeSafe | minesweeper.rb:334-345 | the non-bomb branch: the cell is exposed, the flood makes progress from there and exposes only cells it reaches from it, and the game is WON if won? holds |
| Moves.Move.Lose | minesweeper.rb:331-333 | all bombs are exposed and the status is LOST; nothing else changes |
| Moves.Move.ExposeCell | minesweeper.rb:335-338 | num_flags drops by one if the cell was flagged, the cell is exposed, num_exposed rises by one |
| Moves.Move.CheckWon | minesweeper.rb:341-344 | the status becomes WON exactly when won? holds, and the invariant is kept; when it is not WON the state is unchanged |
| Moves.Move.Win | minesweeper.rb:341-344 | status WON and every cell exposed; nothing else changes |
| Moves.Move.ExposeNeighbors | minesweeper.rb:370-378 | after exposing around an exposed EMPTY cell, that cell is no longer pending, the state only progressed, and every newly exposed cell is reached from that cell |
| Moves.Move.ExposeNeighbor | minesweeper.rb:373-375 | one offset of the flood loops: the neighbour is exposed if on the board and not the centre, and the loop invariant advances |
| Moves.Move.Flag | minesweeper.rb:349-354 | the board after flag is FlagResult of the board before |
| Moves.Move.Question | minesweeper.rb:356-358 | the board after question is QuestionResult of the board before |
| Moves.Move.Unmark | minesweeper.rb:360-366 | the board after unmark is UnmarkResult of the board before |
| Moves.Move.InitializeBombs | minesweeper.rb:380-400 | exactly num_bombs bombs are placed, none at or next to the exposed cell; every count is right and nothing else changes; first_expose is cleared |
| Moves.Move.Eligible | minesweeper.rb:385-392 | a draw passes the test of initialize_bombs exactly when it is below rows * columns and names a cell that is not a bomb and not next to the exposed cell |
| Moves.Move.PlaceOneBomb | minesweeper.rb:384-397 | one successful round of the loop adds a bomb and keeps its invariant |
| Moves.Move.IncrementNeighbors | minesweeper.rb:370-378 | with increment_cell, exactly the eight cells around the position are incremented |
| Moves.Move.IncrementNeighbor | minesweeper.rb:373-375 | one offset of the increment loops advances their invariant |
| Moves.Move.IncrementCell | minesweeper.rb:416-418 | an on-board cell is incremented, and an off-board call changes nothing |

## Left out

- `Game`, `Menu`, `Screen` and `integer_string?` are not modelled. They cover terminal input and output, prompts, screen clearing and the game loop.
- `Board#display` and its helpers (`bomb_counter`, `columns_numbers_line`, the borders) and the `skin` field are not modelled. They only render the board. `Cell#display` is modelled.
- `Cell#hide` is never called by the game and is not modelled.
- The cell symbol is modelled as a `Content` value: Empty, Number(n) or Bomb. `Symbol` maps it back to the string the Ruby code stores.
- The `method(function).call` dispatch is not modelled as written.
  - In `go` it becomes a match on the `Action` datatype.
  - In `apply_function_to_neighbors` it becomes two loops: `ExposeNeighbors` for `:expose` and `IncrementNeighbors` for `:increment_cell`. Each keeps the same loops and the same guard.
- Moves.Move.InitializeBombs: `Random#rand` is replaced by a nondeterministic choice of a draw that passes the `!neighbors? && !bomb?` test.
  - The draws the Ruby loop rejects change no state, so they are not modelled.
  - The loop's termination, which in Ruby holds only with probability one, is not modelled either.
  - The model proves that such a draw always exists.
- Moves.Move.constructor: it requires a freshly built board, which is the only kind `Game` ever passes. Ruby's `Move.new` accepts any board.
- Moves.Move.Expose: the `cell` argument is always `@board.cell(row, column)`. Both `go` and the recursive calls pass exactly that cell.
- Moves.Move.Expose: the `pending` parameter and the split into `ExposeSafe`, `ExposeCell`, `CheckWon`, `Lose` and `Win` exist only for the proof.
  - Likewise the loop bodies moved into `ExposeNeighbor`, `PlaceOneBomb` and `IncrementNeighbor`.
  - Each piece does exactly the lines of the Ruby method it cites.
- Moves.Move.Question: questioning a flagged cell does not lower `num_flags`, exactly as in the Ruby code. So the invariant only promises `num_flags >= |flagged cells|`, and `QuestionOnFlagMiscounts` shows the gap. The model keeps the program's behaviour rather than a corrected one.
- Ruby integers are arbitrary-precision, so unbounded Dafny integers model them without wrap-around.
