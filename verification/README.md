# Sudoku engine model

A Dafny model of the puzzle engine in `script.js` of the Sudoku game. The engine
has these parts:

- **Generator.** A randomized backtracking search (`solveSudoku`) fills an all-zero
  9×9 grid (`generateSolvedSudoku`). It visits cells in row-major order. It tries the
  digits 1..9 in a Fisher–Yates-shuffled order (`shuffle`) and checks each with the
  placement rule (`isValid`). A placement is reset to 0 when the search below it fails.
- **Carver.** Inside `createBoard`, the carver clones the solution and zeroes 35, 45,
  55 or 40 distinct non-zero cells, depending on the difficulty. The cells still
  non-zero afterwards are rendered as fixed clues.
- **Validation.** The number-button handler writes the digit into a selected cell that
  is not fixed. A digit that differs from the retained solution is flagged and stays
  on the board. Only after a correct digit does the handler ask `isSolved` whether
  the whole grid is complete and correct. Only when it is not does it run
  `checkSubgridCompletion` to look for a complete and correct block.
- **Related cells.** `highlightRelatedCells` highlights the cells that share a row,
  column or block with the selected cell.

The model uses value semantics. A board is a `seq<seq<int>>` with 0 for an empty
cell, and every operation returns the board it leaves behind. The undo step of the
backtracking is modelled as written. When the recursive call fails, the candidate
loop resets the cell to 0 on the board that call returned. The postcondition "on
failure the board is exactly as on entry" rests on that reset.

In the generator, `Math.random()` is an oracle `rng: nat -> real`, read at a cursor
`k`. Every draw lies in [0, 1). `shuffle` consumes one draw per swap, and `Shuffle`,
`Solve`, `FillCell` and `GenerateSolved` each return the cursor they leave. The
carver's random cell choice is not drawn from the oracle: it is a free choice of any
non-zero cell. So the cursor `NewGame` returns is the one generation left.

Modules:
- `Grid`: board, cells, empty and non-zero cell sets.
- `Rules`: placement check, related cells, conflict freedom, the permutation property.
- `Generator`: `shuffle`, `solveSudoku`, `generateSolvedSudoku`.
- `Carver`: the difficulty table and the removal loop.
- `Validation`: `isSolved` and `checkSubgridCompletion`.
- `Session`: the game state and the event handlers.

Points where the code's behaviour is easy to misread:
- `checkSubgridCompletion` stops scanning a block at its first empty cell. Its
  `correct` flag therefore describes the whole block only when `complete` holds, and
  the block message needs both.
- `generateSolvedSudoku` ignores what `solveSudoku` returns.
- The block corner is computed as `Math.floor(i / 3) * 3`. For indices 0..8 this
  equals `i - i % 3`.

## Model

| member | source | states |
|---|---|---|
| `Rules.IsValid` | script.js:44-60 | returns true exactly when the digit occurs neither in the row, nor in the column, nor in the 3×3 block whose corner is `floor(r/3)*3, floor(c/3)*3` |
| `Rules.BlockStart` | script.js:50-51 | the block corner is a multiple of 3 and lies in the three indices ending at or after the given index |
| `Rules.CanPlaceIffNoRelatedHolds` | script.js:44-60 | the placement check accepts a digit exactly when no cell related to (row, col) holds it |
| `Rules.PlaceKeepsNoConflicts` | script.js:28-29 | on a conflict-free board, writing a non-zero digit into an empty cell keeps the board conflict-free if and only if the placement check accepts it |
| `Rules.FullConflictFreeIsSolution` | script.js:22-41 | a full, conflict-free grid of digits has every row, column and block a permutation of 1..9 |
| `Rules.RelatedReflexive` | script.js:146 | every cell is related to itself |
| `Rules.RelatedSymmetric` | script.js:146 | relatedness is symmetric |
| `Generator.SwapIndex` | script.js:65 | the Fisher–Yates swap index `floor(x * (i + 1))` for a draw in [0, 1) lies in [0, i] |
| `Generator.Shuffle` | script.js:63-69 | the result is a permutation (same multiset, same length) of the input and uses one draw per swap |
| `Generator.Solve` | script.js:22-41 | on success the board has no empty cell, keeps every cell that was non-zero on entry, stays conflict-free if it started so, and keeps digits in 0..9; on failure it is exactly the board it received |
| `Generator.FillCell` | script.js:25-36 | trying the shuffled candidates at an empty cell with undo on failure: success fills the board keeping the given cells and conflict freedom; failure returns the entry board unchanged |
| `Generator.GenerateSolved` | script.js:15-19 | the result is a conflict-free grid of digits that is either full (and then every row, column and block is a permutation of 1..9) or the untouched empty grid |
| `Carver.CellsToRemove` | script.js:77-90 | the removal count of every difficulty lies between 35 and 55 |
| `Carver.RemovalTable` | script.js:78-90 | easy removes 35 (46 clues), medium 45 (36 clues), hard 55 (26 clues), anything else 40; harder levels remove more |
| `Carver.RemoveCells` | script.js:93-100 | each round zeroes one distinct non-zero cell: the non-zero cells shrink by exactly the count, stay a subset of the solution's, and every non-zero cell equals the solution |
| `Carver.RestoreRoundTrip` | script.js:93-100 | filling the zeros of a carved board from the solution gives the solution back, exactly when every non-zero cell agrees with it |
| `Carver.Carve` | script.js:74-100 | from a full solution exactly `CellsToRemove(difficulty)` cells end up empty and 81 minus that many remain as clues, all equal to the solution, and restoring the zeros gives the solution back |
| `Validation.IsSolved` | script.js:222-231 | returns true exactly when every cell is non-zero and equals the solution |
| `Validation.CheckBlock` | script.js:195-209 | `complete` holds exactly when no cell of the block is empty; when complete, `correct` holds exactly when the block equals the solution |
| `Validation.CheckSubgridCompletion` | script.js:192-218 | reports exactly the block corners whose nine cells are all non-zero and equal to the solution |
| `Validation.SolvedIffEqual` | script.js:222-231 | against a full solution, the board is solved exactly when it equals the solution |
| `Validation.SolvedIffNoEmpties` | script.js:222-231 | while every filled cell agrees with a full solution, the board is solved exactly when no cell is empty |
| `Validation.FillOneCell` | script.js:167-169 | writing the solution value into an empty cell keeps the agreement and leaves one empty cell fewer |
| `Validation.OneWrongCell` | script.js:169-178 | a solution with one wrong cell is not solved, and writing the right value back solves it |
| `Validation.SolvedIffAllBlocks` | script.js:192-231 | the board is solved exactly when all nine blocks are complete and correct |
| `Session.NewGame` | script.js:72-102 | a new game has a Sudoku solution and a carved board consistent with it. The fixed cells are exactly the board's non-zero cells, 81 minus the removal count of them. Restoring the zeros gives the solution. The game starts with no selection (corrected, see Findings) |
| `Session.NewGameKeepingSelection` | script.js:72-104 | as written: the new game keeps the previously selected element with its old clue flag. Its solution is a full Sudoku solution, every clue equals the solution, and restoring the zeros gives the solution; the game is consistent exactly when the kept flag matches the new clue set |
| `Session.StaleSelectionOverwritesClue` | script.js:161-169 | a stale selection whose element was editable, on a cell that is now a clue, lets a wrong digit overwrite the clue; the game is then inconsistent and the board is not solved |
| `Session.StaleOverwriteIsPermanent` | script.js:126-169 | after the overwrite, once the player clicks any cell, no run of clicks and number presses changes the wrong clue again, so the board is never solved |
| `Session.Selected` | script.js:126-132 | a click makes the clicked cell the selection, with this game's clue flag, and changes neither board, solution nor clues |
| `Session.Play` | script.js:126-169 | a run of clicks and number presses keeps the solution and the clue set; when the selection belongs to the game, every clue cell keeps its value |
| `Session.SelectCell` | script.js:126-137 | any cell becomes the selection, carrying this game's clue flag, without touching the board; only a cell that is not fixed gets its related cells highlighted; consistency is kept |
| `Session.RelatedCells` | script.js:140-151 | the highlighted set is exactly the cells sharing the row, column or block of the selected cell |
| `Session.Entered` | script.js:161-167 | the digit is written only into an editable selected cell and no other cell changes. When the selection belongs to the game, no clue is ever written, and consistency is kept |
| `Session.EnterNumber` | script.js:159-189 | the press is ignored, and nothing changes, exactly when there is no editable selection. An error is flagged exactly when the digit differs from the solution, and the digit stays on the board. A correct digit reports the solved board when the board equals the solution, else a completed block exactly when some block is complete and correct, else it just clears the message. Consistency is kept |

## Findings

| source | as written | input that shows it | evidently intended | confidence | as-written member | corrected member |
|---|---|---|---|---|---|---|
| script.js:72-104 | `createBoard` redraws the board but never clears `selectedCell`. The number handler then still writes through the detached element of the previous game, and it decides "fixed" from that element's old class | select an empty cell, start a new game in which that cell is a clue, press a digit different from the clue | a new game starts with no selection, so clues stay immutable for the puzzle's lifetime | medium, not executed | `Session.StaleSelectionOverwritesClue` | `Session.NewGame` |

## Left out

- DOM work: element lookup, `innerHTML`, cell elements, CSS classes, event wiring, `clearHighlights` and the message texts. They are replaced by the `Game` state and the `Feedback` value.
- `Math.random`: in the generator, replaced by an oracle argument whose draws lie in [0, 1); in the carver, replaced by a free choice (see `Carver.RemoveCells`). The uniformity of the shuffle and of the cell choice is not modelled.
- `Carver.RemoveCells`: the rejection-sampling `do…while` is modelled as a free choice of any non-zero cell. Its termination cannot be shown with a real random source. The precondition asks for at least as many non-zero cells as the removal count.
- `Generator.GenerateSolved`: does not promise that the search always succeeds. Proving that needs an existence argument for solved grids. The contract says "full or the empty grid", not "full".
- `Session.NewGame`: returns None when the generated grid is not full. In that case the source's removal loop would never end.
- Uniqueness of the carved puzzle: the code does not check it.
- The deep clone `JSON.parse(JSON.stringify(...))`: a value copy.
- Coordinates read from `dataset` strings and `parseInt`: modelled as integers, as are the loose `==` comparisons in `highlightRelatedCells`.
