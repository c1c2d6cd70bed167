# Sudoku game: rules, board state and backtracking solver

This project models the core of a small pygame Sudoku program (`sudoku_game.py`). The model covers:

- the board of 81 cells, each with a number (0 means blank) and the flags `editable`, `valid`, `selected` and `under_consideration`;
- the built-in puzzle the board is loaded from;
- the legality test `is_valid` and the whole-board flagging `validate_board`;
- the user's edits (`set_number`, `delete`), the keyboard and mouse selection (`move_selected_cell`, `set_selected_cell`, `get_cell`);
- the recursive backtracking solver (`solve_sudoku`, `solve_sudoku_helper`).

Modules:

- `SudokuRules` (rules.dfy) holds the rules over a pure grid of numbers:
  - peers of a cell, legality, the valid flag, consistency and being solved;
  - the characterisation of legality by column, row and box;
  - the fact that a solved grid holds every digit once in each row, column and box.
- `SudokuSearch` (search.dfy) holds the backtracking search as a function of the grid. It is the reference the solver method is proved against:
  - `Search` visits cells in row-major order.
  - `Attempt` is one pass of the candidate loop.
  - `TryFrom` is the candidate loop from a given candidate onward.
  - The module also proves soundness and completeness, and shows that a full grid is left untouched.
- `SudokuPuzzle` (puzzle.dfy) holds the built-in puzzle and a completion of it. With these it proves that the search succeeds on the puzzle and returns a solved grid.
- `Geometry` (geometry.dfy) maps a pixel coordinate to a cell index. It also holds the code-as-written model of the click handling and the discrepancy it shows.
- `SudokuGame` (game.dfy) holds `class Game`:
  - Its state is five parallel `array2` fields, one per cell attribute, plus the optional selected coordinate.
  - The class invariant `Valid()` says that exactly the puzzle's blanks are editable and that givens keep the puzzle's numbers. It also says that a cell flagged `selected` is the selected cell and that no cell is under consideration between actions.
  - The methods mirror the source's loops, early returns and recursion. The solver methods, `IsValid`, `ValidateBoard` and `Solve` are proved against the pure functions above. `SetNumber`, `Delete`, `MoveSelectedCell` and `SetSelectedCell` state their effect on the arrays cell by cell against the old contents.

Two behaviours of the code that the model keeps:

- A failed candidate is reset to 0 right after it fails (line 228), not only after all nine candidates have failed. So a failing `solve_sudoku_helper` leaves every number exactly as it found it; no number of a failed attempt remains. `SudokuGame.Game.SolveHelper` states this as `!ok ==> Numbers() == old(Numbers())`.
- `solve_sudoku` ignores the helper's result. `SudokuGame.Game.Solve` likewise drops it, and proves that on this puzzle the board always ends solved.

To keep the proofs small, the solver's loop body is split into helper methods. `TryCandidate` is one pass of the `for candidate` loop. Inside it, `PlaceCandidate` covers lines 208-212, `Descend` covers lines 216-224 and `Retract` covers lines 225-228. The statements are the source's own, in the same order.

## Model

| member | source | states |
|---|---|---|
| SudokuRules.LegalCharacterisation | sudoku_game.py:232-246 | a number is illegal at a cell exactly when it occurs elsewhere in the column, elsewhere in the row, or in another cell of the 3x3 box whose origin is (row / 3 * 3, col / 3 * 3); both directions |
| SudokuRules.LegalIgnoresOwnCell | sudoku_game.py:234-243 | whatever the cell itself holds never affects whether a number is legal there |
| SudokuGame.Game.IsValid | sudoku_game.py:232-246 | the column/row scan and box scan return true exactly when the number is legal at the cell (no peer holds it); no modifies clause, so the board is only read |
| SudokuGame.Game.ValidateBoard | sudoku_game.py:87-94 | afterwards every blank cell is flagged valid and every other cell's flag is its number's legality; only the valid flags may change |
| SudokuRules.ConsistentIffAllValid | sudoku_game.py:87-94 | every cell is flagged valid exactly when no non-zero number repeats in a row, a column or a box |
| SudokuRules.SolvedHasEveryDigit | sudoku_game.py:194-230 | a grid whose cells all hold legal digits contains every digit in every row, column and box |
| SudokuRules.Place | sudoku_game.py:209 | writing a number into a cell changes that cell and no other |
| SudokuRules.Next | sudoku_game.py:199-205 | the next cell in row-major order is on the board one position further on; the measure behind termination |
| SudokuSearch.Search | sudoku_game.py:194-205 | a grid the search returns is a 9x9 grid; a filled cell is skipped, reaching (8, 8) succeeds |
| SudokuSearch.TryFrom | sudoku_game.py:207-230 | the candidate loop; the first candidate whose attempt succeeds decides, nine failures give no grid |
| SudokuSearch.Attempt | sudoku_game.py:208-224 | one candidate: placed, checked, then the last cell succeeds at once or the search goes on from the next cell |
| SudokuSearch.HasEmptyFromNext | sudoku_game.py:199-205 | skipping a filled cell loses no blank: blanks remain from it exactly when they remain from the next cell |
| SudokuSearch.SearchSound | sudoku_game.py:194-230 | a successful search keeps every given and every earlier cell, and fills every blank from (row, col) on with a digit 1..9 that is legal in the final grid |
| SudokuSearch.TryFromSound | sudoku_game.py:207-230 | the same soundness for the candidate loop from any candidate |
| SudokuSearch.SearchComplete | sudoku_game.py:194-230 | if any completion exists the search succeeds |
| SudokuSearch.TryFromComplete | sudoku_game.py:207-230 | the candidate loop succeeds when started at or below a completion's digit |
| SudokuSearch.SearchSucceedsIff | sudoku_game.py:194-230 | the search succeeds exactly when a completion exists |
| SudokuSearch.PlacedStaysLegal | sudoku_game.py:212-224 | a legal candidate stays legal once the later cells are completed |
| SudokuSearch.SearchOfFullGrid | sudoku_game.py:199-205 | with no blank left from (row, col) on, the search succeeds and returns the grid unchanged |
| SudokuSearch.CompletionIsSolved | sudoku_game.py:190-192 | a completion from the first cell of a grid whose givens are legal digits is solved |
| SudokuRules.LegalInAgreeingGrid | sudoku_game.py:232-246 | legality of a number survives removing other numbers from the grid |
| SudokuPuzzle.SolutionCompletesPuzzle | sudoku_game.py:32-79 | the built-in puzzle has a completion that is solved |
| SudokuPuzzle.PuzzleGivensLegal | sudoku_game.py:32-79 | every given of the built-in puzzle is a digit that is legal where it stands |
| SudokuPuzzle.PuzzleSolvable | sudoku_game.py:32-79 | the search from (0, 0) succeeds on the built-in puzzle and its result keeps the givens and is solved |
| SudokuGame.Game.constructor | sudoku_game.py:26-30 | a new game has no selection, the puzzle's numbers, editable exactly at blanks, every cell valid and unselected |
| SudokuGame.Game.ResetBoard | sudoku_game.py:7-13 | every cell reloaded as a fresh cell of the puzzle: its number, editable exactly when 0, valid, not selected, not under consideration |
| SudokuGame.Game.SetNumber | sudoku_game.py:163-171 | only the selected cell's number changes, and only when it is editable; nothing changes without a selection; the class invariant is kept |
| SudokuGame.Game.Delete | sudoku_game.py:173-176 | clears the selected cell when it is editable and changes nothing else |
| SudokuGame.Game.MoveSelectedCell | sudoku_game.py:178-188 | an on-board target becomes the selection with its flag set and the old cell's flag cleared; otherwise nothing changes |
| Geometry.GetCell | sudoku_game.py:157-161 | returns the cell whose 80-pixel span holds the coordinate, or -1 exactly when no span holds it |
| Geometry.SpansDisjoint | sudoku_game.py:24 | the spans around the cell centres never overlap, so the cell found is the only one |
| Geometry.SelectAsWritten | sudoku_game.py:148-155 | as written, the stored selection is get_cell's pair unchecked, and the flagged cell equals it only when neither index is -1 |
| Geometry.GridLineClickFlagsBottomRow | sudoku_game.py:148-161 | a click on the line between rows 0 and 1 lies on no cell, yet as written stores row -1 and flags cell (8, 0) |
| SudokuGame.Game.SetSelectedCell | sudoku_game.py:148-155 | corrected: a click inside a cell selects it, clears the old flag and sets the new one; a click on no cell changes nothing |
| SudokuGame.Game.SolveHelper | sudoku_game.py:194-230 | the result and final numbers are those of Search on the starting numbers; failure leaves every number unchanged and the starting cell not under consideration, and on an empty starting cell leaves the valid flags computed with candidate 9 in place; no new cell is left under consideration; success after filling a cell leaves the valid flags current |
| SudokuGame.Game.TryCandidate | sudoku_game.py:208-228 | one candidate pass gives Attempt's result and numbers; failure restores the numbers, leaves the valid flags computed with the candidate still in place, and leaves the cell under consideration for the next pass |
| SudokuGame.Game.PlaceCandidate | sudoku_game.py:209-212 | writes the candidate, validates the board, and reports the candidate's legality |
| SudokuGame.Game.WriteNumber | sudoku_game.py:209 | the cell write of lines 209 and 228: the numbers become the grid with that one cell replaced |
| SudokuGame.Game.Descend | sudoku_game.py:216-224 | releases the cell and runs the search from the next cell, with Search's result and numbers |
| SudokuGame.Game.Retract | sudoku_game.py:225-228 | marks the cell under consideration, sets every valid flag from the numbers as they stand before the cell is cleared, then clears the cell; no other cell's under_consideration flag changes |
| SudokuGame.Game.Solve | sudoku_game.py:190-192 | reloads the puzzle and ends with the numbers Search finds on it, a solved board that keeps the givens, valid flags current, no cell flagged selected while the stored selection is kept, and the class invariant kept |

## Left out

- Rendering: pygame set-up, fonts, colours, `WIDTH`, `draw_lines`, `draw_numbers`, `draw_number`, `color_border` and `display.flip`. These are foreign library calls. `draw_board` is modelled by its `validate_board` call only, inside the solver.
- `time.sleep` in the solver. It is timing only.
- The `main` event loop and the key-code mapping. These are I/O and event dispatch. The operations they call are modelled.
- `get_board` builds fresh `Cell` objects and rebinds the board. The model rewrites the five arrays in place instead. No other reference to the old cells exists, so no aliasing is lost.
- SudokuGame.Game.SolveHelper: after a failed search that starts on a filled cell, the valid flags are not specified. The source leaves them as the last `validate_board` deeper in the search computed them, for a candidate that was then cleared. For a failed search that starts on an empty cell they are specified.
- SudokuGame.Game.Descend: after a failed descent, the valid flags are not specified, for the same reason as for `SolveHelper`. The descent starts on the next cell, which may be filled.
- SudokuGame.Game.Solve: it requires the class invariant, whereas the source has no precondition. The invariant holds from construction on and every operation keeps it.
- SudokuGame.Game.SetSelectedCell models the corrected behaviour. The code as written is `Geometry.SelectAsWritten` (see Findings).

## Findings

| source | as written | input that shows it | evidently intended | confidence | as-written member | corrected member |
|---|---|---|---|---|---|---|
| sudoku_game.py:148-161 | `get_cell` returns -1 for a coordinate on a grid line. `set_selected_cell` stores the -1 and sets the flag through Python's negative indexing. | A click at x = 40, y = 80 stores selection (-1, 0) and flags cell (8, 0) in the bottom row. A later `set_number` then writes into row 8 as well. | A click that lies on no cell leaves the selection as it was. | not executed | Geometry.GridLineClickFlagsBottomRow | SudokuGame.Game.SetSelectedCell |
