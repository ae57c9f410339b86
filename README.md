# Sudoku: the backtracking solver and the game logic, in Dafny

This project models the Sudoku program by Hezekiah Dacillo. It has two parts.

- **The solver** (`sudoku_solver.py`):
  - `find_empty_location` scans the 9x9 board row by row for its first 0 cell.
  - `valid_solution` checks that a number is not already in the row, column or 3x3 box of a cell. The cell itself does not count.
  - `solve` fills the first empty cell with 1..9 in ascending order, recurses, and writes 0 back when a branch fails.
  - `solved_board` runs `solve` and returns the same board.
- **The game logic behind the tkinter front end** (`sudoku_GUI.py`):
  - the board-file parser `SudokuBoard.create_board` and its three `SudokuError`s;
  - the game state `SudokuGame`: `start_puzzle`, `puzzle`, `game_over`, with `start` and `check_answer`;
  - the view handlers of `SudokuGameUI`:
    - `cell_clicked` maps a pixel to a cell and updates the selection;
    - `key_pressed` writes a digit;
    - `clear_answers` and `show_answers`.

## Files

| file | module | contents |
|---|---|---|
| `wrappers.dfy` | `Wrappers` | `Option`, `Result` |
| `sudoku_rules.dfy` | `SudokuRules` | The board as `seq<seq<int>>`. Units, conflicts, consistency and solutions. Proof that a solution's rows, columns and boxes each hold 1..9 exactly once, and the converse. |
| `search_spec.dfy` | `SearchSpec` | `SolveSpec`: the backtracking search as a function on values, with its search order. Its soundness, its completeness, and what it leaves in the board. |
| `sudoku_solver.dfy` | `SudokuSolver` | The solver as the program runs it: methods on a mutable `array2<int>`, each proved against `SearchSpec`. |
| `board_text.dfy` | `BoardText` | Python's `str.strip`, `str.split`, `str.isdigit` and `int` on ASCII text. The parser with its reference function `Parse`. |
| `sudoku_gui.dfy` | `SudokuGUI` | The board geometry. The classes `SudokuGame` and `SudokuGameUI`, whose methods update their fields as the Python methods do. |

## How the model follows the code

- **`solve` is a method on `array2<int>`.** It writes the candidate in place, recurses, and writes 0 back on failure.
  - Its contract ties the outcome to `SearchSpec.SolveSpec`, a recursive function on values that tries the same candidates in the same order.
  - On failure, the contract also says every cell is as it was.
  - The properties of the search are lemmas about `SolveSpec`:
    - what it fills and keeps;
    - when it succeeds;
    - which digit it keeps.
- **The parser is a method with the same loops and early exits as `create_board`.** Its result is specified by the function `BoardText.Parse`, and the lemma `ParseOutcomes` says when each error is raised.
- **`SudokuGame` and `SudokuGameUI` are classes.** Their fields are the Python attributes the handlers update.
  - Nested lists are modelled as `seq<seq<int>>` values, so `copy.deepcopy` is a value copy.
  - The solver's board is a fresh `array2<int>` (`SudokuGUI.DeepCopy`).

The model keeps these behaviours of the code, which are easy to miss:

- **Board values are any integers, not only 0..9.** The parser accepts any numeral, so a token such as `12` becomes 12. The solver handles any integers.
  - The theorems that need digits 0..9 say so in their `requires` (`SearchDecides`, `SolvedUnits`).
  - Completeness (`SearchFailsOnlyWithoutSolution`) and the rest hold for every board.
- **The search is not a consistency check.** It fails only when no solution keeps the given cells (`SearchFailsOnlyWithoutSolution`, with no consistency assumption).
  - The converse does not hold on an inconsistent board. A board with no 0, such as nine rows of 1s, is returned as solved without a write (sudoku_solver.py:14-16), yet no solution keeps its cells. In general the search may succeed and leave an inconsistent board.
  - "Succeeds if and only if a solution keeping the given cells exists" holds under `SearchDecides`'s requires: a consistent board of values 0..9.
- **`key_pressed` tests `event.char in '1234567890'`, which is a substring test.**
  - The empty character, which tkinter reports for modifier keys, passes it. `int('')` then raises before anything is written.
  - The model takes the key as a string. It returns `raised` for that case and changes nothing.
- **`show_answers` does not clear the selection.** After "Show answers" and then "Clear answers", a stale selection may point at a cell that is now given. The model keeps this behaviour. `SelectionEditable` is therefore an invariant of `CellClicked` and `KeyPressed`, not of `ShowAnswers`.

## Model

| member | source | states |
|---|---|---|
| SudokuRules.Conflicts | sudoku_solver.py:30-50 | The condition `valid_solution` rejects: some other cell in the row, column or 3x3 box of (r, c) holds n. `ValidSolution`'s contract is stated against it. |
| SudokuRules.Fill | sudoku_solver.py:22 | Writing d into cell p changes that cell to d and leaves the other 80 cells as they were. |
| SudokuRules.FillConsistent | sudoku_solver.py:20-23 | Writing a number with no conflict into an empty cell of a consistent board keeps the board consistent. |
| SudokuRules.Pigeonhole | sudoku_solver.py:20-25 | Nine pairwise distinct digits 1..9 cover every digit 1..9. |
| SudokuRules.SolutionUnits | sudoku_solver.py:20-25 | On a solved board, every row, column and box holds each digit 1..9 exactly once. |
| SudokuRules.UnitsSolution | sudoku_solver.py:30-50 | Conversely, a board whose rows, columns and boxes each hold 1..9 once is a solution: no digit conflicts in the sense of `valid_solution`. |
| SearchSpec.FirstEmpty | sudoku_solver.py:52-59 | None exactly when no cell is 0. Otherwise a cell holding 0 with no 0 before it in row-major order. |
| SearchSpec.FirstEmptyUnique | sudoku_solver.py:52-59 | The first empty cell in row-major order is unique. |
| SearchSpec.ZerosFill | sudoku_solver.py:22-24 | Filling an empty cell with a non-zero digit lowers the number of empty cells by exactly one, the measure under which `solve` terminates. |
| SearchSpec.SolveSpec | sudoku_solver.py:12-28 | `solve` as a function on values: a board with no 0 is its own result; otherwise the search of its first empty cell from candidate 1. `Solve`'s contract is stated against it, and the lemmas below say what it computes. |
| SearchSpec.TryFrom | sudoku_solver.py:20-28 | The candidate loop from d on: past 9 it fails; a candidate with no conflict whose branch succeeds gives that branch's result; otherwise the next candidate is tried. |
| SearchSpec.TryFromStep | sudoku_solver.py:20-27 | One step of the candidate loop: a candidate with no conflict whose branch succeeds gives the result; otherwise the search goes on with the next candidate. |
| SearchSpec.SolveSpecStart | sudoku_solver.py:14-20 | A board with an empty cell is searched at its first empty cell, from candidate 1. |
| SearchSpec.SolveSpecSound | sudoku_solver.py:12-28 | A search result keeps the given cells, fills every empty cell with 1..9, leaves no 0, and is consistent when the input was. |
| SearchSpec.TryFromSound | sudoku_solver.py:20-27 | The same for the search of one cell from candidate d on. |
| SearchSpec.SearchOutcome | sudoku_solver.py:12-28 | Given a search outcome and the board left behind: given cells kept; no 0 on success; a board with no 0 is solved unchanged; consistency kept. |
| SearchSpec.SolvedGrid | sudoku_solver.py:63-66 | What `solved_board` leaves in the board: `SolveSpec`'s result when the search succeeds, otherwise the board unchanged. `SolvedGridOutcome` says what that board is. |
| SearchSpec.SolvedGridOutcome | sudoku_solver.py:63-66 | The board `solved_board` leaves keeps the given cells. It has no 0 exactly when the search succeeds, and is the input unchanged otherwise. A full board is left as it is, consistency is kept, and solving it again changes nothing. |
| SearchSpec.AgreesNoConflict | sudoku_solver.py:30-50 | A digit taken from a solution that keeps the given cells passes the conflict check on the partial board. |
| SearchSpec.SolveSpecComplete | sudoku_solver.py:12-28 | If some solution keeps the given cells of the board, the search succeeds. |
| SearchSpec.TryFromComplete | sudoku_solver.py:20-27 | If a solution keeping the given cells has digit at least d in the cell searched, trying candidates from d succeeds. |
| SearchSpec.SearchFailsOnlyWithoutSolution | sudoku_solver.py:28 | The search fails only when no solution keeps the given cells. |
| SearchSpec.SearchDecides | sudoku_solver.py:12-28 | On a consistent board of values 0..9, the search succeeds if and only if a solution keeping the given cells exists, and its result is such a solution. |
| SearchSpec.SolvedUnits | sudoku_solver.py:20-25 | After a successful search of a consistent board of values 0..9, every row, column and box holds each digit 1..9 exactly once. |
| SearchSpec.FirstViable | sudoku_solver.py:20-25 | The smallest candidate from d on that passes the check and whose branch succeeds; no smaller one does. |
| SearchSpec.TryFromFirstViable | sudoku_solver.py:20-25 | Trying candidates in ascending order keeps the branch of the first candidate that works, and never tries a later one. |
| SearchSpec.SearchKeepsFirstViableDigit | sudoku_solver.py:14-27 | The search result is the completion from the smallest digit that works in the first empty cell, or failure when none works. |
| SudokuSolver.Rows | sudoku_solver.py:12 | The array as a board value, cell by cell. |
| SudokuSolver.RowsEqual | sudoku_solver.py:12 | An array holding the cells of a board holds that board. |
| SudokuSolver.FindEmptyLocation | sudoku_solver.py:52-59 | Returns the first cell holding 0 in row-major order, or None exactly when no cell holds 0. The result is `FirstEmpty` of the board. |
| SudokuSolver.ValidSolution | sudoku_solver.py:30-50 | True if and only if no cell other than position, in its row, column or box, holds number. |
| SudokuSolver.Solve | sudoku_solver.py:12-28 | The in-place search returns what `SolveSpec` gives for the input and leaves its result in the board. On failure every cell is as it was on entry. |
| SudokuSolver.SolvedBoard | sudoku_solver.py:63-66 | Returns the board it was given, which then holds `SolvedGrid` of the input. |
| BoardText.IsSpace | sudoku_GUI.py:26 | The whitespace that `str.strip` and `str.split` remove, on ASCII: space, `\t`..`\r` and `\x1c`..`\x1f`. |
| BoardText.Word | sudoku_GUI.py:26 | The leading run of non-space characters: a prefix of the text, ending at a space or at the end. |
| BoardText.Split | sudoku_GUI.py:26 | `str.split()`: every token is non-empty and has no whitespace. That the tokens are the maximal runs of the text in order is `SplitLayout` and `LayoutSplit`. |
| BoardText.SplitLayout | sudoku_GUI.py:26 | The text is the tokens of `Split` in order, with whitespace runs before, after and between them, and a non-empty run between each two tokens. |
| BoardText.LayoutSplit | sudoku_GUI.py:26 | Conversely, any tokens laid out in the text like that are `Split` of the text, so `Split` gives the only such sequence. |
| BoardText.SplitAtWord | sudoku_GUI.py:26 | A text that starts with a word splits into that word followed by the split of the rest. |
| BoardText.SplitSpacePrefix | sudoku_GUI.py:26 | Whitespace in front of a text does not change its split. |
| BoardText.TrimLeft | sudoku_GUI.py:26 | A suffix of the text that does not start with whitespace, with only whitespace removed before it. |
| BoardText.TrimRight | sudoku_GUI.py:26 | A prefix of the text that does not end with whitespace, with only whitespace removed after it. |
| BoardText.Strip | sudoku_GUI.py:26 | `str.strip()`: a slice of the text with only whitespace before and after it, which neither starts nor ends with whitespace. |
| BoardText.SplitStrip | sudoku_GUI.py:26 | Splitting after stripping gives the same tokens as splitting the raw line. |
| BoardText.SplitSpaced | sudoku_GUI.py:26 | Splitting tokens written out with spaces gives back exactly those tokens. |
| BoardText.IsDigits | sudoku_GUI.py:37 | `str.isdigit()` on ASCII: a non-empty token of the characters `0`..`9`. |
| BoardText.DecimalValue | sudoku_GUI.py:40 | `int(number)` on a numeral: the digits read in base 10, most significant first. `DecimalRoundTrip` shows it inverts `Decimal`. |
| BoardText.Decimal | sudoku_GUI.py:40 | `str(n)`, the numeral that `DecimalRoundTrip` reads back: digits only, with no leading zero unless n is 0. |
| BoardText.DecimalRoundTrip | sudoku_GUI.py:40 | `int(str(n)) == n`: the numeral of n reads back as n. |
| BoardText.RowResult | sudoku_GUI.py:29-41 | The outcome of checking one line's tokens: the row-length error unless there are 9, else the character error if one is not a numeral, else the 9 numbers in order. |
| BoardText.Parse | sudoku_GUI.py:23-53 | The outcome of `create_board`: the error of the first line that fails its check, else the row-count error unless there are 9 lines, else the board. `ParseOutcomes` states each case in terms of the lines. |
| BoardText.FirstBadFrom | sudoku_GUI.py:25-41 | The first line from n on that fails the length or digit check, or None exactly when every such line passes. |
| BoardText.BoardOf | sudoku_GUI.py:33-43 | Nine well-formed lines denote the 9x9 board whose cell (i, j) is the value of token j of line i. |
| BoardText.FirstBadLineUnique | sudoku_GUI.py:25-41 | There is at most one first bad line, and with one the lines are not all well formed. |
| BoardText.ParseOutcomes | sudoku_GUI.py:23-53 | Board returned iff there are 9 lines of 9 numerals. Row-length error iff the first bad line does not have 9 tokens. Character error iff it has 9 tokens and one is not a numeral. Row-count error iff every line is good but there are not 9. |
| BoardText.StripSplit | sudoku_GUI.py:26 | The tokens of `line.strip().split()` are those of the raw line. |
| BoardText.ParseRow | sudoku_GUI.py:29-41 | The row-length error unless there are 9 tokens; else the character error at the first token that is not a numeral; else the 9 values in order. |
| BoardText.CreateBoard | sudoku_GUI.py:23-53 | Returns exactly `Parse` of the lines: lines in order, count checked before characters, line count checked last. |
| SudokuGUI.OnBoard | sudoku_GUI.py:145 | The test `cell_clicked` applies to a click: the pixel lies strictly inside the frame, MARGIN away from every edge of the WIDTH x HEIGHT canvas. |
| SudokuGUI.CellAt | sudoku_GUI.py:145-150 | A pixel strictly inside the frame maps to a cell in 0..8 x 0..8 whose drawn square holds the pixel. |
| SudokuGUI.CellAtUnique | sudoku_GUI.py:112-126 | The drawn squares do not overlap: the cell CellAt names is the only one whose square holds the pixel. |
| SudokuGUI.DigitKeysText | sudoku_GUI.py:177 | The key set is the text "1234567890". |
| SudokuGUI.Occurs | sudoku_GUI.py:177 | `key in text` on strings: true iff key occurs in text at some index. |
| SudokuGUI.OccursInDigits | sudoku_GUI.py:177-178 | Every character of a key that occurs in a text of digits is a digit. |
| SudokuGUI.DigitKeyDigits | sudoku_GUI.py:177-178 | A key that passes the test is made of digits, so `int` of it is defined when it is not empty. |
| SudokuGUI.OccursSingle | sudoku_GUI.py:177 | A one-character key occurs in a text iff its character is one of the text's. |
| SudokuGUI.SingleKey | sudoku_GUI.py:177 | A one-character key passes the test iff it is a digit 0..9. |
| SudokuGUI.KeyValue | sudoku_GUI.py:178 | `int(key)`: for one character, its digit value. |
| SudokuGUI.DeepCopy | sudoku_GUI.py:69 | A fresh array holding the board. |
| SudokuGUI.SolvedCopy | sudoku_GUI.py:69 | `solved_board(copy.deepcopy(g))` is `SolvedGrid(g)`, and g itself is untouched. |
| SudokuGUI.SudokuGame.constructor | sudoku_GUI.py:59-61 | A game over a parsed board: the board file and start puzzle kept. The working copy is set to `[]` (Python leaves it unset until `start`) and the game is not over. |
| SudokuGUI.SudokuGame.Load | sudoku_GUI.py:59-61 | The parser's error, exactly when `Parse` fails. Otherwise a new game whose start puzzle is the parsed board. |
| SudokuGUI.SudokuGame.Start | sudoku_GUI.py:63-66 | The game is not over and the working copy equals the start puzzle, which is unchanged. |
| SudokuGUI.SudokuGame.CheckAnswer | sudoku_GUI.py:68-80 | True iff the working copy equals what the solver makes of the start puzzle. The game is then over; otherwise the flag is as before. Both puzzles are unchanged. |
| SudokuGUI.SudokuGameUI.constructor | sudoku_GUI.py:86-92 | The view of a started game, with no cell selected. |
| SudokuGUI.SudokuGameUI.CellClicked | sudoku_GUI.py:140-161 | Ignored when the game is over. A click off the board clears the selection. A click on the selected cell deselects it. A click on another cell selects it when it was empty in the start puzzle, and otherwise changes nothing. An editable selection stays editable. |
| SudokuGUI.SudokuGameUI.KeyPressed | sudoku_GUI.py:174-184 | Nothing changes when the game is over, nothing is selected, or the key fails the test. The empty key raises and changes nothing. Otherwise: the key's value is written into exactly the selected cell; the selection is cleared; the game is over iff the working copy is the solver's solution. Given cells are kept when the selection was editable. |
| SudokuGUI.SudokuGameUI.ClearAnswers | sudoku_GUI.py:196-199 | Restarts: the game is not over and the working copy is the start puzzle. |
| SudokuGUI.SudokuGameUI.ShowAnswers | sudoku_GUI.py:201-205 | The game is over. Both the working copy and the start puzzle become the solver's result for the old start puzzle. This result keeps the old given cells and is what `check_answer` accepts. |

## Left out

- Drawing and widgets are not modelled, because they hold no state the handlers read: `ui`, `draw_grid`, `draw_puzzle`, `draw_cursor`, `draw_victory`, and the canvas, tag and focus calls inside the handlers.
- `DifficultyPicker` and `set_difficulty` are not modelled. They are window and file plumbing, and the board file reaches `SudokuGame.Load` as its list of lines.
- `print_board` and the `print` calls in `create_board` and `check_answer` are console output only.
- `str.split`, `str.strip`, `str.isdigit` and `int` are modelled on ASCII only:
  - whitespace is space, `\t`..`\r` and `\x1c`..`\x1f`;
  - digits are `0`..`9`.
  Python also takes other Unicode whitespace and digits.
- `SudokuGame.constructor`: Python's `__init__` leaves `puzzle` and `game_over` unset until `start`. The model sets them to `[]` and false, and the view requires a started game.
- Python lists are modelled as values, so no aliasing between `puzzle`, `start_puzzle` and the solver's board is modelled. The code always copies before solving.
- The exception that `int('')` raises in `key_pressed` is modelled as the `raised` result. How tkinter reports it is not modelled.
- That the empty board has a solution, and so is solved, is not proved: it would need a concrete solved board. `SearchDecides` reduces the question to the existence of one.
- SudokuSolver.Solve: its contract gives only the `SolveSpec` outcome and the unchanged board on failure. What the filled board is (given cells kept, no 0, consistency kept) follows by `SearchSpec.SolvedGridOutcome` and is stated on `SolvedGrid` rather than on the method.
- SudokuSolver.SolvedBoard: likewise, its contract says the board holds `SolvedGrid` of the input, and `SolvedGridOutcome` says what that board is.
