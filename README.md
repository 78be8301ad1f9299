# Sudoku engine and answer checker, modelled in Dafny

This project models two parts of the Sudoku web game:

- **The puzzle engine of `sudoku/utils.py`**:
  - the placement check `is_valid`;
  - the finished-grid validator `is_valid_complete_grid`;
  - the in-place backtracking solver `solve_sudoku`;
  - the generator `generate_sudoku` (seed, solve, carve);
  - the `DIFFICULTY_LEVELS` table.
- **The answer-grading part of `check_puzzle` in `sudoku/views.py`**, from the input validation to the end of the alternative-solution block:
  - the validation of the submitted cells;
  - the P/C/W/N status of each cell (pre-filled, correct, wrong, not attempted);
  - the `cell_stats` counters;
  - the error rows, columns and boxes;
  - the `correct` and `grid_complete` flags;
  - the block that accepts a different valid solution.

The files:

- `rules.dfy` (module `SudokuRules`) holds the rules of Sudoku that everything is proved against:
  - a grid is a `seq<seq<int>>` with 0 for an empty cell;
  - peers and conflict-freedom, `CanPlace`, valid solutions and completions;
  - the row, column and box groups;
  - carving.
- `engine.dfy` (module `SudokuEngine`) holds the engine.
  - The solver and the generator change a 9x9 `array2<int>` in place, as the Python code changes its list of lists.
  - The ghost function `Cells` reads that array as a grid.
  - The random draws of the generator are explicit parameters: a sequence of (row, column, digit) picks and an ordering of the 81 cells.
  - `Seeded` says what the seeding step does with a given sequence of picks: seed by seed, it places the first pick whose cell is empty and whose digit `is_valid` allows, looking at no more than 100 picks, and places nothing when the 100 retries are used up.
- `dead_end.dfy` (module `SeedingDeadEnd`) gives explicit draws under which the seeding step leaves a grid that has no solution.
- `grading.dfy` (module `PuzzleCheck`) holds the grading code:
  - the grading loop is imperative;
  - the form data is a map from (row, column) to the submitted string;
  - the loop is proved against a set-based description of what it computes (`Graded`).
- `grading_facts.dfy` (module `GradingFacts`) proves what the grading means:
  - the counts add up;
  - the flags agree with the counts;
  - each status letter means what its name says;
  - which answers the check accepts, with the alternative-solution condition as written and corrected.

The solver's contract has four parts:

- it keeps every given;
- it restores the grid when it fails;
- it leaves no empty cell when it succeeds;
- when it succeeds on a grid in play (values 0..9, no two peers equal), the result is a valid solution;
- it reports failure only when the grid has no completion at all.

`generate_sudoku` ignores the solver's result (utils.py:317). The model keeps that behaviour: `GenerateSudoku` reports what holds in both cases. The failing case can really happen:

- `SeedingDeadEnd.SeedingReachesDeadEnd` gives explicit picks under which the seeding step builds a grid with no solution.
- Nine seeds are placed at their first pick. The last two seeds then meet only a filled cell for 101 picks each and are dropped.
- The grid left is conflict-free, but its cell (0, 0) has no candidate digit.
- With those picks, `GenerateSudoku`'s contract rules out a successful solve, so the grid it carves is that unsolvable grid.

## Model

| member | source | states |
|---|---|---|
| SudokuEngine.IsValid | sudoku/utils.py:96-120 | reads the grid only and returns true exactly when `num` is absent from the row, the column and the 3x3 box of (row, col) (`CanPlace`) |
| SudokuRules.CanPlaceIffNoPeerHolds | sudoku/utils.py:96-120 | the placement check holds exactly when `num` is neither in the cell nor in any cell sharing its row, column or box |
| SudokuEngine.IsValidCompleteGrid | sudoku/utils.py:155-188 | returns true exactly when the grid is 9 rows of 9 cells, every cell is in 1..9 and no two cells of a row, column or box are equal |
| SudokuEngine.CollectBox | sudoku/utils.py:179-182 | the box list holds the nine cells of the box with the given top-left corner, row by row |
| SudokuRules.DistinctIffCard | sudoku/utils.py:165-167 | a list has as many distinct values as entries (`len(set(row)) == 9`) exactly when no value repeats |
| SudokuRules.ConflictFreeIffGroupsDistinct | sudoku/utils.py:165-188 | for a grid of digits 1..9, every row, column and box being duplicate-free is the same as no two peer cells being equal |
| SudokuEngine.Solve | sudoku/utils.py:230-252 | keeps every non-zero cell; on false leaves the grid exactly as on entry, and then no completion of the entry grid exists; on true no cell is 0, and a conflict-free entry grid with values 0..9 ends as a valid solution |
| SudokuEngine.TryDigits | sudoku/utils.py:233-249 | trying 1..9 in the first empty cell with placement check, recursion and reset to 0 has the same contract as the solver |
| SudokuRules.CompletionValueFits | sudoku/utils.py:235-249 | any completion puts a digit 1..9 in an empty cell that the placement check accepts there, so trying every accepted digit misses no solution |
| SudokuRules.PlaceKeepsConflictFree | sudoku/utils.py:236-238 | writing a digit the placement check accepts into an empty cell keeps the grid conflict-free |
| SudokuRules.PlaceFillsZero | sudoku/utils.py:238 | writing a non-zero digit into an empty cell removes exactly that cell from the empty cells |
| SudokuRules.PlaceStep | sudoku/utils.py:313-314 | placing a seed keeps the grid in play and every earlier digit, and adds exactly one filled cell |
| SudokuEngine.SeedGrid | sudoku/utils.py:295-314 | the grid afterwards is `Seeded` of the grid before: for each of the 11 seeds, the first acceptable pick among its first 100 is placed, or nothing once 100 retries are spent; the grid stays conflict-free with values 0..9, keeps every filled cell and gains at most 11 filled cells |
| SudokuEngine.PlantSeed | sudoku/utils.py:298-314 | one pass of the seeding loop changes the grid exactly as `SeedOnce` says and returns the index of the first unused pick |
| SudokuEngine.DrawSeed | sudoku/utils.py:298-313 | the redraw loop stops at the pick `SeedOnce` places, which is acceptable (empty cell, digit allowed by `is_valid`), or reports that the seed is dropped; the returned index is the one `SeedOnce` gives |
| SudokuEngine.SeedOnceTakesFirst | sudoku/utils.py:298-314 | a seed places the first acceptable pick among its first 100 and uses the picks up to and including it |
| SudokuEngine.SeedOnceSkips | sudoku/utils.py:304-314 | a seed whose first 100 picks are all refused places nothing, even when its 101st pick is acceptable, and uses 101 picks |
| SudokuEngine.AttemptKeepsProper | sudoku/utils.py:304-314 | a seed keeps a conflict-free grid with values 0..9 conflict-free and keeps every filled cell |
| SudokuEngine.AttemptCount | sudoku/utils.py:313-314 | a seed fills at most one more cell |
| SudokuEngine.SeededKeepsProper | sudoku/utils.py:295-314 | seeding keeps a conflict-free grid with values 0..9 conflict-free and keeps every filled cell |
| SudokuEngine.SeededCount | sudoku/utils.py:295-314 | seeding adds at most one filled cell per seed |
| SudokuEngine.CarveGrid | sudoku/utils.py:321-328 | the grid afterwards is the grid before with exactly the cells of `order[:empty_cells]` (Python slice rules) set to 0 |
| SudokuRules.CarveCount | sudoku/utils.py:321-328 | zeroing distinct cells of a full grid leaves exactly those cells empty, as many as there are cells |
| SudokuRules.CarvedKeepsProper | sudoku/utils.py:327-328 | zeroing cells keeps a grid conflict-free |
| SudokuRules.CarvedFromSolution | sudoku/utils.py:327-328 | a valid solution with cells zeroed is a puzzle that this solution completes |
| SudokuEngine.GenerateSudoku | sudoku/utils.py:290-330 | returns a fresh conflict-free 9x9 grid that is the seeded-and-solved grid carved at `order[:empty_cells]`; when the solve succeeded, that grid is a valid solution completing the puzzle and, for 0..81, the puzzle has exactly `empty_cells` zeros; when it failed, the grid holds at most 11 seeds and has no completion; the grid before carving extends `Seeded` of the empty grid, is a valid completion of it when the solve succeeded, and is exactly it when the solve failed |
| SeedingDeadEnd.SeedsCanLeaveNoSolution | sudoku/utils.py:317 | a conflict-free grid with at most 11 givens can have no completion |
| SeedingDeadEnd.SeedingReachesDeadEnd | sudoku/utils.py:291-317 | for one explicit sequence of enough in-range picks, seeding the empty grid gives that grid, so no completion exists and the ignored solver result is false |
| SeedingDeadEnd.DeadEndPickStep | sudoku/utils.py:305-314 | each of the nine picks is acceptable on the grid holding the picks before it, and placing it gives the grid holding one more |
| SudokuEngine.DifficultyRangesFitGrid | sudoku/utils.py:51-56 | every difficulty range is non-empty and lies within 0..81 empty cells |
| SudokuRules.BoxIndex | sudoku/views.py:1049 | `(i // 3) * 3 + j // 3` is in 0..8, with row of boxes `i // 3` and column of boxes `j // 3` |
| SudokuRules.BoxIndexIdentifiesBox | sudoku/views.py:1049 | two cells get the same box index exactly when they lie in the same 3x3 box |
| PuzzleCheck.AcceptedDigitStrings | sudoku/views.py:1011-1015 | a digit string passes the range check exactly when it is one digit 1..9 after any number of leading zeros |
| PuzzleCheck.ValidateInputs | sudoku/views.py:1001-1024 | the validation errors hold exactly the empty puzzle cells whose non-empty entry is not a digit string with value 1..9, each with the refused entry; pre-filled cells are never checked |
| PuzzleCheck.NoErrorsIffInputsValid | sudoku/views.py:1027-1035 | the check goes on past validation exactly when every empty cell's entry is acceptable |
| PuzzleCheck.EmptyTally | sudoku/views.py:973-984 | before the loop the counters are 0, the error sets empty and both flags true |
| PuzzleCheck.GradeCell | sudoku/views.py:1044-1100 | one cell's entry for input_grid, its status letter, and the counters, error sets and flags with that cell counted |
| PuzzleCheck.TallyStep | sudoku/views.py:1038-1100 | counting one more cell in row-major order raises only the count of its status, adds its row, column and box to the error sets exactly when it is W or N, and clears `correct` at W or N and `grid_complete` at N |
| PuzzleCheck.GradeRow | sudoku/views.py:1041-1100 | the inner loop builds row i of input_grid and of user_input_status and counts that row's cells |
| PuzzleCheck.Grade | sudoku/views.py:1038-1116 | input_grid and user_input_status hold each cell's entry and status; each counter is the number of cells with its status; the error sets are exactly the rows, columns and boxes of the W and N cells; `correct` holds exactly when no cell is W or N and `grid_complete` exactly when none is N |
| GradingFacts.CountsAddUp | sudoku/views.py:1038-1100 | over the first k cells in row-major order the four counters add up to k |
| GradingFacts.GradedCountsAddUp | sudoku/views.py:1038-1100 | correct + wrong + empty + prefilled is 81 |
| GradingFacts.GradedFlags | sudoku/views.py:1067-1092 | `correct` holds exactly when the wrong and empty counts are 0, `grid_complete` exactly when the empty count is 0, and each error set is empty exactly when `correct` holds |
| GradingFacts.StatusMeaning | sudoku/views.py:1052-1100 | with the inputs accepted: P exactly for pre-filled cells, which keep the puzzle's value; N exactly for empty cells left blank, stored as 0; C and W cells hold 1..9, C exactly when the entry equals the stored solution |
| GradingFacts.EntriesKeepGivens | sudoku/views.py:1052-1100 | input_grid keeps every pre-filled value, and its zeros are exactly the N cells |
| GradingFacts.GradedCorrectIffSolution | sudoku/views.py:1052-1087 | for a stored solution that completes the puzzle, `correct` holds after the loop exactly when input_grid is that solution |
| GradingFacts.CompletionHasNoGaps | sudoku/views.py:1080-1087 | an input_grid that is a valid solution leaves `grid_complete` true |
| PuzzleCheck.AcceptAlternative | sudoku/views.py:1118-1131 | the block turns every W into C, moves the wrong count into the correct count, empties the error sets and sets `correct` and the alternative flag |
| GradingFacts.AcceptedCounts | sudoku/views.py:1118-1131 | after the block, no W is left and every counter still equals the number of cells with its letter |
| GradingFacts.AsWrittenRewritesNothing | sudoku/views.py:1118-1131 | with the condition as written, the block finds no W cell, so it changes nothing but the alternative flag |
| GradingFacts.AsWrittenVerdict | sudoku/views.py:1118-1131 | with the condition as written, the answer is accepted exactly when it is the stored solution, and exactly then the alternative flag is raised |
| GradingFacts.CorrectedVerdict | sudoku/views.py:1118-1131 | with the corrected condition, the answer is accepted exactly when it is a valid completion of the puzzle, and the alternative flag is raised exactly when that completion is not the stored solution |
| GradingFacts.AsWrittenRejectsSecondCompletion | sudoku/views.py:1118 | on a puzzle with two completions, entering the one that is not stored is graded wrong as written, and accepted as an alternative solution when corrected |
| PuzzleCheck.CheckPuzzleCorrected | sudoku/views.py:997-1131 | fails with the validation errors exactly when some entry is not acceptable; otherwise returns the graded answer after the alternative-solution block with the corrected condition |

## Left out

- Logging is left out: `log_puzzle_action`, the JSON logger in utils.py and every log call inside the modelled code. It is I/O.
- The `request` argument of the engine functions is dropped because they never use it.
- The rest of `check_puzzle` is left out: session access, JSON parsing of the stored puzzle, time formatting, message text, the database write and rendering. It is I/O, ORM or floating point.
- Random number generation is not modelled. `random.randint` becomes a sequence of picks; `random.shuffle` becomes a given ordering of the 81 cells.
- SudokuEngine.SeedGrid: requires at least 11 × 101 in-range picks, the most that seeding can consume, because the Python code draws as many as it needs.
- SudokuEngine.IsValid: requires row and column in 0..8. Python would raise on larger indices and wrap negative ones, and no caller passes either.
- PuzzleCheck.CheckPuzzleCorrected: requires the stored puzzle and solution to be 9 rows of 9 cells. The source checks only that there are 9 rows (views.py:943-946) and would raise on a short row.
- PuzzleCheck.Grade: `str.isdigit` is modelled for the ASCII digits only. Python also accepts other Unicode digits, on which `int()` behaves differently or raises.
- PuzzleCheck.ValidateInputs: a validation error records the refused entry under the (row, column) of `cell_i_j`, not the message text.
- The solver's recursion depth and running time are not modelled.
- SudokuEngine.GenerateSudoku: `empty_cells` has no default value; utils.py:259 gives it 40, and the only call (views.py:362) passes it explicitly.
- SudokuEngine.GenerateSudoku: the solved grid before carving and the solver's result are ghost outputs, only there to state the contract; the Python function returns the carved grid alone.

## Findings

| source | as written | input that shows it | evidently intended | confidence | as-written member | corrected member |
|---|---|---|---|---|---|---|
| sudoku/views.py:1118 | The alternative-solution block runs only if `correct` is still true. `correct` is cleared by every W cell, so the block never meets a W cell, and its W→C rewrite and count transfer never change anything. A different valid completion of the puzzle is graded wrong. The alternative flag is raised only when the answer equals the stored solution. | The puzzle `TwoWayPuzzle()`: a valid grid with its eighteen 1s and 2s blanked out. The stored solution is `Pattern()`. The form enters 2 where the stored solution has 1, and 1 where it has 2. The result is a valid completion that is graded wrong. | Run the block when the answer is complete, valid, and not already correct (`not correct and grid_complete and is_valid_complete_grid(input_grid)`). The check then accepts exactly the valid completions of the puzzle, and flags exactly those that differ from the stored solution. | not executed | GradingFacts.AsWrittenVerdict | GradingFacts.CorrectedVerdict |
