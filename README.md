# GridGuru Sudoku core in Dafny

GridGuru's solving logic is in `src/sudoku.c`. It has two procedures over an
`int grid[9][9]`, where 0 is an empty cell and 1..9 a digit.

- `isValid` reports whether any row, column or 3x3 box holds a non-zero
  digit twice. It scans each group with a fresh `used[10]` table and returns
  false at the first repeat.
- `solveSudoku` is a backtracking search. It finds the first empty cell in
  row-major order and tries the digits 1..9 there. Each try asks
  `isValid(grid)` first, then writes the digit and recurses. A failed
  recursion is undone by writing 0 back.

The model keeps the C procedures in their own form, as methods over a 9x9
`array2<int>`: `Validity.IsValid` and `Solver.FindEmpty` only read it, and
`Solver.TryDigit` and `Solver.SolveSudoku` modify it. Each method is proved against a
function on a flat 81-cell value view of the grid (`Grid.Snapshot`):

- `Validity.GridValid` specifies `isValid`;
- `Solver.Search` and `Solver.TryDigits` specify `solveSudoku` and its loop
  over `num`, giving both the boolean answer and the grid left behind.

The lemmas then say what that answer and grid are.

The solver checks validity *before* writing the digit. Because of that, the
digit placed in the last empty cell is never checked. The true/false answer
is still right: on a board with an empty cell it is true exactly when the
board has a solution (`Solver.SearchDecides`). What goes wrong is the grid
left behind, which after a true answer is not always valid; see
"## Findings". Module `Checked` holds the same solver with the check moved
after the write. Its answer has the same if-and-only-if, and a true answer
also leaves a solution, for every board with an empty cell and for every
input that already passes the check. A full board is still answered true as
it stands, valid or not, just as in the code as written. src/main.c:275 runs
`isValid` on the input before it calls the solver.

Files:

- `grid.dfy`: the grid, its value view, and the count of empty cells;
- `validity.dfy`: `isValid`;
- `completion.dfy`: why the last empty cell of a valid board can always be
  filled, by counting digits over rows, columns and boxes;
- `solver.dfy`: `solveSudoku` as written;
- `checked.dfy`: the corrected solver;
- `scenarios.dfy`: concrete boards.

## Model

| member | source | states |
|---|---|---|
| Validity.GridValidIff | src/sudoku.c:10-58 | A board passes the validity check exactly when each of its 9 rows, 9 columns and 9 boxes has no repeated non-zero digit; zeros never count. |
| Validity.UsedMarksPrefix | src/sudoku.c:13-20 | After a scan of the first n cells of a group, `used[d]` is set exactly when digit d occurs among those cells. |
| Validity.ScanCleanIsNoRepeat | src/sudoku.c:14-21 | A scan gets through the first n cells of a group without hitting a marked digit exactly when those cells hold no repeated digit. |
| Validity.ScanRow | src/sudoku.c:13-22 | The row pass over row i returns true exactly when row i has no repeated digit. |
| Validity.ScanColumn | src/sudoku.c:27-36 | The column pass over column j returns true exactly when column j has no repeated digit. |
| Validity.ScanBox | src/sudoku.c:42-53 | The box pass over box (blockRow, blockCol) returns true exactly when that box has no repeated digit. |
| Validity.IsValid | src/sudoku.c:10-58 | Returns true exactly when the grid has no repeated digit in any row, column or box. It has no modifies clause, so the grid is unchanged. |
| Validity.ZeroingPreservesValid | src/sudoku.c:16-21 | Turning any set of cells of a valid board into 0 leaves it valid, since empty cells are skipped. |
| Validity.ClearCell | src/sudoku.c:16-21 | Writing 0 into one cell of a valid board leaves it valid, since empty cells are skipped. |
| Solver.FirstZero | src/sudoku.c:66-76 | The cell searched is the first empty one in row-major order: all cells before it are filled. It is past the end exactly when the board has no empty cell. |
| Solver.FindEmpty | src/sudoku.c:62-76 | Returns the row and column of the first empty cell in row-major order. If there is none it returns `isEmpty` false with row = col = -1, and the board is full. |
| Solver.Search | src/sudoku.c:61-99 | A false answer leaves the board exactly as it was given. |
| Solver.TryDigits | src/sudoku.c:84-98 | The loop over `num` that ends without success leaves the board exactly as it was given. |
| Solver.TryStep | src/sudoku.c:84-96 | One try fills one empty cell. When the recursion fails, the next digit is tried on the board restored to its state before the write. |
| Solver.SearchFills | src/sudoku.c:61-99 | Every answer leaves only entries 0..9 and keeps every given digit. A true answer leaves no empty cell. |
| Solver.SearchFull | src/sudoku.c:78-81 | A board with no empty cell is answered true and left unchanged. |
| Solver.GateClosed | src/sudoku.c:85 | On a board that fails the check, every remaining digit is skipped: false, with the board unchanged. |
| Solver.SearchRejectsInvalid | src/sudoku.c:84-98 | A board with an empty cell that fails the validity check is answered false and left unchanged. |
| Solver.SearchLastCell | src/sudoku.c:85-90 | After a true answer, the last empty cell of the input holds 1. Clearing that cell again gives a board that passes the validity check. |
| Solver.FillLast | src/sudoku.c:85-90 | At the last empty cell of a valid board, the first try writes 1 without checking it, and the search answers true. |
| Solver.SearchComplete | src/sudoku.c:84-98 | Every board that has a solution is answered true. A solution is a full valid board keeping the givens. |
| Solver.SearchDecides | src/sudoku.c:61-99 | On a board with an empty cell, the answer is true exactly when the board has a solution, even though the board left behind may not be one. |
| Solver.LastZeroExists | src/sudoku.c:66-76 | A board with an empty cell has a last empty cell in row-major order. |
| Solver.SearchSummary | src/sudoku.c:61-99 | Collects the cases of the search on one board: full, invalid with an empty cell, what a true answer leaves in the last empty cell, and both directions of completeness on a board with an empty cell. |
| Completion.FullGroup | src/sudoku.c:13-22 | A full row, column or box that passes its scan holds every digit 1..9 exactly once. |
| Completion.MissingDigit | src/sudoku.c:13-22 | A group that passes its scan and has exactly one empty cell is missing some digit 1..9. |
| Completion.RowsAndColumns | src/sudoku.c:10-38 | A digit occurs as often over the nine rows as over the nine columns. |
| Completion.RowsAndBoxes | src/sudoku.c:13-53 | Within one band of three rows, a digit occurs as often over the rows as over the band's three boxes. |
| Completion.ColumnMisses | src/sudoku.c:10-58 | On a valid board with one empty cell, a digit missing from that cell's row is missing from its column too. |
| Completion.BoxMisses | src/sudoku.c:10-58 | On a valid board with one empty cell, a digit missing from that cell's row is missing from its box too. |
| Completion.FillValid | src/sudoku.c:10-58 | Writing into the one empty cell a digit absent from its row, column and box gives a board that passes the validity check. |
| Completion.FillGap | src/sudoku.c:10-58 | A valid board with exactly one empty cell is made full and valid by writing some digit 1..9 into that cell. |
| Solver.Place | src/sudoku.c:86 | The write `grid[row][col] = v` changes that one cell and no other. |
| Solver.TryDigit | src/sudoku.c:85-95 | One pass of the loop body on the array ends in the state `TryDigits` gives. If it fails, the grid is restored and the loop goes on to the next digit. |
| Solver.SolveSudoku | src/sudoku.c:61-99 | The procedure on the array returns the answer `Search` gives and leaves the grid `Search` gives, so the lemmas about `Search` hold of it. |
| Checked.SearchChecked | src/sudoku.c:61-99 | Corrected search, with the check after the write. A false answer leaves the board as given. |
| Checked.TryChecked | src/sudoku.c:84-98 | Corrected loop over `num`. An unsuccessful loop leaves the board as given. |
| Checked.CheckedFull | src/sudoku.c:78-81 | The corrected search answers true on a full board and leaves it unchanged. |
| Checked.TryCheckedStep | src/sudoku.c:84-96 | One corrected try writes the digit. The recursion runs only if the board passes the check with the digit in place; otherwise the board is restored and the next digit is tried. |
| Checked.CheckedSound | src/sudoku.c:61-99 | Corrected search: a true answer leaves a full board of digits that keeps every given. That board is valid when the input had an empty cell or was valid itself. |
| Checked.CheckedComplete | src/sudoku.c:61-99 | Corrected search: every board with a solution is answered true. |
| Checked.CheckedDecides | src/sudoku.c:61-99 | Corrected search on a board with an empty cell: true exactly when the board has a solution, and then it leaves one. |
| Checked.TryDigitChecked | src/sudoku.c:85-95 | The corrected loop body on the array ends in the state `TryChecked` gives, and it restores the grid on failure. |
| Checked.SolveSudokuChecked | src/sudoku.c:61-99 | The corrected procedure on the array returns the answer of `SearchChecked` and leaves its grid. |
| Scenarios.PatternValid | src/sudoku.c:10-58 | The shifted-rows board `Pattern` is full, holds only digits and passes the validity check. |
| Scenarios.UncheckedLastWrite | src/sudoku.c:85-90 | `Pattern` with row 0, column 1 emptied is answered true by the solver as written. It is left with 1 in that cell, a board that fails the validity check. |
| Scenarios.CheckedRestoresSolution | src/sudoku.c:85-86 | On the same board, the corrected solver answers true and restores `Pattern`. |
| Scenarios.EmptyBoardSolved | src/sudoku.c:61-99 | The solver as written answers true on the all-zero board. Its last cell, index 80, holds 1, and clearing it gives a valid board. |
| Scenarios.EmptyBoardChecked | src/sudoku.c:61-99 | The corrected solver answers true on the all-zero board and leaves a full valid board. |
| Scenarios.RepeatedGivenRejected | src/sudoku.c:85 | A board with two 5s in row 0 fails the check, and the solver answers false with the board unchanged. |

## Left out

- `printGrid` and `inputSudoku` (src/sudoku.c:102-130) are console I/O with `printf` and `scanf`.
- src/main.c is the GTK user interface and is not part of this model. This covers its cell entry, status messages, the pre-solve validity check it runs before calling the solver, and its built-in example puzzle (src/main.c:350-359). Solver.SearchComplete and Solver.SearchLastCell would settle that puzzle once a concrete solution is proved valid, but that proof needs a case split over every pair of cells in each of the 27 groups and is not done here. In the puzzle's well-known solution the last empty cell (row 8, column 6, index 78) holds 1, so there the unchecked write of 1 is the right digit. This is not proved here.
- src/sudoku.h only declares the functions and is not part of this model.
- Validity.IsValid, Solver.Search, Solver.TryDigit, Solver.SolveSudoku: assume every cell holds 0..9 (`WellFormed`, `IsBoard`). Out of that range, C's `used[num]` reads outside its array, which is undefined behaviour. The model excludes such grids instead of modelling it. This also excludes a case the C code does define: a full board with an out-of-range value is answered true at src/sudoku.c:79-80 without `isValid` ever running. The only caller that builds grids, `get_grid_from_entries` at src/main.c:100, stores only 0..9.
- Machine integers: cell values stay in 0..9 and indices in 0..80, so `int` width and overflow play no part.
- The `used` table is modelled as a local `seq<bool>` that the loop reassigns, instead of a stack array.
- The inner loops of `isValid` are separate methods (Validity.ScanRow, Validity.ScanColumn, Validity.ScanBox). The loop body of `solveSudoku` is Solver.TryDigit. Control flow and the order of reads and writes are those of src/sudoku.c.
- Solver.Search: the solver as written does not always leave a valid grid on a true answer, although src/sudoku.c:78 calls that state solved (see "## Findings"), so no such ensures is stated. What is proved about a true answer is in Solver.SearchFills and Solver.SearchLastCell, and that the answer itself is right is Solver.SearchDecides. The argument that a bad placement is caught by the check one level deeper fails for the last empty cell, because no deeper level runs.
- Checked.SearchChecked: a full board is answered true without a check, like src/sudoku.c:79-80, so a full invalid board comes back with true. Soundness is stated for inputs with an empty cell or inputs that pass the check. src/main.c:275 checks the input before calling the solver.
- Recursion depth and running time of the search are not modelled.

## Findings

| source | as written | input that shows it | evidently intended | confidence | as-written member | corrected member |
|---|---|---|---|---|---|---|
| src/sudoku.c:85-86 | `isValid(grid)` is evaluated before `grid[row][col] = num`, so the digit written into the last empty cell is never checked, and the search answers true at once on the then-full grid. The true/false answer is still right (Solver.SearchDecides); only the grid left behind is wrong | the valid solution `Pattern` (row r is 1..9 rotated by 3 * (r mod 3) + r / 3) with row 0, column 1 set to 0: the solver answers true and leaves 1 there, next to the 1 at row 0, column 0 | check the grid after writing the digit, so that on a board with an empty cell a true answer always comes with a full valid grid | not executed | Scenarios.UncheckedLastWrite | Checked.CheckedDecides |
