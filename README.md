# Sudoku solver (recursive backtracking), modelled in Dafny

The program solves a 9×9 Sudoku in place.
- The grid is a list of nine rows of nine integers, 0 marking an empty cell.
- `is_valid(sudoku, r, c, value)` rejects a digit that already occurs in row `r`, in column `c`, or in the 3×3 block selected by `(r // 3, c // 3)`.
- `solve(sudoku, r, c)` walks the cells in row-major order from `(r, c)`:
  - a filled cell is passed over without any check;
  - at an empty cell it tries 1..9 in ascending order, writes each digit the check accepts, and recurses on the next cell;
  - it writes 0 back when the recursion fails;
  - it returns false once all nine candidates are exhausted;
  - it succeeds when it gets past cell (8, 8).

The model has five modules.
- `Grid` (grid.dfy):
  - the board as a value (`seq<seq<int>>`) and the mutable grid (`array2<int>`), with `Contents` reading one as the other;
  - the row-major successor `Next`, the single-cell update `Set` and the in-place write `Write`;
  - the Sudoku rules over boards: `SameUnit`, `Peer`, `Consistent`, `Full`, `Completes`.
- `Oracle` (oracle.dfy):
  - `IsValid`, the three scans as one condition;
  - `CheckValid`, the imperative check on the grid, with the same three scans and early returns as the program (the row membership test `value in sudoku[r]` written as a loop over the row), proved equal to `IsValid`;
  - the lemma that `IsValid` is exactly "no cell sharing a unit with (r, c) holds the digit".
- `Solver` (solver.dfy):
  - `Search`/`TryFrom`/`Attempt`, a reference definition of the search as a function of the board it starts from;
  - `Solve`, the recursive in-place method with its candidate loop, proved to leave behind exactly what `Search` describes, to restore the grid on failure, and on success to keep the givens and fill every remaining cell with conflict-free digits.
- `Correctness` (correctness.dfy), what the search promises:
  - the ascending candidate order and first success;
  - exhaustion on failure;
  - completeness: it never misses a solution;
  - soundness for conflict-free givens;
  - full grids are accepted unchanged.
- `Scenarios` (scenarios.dfy): concrete grids. One is the check on a grid holding a single 5; the other is the search on the empty grid, which succeeds with a solved grid.

Two behaviours of the code are worth stating outright, because a reader might expect otherwise.
- **Duplicate givens are not rejected.** A filled cell is passed over unchecked (sudoku_solver.py:143-146), so givens are never compared with each other. `Correctness.ConflictingFullGridAccepted` shows a grid made entirely of 5s accepted unchanged. Soundness (`Correctness.SolvesFromStart`) is therefore stated for conflict-free givens only.
- **The last cell's digit is checked.** It is written only inside the `is_valid` guard (sudoku_solver.py:131-135), so success at (8, 8) never rests on an unchecked digit. `Solver.LastPlacementExtends` and the `Extends` postcondition of `Solver.Solve` rely on that check.

## Model

| member | source | states |
|---|---|---|
| Grid.Next | sudoku_solver.py:122-126 | the cell after (r, c) is the next position in row-major order, wrapping from column 8 to column 0 of the next row; after (8, 8) it leaves the grid |
| Grid.Set | sudoku_solver.py:133 | writing a digit 0..9 into a cell keeps a 9×9 grid of 0..9 and the cell then holds that digit |
| Grid.SetFrame | sudoku_solver.py:133 | writing a cell changes no other cell |
| Grid.SetUndo | sudoku_solver.py:133-138 | writing a digit into an empty cell and then 0 again gives back the grid as it was |
| Grid.Write | sudoku_solver.py:133 | the in-place assignment `sudoku[r][c] = value` turns the grid's contents into Set of its old contents |
| Oracle.IsValid | sudoku_solver.py:86-100 | the three scans as one condition: the digit is not in the list of row r (the target cell included), not in column c of any of the nine rows, and not in any cell whose (row // 3, column // 3) is (r // 3, c // 3); the result is true when none of them finds it |
| Oracle.CheckValid | sudoku_solver.py:72-102 | the three scans with early returns give true exactly when the digit is in neither the row, the column nor the block of (r, c); the grid is only read |
| Oracle.IsValidExactly | sudoku_solver.py:86-100 | the check accepts a digit if and only if no cell sharing a row, a column or a 3×3 block with (r, c), the cell itself included, holds it |
| Oracle.IsValidRejects | sudoku_solver.py:86-100 | an occurrence of the digit anywhere in row r, in column c, or in the block (r // 3, c // 3) makes the check reject it |
| Solver.Search | sudoku_solver.py:105-146 | the search from (r, c) as a function of the board: at an empty cell, the candidate loop from 1; at a filled (8, 8), success with the board unchanged; at any other filled cell, the search from the next cell; the result is the board left behind on success, or None |
| Solver.TryFrom | sudoku_solver.py:129-142 | the candidate loop at an empty cell from digit v on: None once past 9; otherwise the first pass, in ascending order, that succeeds |
| Solver.Attempt | sudoku_solver.py:131-140 | one pass of the loop with digit v: None when the check rejects v; at (8, 8) success with v written; otherwise the search from the next cell on the board with v written, whose failure (the reset to 0) hands control back to the loop |
| Solver.Solve | sudoku_solver.py:105-146 | the result and final grid are those of the reference search; a false result leaves the grid as it was on entry; a true result keeps every given and every cell before (r, c), fills every cell from (r, c) on, and places only digits no peer repeats |
| Solver.SearchExtends | sudoku_solver.py:128-146 | a successful search keeps givens and earlier cells, fills every cell from its start on, and every digit it placed conflicts with no other cell of the final grid |
| Solver.TryFromExtends | sudoku_solver.py:129-142 | the candidate loop from digit v on, when it succeeds, does what SearchExtends says and leaves a digit at least v at the cell |
| Solver.AttemptExtends | sudoku_solver.py:131-140 | a successful pass with digit v leaves exactly v at the cell and extends the grid as a successful search does |
| Solver.LastPlacementExtends | sudoku_solver.py:131-135 | a digit accepted at the empty last cell completes the grid without conflict at that cell |
| Solver.PlacementExtends | sudoku_solver.py:131-140 | an accepted digit followed by a successful search from the next cell is a successful search from this cell |
| Solver.SkipExtends | sudoku_solver.py:143-146 | passing over a filled cell keeps what the search from the next cell establishes |
| Solver.SkipLastExtends | sudoku_solver.py:144-145 | a filled last cell ends the search successfully with the grid unchanged |
| Correctness.FirstSuccessKept | sudoku_solver.py:130-140 | the digit a successful search leaves at an empty cell passed the check, is the one whose continuation produced the result, and every smaller accepted digit led to a failed continuation |
| Correctness.TryFromFirstSuccess | sudoku_solver.py:130-140 | the same as FirstSuccessKept for the candidate loop started at any digit u |
| Correctness.TryFromExhausts | sudoku_solver.py:130-142 | a failed candidate loop tried every accepted digit from u to 9, and each one led to a failed continuation |
| Correctness.CompletionDigitValid | sudoku_solver.py:131 | the digit that a solution keeping the givens puts in an empty cell is accepted by the check there |
| Correctness.SearchFindsCompletion | sudoku_solver.py:105-146 | whenever some solved grid keeps the givens, the search from any cell succeeds |
| Correctness.TryFromFindsCompletion | sudoku_solver.py:128-142 | the candidate loop started at or below a solution's digit for the cell succeeds |
| Correctness.SolvesFromStart | sudoku_solver.py:105-146 | from (0, 0) the search succeeds whenever the puzzle has a solution, and for conflict-free givens its result is a solved grid keeping every given |
| Correctness.FullGridUnchanged | sudoku_solver.py:143-146 | on a grid with no empty cell the search succeeds from any cell and changes nothing |
| Correctness.ConflictingFullGridAccepted | sudoku_solver.py:143-146 | a full grid whose givens conflict is still accepted unchanged: givens are never checked |
| Scenarios.SingleFiveExample | sudoku_solver.py:86-100 | with a single 5 at (0, 0), 5 is rejected at (0, 3), (3, 0) and (1, 1) and accepted at (4, 4), and accepted at every cell sharing no row, column or block with (0, 0) |
| Scenarios.EmptyGridSolved | sudoku_solver.py:105-146 | on the empty grid the search from (0, 0) succeeds and leaves a solved grid |

## Left out

- `clear_screen`, `clear_lines`, `print_sudoku`: terminal output only.
- The `visualize` branch of `solve` (print and sleep): it has no effect on the grid or the result.
- `get_sudoku_from_file` and `main`: file reading, argument parsing and exception reporting are I/O.
- Solver.Solve and Oracle.CheckValid require a 9×9 grid of entries 0..9. The file reader only yields digits 0..9 but does not check the shape.
  - A grid with fewer rows or shorter rows can make the program raise an index error. It does not when the search fails before it reads a missing cell.
  - A row longer than nine would take part in the row scan.
  - Neither is modelled.
- The `none_valid` flag is set to true and never to false. Leaving the candidate loop is therefore modelled directly as returning false.
- Correctness.SolvesFromStart: it states that no digit repeats in a row, column or block of the result. It does not state the equivalent "each digit exactly once" for units of nine cells; that counting step is not proved.
- The classic 17-clue puzzle and its unique solution are not evaluated: unfolding the search that far is beyond what the verifier does.
- Python's recursion limit is not modelled: the recursion is at most 81 calls deep.
