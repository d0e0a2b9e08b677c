# Sudoku solver — a verified model

This project models the core of a 9x9 Sudoku solver that works by backtracking. The solver is one Java class with these parts:

- The grid `grid` is a 9x9 array of cells. A 0 marks an empty cell.
- The list `possibleValues` holds the values 1..9.
- A **candidate evaluator** works out which values an empty cell may still take:
  - `getRow`, `getCol` and `getBox` each start from a fresh copy of `possibleValues`. They remove every value found in the cell's row, column or 3x3 box.
  - `getPossibleValue` intersects the three lists in a `TreeSet`, so the candidates come out in ascending order.
- A **recursive search** `solve(row, col)`:
  - It visits the cells down each column, then moves on to the next column.
  - It skips the given (non-zero) cells.
  - At each empty cell it tries the candidates in order and recurses.
  - When no candidate leads to a solution, it puts the 0 back.
- A wrapper `solve()` starts the search at the first cell.

The files are:

- `lists.dfy` (module `Lists`) — the Java collection operations the evaluator uses, on `seq<int>`:
  - `RemoveFirst` is `ArrayList.remove(Object)`.
  - `Without` is the list left after a series of such removals.
  - `Retain` is `TreeSet.retainAll`.
  - `StrictlyAscending` is the iteration order of a `TreeSet`.
  - Lemmas state what each operation keeps and drops.
- `grid.dfy` (module `Grid`) — grid geometry and the rules of Sudoku, on grid values (`Board = seq<seq<int>>`):
  - `Pos(row, col) = col * 9 + row` is the visiting order of the search.
  - `Completes(b, g, p)` says that `b` finishes `g` from place `p`. It keeps every cell before `p` and every given cell. Every empty cell from `p` on holds, in `b`, a value in 1..9 that no peer holds.
  - `Before(a, b, p)` is the order in which the search meets grids from place `p`: `a` and `b` agree up to some cell, and there `a` holds the smaller value.
  - The lemmas here describe how one step of the search changes the set of completions: skipping a given cell, trying a candidate, ruling a candidate out, and running out of candidates.
- `sudoku.dfy` (module `Sudoku`) — the class `Sudoku`:
  - It has the fields `grid: array2<int>` and `possibleValues: seq<int>`.
  - The evaluator is written as loops over the array. Each loop is proved equal to `Without` of the row, column or box values.
  - The search is a method that changes `grid` in place. Its contract says three things:
    - It returns true exactly when the grid can be finished from the starting place. The grid is then the least such finish in visiting order, because the candidates are tried in ascending order and the first success returns.
    - On false, the grid is exactly as it was on entry.
    - It never writes a given cell or a cell before the starting place.

Two behaviours of the Java code a reader might not expect:

- After a failed search, the grid is restored exactly. Every failed deeper call undoes itself, and line 292 puts the 0 back. `SolveAt` and `TryCandidates` prove this (`!solved ==> Cells() == old(Cells())`).
- The givens are never checked against each other. A grid with no empty cell makes `solve` return true whatever it holds (`NoEmptyFrom(...) ==> solved`). `Solve` promises a valid solution only when the givens are consistent.

## Model

| member | source | states |
|---|---|---|
| Sudoku.Sudoku.constructor | Sudoku.java:59-85 | The grid is 9x9 and holds the given cells. `possibleValues` is the list 1..9 built by the loop at lines 83-85. |
| Sudoku.ValueListFacts | Sudoku.java:83-85 | The list 1, 2, ..., 9 is strictly ascending and holds exactly the values 1..9. |
| Sudoku.Sudoku.GetRow | Sudoku.java:162-175 | The result is `possibleValues` less the non-zero values of row `row`, in order. It is strictly ascending, so it has no duplicates. Its length is at most 9. It holds v exactly when 1 <= v <= 9 and v is not in the row. |
| Sudoku.Sudoku.GetCol | Sudoku.java:184-199 | The same as `GetRow`, for column `col`. |
| Sudoku.Sudoku.GetBox | Sudoku.java:208-227 | The same, for the 3x3 box starting at `((row/3)*3, (col/3)*3)`. The zeros in the box remove nothing. |
| Grid.BoxStart | Sudoku.java:212-214 | The box offset stays inside the grid with room for the whole box. It is at or below `x` and within one box of it. A coordinate lies in the box exactly when it has the same quotient by 3. |
| Sudoku.Sudoku.FreeIff | Sudoku.java:144-154 | Being absent from the row, the column and the box is exactly the condition that no cell sharing a unit with (row, col) holds v. |
| Sudoku.Sudoku.GetPossibleValue | Sudoku.java:144-154 | The candidates are strictly ascending and there are at most 9. v is a candidate exactly when 1 <= v <= 9 and v is in none of the row, the column and the box. Equivalently, no cell sharing a unit with (row, col) holds v. |
| Lists.RemoveFirstCuts | Sudoku.java:171 | `remove(Integer.valueOf(x))` cuts the list around the first occurrence of x. |
| Lists.RemoveFirstAbsent | Sudoku.java:171 | Removing a value the list does not hold leaves the list unchanged. |
| Lists.RemoveFirstWithout | Sudoku.java:171 | On an ascending list, removing x from what earlier removals left is the same as banning x too. So a series of `remove` calls leaves exactly the values that were not removed. |
| Lists.WithoutAbsent | Sudoku.java:220 | Banning a value the list does not hold, such as a 0 from the box, changes nothing. |
| Lists.WithoutNothing | Sudoku.java:165 | Before any removal, the copy is the whole list. |
| Lists.WithoutFacts | Sudoku.java:165-174 | After the removals, the list holds a value exactly when the value was in the original list and was not removed. Ascending order is kept, and the list never grows. |
| Lists.RetainFacts | Sudoku.java:150-151 | After `retainAll`, the set holds a value exactly when the value is in both collections. Ascending order is kept, and the set never grows. |
| Grid.Put | Sudoku.java:280 | Writing v into (r, c) changes that cell and no other. |
| Grid.CompletesSkip | Sudoku.java:288-291 | At a given cell, finishing from this place is the same as finishing from the next place. |
| Grid.CompletesTry | Sudoku.java:280-281 | For a free value v at an empty cell, finishing from this place with v in the cell is the same as finishing, from the next place, the grid with v written in. |
| Grid.CompletionIsCandidate | Sudoku.java:277 | Whatever a finish puts into an empty cell is in 1..9 and free there, so it is one of the cell's candidates. |
| Grid.CompletesRuleOut | Sudoku.java:277-285 | If the search found no finish after trying candidate k, then no finish of the grid puts any of the first k+1 candidates into the cell. |
| Grid.CompletesNone | Sudoku.java:286-293 | When every candidate is ruled out, the grid has no finish from this place, so returning false is correct. |
| Grid.LeastSkip | Sudoku.java:288-291 | Passing over a given cell keeps the answer least: if no finish from the next place comes before the answer, none from this place does. |
| Grid.LeastTry | Sudoku.java:277-284 | When the candidates are ascending, the smaller ones are ruled out, and the answer holds candidate k and is least from the next place, then no finish from this cell comes before the answer. |
| Grid.TryFound | Sudoku.java:280-284 | A success with candidate k at the empty cell gives a finish from this cell that no other finish comes before. |
| Grid.CompletesFills | Sudoku.java:270-273 | A finish from place p leaves no empty cell from p on. |
| Grid.CompletionOfConsistentIsSolution | Sudoku.java:243-249 | A finish from the first cell of a grid whose givens are consistent is a valid solution: every cell holds 1..9 and differs from all its peers. |
| Sudoku.Sudoku.SolveAt | Sudoku.java:262-294 | Wrapping (9, c) goes to (0, c+1), and reaching column 9 returns true. Cells before the start and given cells are not changed. true means the grid finishes the entry grid from the start, and no finish comes before it in visiting order (`Before`). false means the grid is exactly the entry grid and no finish exists. With no empty cell ahead, the result is true. |
| Sudoku.Sudoku.TryCandidates | Sudoku.java:275-293 | At an empty cell, the candidates are computed once and tried in ascending order. The first success returns with nothing reset, so the grid is the least finish from this cell: no finish comes before it (`Before`). Otherwise the cell goes back to 0 and the grid is exactly as on entry, with no finish possible. |
| Sudoku.Sudoku.Solve | Sudoku.java:243-249 | The result is `solve(0, 0)`. true means the grid is the least finish of the input in visiting order, so the output is determined by the input, and it holds no 0; if the givens were consistent, it is a valid solution. false means the grid is unchanged and the puzzle has no solution. A grid with no empty cell gives true. |

## Left out

- `main`, `getData` and `printData` (file reading, CSV parsing and writing, console output) are I/O. The constructor takes the 9x9 cells as a value instead. getData's behaviour on short rows or bad input is therefore not modelled.
- The input and output file-path fields are left out, and so is the message `solve()` prints on failure. `Solve` returns the boolean instead.
- `Math.sqrt(width)` is floating point. It is modelled as the integer constant `BoxSize = 3`.
- The grid is a Java array of arrays (`int[][]`). It is modelled as a rectangular `array2<int>`. `getCol` bounds its loop by the length of row `col`, which is 9 like every row, so the model bounds it by the width.
- Java `int` overflow cannot happen here: all indices and values stay far below 2^31. Integers are unbounded in the model.
- SolveAt: it requires `row <= 9 && col <= 9 && !(row == 9 && col == 9)`. `solve(9, 9)` would index column 10 and throw, and no call from `solve()` reaches it.
- TryCandidates is the candidate loop of `solve(int, int)` written as a separate method. It is not a separate function in the source; it was split out only to keep each proof small.
- Cells() and the other ghost functions: the grid is described as a value for the contracts. Aliasing of the row arrays of `int[][]` cannot arise in an `array2`.
