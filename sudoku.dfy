/**
 * The 9x9 Sudoku solver: a grid of cells (0 = empty), the candidate
 * evaluator that computes which values an empty cell may still take, and
 * the recursive backtracking search that fills the empty cells column by
 * column.
 */
module Sudoku {
  import opened Lists
  import opened Grid

  /** `s` is the list 1, 2, ..., Width. */
  predicate IsValueList(s: seq<int>)
  {
    |s| == Width && forall k :: 0 <= k < |s| ==> s[k] == k + 1
  }

  lemma ValueListFacts(s: seq<int>)
    requires IsValueList(s)
    ensures StrictlyAscending(s)
    ensures forall v :: v in s <==> 1 <= v <= Width
  {
    forall v | 1 <= v <= Width ensures v in s {
      assert s[v - 1] == v;
    }
  }

  class Sudoku {
    /** The cells, indexed [row, col]; 0 marks an empty cell. */
    var grid: array2<int>
    /** The values a cell may hold, 1..Width in ascending order. */
    var possibleValues: seq<int>

    ghost predicate Valid()
      reads this
    {
      grid.Length0 == Width && grid.Length1 == Width && IsValueList(possibleValues)
    }

    /**
     * A solver over the cells read from the puzzle file: `cells[i][j]` is the
     * number at row i, column j. The values are not checked.
     */
    constructor (cells: Board)
      requires IsBoard(cells)
      ensures Valid() && fresh(grid)
      ensures forall i, j :: InGrid(i, j) ==> grid[i, j] == cells[i][j]
    {
      grid := new int[Width, Width]((i, j) requires InGrid(i, j) => cells[i][j]);
      var values := [];
      var i := 1;
      while i <= Width
        invariant 1 <= i <= Width + 1
        invariant |values| == i - 1 && forall k :: 0 <= k < |values| ==> values[k] == k + 1
      {
        values := values + [i];
        i := i + 1;
      }
      possibleValues := values;
    }

    /** The non-zero values in row `row`. */
    ghost function RowValues(row: int): set<int>
      reads this, grid
      requires Valid() && 0 <= row < Width
    {
      set j | 0 <= j < Width && grid[row, j] != 0 :: grid[row, j]
    }

    /** The non-zero values in column `col`. */
    ghost function ColValues(col: int): set<int>
      reads this, grid
      requires Valid() && 0 <= col < Width
    {
      set i | 0 <= i < Width && grid[i, col] != 0 :: grid[i, col]
    }

    /** The values, zeros included, in the box that holds cell (row, col). */
    ghost function BoxValues(row: int, col: int): set<int>
      reads this, grid
      requires Valid() && InGrid(row, col)
    {
      set i, j | BoxStart(row) <= i < BoxStart(row) + BoxSize && BoxStart(col) <= j < BoxStart(col) + BoxSize
        :: grid[i, j]
    }

    /** The grid as a value. */
    ghost function Cells(): (g: Board)
      reads this, grid
      requires Valid()
      ensures IsBoard(g)
      ensures forall i, j :: InGrid(i, j) ==> g[i][j] == grid[i, j]
    {
      seq(grid.Length0, i requires 0 <= i < grid.Length0 reads this, grid =>
        seq(grid.Length1, j requires 0 <= i < grid.Length0 && 0 <= j < grid.Length1 reads this, grid => grid[i, j]))
    }

    /**
     * `getRow`: the values 1..Width, in order, less those that occur in
     * row `row`.
     */
    method GetRow(row: int) returns (values: seq<int>)
      requires Valid() && 0 <= row < Width
      ensures values == Without(possibleValues, RowValues(row))
      ensures StrictlyAscending(values) && |values| <= Width
      ensures forall v :: v in values <==> 1 <= v <= Width && v !in RowValues(row)
    {
      ValueListFacts(possibleValues);
      WithoutNothing(possibleValues);
      values := possibleValues;
      ghost var seen: set<int> := {};
      var j := 0;
      while j < grid.Length1
        invariant 0 <= j <= Width
        invariant seen <= RowValues(row)
        invariant forall k :: 0 <= k < j && grid[row, k] != 0 ==> grid[row, k] in seen
        invariant values == Without(possibleValues, seen)
      {
        if grid[row, j] != 0 {
          RemoveFirstWithout(possibleValues, seen, grid[row, j]);
          values := RemoveFirst(values, grid[row, j]);
          seen := seen + {grid[row, j]};
        }
        j := j + 1;
      }
      ghost var banned := RowValues(row);
      forall v | v in banned ensures v in seen {
        var k :| 0 <= k < Width && grid[row, k] != 0 && grid[row, k] == v;
      }
      assert seen == banned;
      WithoutFacts(possibleValues, banned);
    }

    /**
     * `getCol`: the values 1..Width, in order, less those that occur in
     * column `col`. (The source bounds the loop by the length of row `col`,
     * which is Width like every row.)
     */
    method GetCol(col: int) returns (values: seq<int>)
      requires Valid() && 0 <= col < Width
      ensures values == Without(possibleValues, ColValues(col))
      ensures StrictlyAscending(values) && |values| <= Width
      ensures forall v :: v in values <==> 1 <= v <= Width && v !in ColValues(col)
    {
      ValueListFacts(possibleValues);
      WithoutNothing(possibleValues);
      values := possibleValues;
      ghost var seen: set<int> := {};
      var i := 0;
      while i < grid.Length1
        invariant 0 <= i <= Width
        invariant seen <= ColValues(col)
        invariant forall k :: 0 <= k < i && grid[k, col] != 0 ==> grid[k, col] in seen
        invariant values == Without(possibleValues, seen)
      {
        if grid[i, col] != 0 {
          RemoveFirstWithout(possibleValues, seen, grid[i, col]);
          values := RemoveFirst(values, grid[i, col]);
          seen := seen + {grid[i, col]};
        }
        i := i + 1;
      }
      ghost var banned := ColValues(col);
      forall v | v in banned ensures v in seen {
        var k :| 0 <= k < Width && grid[k, col] != 0 && grid[k, col] == v;
      }
      assert seen == banned;
      WithoutFacts(possibleValues, banned);
    }

    /**
     * `getBox`: the values 1..Width, in order, less those that occur in the
     * BoxSize x BoxSize box holding cell (row, col). Every cell of the box is
     * removed, zeros too; a zero is never in the list, so it removes nothing.
     */
    method GetBox(row: int, col: int) returns (values: seq<int>)
      requires Valid() && InGrid(row, col)
      ensures values == Without(possibleValues, BoxValues(row, col))
      ensures StrictlyAscending(values) && |values| <= Width
      ensures forall v :: v in values <==> 1 <= v <= Width && v !in BoxValues(row, col)
    {
      ValueListFacts(possibleValues);
      WithoutNothing(possibleValues);
      values := possibleValues;
      var sqrtSize := BoxSize;
      var boxRowOffset := (row / sqrtSize) * sqrtSize;
      var boxColOffset := (col / sqrtSize) * sqrtSize;
      assert boxRowOffset == BoxStart(row) && boxColOffset == BoxStart(col);
      ghost var seen: set<int> := {};
      var i := 0;
      while i < sqrtSize
        invariant 0 <= i <= BoxSize
        invariant seen <= BoxValues(row, col)
        invariant forall a, b :: boxRowOffset <= a < boxRowOffset + i && boxColOffset <= b < boxColOffset + BoxSize ==> grid[a, b] in seen
        invariant values == Without(possibleValues, seen)
      {
        var r := i + boxRowOffset;
        var j := 0;
        while j < sqrtSize
          invariant 0 <= j <= BoxSize
          invariant seen <= BoxValues(row, col)
          invariant forall a, b :: boxRowOffset <= a < boxRowOffset + i && boxColOffset <= b < boxColOffset + BoxSize ==> grid[a, b] in seen
          invariant forall b :: boxColOffset <= b < boxColOffset + j ==> grid[r, b] in seen
          invariant values == Without(possibleValues, seen)
        {
          var x := grid[r, j + boxColOffset];
          RemoveFirstWithout(possibleValues, seen, x);
          values := RemoveFirst(values, x);
          seen := seen + {x};
          j := j + 1;
        }
        i := i + 1;
      }
      ghost var banned := BoxValues(row, col);
      forall v | v in banned ensures v in seen {
        var a, b :| boxRowOffset <= a < boxRowOffset + BoxSize && boxColOffset <= b < boxColOffset + BoxSize && grid[a, b] == v;
      }
      assert seen == banned;
      WithoutFacts(possibleValues, banned);
    }

    /**
     * The three exclusions together say exactly that no cell in the row,
     * the column or the box holds `v`.
     */
    lemma FreeIff(row: int, col: int, v: int)
      requires Valid() && InGrid(row, col) && 1 <= v
      ensures FreeAt(Cells(), row, col, v) <==> v !in RowValues(row) && v !in ColValues(col) && v !in BoxValues(row, col)
    {
      if v in RowValues(row) {
        var j :| 0 <= j < Width && grid[row, j] != 0 && grid[row, j] == v;
        assert SameUnit(row, col, row, j);
      }
      if v in ColValues(col) {
        var i :| 0 <= i < Width && grid[i, col] != 0 && grid[i, col] == v;
        assert SameUnit(row, col, i, col);
      }
      if v in BoxValues(row, col) {
        var i, j :| BoxStart(row) <= i < BoxStart(row) + BoxSize && BoxStart(col) <= j < BoxStart(col) + BoxSize && grid[i, j] == v;
        assert SameUnit(row, col, i, j);
      }
      if !FreeAt(Cells(), row, col, v) {
        var i, j :| InGrid(i, j) && SameUnit(row, col, i, j) && Cells()[i][j] == v;
        if i == row {
          assert v in RowValues(row);
        } else if j == col {
          assert v in ColValues(col);
        } else {
          assert v in BoxValues(row, col);
        }
      }
    }

    /**
     * `getPossibleValue`: the values 1..Width, in ascending order, that no
     * cell in the row, the column or the box of (row, col) holds. The row list
     * is strictly ascending, so the `TreeSet` built from it iterates it as it
     * is; `retainAll` then keeps the values also in the column and box lists.
     */
    method GetPossibleValue(row: int, col: int) returns (candidates: seq<int>)
      requires Valid() && InGrid(row, col)
      ensures StrictlyAscending(candidates) && |candidates| <= Width
      ensures forall v :: v in candidates <==>
        1 <= v <= Width && v !in RowValues(row) && v !in ColValues(col) && v !in BoxValues(row, col)
      ensures forall v :: v in candidates <==> 1 <= v <= Width && FreeAt(Cells(), row, col, v)
    {
      var rowSet := GetRow(row);
      var colSet := GetCol(col);
      var boxSet := GetBox(row, col);
      RetainFacts(rowSet, colSet);
      rowSet := Retain(rowSet, colSet);
      RetainFacts(rowSet, boxSet);
      rowSet := Retain(rowSet, boxSet);
      candidates := rowSet;
      forall v | 1 <= v <= Width ensures v in candidates <==> FreeAt(Cells(), row, col, v) {
        FreeIff(row, col, v);
      }
    }

    /**
     * `solve(row, col)`: fills the empty cells from position (row, col) on,
     * trying the candidates of each in ascending order and backtracking.
     * Cells before the start and non-empty cells are never changed. It
     * succeeds exactly when the grid can be finished from the start, and then
     * the grid is such a finish; on failure the grid is exactly as it was.
     */
    method SolveAt(row: int, col: int) returns (solved: bool)
      requires Valid()
      requires 0 <= row <= Width && 0 <= col <= Width && !(row == Width && col == Width)
      modifies grid
      decreases Width * Width + Width - Pos(row, col), 1
      ensures Valid()
      ensures Keeps(Cells(), old(Cells()), Pos(row, col))
      ensures solved ==> Completes(Cells(), old(Cells()), Pos(row, col))
      ensures solved ==> forall b :: Completes(b, old(Cells()), Pos(row, col)) ==> !Before(b, Cells(), Pos(row, col))
      ensures !solved ==> Cells() == old(Cells())
      ensures !solved ==> forall b :: !Completes(b, old(Cells()), Pos(row, col))
      ensures NoEmptyFrom(old(Cells()), Pos(row, col)) ==> solved
    {
      var r, c := row, col;
      if r == Width {
        r := 0;
        c := c + 1;
      }
      if c == Width {
        forall b | Completes(b, Cells(), Pos(row, col)) ensures !Before(b, Cells(), Pos(row, col)) {
          NothingBeforeAtEnd(b, Cells(), Pos(row, col));
        }
        return true;
      }
      if grid[r, c] == 0 {
        solved := TryCandidates(r, c);
      } else {
        ghost var entry := Cells();
        solved := SolveAt(r + 1, c);
        CompletesSkip(entry, r, c);
        if solved {
          LeastSkip(entry, Cells(), r, c, Pos(r + 1, c));
        }
      }
    }

    /**
     * The loop of `solve(row, col)` over the candidates of the empty cell
     * (r, c), with the reset to 0 when none of them leads to a solution.
     */
    method TryCandidates(r: int, c: int) returns (solved: bool)
      requires Valid() && InGrid(r, c) && grid[r, c] == 0
      modifies grid
      decreases Width * Width + Width - Pos(r, c), 0
      ensures Valid()
      ensures Keeps(Cells(), old(Cells()), Pos(r, c))
      ensures solved ==> Completes(Cells(), old(Cells()), Pos(r, c))
      ensures solved ==> forall b :: Completes(b, old(Cells()), Pos(r, c)) ==> !Before(b, Cells(), Pos(r, c))
      ensures !solved ==> Cells() == old(Cells())
      ensures !solved ==> forall b :: !Completes(b, old(Cells()), Pos(r, c))
    {
      ghost var entry := Cells();
      ghost var p := Pos(r, c);
      var candidates := GetPossibleValue(r, c);
      var k := 0;
      while k < |candidates|
        invariant 0 <= k <= |candidates|
        invariant forall i, j :: InGrid(i, j) && (i != r || j != c) ==> grid[i, j] == entry[i][j]
        invariant forall v :: v in candidates <==> 1 <= v <= Width && FreeAt(entry, r, c, v)
        invariant forall b :: Completes(b, entry, p) ==> b[r][c] !in candidates[..k]
      {
        var v := candidates[k];
        assert v in candidates;
        grid[r, c] := v;
        ghost var tried := Cells();
        BoardsEqual(tried, Put(entry, r, c, v));
        solved := SolveAt(r + 1, c);
        if solved {
          TryFound(entry, Cells(), r, c, candidates, k, tried, Pos(r + 1, c));
          return;
        }
        CompletesRuleOut(entry, r, c, candidates, k, tried, Pos(r + 1, c));
        k := k + 1;
      }
      grid[r, c] := 0;
      solved := false;
      BoardsEqual(Cells(), entry);
      assert candidates[..k] == candidates;
      CompletesNone(entry, r, c, candidates);
    }

    /**
     * `solve()`: runs the search from the first cell. The boolean is what the
     * source reports to the user. When the given cells are consistent, a
     * success leaves a valid solution.
     */
    method Solve() returns (solved: bool)
      requires Valid()
      modifies grid
      ensures Valid()
      ensures Keeps(Cells(), old(Cells()), 0)
      ensures solved ==> Completes(Cells(), old(Cells()), 0)
      ensures solved ==> forall b :: Completes(b, old(Cells()), 0) ==> !Before(b, Cells(), 0)
      ensures solved ==> NoEmptyFrom(Cells(), 0)
      ensures solved && Consistent(old(Cells())) ==> IsSolution(Cells())
      ensures !solved ==> Cells() == old(Cells())
      ensures !solved ==> forall b :: !Completes(b, old(Cells()), 0)
      ensures NoEmptyFrom(old(Cells()), 0) ==> solved
    {
      solved := SolveAt(0, 0);
      if solved {
        CompletesFills(Cells(), old(Cells()), 0);
        if Consistent(old(Cells())) {
          CompletionOfConsistentIsSolution(Cells(), old(Cells()));
        }
      }
    }
  }
}
