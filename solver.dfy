/**
 * The SudokuSolver object: a working grid that the validity checks read and
 * the backtracking search fills in place, and the snapshot of the puzzle as
 * it was entered.
 */
module Solver {
  import opened Board
  import opened Layout

  class SudokuSolver {
    /** The working grid: IsValid only reads it, IsValidPuzzle and Solve update it in place. */
    var grid: Grid
    /** The puzzle as entered, kept for output. */
    var originalGrid: Grid

    ghost predicate Valid()
      reads this
    {
      IsGrid(grid) && IsGrid(originalGrid)
    }

    /** A solver holding the puzzle read from its user; the snapshot is a copy of it. */
    constructor (puzzle: Grid)
      requires IsGrid(puzzle)
      ensures Valid() && grid == puzzle && originalGrid == puzzle
    {
      grid := puzzle;
      originalGrid := puzzle;
    }

    /**
     * May num go at (row, col)? No: when num is already in the row, in the
     * column or in the 3×3 box of the cell, the cell itself included.
     */
    method IsValid(row: int, col: int, num: int) returns (ok: bool)
      requires Valid() && IsCell(row, col)
      ensures ok <==> !Conflict(grid, row, col, num)
    {
      var boxRow, boxCol := BoxOrigin(row), BoxOrigin(col);
      for i := 0 to 9
        invariant forall k :: 0 <= k < i ==> grid[row][k] != num && grid[k][col] != num
      {
        if grid[row][i] == num || grid[i][col] == num {
          assert SameUnit(row, col, row, i) && SameUnit(row, col, i, col);
          return false;
        }
      }
      // the nine cells of the box, scanned as offsets i / 3 and i % 3 from its origin
      for i := 0 to 9
        invariant forall k :: 0 <= k < i ==> grid[BoxCell(row, col, k).0][BoxCell(row, col, k).1] != num
      {
        assert (boxRow + i / 3, boxCol + i % 3) == BoxCell(row, col, i);
        if grid[boxRow + i / 3][boxCol + i % 3] == num {
          return false;
        }
      }
      forall r, c | IsCell(r, c) && SameUnit(row, col, r, c) ensures grid[r][c] != num {
        if r != row && c != col {
          var k := BoxCellCovers(row, col, r, c);
        }
      }
      return true;
    }

    /**
     * Are the givens consistent? Each non-empty cell is cleared, checked with
     * IsValid against the rest of the board, and restored.
     */
    method IsValidPuzzle() returns (ok: bool)
      requires Valid()
      modifies this`grid
      ensures Valid() && grid == old(grid)
      ensures ok <==> Consistent(grid)
    {
      ghost var g := grid;
      for row := 0 to 9
        invariant grid == g
        invariant forall r, c :: 0 <= r < row && 0 <= c < 9 ==> Unique(g, r, c)
      {
        for col := 0 to 9
          invariant grid == g
          invariant forall r, c :: 0 <= r < row && 0 <= c < 9 ==> Unique(g, r, c)
          invariant forall c :: 0 <= c < col ==> Unique(g, row, c)
        {
          var num := grid[row][col];
          if num != 0 {
            grid := grid[row := grid[row][col := 0]];
            assert grid == Place(g, row, col, 0);
            var valid := IsValid(row, col, num);
            ClearedConflictIffRepeated(g, row, col);
            if !valid {
              grid := grid[row := grid[row][col := num]];
              PlaceBack(g, row, col, 0);
              return false;
            }
            grid := grid[row := grid[row][col := num]];
            PlaceBack(g, row, col, 0);
          }
        }
      }
      return true;
    }

    /**
     * Backtracking search: fill the first empty cell in row-major order with
     * the smallest digit that IsValid accepts and for which the rest of the
     * board can be solved; on failure every tentative digit is cleared again.
     */
    method Solve() returns (ok: bool)
      requires Valid()
      modifies this`grid
      decreases |EmptyCells(grid)|
      ensures Valid()
      ensures Extends(grid, old(grid))
      ensures ok ==> Complete(grid)
      ensures ok && Consistent(old(grid)) ==> IsSolution(grid, old(grid))
      ensures !ok ==> grid == old(grid)
      ensures !ok ==> forall h :: !IsSolution(h, old(grid))
    {
      ghost var g := grid;
      for row := 0 to 9
        invariant grid == g
        invariant forall r, c :: 0 <= r < row && 0 <= c < 9 ==> grid[r][c] != 0
      {
        for col := 0 to 9
          invariant grid == g
          invariant forall r, c :: 0 <= r < row && 0 <= c < 9 ==> grid[r][c] != 0
          invariant forall c :: 0 <= c < col ==> grid[row][c] != 0
        {
          if grid[row][col] == 0 {
            for num := 1 to 10
              invariant grid == g
              invariant forall h :: IsSolution(h, g) ==> h[row][col] >= num
            {
              var valid := IsValid(row, col, num);
              if valid {
                grid := grid[row := grid[row][col := num]];
                assert grid == Place(g, row, col, num);
                PlaceShrinksEmpties(g, row, col, num);
                var solved := Solve();
                if solved {
                  ExtendsTrans(grid, Place(g, row, col, num), g);
                  if Consistent(g) {
                    PlaceKeepsConsistent(g, row, col, num);
                  }
                  return true;
                }
                grid := grid[row := grid[row][col := 0]];
                PlaceBack(g, row, col, num);
                forall h | IsSolution(h, g) ensures h[row][col] != num {
                  if h[row][col] == num {
                    SolutionOfPlaced(h, g, row, col);
                  }
                }
              } else {
                forall h | IsSolution(h, g) ensures h[row][col] != num {
                  SolutionPassesAt(h, g, row, col);
                }
              }
            }
            return false;
          }
        }
      }
      return true;
    }

    /**
     * The text of one grid under a title, built piece by piece in the order
     * it is written to the file: the title line, then each row, with a rule
     * of dashes before rows 3 and 6 and "| " before columns 3 and 6.
     */
    method WriteGrid(g: Grid, title: string) returns (text: string)
      requires IsGrid(g)
      ensures text == GridText(title, g)
      ensures ParseText(text, |title|) == Some(g)
    {
      ghost var lines := RowLines(g);
      text := title + "\n";
      for i := 0 to 9
        invariant text == title + "\n" + BodyBefore(lines, i)
      {
        ghost var rowStart := text;
        if StartsUnit(i) {
          text := text + (Rule + "\n");
        } else {
          NothingAppended(text);
        }
        var cells := WriteCells(g[i]);
        text := text + cells + "\n";
        assert text == title + "\n" + BodyBefore(lines, i + 1) by {
          Append3(rowStart + RuleBefore(i), cells, "\n");
          Append3(rowStart, RuleBefore(i), lines[i]);
          Append3(title + "\n", BodyBefore(lines, i), RuleBefore(i) + lines[i]);
        }
      }
      BodyComplete(lines);
      GridTextRoundTrip(title, g);
    }

    /**
     * The cells of one row as the inner loop of WriteGrid writes them: "| "
     * before columns 3 and 6, then each cell's character and a space.
     */
    method WriteCells(row: seq<int>) returns (cells: string)
      requires IsRow(row)
      ensures cells == CellsText(CellChars(row), 0)
    {
      ghost var cs := CellChars(row);
      cells := "";
      for j := 0 to 9
        invariant cells == CellsBefore(cs, j)
      {
        ghost var cellStart := cells;
        if StartsUnit(j) {
          cells := cells + "| ";
        } else {
          NothingAppended(cells);
        }
        cells := cells + [CellChar(row[j]), ' '];
        Append3(CellsBefore(cs, j), Bar(j), [cs[j], ' ']);
      }
      CellsComplete(cs);
    }
  }
}
