/**
 * The 9×9 Sudoku board as a value, and the rules that decide what a legal,
 * consistent and solved board is. The solver class keeps its working grid in
 * this form and every contract of the solver is stated with these definitions.
 */
module Board {

  /** Nine rows of nine cells; 0 marks an empty cell, 1..9 a placed digit. */
  type Grid = seq<seq<int>>

  predicate IsCell(r: int, c: int) {
    0 <= r < 9 && 0 <= c < 9
  }

  /** A row of nine cells, each holding 0..9. */
  predicate IsRow(row: seq<int>) {
    |row| == 9 && forall c :: 0 <= c < 9 ==> 0 <= row[c] <= 9
  }

  /** The board invariant: 81 cells in nine rows, every value in 0..9. */
  predicate IsGrid(g: Grid) {
    |g| == 9 && forall r :: 0 <= r < 9 ==> IsRow(g[r])
  }

  /** Index of the first row (or column) of the box band holding index i. */
  function BoxOrigin(i: int): (o: int)
    requires 0 <= i < 9
    ensures o % 3 == 0 && o <= i < o + 3
  {
    3 * (i / 3)
  }

  /** Two cells share a unit when they lie in one row, one column or one 3×3 box. */
  predicate SameUnit(r1: int, c1: int, r2: int, c2: int) {
    r1 == r2 || c1 == c2 || (r1 / 3 == r2 / 3 && c1 / 3 == c2 / 3)
  }

  /** Digit num already occurs in a cell sharing a unit with (row, col); the cell itself counts. */
  ghost predicate Conflict(g: Grid, row: int, col: int, num: int)
    requires IsGrid(g)
  {
    exists r, c :: IsCell(r, c) && SameUnit(row, col, r, c) && g[r][c] == num
  }

  /** Cell (r, c) is empty, or its digit occurs in no other cell of its units. */
  ghost predicate Unique(g: Grid, r: int, c: int)
    requires IsGrid(g) && IsCell(r, c)
  {
    g[r][c] == 0 ||
    forall r2, c2 :: IsCell(r2, c2) && (r2 != r || c2 != c) && SameUnit(r, c, r2, c2) ==> g[r2][c2] != g[r][c]
  }

  /** No row, column or box holds a repeated digit (empty cells are ignored). */
  ghost predicate Consistent(g: Grid)
    requires IsGrid(g)
  {
    forall r, c :: IsCell(r, c) ==> Unique(g, r, c)
  }

  /** No cell is empty. */
  predicate Complete(g: Grid)
    requires IsGrid(g)
  {
    forall r, c :: 0 <= r < 9 && 0 <= c < 9 ==> g[r][c] != 0
  }

  /** h keeps every digit already placed in g. */
  ghost predicate Extends(h: Grid, g: Grid)
    requires IsGrid(h) && IsGrid(g)
  {
    forall r, c :: IsCell(r, c) && g[r][c] != 0 ==> h[r][c] == g[r][c]
  }

  /** h is a solution of the puzzle g: complete, consistent and keeping g's givens. */
  ghost predicate IsSolution(h: Grid, g: Grid) {
    IsGrid(h) && IsGrid(g) && Extends(h, g) && Complete(h) && Consistent(h)
  }

  /** g with cell (r, c) set to v. */
  function Place(g: Grid, r: int, c: int, v: int): (g': Grid)
    requires IsGrid(g) && IsCell(r, c) && 0 <= v <= 9
    ensures IsGrid(g')
    ensures forall r2, c2 :: IsCell(r2, c2) ==> g'[r2][c2] == if r2 == r && c2 == c then v else g[r2][c2]
  {
    g[r := g[r][c := v]]
  }

  /** Writing back a cell's own value after overwriting it restores the board. */
  lemma PlaceBack(g: Grid, r: int, c: int, v: int)
    requires IsGrid(g) && IsCell(r, c) && 0 <= v <= 9
    ensures Place(Place(g, r, c, v), r, c, g[r][c]) == g
  {
    var h := Place(Place(g, r, c, v), r, c, g[r][c]);
    assert h[r] == g[r];
    assert forall i :: 0 <= i < 9 ==> h[i] == g[i];
  }

  /** The k-th cell (0..8) of the box holding (row, col), scanned row by row from the box's origin. */
  function BoxCell(row: int, col: int, k: int): (cell: (int, int))
    requires IsCell(row, col) && 0 <= k < 9
    ensures IsCell(cell.0, cell.1) && cell.0 / 3 == row / 3 && cell.1 / 3 == col / 3
    ensures SameUnit(row, col, cell.0, cell.1)
  {
    (BoxOrigin(row) + k / 3, BoxOrigin(col) + k % 3)
  }

  /** The scan by BoxCell reaches every cell of the box. */
  lemma BoxCellCovers(row: int, col: int, r: int, c: int) returns (k: int)
    requires IsCell(row, col) && IsCell(r, c) && r / 3 == row / 3 && c / 3 == col / 3
    ensures 0 <= k < 9 && BoxCell(row, col, k) == (r, c)
  {
    k := 3 * (r - BoxOrigin(row)) + (c - BoxOrigin(col));
    assert k / 3 == r - BoxOrigin(row) && k % 3 == c - BoxOrigin(col);
  }

  /** The positions of the empty cells. */
  ghost function EmptyCells(g: Grid): set<(int, int)>
    requires IsGrid(g)
  {
    set r, c | 0 <= r < 9 && 0 <= c < 9 && g[r][c] == 0 :: (r, c)
  }

  /** Filling an empty cell leaves one empty cell fewer; this bounds the solver's recursion. */
  lemma PlaceShrinksEmpties(g: Grid, r: int, c: int, d: int)
    requires IsGrid(g) && IsCell(r, c) && g[r][c] == 0 && 1 <= d <= 9
    ensures EmptyCells(Place(g, r, c, d)) == EmptyCells(g) - {(r, c)}
    ensures |EmptyCells(Place(g, r, c, d))| == |EmptyCells(g)| - 1
  {
    var g' := Place(g, r, c, d);
    assert EmptyCells(g') == EmptyCells(g) - {(r, c)};
    assert (r, c) in EmptyCells(g);
  }

  /**
   * Clearing a non-empty cell and then asking whether its own digit conflicts
   * there is the same as asking whether that digit is repeated in another cell
   * of one of its units.
   */
  lemma ClearedConflictIffRepeated(g: Grid, r: int, c: int)
    requires IsGrid(g) && IsCell(r, c) && g[r][c] != 0
    ensures Conflict(Place(g, r, c, 0), r, c, g[r][c]) <==> !Unique(g, r, c)
  {
    var h := Place(g, r, c, 0);
    if Conflict(h, r, c, g[r][c]) {
      var r2, c2 :| IsCell(r2, c2) && SameUnit(r, c, r2, c2) && h[r2][c2] == g[r][c];
      assert r2 != r || c2 != c;
    }
    if !Unique(g, r, c) {
      var r2, c2 :| IsCell(r2, c2) && (r2 != r || c2 != c) && SameUnit(r, c, r2, c2) && g[r2][c2] == g[r][c];
      assert h[r2][c2] == g[r][c];
    }
  }

  /** Placing a digit that does not conflict keeps a consistent board consistent. */
  lemma PlaceKeepsConsistent(g: Grid, r: int, c: int, d: int)
    requires IsGrid(g) && IsCell(r, c) && 1 <= d <= 9
    requires Consistent(g) && !Conflict(g, r, c, d)
    ensures Consistent(Place(g, r, c, d))
  {
    var h := Place(g, r, c, d);
    forall r1, c1 | IsCell(r1, c1) ensures Unique(h, r1, c1) {
      if r1 == r && c1 == c {
        forall r2, c2 | IsCell(r2, c2) && (r2 != r || c2 != c) && SameUnit(r, c, r2, c2)
          ensures h[r2][c2] != d
        {
          assert h[r2][c2] == g[r2][c2];
        }
      } else if h[r1][c1] != 0 {
        assert Unique(g, r1, c1);
        forall r2, c2 | IsCell(r2, c2) && (r2 != r1 || c2 != c1) && SameUnit(r1, c1, r2, c2)
          ensures h[r2][c2] != h[r1][c1]
        {
          if r2 == r && c2 == c {
            assert SameUnit(r, c, r1, c1);
          }
        }
      }
    }
  }

  /** A solution's digit at a cell that is empty in the puzzle never conflicts with the puzzle. */
  lemma SolutionPassesAt(h: Grid, g: Grid, r: int, c: int)
    requires IsSolution(h, g) && IsCell(r, c) && g[r][c] == 0
    ensures !Conflict(g, r, c, h[r][c])
  {
    assert Unique(h, r, c);
    forall r2, c2 | IsCell(r2, c2) && SameUnit(r, c, r2, c2) ensures g[r2][c2] != h[r][c] {
      if g[r2][c2] != 0 {
        assert h[r2][c2] == g[r2][c2];
      }
    }
  }

  /** A solution of g is also a solution of g with one empty cell filled by the solution's digit. */
  lemma SolutionOfPlaced(h: Grid, g: Grid, r: int, c: int)
    requires IsSolution(h, g) && IsCell(r, c) && g[r][c] == 0
    ensures IsSolution(h, Place(g, r, c, h[r][c]))
  {
    var g' := Place(g, r, c, h[r][c]);
    forall r2, c2 | IsCell(r2, c2) && g'[r2][c2] != 0 ensures h[r2][c2] == g'[r2][c2] {
    }
  }

  /** Extending is transitive. */
  lemma ExtendsTrans(a: Grid, b: Grid, c: Grid)
    requires IsGrid(a) && IsGrid(b) && IsGrid(c)
    requires Extends(a, b) && Extends(b, c)
    ensures Extends(a, c)
  {
    forall r, col | IsCell(r, col) && c[r][col] != 0 ensures a[r][col] == c[r][col] {
      assert b[r][col] == c[r][col];
    }
  }
}
