# Sudoku solver: the checks, the search and the output layout

This project models the core of `SudokuSolver` in `suduko_solver.py`:

- the placement check `is_valid`;
- the puzzle check `is_valid_puzzle`;
- the backtracking search `solve`;
- the text layout that `_write_grid` writes for a grid.

The solver keeps its 9×9 board in `self.grid`, a list of nine lists whose
cells hold 0 (empty) to 9. `is_valid_puzzle` and `solve` update it in place;
`is_valid` only reads it.

The model has three modules:

- `Board` (`board.dfy`) defines the board as a value. It states what a
  legal, consistent and solved board is and proves the facts about a single
  placement that the solver's proofs rely on.
  - A conflict is defined through the row, the column and the 3×3 box of a
    cell, using `r / 3 == row / 3`. It is independent of the box-origin
    arithmetic that the code uses.
- `Solver` (`solver.dfy`) holds the class `SudokuSolver`.
  - Its fields `grid` and `originalGrid` are sequences that its methods
    reassign.
  - `IsValid`, `IsValidPuzzle` and `Solve` keep the source's loops, early
    returns and recursion.
  - Each of them is proved against the `Board` definitions.
- `Layout` (`layout.dfy`) defines the text written for a grid under a title.
  - The writer is given as recursive functions, in two forms: what is still
    to be written from a column or row on, and what the loops have written so
    far. The two are proved to agree.
  - Its partner is a strict reader that accepts exactly this layout. Reading
    the text written for any grid gives that grid back, any text the reader
    accepts is the text written for the grid it reads, and the text's length
    is fixed.
  - `Solver.SudokuSolver.WriteGrid` builds the text with the source's loops
    and is proved equal to the function.
  - Every cell is followed by a space, the last cell of a row included. So
    each row line ends with a space before its newline, as the code writes
    it; the cells are not merely separated by spaces.

## Model

| member | source | states |
|---|---|---|
| Solver.SudokuSolver.constructor | suduko_solver.py:2-18 | the solver, once the puzzle has been entered, holds it both as its working grid and as its kept copy, each a 9×9 board of values in 0..9 |
| Solver.SudokuSolver.IsValid | suduko_solver.py:48-53 | returns false exactly when `num` already occurs in the row, the column or the 3×3 box of the cell, the cell itself included; the grid is not changed |
| Solver.SudokuSolver.IsValidPuzzle | suduko_solver.py:55-65 | returns true exactly when no non-empty cell's digit occurs in another cell of its row, column or box; every temporary clear is undone, so the grid is the same on both returns |
| Solver.SudokuSolver.Solve | suduko_solver.py:67-78 | every given is kept; on true no cell is empty, and the grid is a solution of the entry grid when that grid was consistent; on false the grid is exactly as at entry and no solution of the entry grid exists |
| Solver.SudokuSolver.WriteGrid | suduko_solver.py:30-40 | the text built by the row loop, with each row's cells from WriteCells, is the layout text of the grid under the title, and reading it back gives the grid |
| Solver.SudokuSolver.WriteCells | suduko_solver.py:35-39 | the inner loop writes the cells of one row exactly as the row layout prescribes |
| Board.BoxOrigin | suduko_solver.py:49 | the box origin `3 * (i // 3)` is a multiple of 3 at most two below `i` |
| Board.BoxCell | suduko_solver.py:53 | the cell at offset `(k // 3, k % 3)` from the box origin is a board cell in the same box as `(row, col)` |
| Board.BoxCellCovers | suduko_solver.py:53 | the nine offsets scanned by the box check reach every cell of the box |
| Board.Place | suduko_solver.py:60 | writing one cell changes that cell only and keeps a valid board |
| Board.PlaceBack | suduko_solver.py:62-64 | writing a cell's old value back after overwriting it restores the board exactly |
| Board.ClearedConflictIffRepeated | suduko_solver.py:59-61 | after a non-empty cell is cleared, its digit conflicts there exactly when the digit is repeated in another cell of one of its units |
| Board.PlaceKeepsConsistent | suduko_solver.py:72-75 | placing a digit that passes the check keeps a consistent board consistent |
| Board.SolutionPassesAt | suduko_solver.py:71-72 | the digit a solution holds at an empty cell always passes the check there, so a digit that fails cannot lead to a solution |
| Board.SolutionOfPlaced | suduko_solver.py:73-74 | a solution of the puzzle is also a solution after its own digit is placed in an empty cell, so a failed recursive call rules that digit out |
| Board.PlaceShrinksEmpties | suduko_solver.py:73-74 | filling an empty cell leaves one empty cell fewer, so the recursion of the search ends |
| Board.ExtendsTrans | suduko_solver.py:73-75 | a board that keeps the digits of a board that keeps the givens also keeps the givens |
| Layout.CellsText | suduko_solver.py:35-39 | from column j on, each column is written as "| " where due (before columns 3 and 6), the cell's character and a space |
| Layout.RowLine | suduko_solver.py:35-40 | a row is written as the text for its nine columns followed by a newline |
| Layout.GridText | suduko_solver.py:30-40 | a grid is written as the title and a newline, then each row line, with a rule of 21 dashes and a newline before rows 3 and 6 |
| Layout.CellChar | suduko_solver.py:38 | a cell is written as '.' exactly when it is empty, and reading the character gives the cell's value back |
| Layout.ParseCell | suduko_solver.py:38 | a character is read as a cell exactly when it is '.' or a digit 1..9, and then as a value in 0..9 |
| Layout.ParseCells | suduko_solver.py:35-39 | an accepted row text gives the remaining columns, each in 0..9 |
| Layout.ParseLine | suduko_solver.py:35-40 | an accepted row line gives a row of nine values in 0..9 |
| Layout.ParseRows | suduko_solver.py:32-40 | accepted row lines and rules give the remaining rows, each a valid row |
| Layout.ParseText | suduko_solver.py:30-40 | an accepted text gives a valid 9×9 board |
| Layout.SeparatorLengths | suduko_solver.py:33-37 | "| " (2 characters) and a rule line (22 with its newline) are written before indexes 3 and 6 only |
| Layout.CellsLength | suduko_solver.py:35-39 | the columns from j on take two characters per cell plus two per remaining "| " |
| Layout.RowLineLength | suduko_solver.py:35-40 | every row line has 23 characters |
| Layout.BodyLength | suduko_solver.py:32-40 | the rows from i on take 23 characters per row line plus 22 per remaining rule |
| Layout.GridTextLength | suduko_solver.py:30-40 | the text for a grid is the title, its newline and 251 more characters |
| Layout.CellsSplit | suduko_solver.py:35-39 | what the inner loop has written after j steps, followed by what remains, is the whole row text |
| Layout.BodySplit | suduko_solver.py:32-40 | what the outer loop has written after i steps, followed by what remains, is the whole body |
| Layout.CellsComplete | suduko_solver.py:35-39 | after nine steps the inner loop has written the whole row text |
| Layout.BodyComplete | suduko_solver.py:32-40 | after nine steps the outer loop has written the whole body |
| Layout.ParseAfterTitle | suduko_solver.py:31 | the rows are read from whatever follows the title and its newline |
| Layout.CellsRoundTrip | suduko_solver.py:35-39 | reading the text for columns j..8 of a row gives those cells back |
| Layout.RowLineRoundTrip | suduko_solver.py:35-40 | reading a row line gives the row back |
| Layout.ParseRowsStep | suduko_solver.py:33-40 | reading a due rule, a row line and the rest gives the row followed by the rest |
| Layout.RowsRoundTrip | suduko_solver.py:32-40 | reading the text for rows i..8 gives those rows back |
| Layout.GridTextRoundTrip | suduko_solver.py:30-40 | reading the text written for a grid under a title gives the grid back |
| Layout.GridTextInjective | suduko_solver.py:30-40 | two different grids are never written as the same text under one title |
| Layout.ParsedCellChar | suduko_solver.py:38 | a character read as a cell is the character that cell is written as |
| Layout.ParseCellsAccepted | suduko_solver.py:36-39 | text accepted for a column starts with its "| " where due, a cell character and a space, and the rest is accepted for the next column |
| Layout.ParsedCells | suduko_solver.py:35-39 | text accepted for columns j..8 of a row is exactly the text written for them |
| Layout.ParsedLine | suduko_solver.py:35-40 | a line accepted as a row is exactly the line written for that row |
| Layout.ParseRowsAccepted | suduko_solver.py:33-40 | text accepted for a row starts with its rule where due and a 23-character accepted row line, and the rest is accepted for the next row |
| Layout.ParsedRows | suduko_solver.py:32-40 | text accepted for rows i..8 of a grid is exactly the text written for them |
| Layout.TitleLine | suduko_solver.py:31 | a text is its title, the title's newline and what follows |
| Layout.ParsedText | suduko_solver.py:30-40 | a text accepted as a grid is exactly the text written for that grid under its title, so the reader accepts the written texts and nothing else |

## Left out

- `input_from_user` (`suduko_solver.py:6-18`) is console input with re-prompting. The constructor takes the puzzle it would have read instead. The check on each entered row (nine values in 0..9) is the predicate `Board.IsRow`. The grid and its kept copy are equal sequences, so the copy made at line 18 needs no separate model.
- `save_to_file` (`suduko_solver.py:20-28`) opens a file and reports `IOError`. This is file I/O. The text it would write for each grid is `Layout.GridText`.
- `print_grid` (`suduko_solver.py:42-46`) writes to standard output. This is console I/O. The layout it reuses is modelled.
- The `__main__` block (`suduko_solver.py:80-101`) is interactive control flow, including the `.txt` suffix fix-up.
- Solver.SudokuSolver.WriteGrid: it returns the text instead of writing it piece by piece to a file object. The inner column loop is the separate method `WriteCells`, whose text the outer loop appends.
- Solver.SudokuSolver.Solve: the model does not state which solution is found. The source finds the first in row-major, lowest-digit-first order; the model proves only that it is a solution.
- Aliasing between the nested Python lists is not modelled. The grid is a value that the methods replace, and the kept copy shares no rows with it, as after the copy at line 18.
- Python's negative indexes are not modelled. Every index the core uses is in 0..8.
