# Sudoku board and backtracking solver, in Dafny

This project models the core of `sudoku.py`: a 9×9 Sudoku board, built
from nine strings of digit characters, and its recursive depth-first
backtracking solver.

- **Board construction** (`construction.dfy`). `Board.from_array_of_strings` → `Row.from_array` →
  `Cell.from_str_value`.
  - These are pure functions returning `Option`.
  - Every failure the source can raise (a non-digit character, a coordinate or a row index out of range, a row or a board of the wrong length) is the single outcome `None`.
- **Grouping structure** (`arena.dfy`).
  - The board is a flat arena of 81 cell values, with cell (x, y) at index `y * 9 + x`. x is the column and y the row.
  - The back-references `cell.row`, `row.board` and `cell.grid` become index arithmetic. These groups are index sequences in the source's own order: a row's cells, `get_column(x)`, and a block collected as `rows[y0:y0+3]` × `cells[x0:x0+3]`.
  - The block wiring of `Board.__attrs_post_init__` is a method with the source's nested loops. It gives each cell the origin (x0, y0) of its block.
  - `is_valid` is a predicate over the three groups.
  - The row-major scan of `get_empty_cell` is a specification function.
- **Search** (`solver.dfy`). `Search` and `TryCandidates` state what `solve` computes, as functions of the board's values:
  - the first empty cell gets candidates 1..9 in ascending order;
  - each candidate that passes `is_valid` is placed and the search recurses;
  - a failed trial is undone by resetting the cell to 0.

  The file proves these properties of the search:
  - **soundness**: a success fills every cell, keeps every given, and places only digits 1..9, each of which passed `is_valid` on the board as it stood when it was placed;
  - **completeness**: if a solution keeping the givens exists, the search succeeds;
  - **equivalence**: for conflict-free givens, success is equivalent to the existence of a solution.
- **The Board class** (`board.dfy`).
  - Its cells live in an `array<int>`.
  - `GetEmptyCell` is the nested loop with early return.
  - `Solve` is the recursive method that mutates the array in place, trying candidates in a `while` loop with the explicit undo. It is proved to return exactly the flag and the board that `Search` prescribes for the board it started from.
  - Its termination measure is the number of empty cells, which every placement lowers by one.

## Model

| member | source | states |
|---|---|---|
| Construction.CellFromStrValue | sudoku.py:9-37 | a cell is built exactly when x and y are in 0..8 and the character is a digit; its value is int(c), a number in 0..9 |
| Construction.CellsFromArray | sudoku.py:75 | the cells comprehension succeeds exactly when the row is empty, or y is in 0..8, every character is a digit and every column it lands in is in 0..8; cell k holds the value of character k |
| Construction.RowFromArray | sudoku.py:53-76 | Row.from_array succeeds exactly when the row index is in 0..8 and the string has nine digit characters; cell x holds the value of character x |
| Construction.RowsFromArray | sudoku.py:121 | the rows comprehension succeeds exactly when every row succeeds, row k holding what Row.from_array gives for it |
| Construction.FromArrayOfStrings | sudoku.py:118-122 | construction succeeds exactly for nine rows of nine digit characters; then cell (x, y) holds the value of digitRows[y][x] and every value is in 0..9 |
| Construction.ParseRoundTrip | sudoku.py:118-122 | every grid of digits 0..9, written out as nine digit strings, is rebuilt exactly by construction |
| Arena.IsEmpty | sudoku.py:39-41 | is_empty: the cell holds 0; used by the scans below and by FirstEmptyIsFirst |
| Arena.RowCells | sudoku.py:72-76 | row.cells: nine cells of row y in column order; its membership is stated by RowCellsMembers |
| Arena.RowCellsMembers | sudoku.py:63-66 | the cells of row y (cell.row.cells) are exactly the cells whose row is y |
| Arena.ColumnCells | sudoku.py:124-128 | get_column(x): nine cells, all below 81; its order and membership are stated by ColumnCellsAt and ColumnCellsMembers |
| Arena.ColumnCellsAt | sudoku.py:124-128 | get_column(x) is row.cells[x] of every row, in row order 0..8 |
| Arena.ColumnCellsMembers | sudoku.py:124-128 | get_column(x) holds exactly the cells whose column is x |
| Arena.BlockCells | sudoku.py:101-105 | the block comprehension rows[y0:y0+3] × cells[x0:x0+3]: nine cells, all below 81; its order and membership are stated by BlockCellsAt and BlockCellsMembers |
| Arena.BlockCellsAt | sudoku.py:101-105 | position 3·d + e of the block at (x0, y0) is cells[x0 + e] of rows[y0 + d], the comprehension's order |
| Arena.BlockCellsMembers | sudoku.py:98-105 | the block at an origin x0, y0 in {0, 3, 6} holds exactly the cells whose block origin is (x0, y0), each once |
| Arena.EachCellInOneBlock | sudoku.py:99-108 | every cell lies in the block at its own origin and in no other of the nine blocks |
| Arena.SameBlock | sudoku.py:98-105 | two cells share a block origin exactly when their columns agree in x / 3 and their rows in y / 3 |
| Arena.AssignBlock | sudoku.py:107-108 | wiring one block gives that block to exactly its own cells and leaves every other cell's block as it was |
| Arena.WireBlocks | sudoku.py:97-108 | after the nested loops every cell is wired to one of the nine blocks, that block contains it, and two cells share a block exactly when they agree in x / 3 and y / 3 |
| Arena.Holds | sudoku.py:137 | any(c.value == n for c in group); its meaning is stated by HoldsMember |
| Arena.HoldsMember | sudoku.py:137 | any(c.value == n for c in group) holds exactly when some cell of the group holds n |
| Arena.IsValid | sudoku.py:136-143 | is_valid(n, cell) as the three any() scans over row, column and block; its meaning is stated by IsValidScan |
| Arena.IsValidScan | sudoku.py:136-143 | is_valid(n, cell) holds exactly when no cell in the cell's row, column or block holds n, the cell itself included |
| Arena.IsValidIncludesCell | sudoku.py:136-143 | is_valid never accepts the value the cell itself already holds |
| Arena.FirstEmptyFrom | sudoku.py:131-134 | the row-major scan from position k returns an empty cell at k or later, if any; Arena.FirstEmptyFromIsFirst states that it is the first |
| Arena.FirstEmptyFromIsFirst | sudoku.py:131-134 | the scan from position k finds nothing exactly when no cell from k on is empty, and otherwise finds the first empty one |
| Arena.FirstEmpty | sudoku.py:130-134 | get_empty_cell returns an empty cell of the board, if any; FirstEmptyIsFirst states that it is the first and that none means a full board |
| Arena.FirstEmptyIsFirst | sudoku.py:130-134 | get_empty_cell finds no cell exactly when no cell is 0, and otherwise the first 0 in row-major order |
| Arena.EmptyCountFill | sudoku.py:151-154 | placing a digit in an empty cell lowers the number of empty cells by one, the measure that bounds the recursion |
| Solver.Search | sudoku.py:145-158 | a failed solve hands back the board exactly as it received it |
| Solver.TryCandidates | sudoku.py:151-158 | a candidate loop that runs out of candidates hands back the board as it received it |
| Solver.TryCandidatesStep | sudoku.py:151-156 | one round of the loop skips an invalid candidate, returns a successful trial, or resets the cell to 0 and continues with the board unchanged |
| Solver.SearchOnComplete | sudoku.py:145-149 | on a board with no empty cell solve returns true and changes nothing |
| Solver.SearchSound | sudoku.py:145-158 | after a success no cell is 0, every given is unchanged, and every placed value is in 1..9 and passed is_valid when placed |
| Solver.TryCandidatesSound | sudoku.py:151-157 | a successful candidate loop at the first empty cell keeps all four promises of a success |
| Solver.PlacementSound | sudoku.py:152-155 | placing a valid candidate at the first empty cell and succeeding keeps all four promises for the board before the placement |
| Solver.PlacedValidStep | sudoku.py:152-155 | the first placement passed is_valid on the board as it stood, and the later ones on the boards the recursion saw |
| Solver.SolutionValueValid | sudoku.py:136-143 | a solution keeping the givens puts in each empty cell a digit that is_valid accepts there |
| Solver.SearchComplete | sudoku.py:145-158 | if some solution keeps the givens, solve succeeds |
| Solver.TryCandidatesComplete | sudoku.py:151-157 | the candidate loop succeeds whenever it has not yet passed a solution's digit for the cell |
| Solver.DistinctPair | sudoku.py:136-143 | on a board solved from conflict-free givens, two related cells never hold the same digit |
| Solver.SolvedIsSolution | sudoku.py:145-158 | with conflict-free givens, a success leaves a complete grid of digits with no digit repeated in a row, column or block, and with every given kept |
| Solver.SearchSolvedIff | sudoku.py:145-158 | with conflict-free givens, solve succeeds exactly when the puzzle has a solution |
| Boards.Board.constructor | sudoku.py:93-108 | a new board holds the given values and each cell is wired to its own block |
| Boards.Board.FromArrayOfStrings | sudoku.py:118-122 | a board is built exactly for nine rows of nine digit characters, cell (x, y) holding the value of digitRows[y][x] |
| Boards.Board.GetEmptyCell | sudoku.py:130-134 | the nested loop returns the first empty cell in row-major order, and none exactly when no cell is empty |
| Boards.Board.Solve | sudoku.py:145-158 | solving in place returns the flag and leaves the board that the backtracking search prescribes for the board it started from |

## Left out

- `generate_board_from_file_path` (sudoku.py:161-171) reads a file and splits it on `G` lines. This is input glue.
- The `__main__` block (sudoku.py:174-181) asserts, sums the first three cells of row 0 and prints. This is caller-side I/O.
- `Board.__str__` and `Row.__str__` (sudoku.py:68-69, 110-116) are display only.
- Construction errors:
  - The attrs `instance_of(int)` type validators, the exception classes and their messages are not modelled. Every construction failure is `None`.
  - The x and y validators (sudoku.py:19, 24) format names that are not defined. They would raise `NameError` rather than `ValueError`. The model cannot tell these apart.
- Construction.CellFromStrValue: accepts only the ASCII digits '0'..'9'. Python's `int()` also converts other Unicode decimal digits, such as Arabic-Indic ones. The model treats those as construction failures.
- The object back-pointers (`cell.row`, `row.board`, `cell.grid`) and the `Grid` objects are replaced by indices into one flat array. A block is identified by its origin. The model does not capture the aliasing of shared `Cell` objects.
- `Cell.column` (sudoku.py:43-45) is `get_column` applied to the cell's own column. It is not a separate member.
- Boards.Board.GetEmptyCell: returns the cell's index, not the `Cell` object.
- Boards.Board.Solve: Python's recursion limit and the call stack are not modelled. The recursion is at most 81 levels deep.
- `is_valid` (sudoku.py:136-143) scans the whole row, column and block, the cell itself included; the model follows the code (Arena.IsValidIncludesCell). This is harmless in `solve`, which asks only about empty cells with candidates 1..9.
