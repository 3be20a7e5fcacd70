/**
 * The Board object: its 81 cell values live in one array that solve
 * updates in place.  The source's back-references (cell.row, row.board,
 * cell.grid) become index arithmetic; the block each cell was wired to
 * is kept as the origin of that block.
 */
module Boards {
  import opened Wrappers
  import opened Arena
  import Construction
  import Solver

  class Board {
    /** The cell values, cell (x, y) at index y * 9 + x; 0 is empty. */
    var cells: array<int>
    /**
     * The block each cell was wired to (cell.grid), by its origin (x0, y0).
     * It records the wiring only: Valid() ties it to BlockOf, which is what
     * is_valid uses to find a cell's block.
     */
    const blocks: seq<(nat, nat)>

    ghost predicate Valid()
      reads this, cells
    {
      cells.Length == 81 && ValidValues(cells[..])
      && |blocks| == 81 && forall j :: 0 <= j < 81 ==> blocks[j] == BlockOf(j)
    }

    /** Board(rows) with __attrs_post_init__: the cells, then the block wiring. */
    constructor (g: seq<int>)
      requires |g| == 81 && ValidValues(g)
      ensures Valid() && fresh(cells) && cells[..] == g
    {
      var wired := WireBlocks();
      forall j | 0 <= j < 81 ensures wired[j] == BlockOf(j) {
        EachCellInOneBlock(j);
      }
      cells := new int[81](i requires 0 <= i < 81 => g[i]);
      blocks := wired;
    }

    /**
     * Board.from_array_of_strings: a board exactly when the strings are nine
     * rows of nine digits, cell (x, y) holding the digit digitRows[y][x].
     */
    static method FromArrayOfStrings(digitRows: seq<string>) returns (board: Option<Board>)
      ensures board.Some? <==> Construction.WellFormed(digitRows)
      ensures board.Some? ==> fresh(board.value) && fresh(board.value.cells) && board.value.Valid()
      ensures board.Some? ==>
                forall x, y :: 0 <= x < 9 && 0 <= y < 9 ==>
                  board.value.cells[Idx(x, y)] == Construction.DigitValue(digitRows[y][x])
    {
      match Construction.FromArrayOfStrings(digitRows)
      case None =>
        board := None;
      case Some(g) =>
        var b := new Board(g);
        board := Some(b);
    }

    /** get_empty_cell: scans rows 0..8 and, in each, columns 0..8. */
    method GetEmptyCell() returns (cell: Option<nat>)
      requires Valid()
      ensures cell == FirstEmpty(cells[..])
      ensures cell.None? <==> Complete(cells[..])
    {
      FirstEmptyIsFirst(cells[..]);
      var y := 0;
      while y < 9
        invariant 0 <= y <= 9
        invariant forall j :: 0 <= j < Idx(0, y) ==> !IsEmpty(cells[j])
      {
        var x := 0;
        while x < 9
          invariant 0 <= x <= 9
          invariant forall j :: 0 <= j < Idx(x, y) ==> !IsEmpty(cells[j])
        {
          if IsEmpty(cells[Idx(x, y)]) {
            return Some(Idx(x, y));
          }
          x := x + 1;
        }
        y := y + 1;
      }
      return None;
    }

    /**
     * solve: fills the board in place and reports success.  The new board
     * and the flag are those of the backtracking search on the old board,
     * so a failed solve leaves every cell as it was.
     */
    method Solve() returns (solved: bool)
      requires Valid()
      modifies cells
      ensures Valid()
      ensures Solver.Search(old(cells[..])) == Solver.Outcome(solved, cells[..])
      decreases EmptyCount(cells[..])
    {
      var cell := GetEmptyCell();
      if cell.None? {
        return true;
      }
      var i := cell.value;
      ghost var g := cells[..];
      var testNum := 1;
      while testNum < 10
        invariant 1 <= testNum <= 10
        invariant Valid() && cells[..] == g
        invariant Solver.Search(g) == Solver.TryCandidates(g, i, testNum)
      {
        Solver.TryCandidatesStep(g, i, testNum);
        if IsValid(cells[..], testNum, i) {
          cells[i] := testNum;
          assert cells[..] == g[i := testNum];
          EmptyCountFill(g, i, testNum);
          solved := Solve();
          if solved {
            return;
          }
          cells[i] := 0;
          assert cells[..] == g;
        }
        testNum := testNum + 1;
      }
      return false;
    }
  }
}
