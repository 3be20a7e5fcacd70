/**
 * The 9x9 board as a flat arena of 81 cell values, cell (x, y) living at
 * index y * 9 + x (x is the column, y the row), and the groupings that the
 * source wires with back-references (cell.row, get_column, cell.grid)
 * computed from the index instead.  A value of 0 marks an empty cell.
 */
module Arena {
  import opened Wrappers

  /** Position of the cell in column x of row y. */
  function Idx(x: nat, y: nat): nat { y * 9 + x }

  /** Row (the source's y) of the cell at index i: i div 9, counted in steps of 9. */
  function RowOf(i: nat): (y: nat)
    ensures 9 * y <= i < 9 * y + 9
  {
    if i < 9 then 0 else RowOf(i - 9) + 1
  }

  /** Column (the source's x) of the cell at index i: i mod 9. */
  function ColOf(i: nat): (x: nat)
    ensures x < 9 && Idx(x, RowOf(i)) == i
  {
    if i < 9 then i else ColOf(i - 9)
  }

  /** The cell at column x of row y has column x and row y. */
  lemma {:induction false} IdxCoordinates(x: nat, y: nat)
    requires x < 9
    ensures ColOf(Idx(x, y)) == x && RowOf(Idx(x, y)) == y
  {
    if y > 0 {
      assert Idx(x, y) - 9 == Idx(x, y - 1);
      IdxCoordinates(x, y - 1);
    }
  }

  /** First column (row) of the band of three that column (row) c lies in: 3 * (c / 3). */
  function BandStart(c: nat): nat { if c < 3 then 0 else if c < 6 then 3 else 6 }

  /** Origin (x0, y0) of the block a cell belongs to. */
  function BlockOf(i: nat): (nat, nat) { (BandStart(ColOf(i)), BandStart(RowOf(i))) }

  /** One of the nine block origins the wiring loops visit: x0, y0 in 0, 3, 6. */
  predicate IsBlockOrigin(x0: nat, y0: nat) {
    (x0 == 0 || x0 == 3 || x0 == 6) && (y0 == 0 || y0 == 3 || y0 == 6)
  }

  /** The cells of row y, in column order (row.cells). */
  function RowCells(y: nat): (r: seq<nat>)
    requires y < 9
    ensures |r| == 9
    ensures forall k :: 0 <= k < 9 ==> r[k] < 81
  {
    seq(9, x requires 0 <= x < 9 => Idx(x, y))
  }

  /** The k-th cell of row y is the cell in column k of row y. */
  lemma RowCellsAt(y: nat, k: nat)
    requires y < 9 && k < 9
    ensures ColOf(RowCells(y)[k]) == k && RowOf(RowCells(y)[k]) == y
  {
    IdxCoordinates(k, y);
  }

  /** Row y holds exactly the cells whose row is y. */
  lemma RowCellsMembers(y: nat)
    requires y < 9
    ensures forall j: nat :: j in RowCells(y) <==> j < 81 && RowOf(j) == y
  {
    forall j: nat | j in RowCells(y) ensures j < 81 && RowOf(j) == y {
      var k :| 0 <= k < 9 && RowCells(y)[k] == j;
      RowCellsAt(y, k);
    }
    forall j: nat | j < 81 && RowOf(j) == y ensures j in RowCells(y) {
      assert RowCells(y)[ColOf(j)] == j;
    }
  }

  /** get_column(x): the x-th cell of every row, rows taken in order 0..8. */
  function ColumnCells(x: nat): (r: seq<nat>)
    requires x < 9
    ensures |r| == 9
    ensures forall k :: 0 <= k < 9 ==> r[k] < 81
  {
    seq(9, y requires 0 <= y < 9 => Idx(x, y))
  }

  /** get_column(x) is row.cells[x] for every row, in row order. */
  lemma ColumnCellsAt(x: nat)
    requires x < 9
    ensures forall y :: 0 <= y < 9 ==> ColumnCells(x)[y] == RowCells(y)[x]
  {
  }

  /** Column x holds exactly the cells whose column is x. */
  lemma ColumnCellsMembers(x: nat)
    requires x < 9
    ensures forall j: nat :: j in ColumnCells(x) <==> j < 81 && ColOf(j) == x
  {
    forall j: nat | j in ColumnCells(x) ensures j < 81 && ColOf(j) == x {
      var k :| 0 <= k < 9 && ColumnCells(x)[k] == j;
      IdxCoordinates(x, k);
    }
    forall j: nat | j < 81 && ColOf(j) == x ensures j in ColumnCells(x) {
      assert ColumnCells(x)[RowOf(j)] == j;
    }
  }

  /**
   * The block with origin (x0, y0), collected as the source does: for each
   * row of rows[y0:y0+3], the cells cells[x0:x0+3].
   */
  function BlockCells(x0: nat, y0: nat): (r: seq<nat>)
    requires x0 <= 6 && y0 <= 6
    ensures |r| == 9
    ensures forall k :: 0 <= k < 9 ==> r[k] < 81
  {
    RowCells(y0)[x0..x0 + 3] + RowCells(y0 + 1)[x0..x0 + 3] + RowCells(y0 + 2)[x0..x0 + 3]
  }

  /** Position 3 * d + e of a block is row y0 + d, column x0 + e. */
  lemma BlockCellsAt(x0: nat, y0: nat, d: nat, e: nat)
    requires x0 <= 6 && y0 <= 6 && d < 3 && e < 3
    ensures BlockCells(x0, y0)[3 * d + e] == RowCells(y0 + d)[x0 + e] == Idx(x0 + e, y0 + d)
  {
    var top, middle, bottom := RowCells(y0)[x0..x0 + 3], RowCells(y0 + 1)[x0..x0 + 3], RowCells(y0 + 2)[x0..x0 + 3];
    assert BlockCells(x0, y0) == top + middle + bottom;
    if d == 0 {
      assert BlockCells(x0, y0)[e] == top[e];
    } else if d == 1 {
      assert BlockCells(x0, y0)[3 + e] == middle[e];
    } else {
      assert BlockCells(x0, y0)[6 + e] == bottom[e];
    }
  }

  /** Every position of a block is 3 * d + e for a row offset d and a column offset e. */
  lemma BlockPosition(k: nat) returns (d: nat, e: nat)
    requires k < 9
    ensures d < 3 && e < 3 && k == 3 * d + e
  {
    if k < 3 {
      d, e := 0, k;
    } else if k < 6 {
      d, e := 1, k - 3;
    } else {
      d, e := 2, k - 6;
    }
  }

  /** The cell at row offset d and column offset e of a block lies in that block. */
  lemma BlockCellCoordinates(x0: nat, y0: nat, d: nat, e: nat)
    requires IsBlockOrigin(x0, y0) && d < 3 && e < 3
    ensures ColOf(BlockCells(x0, y0)[3 * d + e]) == x0 + e && RowOf(BlockCells(x0, y0)[3 * d + e]) == y0 + d
    ensures BlockOf(BlockCells(x0, y0)[3 * d + e]) == (x0, y0)
  {
    BlockCellsAt(x0, y0, d, e);
    IdxCoordinates(x0 + e, y0 + d);
  }

  /** Every cell of a block has that block as its block. */
  lemma BlockCellsInBlock(x0: nat, y0: nat, j: nat)
    requires IsBlockOrigin(x0, y0) && j in BlockCells(x0, y0)
    ensures j < 81 && BlockOf(j) == (x0, y0)
  {
    var k :| 0 <= k < 9 && BlockCells(x0, y0)[k] == j;
    var d, e := BlockPosition(k);
    BlockCellCoordinates(x0, y0, d, e);
  }

  /** Every cell whose block is (x0, y0) is one of that block's cells. */
  lemma BlockCellsCover(x0: nat, y0: nat, j: nat)
    requires IsBlockOrigin(x0, y0) && j < 81 && BlockOf(j) == (x0, y0)
    ensures j in BlockCells(x0, y0)
  {
    var d, e := RowOf(j) - y0, ColOf(j) - x0;
    BlockCellsAt(x0, y0, d, e);
    assert BlockCells(x0, y0)[3 * d + e] == j;
  }

  /** A block lists each of its cells once. */
  lemma BlockCellsDistinct(x0: nat, y0: nat, k1: nat, k2: nat)
    requires IsBlockOrigin(x0, y0) && k1 < k2 < 9
    ensures BlockCells(x0, y0)[k1] != BlockCells(x0, y0)[k2]
  {
    var d1, e1 := BlockPosition(k1);
    var d2, e2 := BlockPosition(k2);
    BlockCellCoordinates(x0, y0, d1, e1);
    BlockCellCoordinates(x0, y0, d2, e2);
  }

  /** A block holds exactly the nine cells whose block origin is its own, each once. */
  lemma BlockCellsMembers(x0: nat, y0: nat)
    requires IsBlockOrigin(x0, y0)
    ensures forall j: nat :: j in BlockCells(x0, y0) <==> j < 81 && BlockOf(j) == (x0, y0)
    ensures forall k1, k2 :: 0 <= k1 < k2 < 9 ==> BlockCells(x0, y0)[k1] != BlockCells(x0, y0)[k2]
  {
    forall j: nat | j in BlockCells(x0, y0) ensures j < 81 && BlockOf(j) == (x0, y0) {
      BlockCellsInBlock(x0, y0, j);
    }
    forall j: nat | j < 81 && BlockOf(j) == (x0, y0) ensures j in BlockCells(x0, y0) {
      BlockCellsCover(x0, y0, j);
    }
    forall k1, k2 | 0 <= k1 < k2 < 9 ensures BlockCells(x0, y0)[k1] != BlockCells(x0, y0)[k2] {
      BlockCellsDistinct(x0, y0, k1, k2);
    }
  }

  /** Each cell lies in exactly one of the nine blocks: the one at BlockOf. */
  lemma EachCellInOneBlock(j: nat)
    requires j < 81
    ensures IsBlockOrigin(BlockOf(j).0, BlockOf(j).1) && j in BlockCells(BlockOf(j).0, BlockOf(j).1)
    ensures forall x0: nat, y0: nat :: IsBlockOrigin(x0, y0) && j in BlockCells(x0, y0) ==> (x0, y0) == BlockOf(j)
  {
    BlockCellsMembers(BlockOf(j).0, BlockOf(j).1);
    forall x0: nat, y0: nat | IsBlockOrigin(x0, y0) && j in BlockCells(x0, y0) ensures (x0, y0) == BlockOf(j) {
      BlockCellsMembers(x0, y0);
    }
  }

  /** BandStart(c) is 3 * (c / 3) on the board. */
  lemma BandStartThird(c: nat)
    requires c < 9
    ensures BandStart(c) == 3 * (c / 3)
  {
  }

  /** Two cells share a block exactly when their columns and their rows agree in x / 3 and y / 3. */
  lemma SameBlock(i: nat, j: nat)
    requires i < 81 && j < 81
    ensures BlockOf(i) == BlockOf(j) <==> ColOf(i) / 3 == ColOf(j) / 3 && RowOf(i) / 3 == RowOf(j) / 3
  {
    BandStartThird(ColOf(i));
    BandStartThird(ColOf(j));
    BandStartThird(RowOf(i));
    BandStartThird(RowOf(j));
  }

  /** Two cells share a row, a column or a block. */
  predicate Related(i: nat, j: nat) {
    RowOf(i) == RowOf(j) || ColOf(i) == ColOf(j) || BlockOf(i) == BlockOf(j)
  }

  /**
   * Board.__attrs_post_init__'s block wiring: for x0 in 0, 3, 6 and, inside,
   * y0 in 0, 3, 6, every cell of the block at (x0, y0) is given that block.
   * The result maps each cell to the origin of the block it was given.
   */
  method WireBlocks() returns (grid: seq<(nat, nat)>)
    ensures |grid| == 81
    ensures forall j :: 0 <= j < 81 ==>
              IsBlockOrigin(grid[j].0, grid[j].1) && j in BlockCells(grid[j].0, grid[j].1)
    ensures forall i, j :: 0 <= i < 81 && 0 <= j < 81 ==>
              (grid[i] == grid[j] <==> ColOf(i) / 3 == ColOf(j) / 3 && RowOf(i) / 3 == RowOf(j) / 3)
  {
    grid := seq(81, _ => (0, 0));
    var x0 := 0;
    while x0 < 9
      invariant x0 == 0 || x0 == 3 || x0 == 6 || x0 == 9
      invariant |grid| == 81
      invariant forall j :: 0 <= j < 81 && BlockOf(j).0 < x0 ==> grid[j] == BlockOf(j)
    {
      var y0 := 0;
      while y0 < 9
        invariant y0 == 0 || y0 == 3 || y0 == 6 || y0 == 9
        invariant |grid| == 81
        invariant forall j :: 0 <= j < 81 && (BlockOf(j).0 < x0 || (BlockOf(j).0 == x0 && BlockOf(j).1 < y0)) ==>
                    grid[j] == BlockOf(j)
      {
        grid := AssignBlock(grid, x0, y0);
        y0 := y0 + 3;
      }
      x0 := x0 + 3;
    }
    forall j | 0 <= j < 81
      ensures grid[j] == BlockOf(j) && IsBlockOrigin(grid[j].0, grid[j].1) && j in BlockCells(grid[j].0, grid[j].1)
    {
      EachCellInOneBlock(j);
    }
    forall i, j | 0 <= i < 81 && 0 <= j < 81
      ensures grid[i] == grid[j] <==> ColOf(i) / 3 == ColOf(j) / 3 && RowOf(i) / 3 == RowOf(j) / 3
    {
      SameBlock(i, j);
    }
  }

  /** The inner loop of the wiring: every cell of the block at (x0, y0) is given that block. */
  method AssignBlock(grid: seq<(nat, nat)>, x0: nat, y0: nat) returns (wired: seq<(nat, nat)>)
    requires |grid| == 81 && IsBlockOrigin(x0, y0)
    ensures |wired| == 81
    ensures forall j :: 0 <= j < 81 ==> wired[j] == if BlockOf(j) == (x0, y0) then (x0, y0) else grid[j]
  {
    var gridCells := BlockCells(x0, y0);
    BlockCellsMembers(x0, y0);
    wired := grid;
    var k := 0;
    while k < 9
      invariant 0 <= k <= 9
      invariant |wired| == 81
      invariant forall j :: 0 <= j < 81 && j !in gridCells[..k] ==> wired[j] == grid[j]
      invariant forall m :: 0 <= m < k ==> wired[gridCells[m]] == (x0, y0)
    {
      wired := wired[gridCells[k] := (x0, y0)];
      k := k + 1;
    }
    assert gridCells[..9] == gridCells;
  }

  /** any(c.value == n for c in group): some cell of the group holds n. */
  predicate Holds(g: seq<int>, group: seq<nat>, n: int)
    requires forall k :: 0 <= k < |group| ==> group[k] < |g|
  {
    |group| > 0 && (g[group[0]] == n || Holds(g, group[1..], n))
  }

  lemma {:induction false} HoldsMember(g: seq<int>, group: seq<nat>, n: int)
    requires forall k :: 0 <= k < |group| ==> group[k] < |g|
    ensures Holds(g, group, n) <==> exists j: nat :: j in group && g[j] == n
  {
    if |group| > 0 {
      HoldsMember(g, group[1..], n);
      if exists j: nat :: j in group && g[j] == n {
        var j: nat :| j in group && g[j] == n;
        assert j == group[0] || j in group[1..];
      }
    }
  }

  /**
   * is_valid(n, cell): n is absent from the cell's row, its column and its
   * block; the cell's own current value is part of each scan.
   */
  predicate IsValid(g: seq<int>, n: int, i: nat)
    requires |g| == 81 && i < 81
  {
    !Holds(g, RowCells(RowOf(i)), n)
    && !Holds(g, ColumnCells(ColOf(i)), n)
    && !Holds(g, BlockCells(BlockOf(i).0, BlockOf(i).1), n)
  }

  /** is_valid agrees with a brute-force scan over all 81 cells. */
  lemma IsValidScan(g: seq<int>, n: int, i: nat)
    requires |g| == 81 && i < 81
    ensures IsValid(g, n, i) <==> forall j :: 0 <= j < 81 && Related(i, j) ==> g[j] != n
  {
    var row, col, block := RowCells(RowOf(i)), ColumnCells(ColOf(i)), BlockCells(BlockOf(i).0, BlockOf(i).1);
    HoldsMember(g, row, n);
    HoldsMember(g, col, n);
    HoldsMember(g, block, n);
    RowCellsMembers(RowOf(i));
    ColumnCellsMembers(ColOf(i));
    BlockCellsMembers(BlockOf(i).0, BlockOf(i).1);
    if !IsValid(g, n, i) {
      var j: nat :| (j in row || j in col || j in block) && g[j] == n;
      assert Related(i, j);
    }
  }

  /** The cell's own value is part of the scan: is_valid never accepts the value the cell already holds. */
  lemma IsValidIncludesCell(g: seq<int>, n: int, i: nat)
    requires |g| == 81 && i < 81 && IsValid(g, n, i)
    ensures g[i] != n
  {
    IsValidScan(g, n, i);
  }

  /** Cell.is_empty. */
  predicate IsEmpty(v: int) { v == 0 }

  /** Every cell holds a digit 0..9 (the Cell value validator). */
  predicate ValidValues(g: seq<int>) {
    forall j :: 0 <= j < |g| ==> 0 <= g[j] <= 9
  }

  /** No cell is empty. */
  predicate Complete(g: seq<int>) {
    forall j :: 0 <= j < |g| ==> !IsEmpty(g[j])
  }

  /** No two distinct related cells hold the same nonzero digit. */
  predicate NoConflicts(g: seq<int>)
    requires |g| == 81
  {
    forall i, j :: 0 <= i < 81 && 0 <= j < 81 && i != j && Related(i, j) && g[i] != 0 ==> g[i] != g[j]
  }

  /** The first empty cell at index k or later, in row-major order. */
  function FirstEmptyFrom(g: seq<int>, k: nat): (r: Option<nat>)
    requires k <= |g|
    ensures r.Some? ==> k <= r.value < |g| && IsEmpty(g[r.value])
    decreases |g| - k
  {
    if k == |g| then None
    else if IsEmpty(g[k]) then Some(k)
    else FirstEmptyFrom(g, k + 1)
  }

  /** The scan from k finds nothing exactly when no cell from k on is empty, and otherwise the first one. */
  lemma {:induction false} FirstEmptyFromIsFirst(g: seq<int>, k: nat)
    requires k <= |g|
    ensures FirstEmptyFrom(g, k).None? <==> forall j :: k <= j < |g| ==> !IsEmpty(g[j])
    ensures FirstEmptyFrom(g, k).Some? ==> forall j :: k <= j < FirstEmptyFrom(g, k).value ==> !IsEmpty(g[j])
    decreases |g| - k
  {
    if k < |g| && !IsEmpty(g[k]) {
      FirstEmptyFromIsFirst(g, k + 1);
    }
  }

  /** get_empty_cell: the first empty cell in row-major order, or none. */
  function FirstEmpty(g: seq<int>): (r: Option<nat>)
    ensures r.Some? ==> r.value < |g| && IsEmpty(g[r.value])
  {
    FirstEmptyFrom(g, 0)
  }

  /** get_empty_cell finds no cell exactly when the board is complete, and otherwise the first empty one. */
  lemma FirstEmptyIsFirst(g: seq<int>)
    ensures FirstEmpty(g).None? <==> Complete(g)
    ensures FirstEmpty(g).Some? ==> forall j :: 0 <= j < FirstEmpty(g).value ==> !IsEmpty(g[j])
  {
    FirstEmptyFromIsFirst(g, 0);
  }

  /** Number of empty cells; it drops by one with every placement. */
  function EmptyCount(g: seq<int>): nat
  {
    if g == [] then 0 else (if IsEmpty(g[0]) then 1 else 0) + EmptyCount(g[1..])
  }

  lemma {:induction false} EmptyCountFill(g: seq<int>, i: nat, n: int)
    requires i < |g| && IsEmpty(g[i]) && !IsEmpty(n)
    ensures EmptyCount(g[i := n]) + 1 == EmptyCount(g)
  {
    if i == 0 {
      assert g[i := n][1..] == g[1..];
    } else {
      assert g[i := n][1..] == g[1..][i - 1 := n];
      EmptyCountFill(g[1..], i - 1, n);
    }
  }
}
