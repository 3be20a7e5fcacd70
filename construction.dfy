/**
 * Building a board from nine strings of nine digit characters
 * (Board.from_array_of_strings, Row.from_array, Cell.from_str_value).
 * Every way the source can fail (a non-digit character, a coordinate or a
 * row index out of range, a row or a board of the wrong length) is the
 * single outcome None.
 */
module Construction {
  import opened Wrappers
  import opened Arena

  predicate IsDigit(c: char) { '0' <= c <= '9' }

  /** int(c) for a digit character. */
  function DigitValue(c: char): int { c as int - '0' as int }

  /** The character of a digit 0..9: the inverse of DigitValue. */
  function DigitChar(v: int): char
    requires 0 <= v <= 9
  {
    ('0' as int + v) as char
  }

  predicate AllDigits(chars: string) {
    forall k :: 0 <= k < |chars| ==> IsDigit(chars[k])
  }

  /** Nine rows of nine digit characters. */
  predicate WellFormed(digitRows: seq<string>) {
    |digitRows| == 9 && forall y :: 0 <= y < 9 ==> |digitRows[y]| == 9 && AllDigits(digitRows[y])
  }

  /**
   * Cell.from_str_value(x, y, c): the value is int(c), then the x, y and
   * value validators run.
   */
  function CellFromStrValue(x: int, y: int, c: char): (r: Option<int>)
    ensures r.Some? <==> 0 <= x < 9 && 0 <= y < 9 && IsDigit(c)
    ensures r.Some? ==> r.value == DigitValue(c) && 0 <= r.value <= 9
  {
    if !IsDigit(c) then None
    else
      var v := DigitValue(c);
      if !(0 <= x < 9) || !(0 <= y < 9) || !(0 <= v <= 9) then None else Some(v)
  }

  /**
   * The cells comprehension of Row.from_array, enumerating columns from x:
   * every character must be a digit and every column it lands in must be
   * on the board.
   */
  function CellsFromArray(x: int, y: int, chars: string): (r: Option<seq<int>>)
    ensures r.Some? <==> chars == [] || (0 <= x && x + |chars| <= 9 && 0 <= y < 9 && AllDigits(chars))
    ensures r.Some? ==>
              |r.value| == |chars| && forall k :: 0 <= k < |chars| ==> r.value[k] == DigitValue(chars[k])
    decreases |chars|
  {
    if chars == [] then Some([])
    else
      var tail := chars[1..];
      assert forall k :: 1 <= k < |chars| ==> chars[k] == tail[k - 1];
      match CellFromStrValue(x, y, chars[0])
      case None => None
      case Some(v) =>
        match CellsFromArray(x + 1, y, tail)
        case None => None
        case Some(rest) =>
          var r := [v] + rest;
          assert forall k :: 1 <= k < |chars| ==> r[k] == rest[k - 1];
          Some(r)
  }

  /** Row.from_array(y, chars): the cells, then the ix and length validators. */
  function RowFromArray(y: int, chars: string): (r: Option<seq<int>>)
    ensures r.Some? <==> 0 <= y < 9 && |chars| == 9 && AllDigits(chars)
    ensures r.Some? ==> |r.value| == 9 && forall x :: 0 <= x < 9 ==> r.value[x] == DigitValue(chars[x])
  {
    match CellsFromArray(0, y, chars)
    case None => None
    case Some(cells) =>
      if !(0 <= y < 9) || |cells| != 9 then None else Some(cells)
  }

  /** The rows comprehension of from_array_of_strings, enumerating rows from y. */
  function RowsFromArray(y: int, digitRows: seq<string>): (r: Option<seq<seq<int>>>)
    ensures r.Some? <==> forall k :: 0 <= k < |digitRows| ==> RowFromArray(y + k, digitRows[k]).Some?
    ensures r.Some? ==>
              |r.value| == |digitRows| && forall k :: 0 <= k < |digitRows| ==> r.value[k] == RowFromArray(y + k, digitRows[k]).value
    decreases |digitRows|
  {
    if digitRows == [] then Some([])
    else match RowFromArray(y, digitRows[0])
      case None => None
      case Some(row) =>
        match RowsFromArray(y + 1, digitRows[1..])
        case None => None
        case Some(rest) => Some([row] + rest)
  }

  /**
   * Board.from_array_of_strings: the rows, then the board's row-count
   * validator; the cells are laid out in the flat arena.
   */
  function FromArrayOfStrings(digitRows: seq<string>): (r: Option<seq<int>>)
    ensures r.Some? <==> WellFormed(digitRows)
    ensures r.Some? ==>
              |r.value| == 81 && ValidValues(r.value)
              && forall x, y :: 0 <= x < 9 && 0 <= y < 9 ==> r.value[Idx(x, y)] == DigitValue(digitRows[y][x])
  {
    match RowsFromArray(0, digitRows)
    case None => None
    case Some(rows) =>
      if |rows| != 9 then None
      else
        var g := seq(81, i requires 0 <= i < 81 => rows[RowOf(i)][ColOf(i)]);
        forall x, y | 0 <= x < 9 && 0 <= y < 9 ensures g[Idx(x, y)] == DigitValue(digitRows[y][x]) {
          IdxCoordinates(x, y);
        }
        Some(g)
  }

  /** The nine digit strings of a grid, the form the loader hands over. */
  function ToDigitRows(g: seq<int>): (rows: seq<string>)
    requires |g| == 81 && ValidValues(g)
  {
    seq(9, y requires 0 <= y < 9 => seq(9, x requires 0 <= x < 9 => DigitChar(g[Idx(x, y)])))
  }

  /** DigitValue undoes DigitChar. */
  lemma DigitRoundTrip(v: int)
    requires 0 <= v <= 9
    ensures IsDigit(DigitChar(v)) && DigitValue(DigitChar(v)) == v
  {
  }

  /** Every grid of digits 0..9 survives the round trip through its digit strings. */
  lemma ParseRoundTrip(g: seq<int>)
    requires |g| == 81 && ValidValues(g)
    ensures FromArrayOfStrings(ToDigitRows(g)) == Some(g)
  {
    var digitRows := ToDigitRows(g);
    forall y | 0 <= y < 9 ensures |digitRows[y]| == 9 && AllDigits(digitRows[y]) {
      forall x | 0 <= x < 9 ensures IsDigit(digitRows[y][x]) {
        DigitRoundTrip(g[Idx(x, y)]);
      }
    }
    assert WellFormed(digitRows);
    var r := FromArrayOfStrings(digitRows).value;
    forall i | 0 <= i < 81 ensures r[i] == g[i] {
      var x, y := ColOf(i), RowOf(i);
      assert r[Idx(x, y)] == DigitValue(digitRows[y][x]);
      assert digitRows[y][x] == DigitChar(g[i]);
      DigitRoundTrip(g[i]);
    }
    assert r == g;
  }
}
