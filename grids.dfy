/** The cell store and its transformations: in-place put, insertion and deletion with
    shifting (the boundary line is discarded), fill and clear of one row or column, and
    the emptiness queries. Every operation keeps the grid GridRows x GridColumns. */
module Grids {
  import opened Constants
  import opened Actions
  import opened Cursors

  /** The externally visible editable state. */
  datatype Grid = Grid(cursor: Cursor, cells: Cells)

  /** Exactly GridRows rows of exactly GridColumns cells. */
  predicate WellFormedCells(cells: Cells) {
    |cells| == GridRows && forall i :: 0 <= i < |cells| ==> |cells[i]| == GridColumns
  }

  predicate ValidGrid(g: Grid) {
    InBounds(g.cursor) && WellFormedCells(g.cells)
  }

  /** What the reducers demand of a command: in-range coordinates and lines of the right
      length. The core never checks these; a violation is an internal contract error. */
  predicate WellFormedAction(a: Action) {
    match a
    case SetGrid(cells) => WellFormedCells(cells)
    case MoveCursorTo(row, column) => InBounds(Cursor(row, column))
    case FillRowAt(row, values) => 0 <= row < GridRows && |values| == GridColumns
    case FillColumnAt(column, values) => 0 <= column < GridColumns && |values| == GridRows
    case ClearRowAt(row) => 0 <= row < GridRows
    case ClearColumnAt(column) => 0 <= column < GridColumns
    case _ => true
  }

  /** A line of `n` blank cells. */
  function Blanks(n: nat): (r: seq<string>)
    ensures |r| == n && forall j :: 0 <= j < n ==> r[j] == Blank
  {
    seq(n, _ => Blank)
  }

  // Line helpers: the three slice-and-spread shapes the operations are built from.

  /** `s` with the element at `i` replaced by `v`. */
  function Replaced<T>(s: seq<T>, i: int, v: T): (r: seq<T>)
    requires 0 <= i < |s|
    ensures r == s[i := v]
  {
    s[..i] + [v] + s[i + 1..]
  }

  /** `s` with `v` inserted at `i` and the elements from `i` on moved one place on; the
      last element falls off, so the length is kept. */
  function InsertedAt<T>(s: seq<T>, i: int, v: T): (r: seq<T>)
    requires 0 <= i < |s|
    ensures |r| == |s|
    ensures forall j :: 0 <= j < |s| ==> r[j] == if j < i then s[j] else if j == i then v else s[j - 1]
  {
    s[..i] + [v] + s[i..|s| - 1]
  }

  /** `s` with the element at `i` removed and the later elements moved one place back;
      `fill` enters at the end, so the length is kept. */
  function RemovedAt<T>(s: seq<T>, i: int, fill: T): (r: seq<T>)
    requires 0 <= i < |s|
    ensures |r| == |s|
    ensures forall j :: 0 <= j < |s| ==> r[j] == if j == |s| - 1 then fill else if j < i then s[j] else s[j + 1]
  {
    s[..i] + s[i + 1..] + [fill]
  }

  // The cell operations.

  /** Writes `value` at `loc`; every other cell is unchanged. */
  function PutValueAt(cells: Cells, loc: Cursor, value: string): (r: Cells)
    requires WellFormedCells(cells) && InBounds(loc)
    ensures WellFormedCells(r)
    ensures r[loc.row][loc.column] == value
    ensures forall i, j :: 0 <= i < GridRows && 0 <= j < GridColumns && (i != loc.row || j != loc.column) ==>
              r[i][j] == cells[i][j]
  {
    var changeRow := cells[loc.row];
    Replaced(cells, loc.row, Replaced(changeRow, loc.column, value))
  }

  /** Inserts a blank at `loc`, shifting the rest of the cursor row right; the row's last
      cell is discarded and every other row is unchanged. */
  function InsertCellShiftRight(cells: Cells, loc: Cursor): (r: Cells)
    requires WellFormedCells(cells) && InBounds(loc)
    ensures WellFormedCells(r)
    ensures forall i :: 0 <= i < GridRows && i != loc.row ==> r[i] == cells[i]
    ensures forall j :: 0 <= j < GridColumns ==>
              r[loc.row][j] == if j < loc.column then cells[loc.row][j]
                               else if j == loc.column then Blank
                               else cells[loc.row][j - 1]
  {
    var changeRow := cells[loc.row];
    Replaced(cells, loc.row, InsertedAt(changeRow, loc.column, Blank))
  }

  /** What `insertCellShiftDown` computes. Each row from the cursor row down gets a
      value spliced in at the cursor column, shifting that row's later cells right: a
      blank in the cursor row and, below it, the cell that was above. Rows above the
      cursor are unchanged. */
  function ShiftedDown(cells: Cells, loc: Cursor): (r: Cells)
    requires WellFormedCells(cells) && InBounds(loc)
    ensures WellFormedCells(r)
    ensures forall i :: 0 <= i < loc.row ==> r[i] == cells[i]
    ensures forall i, j {:trigger r[i][j]} :: loc.row <= i < GridRows && 0 <= j < GridColumns ==>
              r[i][j] == if j < loc.column then cells[i][j]
                         else if j == loc.column then (if i == loc.row then Blank else cells[i - 1][loc.column])
                         else cells[i][j - 1]
  {
    seq(|cells|, i requires 0 <= i < |cells| =>
      if i < loc.row then cells[i]
      else InsertedAt(cells[i], loc.column, if i == loc.row then Blank else cells[i - 1][loc.column]))
  }
  /** Row `i` at or below the cursor row of the shifted-down grid, as one splice. */
  lemma ShiftedDownRow(cells: Cells, loc: Cursor, i: int)
    requires WellFormedCells(cells) && InBounds(loc) && loc.row <= i < |cells|
    ensures ShiftedDown(cells, loc)[i]
      == InsertedAt(cells[i], loc.column, if i == loc.row then Blank else cells[i - 1][loc.column])
  {
  }


  /** `insertCellShiftDown`: copies the rows and overwrites each one from the cursor row
      down, carrying the value to splice in from one row to the next. */
  method InsertCellShiftDown(cells: Cells, loc: Cursor) returns (result: Cells)
    requires WellFormedCells(cells) && InBounds(loc)
    ensures result == ShiftedDown(cells, loc)
  {
    ghost var target := ShiftedDown(cells, loc);
    result := cells;
    var column := loc.column;
    var newValue := Blank;
    var r := loc.row;
    while r < |cells|
      invariant loc.row <= r <= |cells|
      invariant |result| == |cells|
      invariant forall k :: 0 <= k < |cells| ==> result[k] == if k < r then target[k] else cells[k]
      invariant newValue == if r == loc.row then Blank else cells[r - 1][column]
    {
      var changeRow := cells[r];
      ShiftedDownRow(cells, loc, r);
      result := result[r := changeRow[..column] + [newValue] + changeRow[column..|changeRow| - 1]];
      newValue := changeRow[column];
      r := r + 1;
    }
  }

  /** Inserts a blank row at `row`; the last row is discarded. */
  function InsertRowAt(cells: Cells, row: int): (r: Cells)
    requires WellFormedCells(cells) && 0 <= row < GridRows
    ensures WellFormedCells(r)
    ensures forall i :: 0 <= i < GridRows ==>
              r[i] == if i < row then cells[i] else if i == row then Blanks(GridColumns) else cells[i - 1]
  {
    InsertedAt(cells, row, Blanks(GridColumns))
  }

  /** Inserts a blank column at `column`; the last column is discarded. */
  function InsertColumnAt(cells: Cells, column: int): (r: Cells)
    requires WellFormedCells(cells) && 0 <= column < GridColumns
    ensures WellFormedCells(r)
    ensures forall i, j :: 0 <= i < GridRows && 0 <= j < GridColumns ==>
              r[i][j] == if j < column then cells[i][j] else if j == column then Blank else cells[i][j - 1]
  {
    seq(|cells|, i requires 0 <= i < |cells| => InsertedAt(cells[i], column, Blank))
  }

  /** Removes the cell at `loc`, shifting the rest of the cursor row left; a blank enters
      at the row's end and every other row is unchanged. */
  function DeleteCellShiftLeft(cells: Cells, loc: Cursor): (r: Cells)
    requires WellFormedCells(cells) && InBounds(loc)
    ensures WellFormedCells(r)
    ensures forall i :: 0 <= i < GridRows && i != loc.row ==> r[i] == cells[i]
    ensures forall j :: 0 <= j < GridColumns ==>
              r[loc.row][j] == if j == GridColumns - 1 then Blank
                               else if j < loc.column then cells[loc.row][j]
                               else cells[loc.row][j + 1]
  {
    var changeRow := cells[loc.row];
    Replaced(cells, loc.row, RemovedAt(changeRow, loc.column, Blank))
  }

  /** What `deleteCellShiftUp` computes. Each row strictly below the cursor row gets a
      value spliced in at the cursor column, shifting that row's later cells right: a
      blank in the last row and, above it, the cell that was below. The cursor row and
      the rows above it are unchanged. */
  function ShiftedUp(cells: Cells, loc: Cursor): (r: Cells)
    requires WellFormedCells(cells) && InBounds(loc)
    ensures WellFormedCells(r)
    ensures forall i :: 0 <= i <= loc.row ==> r[i] == cells[i]
    ensures forall i, j {:trigger r[i][j]} :: loc.row < i < GridRows && 0 <= j < GridColumns ==>
              r[i][j] == if j < loc.column then cells[i][j]
                         else if j == loc.column then (if i == GridRows - 1 then Blank else cells[i + 1][loc.column])
                         else cells[i][j - 1]
  {
    seq(|cells|, i requires 0 <= i < |cells| =>
      if i <= loc.row then cells[i]
      else InsertedAt(cells[i], loc.column, if i == |cells| - 1 then Blank else cells[i + 1][loc.column]))
  }
  /** Row `i` below the cursor row of the shifted-up grid, as one splice. */
  lemma ShiftedUpRow(cells: Cells, loc: Cursor, i: int)
    requires WellFormedCells(cells) && InBounds(loc) && loc.row < i < |cells|
    ensures ShiftedUp(cells, loc)[i]
      == InsertedAt(cells[i], loc.column, if i == |cells| - 1 then Blank else cells[i + 1][loc.column])
  {
  }


  /** `deleteCellShiftUp`: copies the rows and overwrites each one from the last row up to
      (not including) the cursor row, carrying the value to splice in upward. */
  method DeleteCellShiftUp(cells: Cells, loc: Cursor) returns (result: Cells)
    requires WellFormedCells(cells) && InBounds(loc)
    ensures result == ShiftedUp(cells, loc)
  {
    ghost var target := ShiftedUp(cells, loc);
    result := cells;
    var column := loc.column;
    var newValue := Blank;
    var r := |cells| - 1;
    while r > loc.row
      invariant loc.row <= r <= |cells| - 1
      invariant |result| == |cells|
      invariant forall k :: 0 <= k < |cells| ==> result[k] == if k > r then target[k] else cells[k]
      invariant newValue == if r == |cells| - 1 then Blank else cells[r + 1][column]
    {
      var changeRow := cells[r];
      ShiftedUpRow(cells, loc, r);
      result := result[r := changeRow[..column] + [newValue] + changeRow[column..|changeRow| - 1]];
      newValue := changeRow[column];
      r := r - 1;
    }
  }

  /** Removes row `row`, shifting later rows up; a blank row enters at the bottom. */
  function DeleteRowAt(cells: Cells, row: int): (r: Cells)
    requires WellFormedCells(cells) && 0 <= row < GridRows
    ensures WellFormedCells(r)
    ensures forall i :: 0 <= i < GridRows ==>
              r[i] == if i == GridRows - 1 then Blanks(GridColumns) else if i < row then cells[i] else cells[i + 1]
  {
    RemovedAt(cells, row, Blanks(GridColumns))
  }

  /** Removes column `column`, shifting later columns left; a blank column enters at the
      right edge. */
  function DeleteColumnAt(cells: Cells, column: int): (r: Cells)
    requires WellFormedCells(cells) && 0 <= column < GridColumns
    ensures WellFormedCells(r)
    ensures forall i, j :: 0 <= i < GridRows && 0 <= j < GridColumns ==>
              r[i][j] == if j == GridColumns - 1 then Blank else if j < column then cells[i][j] else cells[i][j + 1]
  {
    seq(|cells|, i requires 0 <= i < |cells| => RemovedAt(cells[i], column, Blank))
  }

  /** Replaces row `row` by `values` and nothing else. The grid stays well formed exactly
      when `values` has GridColumns cells. */
  function FillRow(cells: Cells, row: int, values: seq<string>): (r: Cells)
    requires WellFormedCells(cells) && 0 <= row < GridRows
    ensures |r| == GridRows && r[row] == values
    ensures forall i :: 0 <= i < GridRows && i != row ==> r[i] == cells[i]
    ensures WellFormedCells(r) <==> |values| == GridColumns
  {
    Replaced(cells, row, values)
  }

  /** Replaces column `column` by `values` and nothing else. */
  function FillColumn(cells: Cells, column: int, values: seq<string>): (r: Cells)
    requires WellFormedCells(cells) && 0 <= column < GridColumns && |values| == GridRows
    ensures WellFormedCells(r)
    ensures forall i, j :: 0 <= i < GridRows && 0 <= j < GridColumns ==>
              r[i][j] == if j == column then values[i] else cells[i][j]
  {
    seq(|cells|, i requires 0 <= i < |cells| => Replaced(cells[i], column, values[i]))
  }

  /** Blanks row `row` and nothing else. */
  function ClearRow(cells: Cells, row: int): (r: Cells)
    requires WellFormedCells(cells) && 0 <= row < GridRows
    ensures WellFormedCells(r)
    ensures r[row] == Blanks(GridColumns)
    ensures forall i :: 0 <= i < GridRows && i != row ==> r[i] == cells[i]
  {
    FillRow(cells, row, Blanks(GridColumns))
  }

  /** Blanks column `column` and nothing else. */
  function ClearColumn(cells: Cells, column: int): (r: Cells)
    requires WellFormedCells(cells) && 0 <= column < GridColumns
    ensures WellFormedCells(r)
    ensures forall i, j :: 0 <= i < GridRows && 0 <= j < GridColumns ==>
              r[i][j] == if j == column then Blank else cells[i][j]
  {
    seq(|cells|, i requires 0 <= i < |cells| => Replaced(cells[i], column, Blank))
  }

  /** The cells of column `column`, top to bottom. */
  function ReadColumnFromCells(cells: Cells, column: int): (r: seq<string>)
    requires WellFormedCells(cells) && 0 <= column < GridColumns
    ensures |r| == GridRows
    ensures forall i :: 0 <= i < GridRows ==> r[i] == cells[i][column]
  {
    seq(|cells|, i requires 0 <= i < |cells| => cells[i][column])
  }

  // Emptiness queries.

  /** The inclusive rectangle lies in the grid (it may be empty). */
  predicate RectangleInGrid(rangeStart: Cursor, rangeEnd: Cursor) {
    0 <= rangeStart.row && rangeEnd.row < GridRows && 0 <= rangeStart.column && rangeEnd.column < GridColumns
  }

  /** Every cell of the inclusive rectangle is blank. */
  predicate RangeEmpty(cells: Cells, rangeStart: Cursor, rangeEnd: Cursor)
    requires WellFormedCells(cells) && RectangleInGrid(rangeStart, rangeEnd)
  {
    forall i, j :: rangeStart.row <= i <= rangeEnd.row && rangeStart.column <= j <= rangeEnd.column ==>
      cells[i][j] == Blank
  }

  /** `cellRangeEmpty`: a nested scan that stops at the first non-blank cell. */
  method CellRangeEmpty(cells: Cells, rangeStart: Cursor, rangeEnd: Cursor) returns (empty: bool)
    requires WellFormedCells(cells) && RectangleInGrid(rangeStart, rangeEnd)
    ensures empty == RangeEmpty(cells, rangeStart, rangeEnd)
  {
    var row := rangeStart.row;
    while row <= rangeEnd.row
      invariant rangeStart.row <= row
      invariant forall i, j :: rangeStart.row <= i < row && i <= rangeEnd.row && rangeStart.column <= j <= rangeEnd.column ==>
                  cells[i][j] == Blank
    {
      var selectRow := cells[row];
      var column := rangeStart.column;
      while column <= rangeEnd.column
        invariant rangeStart.column <= column
        invariant forall j :: rangeStart.column <= j < column && j <= rangeEnd.column ==> selectRow[j] == Blank
      {
        if selectRow[column] != Blank {
          return false;
        }
        column := column + 1;
      }
      row := row + 1;
    }
    return true;
  }

  /** The grid in which every cell is blank. */
  function EmptyCells(): (r: Cells)
    ensures WellFormedCells(r)
  {
    seq(GridRows, _ => Blanks(GridColumns))
  }

  /** `cellsEmpty`: the whole grid as one rectangle. It holds exactly of the all-blank
      grid. */
  predicate CellsEmpty(cells: Cells)
    requires WellFormedCells(cells)
    ensures CellsEmpty(cells) <==> cells == EmptyCells()
  {
    var full := RangeEmpty(cells, Cursor(0, 0), Cursor(GridRows - 1, GridColumns - 1));
    if full then
      SameCells(cells, EmptyCells());
      full
    else
      full
  }

  /** Two well-formed grids with the same cell everywhere are equal. */
  lemma SameCells(a: Cells, b: Cells)
    requires WellFormedCells(a) && WellFormedCells(b)
    requires forall i, j :: 0 <= i < GridRows && 0 <= j < GridColumns ==> a[i][j] == b[i][j]
    ensures a == b
  {
    forall i | 0 <= i < GridRows
      ensures a[i] == b[i]
    {
      assert forall j :: 0 <= j < GridColumns ==> a[i][j] == b[i][j];
    }
  }

  // The seed grid.

  const InitialCells: Cells := [
    ["", "", "", "", "", "", "", "", "", ""],
    ["", "", "", "", "", "", "", "", "", ""],
    ["", "", "", "", "o", "o", "", "", "", ""],
    ["", "", "", "o", "", "", "o", "", "", ""],
    ["", "", "o", "o", "", "", "o", "o", "", ""],
    ["", "", "O", "", "", "", "", "O", "", ""],
    ["", "O", "O", "", "", "", "", "O", "O", ""],
    ["", "O", "O", "O", "", "", "O", "O", "O", ""],
    ["", "", "", "", "O", "O", "", "", "", ""],
    ["", "", "", "", "", "", "", "", "", ""]
  ]

  const InitialGrid: Grid := Grid(Cursor(0, 0), InitialCells)

  /** The seed grid is a valid 10 x 10 grid, and it is not blank. */
  lemma InitialGridValid()
    ensures ValidGrid(InitialGrid)
    ensures !CellsEmpty(InitialCells)
  {
    assert InitialCells[2][4] != Blank;
  }

  // The reducers.

  /** The cells after a command, computed with the cursor as it was before the command.
      Navigation commands and Undo/Redo leave the cells as they are. */
  function CellsReducer(state: Cells, cursor: Cursor, action: Action): (r: Cells)
    requires WellFormedCells(state) && InBounds(cursor) && WellFormedAction(action)
    ensures WellFormedCells(r)
    ensures IsNavigation(action) || action.Undo? || action.Redo? ==> r == state
  {
    match action
    case ClearGrid => InitialGridValid(); InitialCells
    case SetGrid(cells) => cells
    case PutValue(value) => PutValueAt(state, cursor, value)
    case InsertCell(shiftDirection) =>
      if shiftDirection == Horizontal then InsertCellShiftRight(state, cursor) else ShiftedDown(state, cursor)
    case InsertRow => InsertRowAt(state, cursor.row)
    case InsertColumn => InsertColumnAt(state, cursor.column)
    case DeleteCell(shiftDirection) =>
      if shiftDirection == Horizontal then DeleteCellShiftLeft(state, cursor) else ShiftedUp(state, cursor)
    case DeleteRow => DeleteRowAt(state, cursor.row)
    case DeleteColumn => DeleteColumnAt(state, cursor.column)
    case FillRowAt(row, values) => FillRow(state, row, values)
    case FillColumnAt(column, values) => FillColumn(state, column, values)
    case ClearRowAt(row) => ClearRow(state, row)
    case ClearColumnAt(column) => ClearColumn(state, column)
    case _ => state
  }

  /** The grid after a command: the cursor from the cursor reducer and the cells from
      the cells reducer, both given the state before the command. A valid grid stays
      valid; navigation changes only the cursor, every other command only the cells. */
  function GridReducer(state: Grid, action: Action): (r: Grid)
    requires ValidGrid(state) && WellFormedAction(action)
    ensures ValidGrid(r)
    ensures IsNavigation(action) ==> r.cells == state.cells
    ensures !IsNavigation(action) ==> r.cursor == state.cursor
    ensures action.Undo? || action.Redo? ==> r == state
  {
    Grid(CursorReducer(state.cursor, action), CellsReducer(state.cells, state.cursor, action))
  }

  // Laws of the cell operations.

  /** Deleting the row that was just inserted gives back the original cells except the
      last row, which the insert pushed off and which is now blank. */
  lemma DeleteRowAfterInsertRow(cells: Cells, row: int)
    requires WellFormedCells(cells) && 0 <= row < GridRows
    ensures DeleteRowAt(InsertRowAt(cells, row), row) == ClearRow(cells, GridRows - 1)
  {
    var a := DeleteRowAt(InsertRowAt(cells, row), row);
    var b := ClearRow(cells, GridRows - 1);
    assert forall i :: 0 <= i < GridRows ==> a[i] == b[i];
  }

  /** Deleting the column that was just inserted gives back the original cells except
      the last column, which is now blank. */
  lemma DeleteColumnAfterInsertColumn(cells: Cells, column: int)
    requires WellFormedCells(cells) && 0 <= column < GridColumns
    ensures DeleteColumnAt(InsertColumnAt(cells, column), column) == ClearColumn(cells, GridColumns - 1)
  {
    SameCells(DeleteColumnAt(InsertColumnAt(cells, column), column), ClearColumn(cells, GridColumns - 1));
  }

  /** Re-inserting a blank row where one was deleted gives back the original cells with
      that row blank. */
  lemma InsertRowAfterDeleteRow(cells: Cells, row: int)
    requires WellFormedCells(cells) && 0 <= row < GridRows
    ensures InsertRowAt(DeleteRowAt(cells, row), row) == ClearRow(cells, row)
  {
    var a := InsertRowAt(DeleteRowAt(cells, row), row);
    var b := ClearRow(cells, row);
    assert forall i :: 0 <= i < GridRows ==> a[i] == b[i];
  }

  /** Re-inserting a blank column where one was deleted gives back the original cells
      with that column blank. */
  lemma InsertColumnAfterDeleteColumn(cells: Cells, column: int)
    requires WellFormedCells(cells) && 0 <= column < GridColumns
    ensures InsertColumnAt(DeleteColumnAt(cells, column), column) == ClearColumn(cells, column)
  {
    SameCells(InsertColumnAt(DeleteColumnAt(cells, column), column), ClearColumn(cells, column));
  }

  /** Deleting the cell that was just inserted gives back the original cells except the
      cursor row's last cell, which is now blank. */
  lemma DeleteCellAfterInsertCell(cells: Cells, loc: Cursor)
    requires WellFormedCells(cells) && InBounds(loc)
    ensures DeleteCellShiftLeft(InsertCellShiftRight(cells, loc), loc)
         == PutValueAt(cells, Cursor(loc.row, GridColumns - 1), Blank)
  {
    SameCells(DeleteCellShiftLeft(InsertCellShiftRight(cells, loc), loc),
              PutValueAt(cells, Cursor(loc.row, GridColumns - 1), Blank));
  }

  /** Re-inserting a blank cell where one was deleted gives back the original cells with
      the cursor cell blank. */
  lemma InsertCellAfterDeleteCell(cells: Cells, loc: Cursor)
    requires WellFormedCells(cells) && InBounds(loc)
    ensures InsertCellShiftRight(DeleteCellShiftLeft(cells, loc), loc) == PutValueAt(cells, loc, Blank)
  {
    SameCells(InsertCellShiftRight(DeleteCellShiftLeft(cells, loc), loc), PutValueAt(cells, loc, Blank));
  }

  /** Putting back the value a grid had at `loc` restores that grid from any grid that
      differs from it at most at `loc`. */
  lemma PutValueRestoresCell(x: Cells, cells: Cells, loc: Cursor)
    requires WellFormedCells(x) && WellFormedCells(cells) && InBounds(loc)
    requires forall i, j :: 0 <= i < GridRows && 0 <= j < GridColumns && (i != loc.row || j != loc.column) ==>
               x[i][j] == cells[i][j]
    ensures PutValueAt(x, loc, cells[loc.row][loc.column]) == cells
  {
    SameCells(PutValueAt(x, loc, cells[loc.row][loc.column]), cells);
  }

  /** Filling row `row` with the row a grid had there restores that grid from any grid
      that differs from it at most in that row. */
  lemma FillRowRestoresRow(x: Cells, cells: Cells, row: int)
    requires WellFormedCells(x) && WellFormedCells(cells) && 0 <= row < GridRows
    requires forall i :: 0 <= i < GridRows && i != row ==> x[i] == cells[i]
    ensures FillRow(x, row, cells[row]) == cells
  {
    var a := FillRow(x, row, cells[row]);
    assert forall i :: 0 <= i < GridRows ==> a[i] == cells[i];
  }

  /** Filling column `column` with the column a grid had there restores that grid from
      any grid that differs from it at most in that column. In particular
      `FillColumn(cells, c, ReadColumnFromCells(cells, c)) == cells`. */
  lemma FillColumnRestoresColumn(x: Cells, cells: Cells, column: int)
    requires WellFormedCells(x) && WellFormedCells(cells) && 0 <= column < GridColumns
    requires forall i, j :: 0 <= i < GridRows && 0 <= j < GridColumns && j != column ==> x[i][j] == cells[i][j]
    ensures FillColumn(x, column, ReadColumnFromCells(cells, column)) == cells
  {
    SameCells(FillColumn(x, column, ReadColumnFromCells(cells, column)), cells);
  }

  /** The range query over one whole row holds exactly when the row is blank. */
  lemma RowEmptyIsBlankRow(cells: Cells, row: int)
    requires WellFormedCells(cells) && 0 <= row < GridRows
    ensures RangeEmpty(cells, Cursor(row, 0), Cursor(row, GridColumns - 1)) <==> cells[row] == Blanks(GridColumns)
  {
    if RangeEmpty(cells, Cursor(row, 0), Cursor(row, GridColumns - 1)) {
      assert forall j :: 0 <= j < GridColumns ==> cells[row][j] == Blanks(GridColumns)[j];
    }
  }

  /** The range query over one whole column holds exactly when the column is blank. */
  lemma ColumnEmptyIsBlankColumn(cells: Cells, column: int)
    requires WellFormedCells(cells) && 0 <= column < GridColumns
    ensures RangeEmpty(cells, Cursor(0, column), Cursor(GridRows - 1, column))
        <==> ReadColumnFromCells(cells, column) == Blanks(GridRows)
  {
    var col := ReadColumnFromCells(cells, column);
    if RangeEmpty(cells, Cursor(0, column), Cursor(GridRows - 1, column)) {
      assert forall i :: 0 <= i < GridRows ==> col[i] == Blanks(GridRows)[i];
    } else {
      var i, j :| 0 <= i <= GridRows - 1 && column <= j <= column && cells[i][j] != Blank;
      assert col[i] != Blanks(GridRows)[i];
    }
  }

  /** Clearing a blank row or a blank column changes nothing. */
  lemma ClearingBlankLineIsNoOp(cells: Cells, row: int, column: int)
    requires WellFormedCells(cells) && 0 <= row < GridRows && 0 <= column < GridColumns
    ensures RangeEmpty(cells, Cursor(row, 0), Cursor(row, GridColumns - 1)) ==> ClearRow(cells, row) == cells
    ensures RangeEmpty(cells, Cursor(0, column), Cursor(GridRows - 1, column)) ==> ClearColumn(cells, column) == cells
  {
    RowEmptyIsBlankRow(cells, row);
    if RangeEmpty(cells, Cursor(row, 0), Cursor(row, GridColumns - 1)) {
      FillRowRestoresRow(cells, cells, row);
    }
    if RangeEmpty(cells, Cursor(0, column), Cursor(GridRows - 1, column)) {
      SameCells(ClearColumn(cells, column), cells);
    }
  }

  /** The vertical insert splices into the cursor row exactly as the horizontal insert
      does: it shifts that row's cells right instead of shifting the column down. */
  lemma ShiftedDownSplicesCursorRow(cells: Cells, loc: Cursor)
    requires WellFormedCells(cells) && InBounds(loc)
    ensures ShiftedDown(cells, loc)[loc.row] == InsertCellShiftRight(cells, loc)[loc.row]
  {
    var a := ShiftedDown(cells, loc)[loc.row];
    var b := InsertCellShiftRight(cells, loc)[loc.row];
    assert forall j :: 0 <= j < GridColumns ==> a[j] == b[j];
  }
}
