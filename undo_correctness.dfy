/** What the inverses promise: replaying the inverse of a command on the grid the command
    produced gives back the grid before it. The promise holds for every command except
    vertical cell shifts and clearing or replacing an all-blank grid; for those the lemmas
    at the end exhibit a grid on which the inverse fails. */
module UndoCorrectness {
  import opened Constants
  import opened Actions
  import opened Cursors
  import opened Grids
  import opened Undo
  import opened App

  // Replaying short lists of commands.

  lemma ApplyNone(g: Grid)
    requires ValidGrid(g)
    ensures ApplyActions(g, []) == g
  {
  }

  lemma {:induction false} ApplyConcat(g: Grid, first: seq<Action>, second: seq<Action>)
    requires ValidGrid(g) && AllWellFormed(first) && AllWellFormed(second)
    ensures AllWellFormed(first + second)
    ensures ApplyActions(g, first + second) == ApplyActions(ApplyActions(g, first), second)
    decreases |first|
  {
    if |first| == 0 {
      assert first + second == second;
    } else {
      assert (first + second)[0] == first[0];
      assert (first + second)[1..] == first[1..] + second;
      ApplyConcat(GridReducer(g, first[0]), first[1..], second);
    }
  }

  lemma ApplyOne(g: Grid, a: Action)
    requires ValidGrid(g) && WellFormedAction(a)
    ensures ApplyActions(g, [a]) == GridReducer(g, a)
  {
    assert [a][1..] == [];
  }

  lemma ApplyTwo(g: Grid, a: Action, b: Action)
    requires ValidGrid(g) && WellFormedAction(a) && WellFormedAction(b)
    ensures ApplyActions(g, [a, b]) == GridReducer(GridReducer(g, a), b)
  {
    assert [a, b][1..] == [b];
    ApplyOne(GridReducer(g, a), b);
  }

  lemma ApplyThree(g: Grid, a: Action, b: Action, c: Action)
    requires ValidGrid(g) && WellFormedAction(a) && WellFormedAction(b) && WellFormedAction(c)
    ensures ApplyActions(g, [a, b, c]) == GridReducer(GridReducer(GridReducer(g, a), b), c)
  {
    assert [a, b, c][1..] == [b, c];
    ApplyTwo(GridReducer(g, a), b, c);
  }

  /** Moving the cursor to a cell leaves the cells alone and puts the cursor there. */
  lemma MoveTo(g: Grid, loc: Cursor)
    requires ValidGrid(g) && InBounds(loc)
    ensures GridReducer(g, MoveCursorTo(loc.row, loc.column)) == Grid(loc, g.cells)
  {
  }

  /** One step of the grid reducer for each command an inverse uses. */
  lemma Step(g: Grid, action: Action)
    requires ValidGrid(g) && WellFormedAction(action)
    ensures action == InsertRow ==> GridReducer(g, action) == Grid(g.cursor, InsertRowAt(g.cells, g.cursor.row))
    ensures action == DeleteRow ==> GridReducer(g, action) == Grid(g.cursor, DeleteRowAt(g.cells, g.cursor.row))
    ensures action == InsertColumn ==> GridReducer(g, action) == Grid(g.cursor, InsertColumnAt(g.cells, g.cursor.column))
    ensures action == DeleteColumn ==> GridReducer(g, action) == Grid(g.cursor, DeleteColumnAt(g.cells, g.cursor.column))
    ensures action == InsertCell(Horizontal) ==> GridReducer(g, action) == Grid(g.cursor, InsertCellShiftRight(g.cells, g.cursor))
    ensures action == DeleteCell(Horizontal) ==> GridReducer(g, action) == Grid(g.cursor, DeleteCellShiftLeft(g.cells, g.cursor))
    ensures action.PutValue? ==> GridReducer(g, action) == Grid(g.cursor, PutValueAt(g.cells, g.cursor, action.value))
    ensures action.FillRowAt? ==> GridReducer(g, action) == Grid(g.cursor, FillRow(g.cells, action.row, action.values))
    ensures action.FillColumnAt? ==> GridReducer(g, action) == Grid(g.cursor, FillColumn(g.cells, action.column, action.values))
    ensures action.ClearRowAt? ==> GridReducer(g, action) == Grid(g.cursor, ClearRow(g.cells, action.row))
    ensures action.ClearColumnAt? ==> GridReducer(g, action) == Grid(g.cursor, ClearColumn(g.cells, action.column))
    ensures action.SetGrid? ==> GridReducer(g, action) == Grid(g.cursor, action.cells)
    ensures action.MoveCursorTo? ==> GridReducer(g, action) == Grid(Cursor(action.row, action.column), g.cells)
  {
  }

  // The round trip.

  /** The grid reached by replaying the inverse of `action`, computed from `g`, on the
      cells that `action` produced, starting from an arbitrary cursor `k`. */
  function Undone(g: Grid, action: Action, k: Cursor): Grid
    requires ValidGrid(g) && WellFormedAction(action) && InBounds(k)
  {
    UndoActionsWellFormed(g, action);
    ApplyActions(Grid(k, GridReducer(g, action).cells), CalculateUndoActions(g, action))
  }

  /** The commands whose inverse starts by moving the cursor back to where it was. */
  predicate RestoresCursor(action: Action) {
    action.PutValue? || action.InsertCell? || action.DeleteCell? || action.InsertRow? ||
    action.InsertColumn? || action.DeleteRow? || action.DeleteColumn?
  }

  /** The commands whose inverse gives back the grid. */
  predicate RoundTrips(g: Grid, action: Action)
    requires ValidGrid(g)
  {
    !(action.InsertCell? && action.shiftDirection == Vertical) &&
    !(action.DeleteCell? && action.shiftDirection == Vertical) &&
    !((action.ClearGrid? || action.SetGrid?) && CellsEmpty(g.cells))
  }

  lemma PutValueUndone(g: Grid, value: string, k: Cursor)
    requires ValidGrid(g) && InBounds(k)
    ensures Undone(g, PutValue(value), k) == g
  {
    var c := g.cursor;
    var after := PutValueAt(g.cells, c, value);
    var prior := g.cells[c.row][c.column];
    ApplyTwo(Grid(k, after), MoveCursorTo(c.row, c.column), PutValue(prior));
    MoveTo(Grid(k, after), c);
    PutValueRestoresCell(after, g.cells, c);
  }

  /** Moving back and deleting the inserted cell leaves the row's last cell blank. */
  lemma InsertCellThenBack(g: Grid, k: Cursor)
    requires ValidGrid(g) && InBounds(k)
    ensures ApplyActions(Grid(k, InsertCellShiftRight(g.cells, g.cursor)),
                         [MoveCursorTo(g.cursor.row, g.cursor.column), DeleteCell(Horizontal)])
         == Grid(g.cursor, PutValueAt(g.cells, Cursor(g.cursor.row, GridColumns - 1), Blank))
  {
    var c := g.cursor;
    var after := InsertCellShiftRight(g.cells, c);
    Step(Grid(k, after), MoveCursorTo(c.row, c.column));
    Step(Grid(c, after), DeleteCell(Horizontal));
    DeleteCellAfterInsertCell(g.cells, c);
    ApplyTwo(Grid(k, after), MoveCursorTo(c.row, c.column), DeleteCell(Horizontal));
  }

  lemma InsertCellUndone(g: Grid, k: Cursor)
    requires ValidGrid(g) && InBounds(k)
    ensures Undone(g, InsertCell(Horizontal), k) == g
  {
    var c := g.cursor;
    var end := Cursor(c.row, GridColumns - 1);
    var after := InsertCellShiftRight(g.cells, c);
    var lost := g.cells[end.row][end.column];
    var cleared := PutValueAt(g.cells, end, Blank);
    var back := MoveCursorTo(c.row, c.column);
    var prefix := [back, DeleteCell(Horizontal)];
    Step(g, InsertCell(Horizontal));
    UndoInsertCellShape(g, Horizontal);
    InsertCellThenBack(g, k);
    if lost == Blank {
      PutValueRestoresCell(g.cells, g.cells, end);
    } else {
      var restore := [MoveCursorTo(end.row, end.column), PutValue(lost), back];
      assert prefix + restore == CalculateUndoActions(g, InsertCell(Horizontal));
      ApplyConcat(Grid(k, after), prefix, restore);
      ApplyThree(Grid(c, cleared), MoveCursorTo(end.row, end.column), PutValue(lost), back);
      Step(Grid(c, cleared), MoveCursorTo(end.row, end.column));
      Step(Grid(end, cleared), PutValue(lost));
      PutValueRestoresCell(cleared, g.cells, end);
      Step(Grid(end, g.cells), back);
    }
  }

  /** Moving back and inserting a cell where one was deleted leaves that cell blank. */
  lemma DeleteCellThenBack(g: Grid, k: Cursor)
    requires ValidGrid(g) && InBounds(k)
    ensures ApplyActions(Grid(k, DeleteCellShiftLeft(g.cells, g.cursor)),
                         [MoveCursorTo(g.cursor.row, g.cursor.column), InsertCell(Horizontal)])
         == Grid(g.cursor, PutValueAt(g.cells, g.cursor, Blank))
  {
    var c := g.cursor;
    var after := DeleteCellShiftLeft(g.cells, c);
    Step(Grid(k, after), MoveCursorTo(c.row, c.column));
    Step(Grid(c, after), InsertCell(Horizontal));
    InsertCellAfterDeleteCell(g.cells, c);
    ApplyTwo(Grid(k, after), MoveCursorTo(c.row, c.column), InsertCell(Horizontal));
  }

  lemma DeleteCellUndone(g: Grid, k: Cursor)
    requires ValidGrid(g) && InBounds(k)
    ensures Undone(g, DeleteCell(Horizontal), k) == g
  {
    var c := g.cursor;
    var after := DeleteCellShiftLeft(g.cells, c);
    var trashed := g.cells[c.row][c.column];
    var cleared := PutValueAt(g.cells, c, Blank);
    var prefix := [MoveCursorTo(c.row, c.column), InsertCell(Horizontal)];
    Step(g, DeleteCell(Horizontal));
    UndoDeleteCellShape(g, Horizontal);
    DeleteCellThenBack(g, k);
    if trashed == Blank {
      assert prefix + [] == prefix;
      PutValueRestoresCell(g.cells, g.cells, c);
    } else {
      ApplyConcat(Grid(k, after), prefix, [PutValue(trashed)]);
      ApplyOne(Grid(c, cleared), PutValue(trashed));
      Step(Grid(c, cleared), PutValue(trashed));
      PutValueRestoresCell(cleared, g.cells, c);
    }
  }

  /** Moving back and deleting the inserted row leaves the last row blank. */
  lemma InsertRowThenBack(g: Grid, k: Cursor)
    requires ValidGrid(g) && InBounds(k)
    ensures ApplyActions(Grid(k, InsertRowAt(g.cells, g.cursor.row)),
                         [MoveCursorTo(g.cursor.row, g.cursor.column), DeleteRow])
         == Grid(g.cursor, ClearRow(g.cells, GridRows - 1))
  {
    var c := g.cursor;
    var after := InsertRowAt(g.cells, c.row);
    Step(Grid(k, after), MoveCursorTo(c.row, c.column));
    Step(Grid(c, after), DeleteRow);
    DeleteRowAfterInsertRow(g.cells, c.row);
    ApplyTwo(Grid(k, after), MoveCursorTo(c.row, c.column), DeleteRow);
  }

  lemma InsertRowUndone(g: Grid, k: Cursor)
    requires ValidGrid(g) && InBounds(k)
    ensures Undone(g, InsertRow, k) == g
  {
    var c := g.cursor;
    var lastRow := GridRows - 1;
    var after := InsertRowAt(g.cells, c.row);
    var cleared := ClearRow(g.cells, lastRow);
    var prefix := [MoveCursorTo(c.row, c.column), DeleteRow];
    Step(g, InsertRow);
    UndoInsertRowShape(g);
    InsertRowThenBack(g, k);
    RowEmptyIsBlankRow(g.cells, lastRow);
    if g.cells[lastRow] == Blanks(GridColumns) {
      assert prefix + [] == prefix;
      ClearingBlankLineIsNoOp(g.cells, lastRow, 0);
    } else {
      ApplyConcat(Grid(k, after), prefix, [FillRowAt(lastRow, g.cells[lastRow])]);
      ApplyOne(Grid(c, cleared), FillRowAt(lastRow, g.cells[lastRow]));
      Step(Grid(c, cleared), FillRowAt(lastRow, g.cells[lastRow]));
      FillRowRestoresRow(cleared, g.cells, lastRow);
    }
  }

  /** Moving back and inserting a row where one was deleted leaves that row blank. */
  lemma DeleteRowThenBack(g: Grid, k: Cursor)
    requires ValidGrid(g) && InBounds(k)
    ensures ApplyActions(Grid(k, DeleteRowAt(g.cells, g.cursor.row)),
                         [MoveCursorTo(g.cursor.row, g.cursor.column), InsertRow])
         == Grid(g.cursor, ClearRow(g.cells, g.cursor.row))
  {
    var c := g.cursor;
    var after := DeleteRowAt(g.cells, c.row);
    Step(Grid(k, after), MoveCursorTo(c.row, c.column));
    Step(Grid(c, after), InsertRow);
    InsertRowAfterDeleteRow(g.cells, c.row);
    ApplyTwo(Grid(k, after), MoveCursorTo(c.row, c.column), InsertRow);
  }

  lemma DeleteRowUndone(g: Grid, k: Cursor)
    requires ValidGrid(g) && InBounds(k)
    ensures Undone(g, DeleteRow, k) == g
  {
    var c := g.cursor;
    var after := DeleteRowAt(g.cells, c.row);
    var cleared := ClearRow(g.cells, c.row);
    var prefix := [MoveCursorTo(c.row, c.column), InsertRow];
    Step(g, DeleteRow);
    UndoDeleteRowShape(g);
    DeleteRowThenBack(g, k);
    RowEmptyIsBlankRow(g.cells, c.row);
    if g.cells[c.row] == Blanks(GridColumns) {
      assert prefix + [] == prefix;
      ClearingBlankLineIsNoOp(g.cells, c.row, 0);
    } else {
      ApplyConcat(Grid(k, after), prefix, [FillRowAt(c.row, g.cells[c.row])]);
      ApplyOne(Grid(c, cleared), FillRowAt(c.row, g.cells[c.row]));
      Step(Grid(c, cleared), FillRowAt(c.row, g.cells[c.row]));
      FillRowRestoresRow(cleared, g.cells, c.row);
    }
  }

  /** Moving back and deleting the inserted column leaves the last column blank. */
  lemma InsertColumnThenBack(g: Grid, k: Cursor)
    requires ValidGrid(g) && InBounds(k)
    ensures ApplyActions(Grid(k, InsertColumnAt(g.cells, g.cursor.column)),
                         [MoveCursorTo(g.cursor.row, g.cursor.column), DeleteColumn])
         == Grid(g.cursor, ClearColumn(g.cells, GridColumns - 1))
  {
    var c := g.cursor;
    var after := InsertColumnAt(g.cells, c.column);
    Step(Grid(k, after), MoveCursorTo(c.row, c.column));
    Step(Grid(c, after), DeleteColumn);
    DeleteColumnAfterInsertColumn(g.cells, c.column);
    ApplyTwo(Grid(k, after), MoveCursorTo(c.row, c.column), DeleteColumn);
  }

  lemma InsertColumnUndone(g: Grid, k: Cursor)
    requires ValidGrid(g) && InBounds(k)
    ensures Undone(g, InsertColumn, k) == g
  {
    var c := g.cursor;
    var lastColumn := GridColumns - 1;
    var after := InsertColumnAt(g.cells, c.column);
    var cleared := ClearColumn(g.cells, lastColumn);
    var lost := ReadColumnFromCells(g.cells, lastColumn);
    var prefix := [MoveCursorTo(c.row, c.column), DeleteColumn];
    Step(g, InsertColumn);
    UndoInsertColumnShape(g);
    InsertColumnThenBack(g, k);
    ColumnEmptyIsBlankColumn(g.cells, lastColumn);
    if lost == Blanks(GridRows) {
      assert prefix + [] == prefix;
      ClearingBlankLineIsNoOp(g.cells, 0, lastColumn);
    } else {
      ApplyConcat(Grid(k, after), prefix, [FillColumnAt(lastColumn, lost)]);
      ApplyOne(Grid(c, cleared), FillColumnAt(lastColumn, lost));
      Step(Grid(c, cleared), FillColumnAt(lastColumn, lost));
      FillColumnRestoresColumn(cleared, g.cells, lastColumn);
    }
  }

  /** Moving back and inserting a column where one was deleted leaves that column blank. */
  lemma DeleteColumnThenBack(g: Grid, k: Cursor)
    requires ValidGrid(g) && InBounds(k)
    ensures ApplyActions(Grid(k, DeleteColumnAt(g.cells, g.cursor.column)),
                         [MoveCursorTo(g.cursor.row, g.cursor.column), InsertColumn])
         == Grid(g.cursor, ClearColumn(g.cells, g.cursor.column))
  {
    var c := g.cursor;
    var after := DeleteColumnAt(g.cells, c.column);
    Step(Grid(k, after), MoveCursorTo(c.row, c.column));
    Step(Grid(c, after), InsertColumn);
    InsertColumnAfterDeleteColumn(g.cells, c.column);
    ApplyTwo(Grid(k, after), MoveCursorTo(c.row, c.column), InsertColumn);
  }

  lemma DeleteColumnUndone(g: Grid, k: Cursor)
    requires ValidGrid(g) && InBounds(k)
    ensures Undone(g, DeleteColumn, k) == g
  {
    var c := g.cursor;
    var after := DeleteColumnAt(g.cells, c.column);
    var cleared := ClearColumn(g.cells, c.column);
    var lost := ReadColumnFromCells(g.cells, c.column);
    var prefix := [MoveCursorTo(c.row, c.column), InsertColumn];
    Step(g, DeleteColumn);
    UndoDeleteColumnShape(g);
    DeleteColumnThenBack(g, k);
    ColumnEmptyIsBlankColumn(g.cells, c.column);
    if lost == Blanks(GridRows) {
      assert prefix + [] == prefix;
      ClearingBlankLineIsNoOp(g.cells, 0, c.column);
    } else {
      ApplyConcat(Grid(k, after), prefix, [FillColumnAt(c.column, lost)]);
      ApplyOne(Grid(c, cleared), FillColumnAt(c.column, lost));
      Step(Grid(c, cleared), FillColumnAt(c.column, lost));
      FillColumnRestoresColumn(cleared, g.cells, c.column);
    }
  }
  lemma FillRowUndone(g: Grid, row: int, values: seq<string>, k: Cursor)
    requires ValidGrid(g) && InBounds(k) && 0 <= row < GridRows && |values| == GridColumns
    ensures Undone(g, FillRowAt(row, values), k) == Grid(k, g.cells)
  {
    var after := FillRow(g.cells, row, values);
    Step(g, FillRowAt(row, values));
    RowEmptyIsBlankRow(g.cells, row);
    if g.cells[row] == Blanks(GridColumns) {
      ApplyOne(Grid(k, after), ClearRowAt(row));
      Step(Grid(k, after), ClearRowAt(row));
      var cleared := ClearRow(after, row);
      assert forall i | 0 <= i < GridRows :: cleared[i] == g.cells[i];
    } else {
      ApplyOne(Grid(k, after), FillRowAt(row, g.cells[row]));
      Step(Grid(k, after), FillRowAt(row, g.cells[row]));
      FillRowRestoresRow(after, g.cells, row);
    }
  }

  lemma FillColumnUndone(g: Grid, column: int, values: seq<string>, k: Cursor)
    requires ValidGrid(g) && InBounds(k) && 0 <= column < GridColumns && |values| == GridRows
    ensures Undone(g, FillColumnAt(column, values), k) == Grid(k, g.cells)
  {
    var after := FillColumn(g.cells, column, values);
    Step(g, FillColumnAt(column, values));
    if RangeEmpty(g.cells, Cursor(0, column), Cursor(GridRows - 1, column)) {
      ApplyOne(Grid(k, after), ClearColumnAt(column));
      Step(Grid(k, after), ClearColumnAt(column));
      SameCells(ClearColumn(after, column), g.cells);
    } else {
      var prior := ReadColumnFromCells(g.cells, column);
      ApplyOne(Grid(k, after), FillColumnAt(column, prior));
      Step(Grid(k, after), FillColumnAt(column, prior));
      FillColumnRestoresColumn(after, g.cells, column);
    }
  }

  lemma ClearRowUndone(g: Grid, row: int, k: Cursor)
    requires ValidGrid(g) && InBounds(k) && 0 <= row < GridRows
    ensures Undone(g, ClearRowAt(row), k) == Grid(k, g.cells)
  {
    var after := ClearRow(g.cells, row);
    Step(g, ClearRowAt(row));
    ClearingBlankLineIsNoOp(g.cells, row, 0);
    if !RangeEmpty(g.cells, Cursor(row, 0), Cursor(row, GridColumns - 1)) {
      ApplyOne(Grid(k, after), FillRowAt(row, g.cells[row]));
      Step(Grid(k, after), FillRowAt(row, g.cells[row]));
      FillRowRestoresRow(after, g.cells, row);
    }
  }

  lemma ClearColumnUndone(g: Grid, column: int, k: Cursor)
    requires ValidGrid(g) && InBounds(k) && 0 <= column < GridColumns
    ensures Undone(g, ClearColumnAt(column), k) == Grid(k, g.cells)
  {
    var after := ClearColumn(g.cells, column);
    Step(g, ClearColumnAt(column));
    ClearingBlankLineIsNoOp(g.cells, 0, column);
    if !RangeEmpty(g.cells, Cursor(0, column), Cursor(GridRows - 1, column)) {
      var prior := ReadColumnFromCells(g.cells, column);
      ApplyOne(Grid(k, after), FillColumnAt(column, prior));
      Step(Grid(k, after), FillColumnAt(column, prior));
      FillColumnRestoresColumn(after, g.cells, column);
    }
  }

  lemma ClearGridUndone(g: Grid, k: Cursor)
    requires ValidGrid(g) && InBounds(k) && !CellsEmpty(g.cells)
    ensures Undone(g, ClearGrid, k) == Grid(k, g.cells)
  {
    InitialGridValid();
    UndoClearGridShape(g);
    ApplyOne(Grid(k, InitialCells), SetGrid(g.cells));
    Step(Grid(k, InitialCells), SetGrid(g.cells));
  }

  lemma SetGridUndone(g: Grid, cells: Cells, k: Cursor)
    requires ValidGrid(g) && InBounds(k) && WellFormedCells(cells) && !CellsEmpty(g.cells)
    ensures Undone(g, SetGrid(cells), k) == Grid(k, g.cells)
  {
    Step(g, SetGrid(cells));
    ApplyOne(Grid(k, cells), SetGrid(g.cells));
    Step(Grid(k, cells), SetGrid(g.cells));
  }

  /** Commands that are not undoable have an empty inverse and change no cell. */
  lemma NotUndoableUndone(g: Grid, action: Action, k: Cursor)
    requires ValidGrid(g) && InBounds(k) && WellFormedAction(action) && !IsUndoableAction(action)
    ensures Undone(g, action, k) == Grid(k, g.cells)
  {
  }

  /** Replaying the inverse of a command, from any cursor, gives back the cells before the
      command, and also the cursor when the inverse starts by moving it back. Vertical
      cell shifts and clearing or replacing an all-blank grid are excluded. */
  lemma InverseRestores(g: Grid, action: Action, k: Cursor)
    requires ValidGrid(g) && WellFormedAction(action) && InBounds(k) && RoundTrips(g, action)
    ensures Undone(g, action, k) == if RestoresCursor(action) then g else Grid(k, g.cells)
  {
    match action
    case ClearGrid => ClearGridUndone(g, k);
    case SetGrid(cells) => SetGridUndone(g, cells, k);
    case PutValue(value) => PutValueUndone(g, value, k);
    case InsertCell(_) => InsertCellUndone(g, k);
    case DeleteCell(_) => DeleteCellUndone(g, k);
    case InsertRow => InsertRowUndone(g, k);
    case InsertColumn => InsertColumnUndone(g, k);
    case DeleteRow => DeleteRowUndone(g, k);
    case DeleteColumn => DeleteColumnUndone(g, k);
    case FillRowAt(row, values) => FillRowUndone(g, row, values, k);
    case FillColumnAt(column, values) => FillColumnUndone(g, column, values, k);
    case ClearRowAt(row) => ClearRowUndone(g, row, k);
    case ClearColumnAt(column) => ClearColumnUndone(g, column, k);
    case _ => NotUndoableUndone(g, action, k);
  }
  // The commands whose inverse does not give back the grid.

  lemma VerticalInsertThenBack(g: Grid)
    requires ValidGrid(g)
    ensures var after := ShiftedDown(g.cells, g.cursor);
      ApplyActions(Grid(g.cursor, after), [MoveCursorTo(g.cursor.row, g.cursor.column), DeleteCell(Vertical)])
        == Grid(g.cursor, ShiftedUp(after, g.cursor))
  {
    var c := g.cursor;
    var after := ShiftedDown(g.cells, c);
    Step(Grid(c, after), MoveCursorTo(c.row, c.column));
    Step(Grid(c, after), DeleteCell(Vertical));
    ApplyTwo(Grid(c, after), MoveCursorTo(c.row, c.column), DeleteCell(Vertical));
  }

  /** After the vertical insertion and its inverse, the cursor row is what the deletion
      left, since writing back the cell pushed off the bottom does not touch it. */
  lemma VerticalInsertUndoneRow(g: Grid)
    requires ValidGrid(g) && g.cursor.row < GridRows - 1
    ensures Undone(g, InsertCell(Vertical), g.cursor).cells[g.cursor.row]
         == ShiftedUp(ShiftedDown(g.cells, g.cursor), g.cursor)[g.cursor.row]
  {
    var c := g.cursor;
    var after := ShiftedDown(g.cells, c);
    var shifted := ShiftedUp(after, c);
    var back := MoveCursorTo(c.row, c.column);
    var prefix := [back, DeleteCell(Vertical)];
    Step(g, InsertCell(Vertical));
    UndoInsertCellShape(g, Vertical);
    VerticalInsertThenBack(g);
    var end := Cursor(GridRows - 1, c.column);
    var lost := g.cells[end.row][end.column];
    assert Undone(g, InsertCell(Vertical), c)
        == ApplyActions(Grid(c, after), CalculateUndoActions(g, InsertCell(Vertical)));
    if lost != Blank {
      var restore := [MoveCursorTo(end.row, end.column), PutValue(lost), back];
      assert prefix + restore == CalculateUndoActions(g, InsertCell(Vertical));
      ApplyConcat(Grid(c, after), prefix, restore);
      RestoringEndCellKeepsRow(Grid(c, shifted), end, lost, c.row);
    } else {
      assert prefix == CalculateUndoActions(g, InsertCell(Vertical));
    }
  }

  /** Inserting a cell with a vertical shift splices the cursor row and every row below it,
      while the inverse, a vertical deletion, leaves the cursor row alone: after the round
      trip the cell right of the cursor holds the value that was under the cursor. */
  lemma VerticalInsertShiftsCursorRow(g: Grid)
    requires ValidGrid(g) && g.cursor.row < GridRows - 1 && g.cursor.column < GridColumns - 1
    ensures Undone(g, InsertCell(Vertical), g.cursor).cells[g.cursor.row][g.cursor.column + 1]
         == g.cells[g.cursor.row][g.cursor.column]
  {
    var c := g.cursor;
    var after := ShiftedDown(g.cells, c);
    VerticalInsertUndoneRow(g);
    assert ShiftedUp(after, c)[c.row] == after[c.row];
    assert after[c.row][c.column + 1] == g.cells[c.row][c.column];
  }

  /** Writing back a cell at `end` and returning leaves every other row alone. */
  lemma RestoringEndCellKeepsRow(h: Grid, end: Cursor, lost: string, row: int)
    requires ValidGrid(h) && InBounds(end) && 0 <= row < GridRows && row != end.row
    ensures var restore := [MoveCursorTo(end.row, end.column), PutValue(lost), MoveCursorTo(h.cursor.row, h.cursor.column)];
      ApplyActions(h, restore).cells[row] == h.cells[row]
  {
    ApplyThree(h, MoveCursorTo(end.row, end.column), PutValue(lost), MoveCursorTo(h.cursor.row, h.cursor.column));
    Step(h, MoveCursorTo(end.row, end.column));
    Step(Grid(end, h.cells), PutValue(lost));
  }

  /** Deleting a cell with a vertical shift leaves the cursor row alone and splices the
      rows below it, while the inverse, a vertical insertion, splices from the cursor row:
      after the round trip the cell below the cursor holds the value that was under it. */
  lemma VerticalDeleteShiftsCursorColumn(g: Grid)
    requires ValidGrid(g) && g.cursor.row < GridRows - 1
    ensures Undone(g, DeleteCell(Vertical), g.cursor).cells[g.cursor.row + 1][g.cursor.column]
         == g.cells[g.cursor.row][g.cursor.column]
  {
    var c := g.cursor;
    var after := ShiftedUp(g.cells, c);
    var trashed := g.cells[c.row][c.column];
    var prefix := [MoveCursorTo(c.row, c.column), InsertCell(Vertical)];
    Step(g, DeleteCell(Vertical));
    UndoDeleteCellShape(g, Vertical);
    Step(Grid(c, after), MoveCursorTo(c.row, c.column));
    Step(Grid(c, after), InsertCell(Vertical));
    ApplyTwo(Grid(c, after), MoveCursorTo(c.row, c.column), InsertCell(Vertical));
    var shifted := ShiftedDown(after, c);
    assert after[c.row] == g.cells[c.row];
    assert shifted[c.row + 1][c.column] == after[c.row][c.column];
    if trashed == Blank {
      assert prefix + [] == prefix;
    } else {
      ApplyConcat(Grid(c, after), prefix, [PutValue(trashed)]);
      ApplyOne(Grid(c, shifted), PutValue(trashed));
      Step(Grid(c, shifted), PutValue(trashed));
    }
  }

  /** A grid on which the vertical insertion is not undone: a single value right of the
      cursor is overwritten by the blank that was under the cursor. */
  lemma VerticalInsertIsNotUndone()
    ensures var g := Grid(Cursor(0, 0), PutValueAt(EmptyCells(), Cursor(0, 1), "x"));
      ValidGrid(g) && Undone(g, InsertCell(Vertical), g.cursor).cells != g.cells
  {
    var g := Grid(Cursor(0, 0), PutValueAt(EmptyCells(), Cursor(0, 1), "x"));
    VerticalInsertShiftsCursorRow(g);
    assert g.cells[0][0] == Blank && g.cells[0][1] == "x";
  }

  /** A grid on which the vertical deletion is not undone: a single value below the cursor
      is overwritten by the blank that was under the cursor. */
  lemma VerticalDeleteIsNotUndone()
    ensures var g := Grid(Cursor(0, 0), PutValueAt(EmptyCells(), Cursor(1, 0), "x"));
      ValidGrid(g) && Undone(g, DeleteCell(Vertical), g.cursor).cells != g.cells
  {
    var g := Grid(Cursor(0, 0), PutValueAt(EmptyCells(), Cursor(1, 0), "x"));
    VerticalDeleteShiftsCursorColumn(g);
    assert g.cells[0][0] == Blank && g.cells[1][0] == "x";
  }

  /** Clearing a blank grid records no inverse, yet the clear writes the seed grid
      rather than blanks, so undoing it leaves the seed in place. */
  lemma ClearBlankGridIsNotUndone(g: Grid, k: Cursor)
    requires ValidGrid(g) && InBounds(k) && CellsEmpty(g.cells)
    ensures CalculateUndoActions(g, ClearGrid) == []
    ensures Undone(g, ClearGrid, k).cells == InitialCells != g.cells
  {
    InitialGridValid();
    UndoClearGridShape(g);
  }

  /** Replacing a blank grid records a clear as its inverse, which again writes the seed. */
  lemma SetBlankGridIsNotUndone(g: Grid, cells: Cells, k: Cursor)
    requires ValidGrid(g) && InBounds(k) && WellFormedCells(cells) && CellsEmpty(g.cells)
    ensures CalculateUndoActions(g, SetGrid(cells)) == [ClearGrid]
    ensures Undone(g, SetGrid(cells), k).cells == InitialCells != g.cells
  {
    InitialGridValid();
    Step(g, SetGrid(cells));
    ApplyOne(Grid(k, cells), ClearGrid);
  }
}
