/** The inverse-action calculator: given the grid before a command, a list of commands
    meant to take it back. Restore steps are emitted only where the cell or line that the
    command discards is not blank. */
module Undo {
  import opened Constants
  import opened Actions
  import opened Cursors
  import opened Grids

  /** One entry of the undo or redo stack: a group of commands undoing one operation. */
  type UndoActions = seq<Action>

  /** Every command of the group is well formed. */
  predicate AllWellFormed(actions: seq<Action>) {
    forall i :: 0 <= i < |actions| ==> WellFormedAction(actions[i])
  }

  datatype Option<T> = None | Some(value: T)

  /** Commands that change the cells are undoable; navigation and Undo/Redo are not. */
  function IsUndoableAction(action: Action): (r: bool)
    ensures r <==> !(IsNavigation(action) || action.Undo? || action.Redo?)
  {
    match action
    case ClearGrid => true
    case SetGrid(_) => true
    case PutValue(_) => true
    case InsertCell(_) => true
    case InsertRow => true
    case InsertColumn => true
    case DeleteCell(_) => true
    case DeleteRow => true
    case DeleteColumn => true
    case FillRowAt(_, _) => true
    case FillColumnAt(_, _) => true
    case ClearRowAt(_) => true
    case ClearColumnAt(_) => true
    case MoveCursorByCell(_) => false
    case MoveCursorToEdge(_) => false
    case MoveCursorTo(_, _) => false
    case Undo => false
    case Redo => false
  }

  /** Drops the absent entries and keeps the present ones in order. */
  function RemoveNull<T(==,!new)>(values: seq<Option<T>>): (r: seq<T>)
    ensures |r| <= |values|
  {
    if |values| == 0 then []
    else Kept(values[0]) + RemoveNull(values[1..])
  }

  /** The present value of an entry, as a list of zero or one elements. */
  function Kept<T>(o: Option<T>): (r: seq<T>)
    ensures o.Some? ==> r == [o.value]
    ensures o.None? ==> r == []
  {
    if o.Some? then [o.value] else []
  }

  lemma RemoveNullCons<T(!new)>(o: Option<T>, rest: seq<Option<T>>)
    ensures RemoveNull([o] + rest) == Kept(o) + RemoveNull(rest)
  {
    assert ([o] + rest)[1..] == rest;
  }

  lemma RemoveNullOfThree<T(!new)>(a: Option<T>, b: Option<T>, c: Option<T>)
    ensures RemoveNull([a, b, c]) == Kept(a) + (Kept(b) + Kept(c))
  {
    RemoveNullCons(c, []);
    assert [c] + [] == [c];
    RemoveNullCons(b, [c]);
    assert [b] + [c] == [b, c];
    RemoveNullCons(a, [b, c]);
    assert [a] + [b, c] == [a, b, c];
  }

  lemma RemoveNullOfFour<T(!new)>(a: Option<T>, b: Option<T>, c: Option<T>, d: Option<T>)
    ensures RemoveNull([a, b, c, d]) == Kept(a) + (Kept(b) + (Kept(c) + Kept(d)))
  {
    RemoveNullOfThree(b, c, d);
    RemoveNullCons(a, [b, c, d]);
    assert [a] + [b, c, d] == [a, b, c, d];
  }

  lemma RemoveNullOfFive<T(!new)>(a: Option<T>, b: Option<T>, c: Option<T>, d: Option<T>, e: Option<T>)
    ensures RemoveNull([a, b, c, d, e]) == Kept(a) + (Kept(b) + (Kept(c) + (Kept(d) + Kept(e))))
  {
    RemoveNullOfFour(b, c, d, e);
    RemoveNullCons(a, [b, c, d, e]);
    assert [a] + [b, c, d, e] == [a, b, c, d, e];
  }

  /** `RemoveNull` keeps exactly the present values. */
  lemma {:induction false} RemoveNullMembers<T(!new)>(values: seq<Option<T>>)
    ensures forall x :: x in RemoveNull(values) <==> Some(x) in values
  {
    if |values| > 0 {
      RemoveNullMembers(values[1..]);
      assert values == [values[0]] + values[1..];
    }
  }

  /** The commands that undo `action`, computed from the grid before it. Cursor movements,
      Undo and Redo have no inverse: they record nothing. */
  function CalculateUndoActions(state: Grid, action: Action): (r: UndoActions)
    requires ValidGrid(state) && WellFormedAction(action)
    ensures action.MoveCursorByCell? || action.MoveCursorToEdge? || action.MoveCursorTo? || action.Undo? || action.Redo? ==> r == []
  {
    var row, column := state.cursor.row, state.cursor.column;
    var lastRow, lastColumn := GridRows - 1, GridColumns - 1;
    match action
    case ClearGrid =>
      RemoveNull([if CellsEmpty(state.cells) then None else Some(CreateSetGridAction(state.cells))])
    case SetGrid(_) =>
      [if CellsEmpty(state.cells) then CreateClearGridAction() else CreateSetGridAction(state.cells)]
    case PutValue(_) =>
      [CreateMoveCursorToAction(row, column), CreatePutValueAction(state.cells[row][column])]
    case InsertCell(shiftDirection) =>
      var endRow := if shiftDirection == Horizontal then row else lastRow;
      var endColumn := if shiftDirection == Horizontal then lastColumn else column;
      // The value in the cell shifted off the end of the grid.
      var endCellValue := state.cells[endRow][endColumn];
      var restoreEndCell := endCellValue != Blank;
      assert InBounds(Cursor(endRow, endColumn));
      RemoveNull([
        Some(CreateMoveCursorToAction(row, column)),
        Some(CreateDeleteCellAction(shiftDirection)),
        if restoreEndCell then Some(CreateMoveCursorToAction(endRow, endColumn)) else None,
        if restoreEndCell then Some(CreatePutValueAction(endCellValue)) else None,
        if restoreEndCell then Some(CreateMoveCursorToAction(row, column)) else None
      ])
    case InsertRow =>
      RemoveNull([
        Some(CreateMoveCursorToAction(row, column)),
        Some(CreateDeleteRowAction()),
        if RangeEmpty(state.cells, Cursor(lastRow, 0), Cursor(lastRow, lastColumn)) then None
        else Some(CreateFillRowAtAction(lastRow, state.cells[lastRow]))
      ])
    case InsertColumn =>
      RemoveNull([
        Some(CreateMoveCursorToAction(row, column)),
        Some(CreateDeleteColumnAction()),
        if RangeEmpty(state.cells, Cursor(0, lastColumn), Cursor(lastRow, lastColumn)) then None
        else Some(CreateFillColumnAtAction(lastColumn, ReadColumnFromCells(state.cells, lastColumn)))
      ])
    case DeleteCell(shiftDirection) =>
      // The value in the cursor cell, which the deletion throws away.
      var trashedCellValue := state.cells[row][column];
      RemoveNull([
        Some(CreateMoveCursorToAction(row, column)),
        Some(CreateInsertCellAction(shiftDirection)),
        if trashedCellValue == Blank then None else Some(CreatePutValueAction(trashedCellValue))
      ])
    case DeleteRow =>
      RemoveNull([
        Some(CreateMoveCursorToAction(row, column)),
        Some(CreateInsertRowAction()),
        if RangeEmpty(state.cells, Cursor(row, 0), Cursor(row, lastColumn)) then None
        else Some(CreateFillRowAtAction(row, state.cells[row]))
      ])
    case DeleteColumn =>
      RemoveNull([
        Some(CreateMoveCursorToAction(row, column)),
        Some(CreateInsertColumnAction()),
        if RangeEmpty(state.cells, Cursor(0, column), Cursor(lastRow, column)) then None
        else Some(CreateFillColumnAtAction(column, ReadColumnFromCells(state.cells, column)))
      ])
    case FillRowAt(fillRow, _) =>
      [if RangeEmpty(state.cells, Cursor(fillRow, 0), Cursor(fillRow, lastColumn))
       then CreateClearRowAtAction(fillRow)
       else CreateFillRowAtAction(fillRow, state.cells[fillRow])]
    case FillColumnAt(fillColumn, _) =>
      [if RangeEmpty(state.cells, Cursor(0, fillColumn), Cursor(lastRow, fillColumn))
       then CreateClearColumnAtAction(fillColumn)
       else CreateFillColumnAtAction(fillColumn, ReadColumnFromCells(state.cells, fillColumn))]
    case ClearRowAt(clearRow) =>
      if RangeEmpty(state.cells, Cursor(clearRow, 0), Cursor(clearRow, lastColumn)) then []
      else [CreateFillRowAtAction(clearRow, state.cells[clearRow])]
    case ClearColumnAt(clearColumn) =>
      if RangeEmpty(state.cells, Cursor(0, clearColumn), Cursor(lastRow, clearColumn)) then []
      else [CreateFillColumnAtAction(clearColumn, ReadColumnFromCells(state.cells, clearColumn))]
    case MoveCursorByCell(_) => []
    case MoveCursorToEdge(_) => []
    case MoveCursorTo(_, _) => []
    case Undo => []
    case Redo => []
  }

  /** The inverse of a cell insertion returns to the cursor and deletes the inserted cell;
      when the cell pushed off the end of the grid was not blank, three more commands
      write it back and return to the cursor. */
  lemma UndoInsertCellShape(state: Grid, d: ShiftDirection)
    requires ValidGrid(state)
    ensures AllWellFormed(CalculateUndoActions(state, InsertCell(d)))
    ensures var r := CalculateUndoActions(state, InsertCell(d));
      var endCell := if d == Horizontal then Cursor(state.cursor.row, GridColumns - 1)
                     else Cursor(GridRows - 1, state.cursor.column);
      var lost := state.cells[endCell.row][endCell.column];
      (lost == Blank ==> r == [MoveCursorTo(state.cursor.row, state.cursor.column), DeleteCell(d)]) &&
      (lost != Blank ==> r == [MoveCursorTo(state.cursor.row, state.cursor.column), DeleteCell(d),
                               MoveCursorTo(endCell.row, endCell.column), PutValue(lost),
                               MoveCursorTo(state.cursor.row, state.cursor.column)])
  {
    var row, column := state.cursor.row, state.cursor.column;
    var endRow := if d == Horizontal then row else GridRows - 1;
    var endColumn := if d == Horizontal then GridColumns - 1 else column;
    var lost := state.cells[endRow][endColumn];
    var restore := lost != Blank;
    var r := CalculateUndoActions(state, InsertCell(d));
    var c := if restore then Some(MoveCursorTo(endRow, endColumn)) else None;
    var p := if restore then Some(PutValue(lost)) else None;
    var e := if restore then Some(MoveCursorTo(row, column)) else None;
    assert r == RemoveNull([Some(MoveCursorTo(row, column)), Some(DeleteCell(d)), c, p, e]);
    RemoveNullOfFive(Some(MoveCursorTo(row, column)), Some(DeleteCell(d)), c, p, e);
    if restore {
      assert r == [MoveCursorTo(row, column), DeleteCell(d), MoveCursorTo(endRow, endColumn),
                   PutValue(lost), MoveCursorTo(row, column)];
    } else {
      assert r == [MoveCursorTo(row, column), DeleteCell(d)];
    }
  }

  /** The inverse of a cell deletion returns to the cursor and inserts a blank cell there;
      when the deleted value was not blank, it is written back. */
  lemma UndoDeleteCellShape(state: Grid, d: ShiftDirection)
    requires ValidGrid(state)
    ensures AllWellFormed(CalculateUndoActions(state, DeleteCell(d)))
    ensures var r := CalculateUndoActions(state, DeleteCell(d));
      var trashed := state.cells[state.cursor.row][state.cursor.column];
      r == [MoveCursorTo(state.cursor.row, state.cursor.column), InsertCell(d)] +
           (if trashed == Blank then [] else [PutValue(trashed)])
  {
    var row, column := state.cursor.row, state.cursor.column;
    var trashed := state.cells[row][column];
    RemoveNullOfThree(Some(MoveCursorTo(row, column)), Some(InsertCell(d)),
      if trashed == Blank then None else Some(PutValue(trashed)));
  }

  /** Inserting a row is undone by deleting it at the cursor and, when the row pushed off
      the bottom was not blank, filling the last row with its old contents. */
  lemma UndoInsertRowShape(state: Grid)
    requires ValidGrid(state)
    ensures AllWellFormed(CalculateUndoActions(state, InsertRow))
    ensures var r := CalculateUndoActions(state, InsertRow);
      var lastRow := GridRows - 1;
      r == [MoveCursorTo(state.cursor.row, state.cursor.column), DeleteRow] +
           (if state.cells[lastRow] == Blanks(GridColumns) then [] else [FillRowAt(lastRow, state.cells[lastRow])])
  {
    var lastRow := GridRows - 1;
    RowEmptyIsBlankRow(state.cells, lastRow);
    RemoveNullOfThree(Some(MoveCursorTo(state.cursor.row, state.cursor.column)), Some(DeleteRow),
      if RangeEmpty(state.cells, Cursor(lastRow, 0), Cursor(lastRow, GridColumns - 1)) then None
      else Some(FillRowAt(lastRow, state.cells[lastRow])));
  }

  /** Inserting a column is undone by deleting it at the cursor and, when the column pushed
      off the right edge was not blank, filling the last column with its old contents. */
  lemma UndoInsertColumnShape(state: Grid)
    requires ValidGrid(state)
    ensures AllWellFormed(CalculateUndoActions(state, InsertColumn))
    ensures var r := CalculateUndoActions(state, InsertColumn);
      var lastColumn := GridColumns - 1;
      var lost := ReadColumnFromCells(state.cells, lastColumn);
      r == [MoveCursorTo(state.cursor.row, state.cursor.column), DeleteColumn] +
           (if lost == Blanks(GridRows) then [] else [FillColumnAt(lastColumn, lost)])
  {
    var lastColumn := GridColumns - 1;
    ColumnEmptyIsBlankColumn(state.cells, lastColumn);
    RemoveNullOfThree(Some(MoveCursorTo(state.cursor.row, state.cursor.column)), Some(DeleteColumn),
      if RangeEmpty(state.cells, Cursor(0, lastColumn), Cursor(GridRows - 1, lastColumn)) then None
      else Some(FillColumnAt(lastColumn, ReadColumnFromCells(state.cells, lastColumn))));
  }

  /** Deleting the cursor row is undone by inserting a row there and, when the deleted row
      was not blank, filling it with its old contents. */
  lemma UndoDeleteRowShape(state: Grid)
    requires ValidGrid(state)
    ensures AllWellFormed(CalculateUndoActions(state, DeleteRow))
    ensures var r := CalculateUndoActions(state, DeleteRow);
      var row := state.cursor.row;
      r == [MoveCursorTo(row, state.cursor.column), InsertRow] +
           (if state.cells[row] == Blanks(GridColumns) then [] else [FillRowAt(row, state.cells[row])])
  {
    var row := state.cursor.row;
    RowEmptyIsBlankRow(state.cells, row);
    RemoveNullOfThree(Some(MoveCursorTo(row, state.cursor.column)), Some(InsertRow),
      if RangeEmpty(state.cells, Cursor(row, 0), Cursor(row, GridColumns - 1)) then None
      else Some(FillRowAt(row, state.cells[row])));
  }

  /** Deleting the cursor column is undone by inserting a column there and, when the deleted
      column was not blank, filling it with its old contents. */
  lemma UndoDeleteColumnShape(state: Grid)
    requires ValidGrid(state)
    ensures AllWellFormed(CalculateUndoActions(state, DeleteColumn))
    ensures var r := CalculateUndoActions(state, DeleteColumn);
      var column := state.cursor.column;
      var lost := ReadColumnFromCells(state.cells, column);
      r == [MoveCursorTo(state.cursor.row, column), InsertColumn] +
           (if lost == Blanks(GridRows) then [] else [FillColumnAt(column, lost)])
  {
    var column := state.cursor.column;
    ColumnEmptyIsBlankColumn(state.cells, column);
    RemoveNullOfThree(Some(MoveCursorTo(state.cursor.row, column)), Some(InsertColumn),
      if RangeEmpty(state.cells, Cursor(0, column), Cursor(GridRows - 1, column)) then None
      else Some(FillColumnAt(column, ReadColumnFromCells(state.cells, column))));
  }

  /** Clearing the grid is undone by writing back the old cells, unless they were all blank. */
  lemma UndoClearGridShape(state: Grid)
    requires ValidGrid(state)
    ensures AllWellFormed(CalculateUndoActions(state, ClearGrid))
    ensures var r := CalculateUndoActions(state, ClearGrid);
      (state.cells == EmptyCells() ==> r == []) && (state.cells != EmptyCells() ==> r == [SetGrid(state.cells)])
  {
    var o := if CellsEmpty(state.cells) then None else Some(SetGrid(state.cells));
    assert [o][1..] == [];
  }

  /** Clearing a row is undone by filling it with its old contents; clearing a row that is
      already blank records nothing, so a second clear has an empty inverse. */
  lemma UndoClearRowShape(state: Grid, row: int)
    requires ValidGrid(state) && 0 <= row < GridRows
    ensures CalculateUndoActions(state, ClearRowAt(row))
         == if state.cells[row] == Blanks(GridColumns) then [] else [FillRowAt(row, state.cells[row])]
  {
    RowEmptyIsBlankRow(state.cells, row);
  }

  /** Clearing a column is undone by filling it with its old contents; clearing a column
      that is already blank records nothing. */
  lemma UndoClearColumnShape(state: Grid, column: int)
    requires ValidGrid(state) && 0 <= column < GridColumns
    ensures var before := ReadColumnFromCells(state.cells, column);
      CalculateUndoActions(state, ClearColumnAt(column))
         == if before == Blanks(GridRows) then [] else [FillColumnAt(column, before)]
  {
    ColumnEmptyIsBlankColumn(state.cells, column);
  }

  /** A put is undone by moving back to the cursor and writing the old value there, even
      when the value does not change. */
  lemma UndoPutValueShape(state: Grid, value: string)
    requires ValidGrid(state)
    ensures var c := state.cursor;
      CalculateUndoActions(state, PutValue(value))
         == [MoveCursorTo(c.row, c.column), PutValue(state.cells[c.row][c.column])]
  {
  }

  /** Filling a row is undone in one step: a clear when the row was blank, otherwise a
      fill with its old contents. */
  lemma UndoFillRowShape(state: Grid, row: int, values: seq<string>)
    requires ValidGrid(state) && WellFormedAction(FillRowAt(row, values))
    ensures CalculateUndoActions(state, FillRowAt(row, values))
         == if state.cells[row] == Blanks(GridColumns) then [ClearRowAt(row)] else [FillRowAt(row, state.cells[row])]
  {
    RowEmptyIsBlankRow(state.cells, row);
  }

  /** Filling a column is undone in one step: a clear when the column was blank, otherwise
      a fill with its old contents. */
  lemma UndoFillColumnShape(state: Grid, column: int, values: seq<string>)
    requires ValidGrid(state) && WellFormedAction(FillColumnAt(column, values))
    ensures var before := ReadColumnFromCells(state.cells, column);
      CalculateUndoActions(state, FillColumnAt(column, values))
         == if before == Blanks(GridRows) then [ClearColumnAt(column)] else [FillColumnAt(column, before)]
  {
    ColumnEmptyIsBlankColumn(state.cells, column);
  }

  /** Replacing the grid is undone by writing back the old cells, or by a clear when they
      were all blank. */
  lemma UndoSetGridShape(state: Grid, cells: Cells)
    requires ValidGrid(state) && WellFormedCells(cells)
    ensures CalculateUndoActions(state, SetGrid(cells))
         == if state.cells == EmptyCells() then [ClearGrid] else [SetGrid(state.cells)]
  {
  }

  /** The inverses computed without `RemoveNull` are well formed. */
  lemma DirectUndoWellFormed(state: Grid, action: Action)
    requires ValidGrid(state) && WellFormedAction(action)
    requires !(action.ClearGrid? || action.InsertCell? || action.DeleteCell? || action.InsertRow? ||
               action.InsertColumn? || action.DeleteRow? || action.DeleteColumn?)
    ensures AllWellFormed(CalculateUndoActions(state, action))
  {
  }

  /** Every command of every inverse is well formed, so the inverse can be replayed. */
  lemma UndoActionsWellFormed(state: Grid, action: Action)
    requires ValidGrid(state) && WellFormedAction(action)
    ensures AllWellFormed(CalculateUndoActions(state, action))
  {
    match action
    case ClearGrid => UndoClearGridShape(state);
    case InsertCell(d) => UndoInsertCellShape(state, d);
    case DeleteCell(d) => UndoDeleteCellShape(state, d);
    case InsertRow => UndoInsertRowShape(state);
    case InsertColumn => UndoInsertColumnShape(state);
    case DeleteRow => UndoDeleteRowShape(state);
    case DeleteColumn => UndoDeleteColumnShape(state);
    case _ => DirectUndoWellFormed(state, action);
  }
}
