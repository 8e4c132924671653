/** The worked example of the command vocabulary: with the cursor at row 4, column 3, put
    "X", insert two columns, undo twice, then put "A" and undo five times, back to the
    start. The states up to the first Undo after the put are written out in closed form,
    and each command is shown to take one state to the next; the walk back after that is
    stated by the cells, the undo stack and the number of redo entries. The example holds
    for every grid that shares the three features of the seed grid it relies on, and the
    seed grid is shown to have them. */
module Scenarios {
  import opened Constants
  import opened Actions
  import opened Cursors
  import opened Grids
  import opened Undo
  import opened App
  import opened UndoCorrectness
  import opened History

  const Here := Cursor(4, 3)

  /** Column 8 of the seed grid: the column pushed into the last column by the second
      insertion. */
  const SavedColumn: seq<string> := ["", "", "", "", "", "", "O", "O", "", ""]

  /** What the example needs of its starting cells: an "o" under the cursor, a blank last
      column, and the column before it holding two 'O's. */
  predicate SeedLike(cells: Cells) {
    WellFormedCells(cells) && cells[4][3] == "o" &&
    ReadColumnFromCells(cells, GridColumns - 1) == Blanks(GridRows) &&
    ReadColumnFromCells(cells, GridColumns - 2) == SavedColumn
  }

  /** The seed grid has those features. */
  lemma SeedIsSeedLike()
    ensures SeedLike(InitialCells)
  {
    InitialGridValid();
    assert ReadColumnFromCells(InitialCells, GridColumns - 1) == Blanks(GridRows);
    assert ReadColumnFromCells(InitialCells, GridColumns - 2) == SavedColumn;
  }

  // The undo entries of the example.

  /** The inverse of putting "X" over "o". */
  const PutBack: UndoActions := [MoveCursorTo(4, 3), PutValue("o")]
  /** The inverse of the first insertion: the pushed-off column was blank. */
  const DeleteBack: UndoActions := [MoveCursorTo(4, 3), DeleteColumn]
  /** The inverse of the second insertion, which also restores the pushed-off column. */
  const DeleteAndFill: UndoActions := [MoveCursorTo(4, 3), DeleteColumn, FillColumnAt(9, SavedColumn)]
  /** The inverse of putting "A" over "X". */
  const PutX: UndoActions := [MoveCursorTo(4, 3), PutValue("X")]

  // The states of the example, from the cells it starts with.

  function Cells1(c: Cells): (r: Cells) requires SeedLike(c) ensures WellFormedCells(r) { PutValueAt(c, Here, "X") }
  function Cells2(c: Cells): (r: Cells) requires SeedLike(c) ensures WellFormedCells(r) { InsertColumnAt(Cells1(c), 3) }
  function Cells3(c: Cells): (r: Cells) requires SeedLike(c) ensures WellFormedCells(r) { InsertColumnAt(Cells2(c), 3) }

  function S0(c: Cells): (r: AppState) requires SeedLike(c) ensures Valid(r) {
    AppState(Here, c, [], [])
  }
  function S1(c: Cells): (r: AppState) requires SeedLike(c) ensures Valid(r) {
    AppState(Here, Cells1(c), [PutBack], [])
  }
  function S2(c: Cells): (r: AppState) requires SeedLike(c) ensures Valid(r) {
    AppState(Here, Cells2(c), [PutBack, DeleteBack], [])
  }
  function S3(c: Cells): (r: AppState) requires SeedLike(c) ensures Valid(r) {
    AppState(Here, Cells3(c), [PutBack, DeleteBack, DeleteAndFill], [])
  }
  function S4(c: Cells): (r: AppState) requires SeedLike(c) ensures Valid(r) {
    AppState(Here, Cells2(c), S3(c).undoStack, [RedoActions(ExtractGridState(S3(c)), DeleteAndFill)])
  }
  function S5(c: Cells): (r: AppState) requires SeedLike(c) ensures Valid(r) {
    AppState(Here, Cells1(c), S3(c).undoStack,
      S4(c).redoStack + [RedoActions(ExtractGridState(S4(c)), DeleteBack)])
  }
  function S6(c: Cells): (r: AppState) requires SeedLike(c) ensures Valid(r) {
    AppState(Here, PutValueAt(c, Here, "A"), S3(c).undoStack + [Squash(S5(c).redoStack), PutX], [])
  }
  function S7(c: Cells): (r: AppState) requires SeedLike(c) ensures Valid(r) {
    AppState(Here, Cells1(c), S6(c).undoStack, [RedoActions(ExtractGridState(S6(c)), PutX)])
  }

  /** Putting "X" over the "o" at the cursor records a move back and a put of "o". */
  lemma PutRecordsOverwrittenValue(c: Cells)
    requires SeedLike(c)
    ensures AppReducer(S0(c), PutValue("X")) == S1(c)
  {
  }

  /** Putting a value changes no other column. */
  lemma ColumnAfterPut(cells: Cells, loc: Cursor, value: string, column: int)
    requires WellFormedCells(cells) && InBounds(loc) && 0 <= column < GridColumns && column != loc.column
    ensures ReadColumnFromCells(PutValueAt(cells, loc, value), column) == ReadColumnFromCells(cells, column)
  {
  }

  /** After a column insertion left of the last column, the last column is the one that was
      next to it. */
  lemma LastColumnAfterInsert(cells: Cells, column: int)
    requires WellFormedCells(cells) && 0 <= column < GridColumns - 1
    ensures ReadColumnFromCells(InsertColumnAt(cells, column), GridColumns - 1)
         == ReadColumnFromCells(cells, GridColumns - 2)
  {
  }

  /** The first insertion pushes a blank last column off the grid, so its inverse is just
      a move back and a column deletion. */
  lemma FirstInsertionRecordsNoFill(c: Cells)
    requires SeedLike(c)
    ensures CalculateUndoActions(ExtractGridState(S1(c)), InsertColumn) == DeleteBack
    ensures AppReducer(S1(c), InsertColumn) == S2(c)
  {
    var g1 := ExtractGridState(S1(c));
    UndoInsertColumnShape(g1);
    ColumnAfterPut(c, Here, "X", GridColumns - 1);
  }

  /** The second insertion pushes the column holding the two 'O's off the grid, so its
      inverse also fills the last column back in. */
  lemma SecondInsertionSavesLastColumn(c: Cells)
    requires SeedLike(c)
    ensures CalculateUndoActions(ExtractGridState(S2(c)), InsertColumn) == DeleteAndFill
    ensures AppReducer(S2(c), InsertColumn) == S3(c)
  {
    var g2 := ExtractGridState(S2(c));
    UndoInsertColumnShape(g2);
    ColumnAfterPut(c, Here, "X", GridColumns - 2);
    LastColumnAfterInsert(Cells1(c), 3);
    assert SavedColumn[6] != Blanks(GridRows)[6];
  }

  /** The first Undo replays the inverse of the second insertion, which gives back the
      grid from before it, and pushes its redo entry. */
  lemma FirstUndo(c: Cells)
    requires SeedLike(c)
    ensures AppReducer(S3(c), Undo) == S4(c)
  {
    var g2 := ExtractGridState(S2(c));
    SecondInsertionSavesLastColumn(c);
    UndoRestoresGrid(g2, InsertColumn);
  }

  /** The second Undo replays the inverse of the first insertion. */
  lemma SecondUndo(c: Cells)
    requires SeedLike(c)
    ensures AppReducer(S4(c), Undo) == S5(c)
  {
    var g1 := ExtractGridState(S1(c));
    FirstInsertionRecordsNoFill(c);
    UndoRestoresGrid(g1, InsertColumn);
  }

  /** The two Undos from S3 reach S5, and each replays an entry whose commands all
      round-trip. */
  lemma UndosWalkBack(c: Cells)
    requires SeedLike(c)
    ensures Undos(S3(c), 2) == S5(c)
    ensures forall i :: 0 <= i < 2 ==> UndoneEntryRoundTrips(S3(c), i)
  {
    var s := S3(c);
    FirstUndo(c);
    SecondUndo(c);
    assert Undos(s, 0) == s;
    assert Undos(s, 1) == S4(c);
    forall i | 0 <= i < 2
      ensures UndoneEntryRoundTrips(s, i)
    {
      if i == 0 {
        SecondInsertionSavesLastColumn(c);
        InverseStepsRoundTrip(ExtractGridState(S2(c)), InsertColumn);
      } else {
        FirstInsertionRecordsNoFill(c);
        InverseStepsRoundTrip(ExtractGridState(S1(c)), InsertColumn);
      }
    }
  }

  /** The joined redo entries, replayed from any cursor over the grid after the Undos, give
      back the cells from before them. */
  lemma SquashedRedoRestores(c: Cells, k: Cursor)
    requires SeedLike(c) && InBounds(k)
    ensures ApplyActions(Grid(k, Cells1(c)), Squash(S5(c).redoStack)).cells == Cells3(c)
  {
    UndosWalkBack(c);
    SquashRestoresCells(S3(c), 2, k);
  }

  /** Putting "A" after the two Undos keeps the three undo entries, pushes the joined redo
      entries and then the inverse of the put, and empties the redo stack. */
  lemma PutAfterUndosSquashes(c: Cells)
    requires SeedLike(c)
    ensures AppReducer(S5(c), PutValue("A")) == S6(c)
  {
    PutOverPut(c, Here, "X", "A");
  }

  /** Undoing the put of "A" brings back the "X". */
  lemma FinalUndoRestoresPut(c: Cells)
    requires SeedLike(c)
    ensures AppReducer(S6(c), Undo) == S7(c)
  {
    var g5 := ExtractGridState(S5(c));
    PutAfterUndosSquashes(c);
    UndoRestoresGrid(g5, PutValue("A"));
  }

  // Undoing on past the put: the joined entry, then the entries it left in place.

  /** A state of the walk back: the given cells, the five undo entries of S6, and `redo`
      redo entries. */
  predicate WalkState(c: Cells, st: AppState, cells: Cells, redo: nat)
    requires SeedLike(c)
  {
    Valid(st) && st.cells == cells && st.undoStack == S6(c).undoStack && |st.redoStack| == redo
  }

  /** The second Undo after the put replays the joined entry, which brings back the cells
      from before the two earlier Undos. */
  lemma UndoJoinedEntry(c: Cells)
    requires SeedLike(c)
    ensures WalkState(c, AppReducer(S7(c), Undo), Cells3(c), 2)
  {
    SquashedRedoRestores(c, Here);
  }

  /** The next Undo replays the inverse of the second insertion once more, from wherever
      the joined entry left the cursor. */
  lemma UndoSecondInsertionAgain(c: Cells, st: AppState)
    requires SeedLike(c) && WalkState(c, st, Cells3(c), 2)
    ensures WalkState(c, AppReducer(st, Undo), Cells2(c), 3)
    ensures AppReducer(st, Undo).cursor == Here
  {
    var g2 := ExtractGridState(S2(c));
    assert st.undoStack[2] == DeleteAndFill;
    SecondInsertionSavesLastColumn(c);
    InsertColumnUndone(g2, st.cursor);
  }

  /** The next Undo replays the inverse of the first insertion once more. */
  lemma UndoFirstInsertionAgain(c: Cells, st: AppState)
    requires SeedLike(c) && WalkState(c, st, Cells2(c), 3)
    ensures WalkState(c, AppReducer(st, Undo), Cells1(c), 4)
    ensures AppReducer(st, Undo).cursor == Here
  {
    var g1 := ExtractGridState(S1(c));
    assert st.undoStack[1] == DeleteBack;
    FirstInsertionRecordsNoFill(c);
    InsertColumnUndone(g1, st.cursor);
  }

  /** The next Undo takes back the first put, which gives back the starting cells. */
  lemma UndoFirstPut(c: Cells, st: AppState)
    requires SeedLike(c) && WalkState(c, st, Cells1(c), 4)
    ensures WalkState(c, AppReducer(st, Undo), c, 5)
    ensures AppReducer(st, Undo).cursor == Here
  {
    var g0 := ExtractGridState(S0(c));
    assert st.undoStack[0] == PutBack;
    PutRecordsOverwrittenValue(c);
    assert CalculateUndoActions(g0, PutValue("X")) == PutBack;
    PutValueUndone(g0, "X", st.cursor);
  }

  /** Five Undos after the put walk back through every earlier state to the starting
      cells and cursor; every undo entry is then matched by a redo entry, and a further
      Undo changes nothing. */
  lemma HistoryWalkedBackToStart(c: Cells)
    requires SeedLike(c)
    ensures var s := Undos(S6(c), 5);
      s.cursor == Here && s.cells == c && s.undoStack == S6(c).undoStack && |s.redoStack| == 5 &&
      AppReducer(s, Undo) == s
  {
    var s := S6(c);
    FinalUndoRestoresPut(c);
    assert Undos(s, 1) == S7(c) by { assert Undos(s, 0) == s; }
    UndoJoinedEntry(c);
    assert Undos(s, 2) == AppReducer(Undos(s, 1), Undo);
    UndoSecondInsertionAgain(c, Undos(s, 2));
    assert Undos(s, 3) == AppReducer(Undos(s, 2), Undo);
    UndoFirstInsertionAgain(c, Undos(s, 3));
    assert Undos(s, 4) == AppReducer(Undos(s, 3), Undo);
    UndoFirstPut(c, Undos(s, 4));
    assert Undos(s, 5) == AppReducer(Undos(s, 4), Undo);
  }

  /** A second put at the same cell overwrites the first. */
  lemma PutOverPut(cells: Cells, loc: Cursor, first: string, second: string)
    requires WellFormedCells(cells) && InBounds(loc)
    ensures PutValueAt(PutValueAt(cells, loc, first), loc, second) == PutValueAt(cells, loc, second)
  {
    var a := PutValueAt(PutValueAt(cells, loc, first), loc, second);
    var b := PutValueAt(cells, loc, second);
    forall i | 0 <= i < GridRows
      ensures a[i] == b[i]
    {
      assert forall j :: 0 <= j < GridColumns ==> a[i][j] == b[i][j];
    }
  }
}
