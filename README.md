# Grid editor state core with undo and redo

A model in Dafny of the state core of a 10 × 10 grid editor. Every user command is an
action value. The core folds each action into an application state made of:

- a cursor;
- the cells, rows of strings where the empty string is a blank cell;
- an undo stack;
- a redo stack, holding groups of commands.

Before an undoable command changes the cells, the core computes, from the grid as it was,
a list of commands meant to take it back (its *inverse*). The list has a restore step only
where the discarded content is not blank. The core pushes that list onto the undo stack.

- **Undo** replays the entry at `undoStack[|undoStack| - 1 - |redoStack|]` and pushes the
  inverse of that replay onto the redo stack. It never pops the undo stack.
- **Redo** replays the top redo entry and pops it.
- **A new command after one or more Undos** first joins the pending redo entries, most
  recent first, into one undo entry (*squash*). It then pushes its own inverse and
  empties the redo stack.

Modules, one per source file:

| module | source file | what it models |
|---|---|---|
| `Constants` | — | the dimensions and the `Cells` type |
| `ActionTags`, `Actions` | `src/store/actions.ts` | the action tags, the command union and the factories |
| `Cursors` | `src/store/cursorReducer.ts` | the cursor movement rules |
| `Grids` | `src/store/gridReducer.ts` | the cell operations, the emptiness queries, the seed grid and the grid reducer |
| `Undo` | `src/store/undoReducer.ts` | which commands are undoable, and the inverse calculator |
| `App` | `src/store/appReducer.ts` | the application state, the replay of an entry and the top-level reducer |

Three further modules hold the proofs about them:

- `UndoCorrectness`: each inverse gives back the grid before its command.
- `History`: what the undo, redo and squash steps promise across several commands.
- `Scenarios`: the worked example at the end of `src/store/actions.ts`, carried on until
  the history is used up.

The two loops of `gridReducer.ts` that walk down or up the rows from the cursor row,
splicing each row in turn, are methods with loop invariants. They are proved equal to
specification functions. So are the nested scan of
`cellRangeEmpty` and the loop of `performUndoActions`. The pure callers (`cellsReducer`,
`calculateUndoActions`, `appReducer`) use those specification functions.

`src/store/constants.ts` is not part of this model. Its two dimensions are taken as 10 and
10, the size of the seed grid `initialGrid`.

### Where the code does not do what it says

The names `insertCellShiftDown` and `deleteCellShiftUp` describe a vertical `InsertCell`
or `DeleteCell` as a shift along the cursor's column. So does the far-edge cell that the
inverse restores: the last row of the cursor column (`undoReducer.ts:69-75`). The code
shifts something else, and the model follows the code:

- `insertCellShiftDown` shifts every row from the cursor row down one place to the right
  from the cursor column. It writes the value from the row above into the cursor column.
- `deleteCellShiftUp` leaves the cursor row alone. It does the same rightward shift on
  every row below the cursor row, writing the value from the row below.

The inverse of one vertical shift is the other. So an Undo of a vertical shift does not
give back the grid.

The comment on `appReducer` (`appReducer.ts:131-134`) promises that the recorded inverse
restores the state before the command. As written, that fails in two more cases:

- `ClearGrid` writes the seed pattern, yet it records no inverse when the grid was blank.
- The inverse of `SetGrid` on a blank grid is `ClearGrid`, which again writes the seed
  pattern.

The round-trip theorem excludes these four cases. For each one, a lemma shows a grid on
which the inverse fails.

A fifth case breaks Redo rather than Undo. `SetGrid` with a blank grid is undone
correctly. But the redo entry is computed from the blank grid, so it is `ClearGrid` (or
nothing at all), and Redo ends on the seed pattern rather than the blanks
(`SetBlankThenUndoRedo`). The undo-then-redo theorem excludes this case as well.

## Model

| member | source | states |
|---|---|---|
| `Actions.EveryTagListed` | src/store/actions.ts:3-22 | The tag table lists every command tag, at the tag's own position. |
| `Actions.ActionTypesAreEighteen` | src/store/actions.ts:3-22 | There are eighteen tags and no tag appears twice. |
| `Actions.EveryTagHasAVariant` | src/store/actions.ts:132-150 | Every tag is the tag of some member of the command union. |
| `Actions.TypeOf` | src/store/actions.ts:42-44 | The `type` field is `Undo` exactly for the Undo command and `Redo` exactly for the Redo command, the two tags `appReducer` switches on before all others. `TypeIdentifiesVariant` gives the same for every tag. |
| `Actions.TypeIdentifiesVariant` | src/store/actions.ts:132-150 | Two commands carry the same tag exactly when they are built by the same variant, so a switch on the tag is a switch on the variant. |
| `Actions.DirectionsCounted` | src/store/actions.ts:26-40 | There are four distinct cursor directions and two distinct shift directions. |
| `Actions.EveryDirectionListed` | src/store/actions.ts:26-40 | Every direction and every shift direction is in its table. |
| `Actions.CreateClearGridAction` | src/store/actions.ts:152-156 | Returns a command tagged ClearGrid. |
| `Actions.CreateSetGridAction` | src/store/actions.ts:158-163 | Returns a command tagged SetGrid carrying the given cells. |
| `Actions.CreateMoveCursorByCellAction` | src/store/actions.ts:165-170 | Returns a command tagged MoveCursorByCell carrying the given direction. |
| `Actions.CreateMoveCursorToEdgeAction` | src/store/actions.ts:172-177 | Returns a command tagged MoveCursorToEdge carrying the given direction. |
| `Actions.CreateMoveCursorToAction` | src/store/actions.ts:179-185 | Returns a command tagged MoveCursorTo carrying the given row and column. |
| `Actions.CreatePutValueAction` | src/store/actions.ts:187-192 | Returns a command tagged PutValue carrying the given value. |
| `Actions.CreateInsertCellAction` | src/store/actions.ts:194-199 | Returns a command tagged InsertCell carrying the given shift direction. |
| `Actions.CreateInsertRowAction` | src/store/actions.ts:201-205 | Returns a command tagged InsertRow. |
| `Actions.CreateInsertColumnAction` | src/store/actions.ts:207-211 | Returns a command tagged InsertColumn. |
| `Actions.CreateDeleteCellAction` | src/store/actions.ts:213-218 | Returns a command tagged DeleteCell carrying the given shift direction. |
| `Actions.CreateDeleteRowAction` | src/store/actions.ts:220-224 | Returns a command tagged DeleteRow. |
| `Actions.CreateDeleteColumnAction` | src/store/actions.ts:226-230 | Returns a command tagged DeleteColumn. |
| `Actions.CreateFillRowAtAction` | src/store/actions.ts:232-238 | Returns a command tagged FillRowAt carrying the given row and values. |
| `Actions.CreateFillColumnAtAction` | src/store/actions.ts:240-246 | Returns a command tagged FillColumnAt carrying the given column and values. |
| `Actions.CreateClearRowAtAction` | src/store/actions.ts:248-253 | Returns a command tagged ClearRowAt carrying the given row. |
| `Actions.CreateClearColumnAtAction` | src/store/actions.ts:255-260 | Returns a command tagged ClearColumnAt carrying the given column. |
| `Actions.CreateUndoAction` | src/store/actions.ts:262-266 | Returns a command tagged Undo. |
| `Actions.CreateRedoAction` | src/store/actions.ts:268-272 | Returns a command tagged Redo. |
| `Cursors.CursorReducer` | src/store/cursorReducer.ts:9-60 | A step or an edge jump keeps an in-bounds cursor in bounds. It moves along one axis only. MoveCursorTo sets both coordinates, unchecked. Every other command leaves the cursor as it was. |
| `Cursors.StepIsClamped` | src/store/cursorReducer.ts:11-30 | A single step moves one cell in its direction, except at the boundary, where it stays put. |
| `Cursors.StepAtBoundaryIsNoOp` | src/store/cursorReducer.ts:11-30 | A step towards the boundary the cursor is already on changes nothing. |
| `Cursors.JumpToEdgeIsIdempotent` | src/store/cursorReducer.ts:32-51 | An edge jump lands on the first or last row or column. A second jump in the same direction changes nothing. |
| `Grids.PutValueAt` | src/store/gridReducer.ts:14-26 | The grid stays 10 × 10. The cursor cell holds the new value. Every other cell is unchanged. |
| `Grids.InsertCellShiftRight` | src/store/gridReducer.ts:28-40 | The other rows are unchanged. In the cursor row a blank appears at the cursor, the cells after it move one place right, and the last cell is discarded. |
| `Grids.ShiftedDown` | src/store/gridReducer.ts:42-62 | Rows above the cursor are unchanged. Each row from the cursor row down gets a rightward shift from the cursor column, with the value from the row above (blank for the cursor row) written into the cursor column. |
| `Grids.InsertCellShiftDown` | src/store/gridReducer.ts:42-62 | The loop computes exactly `ShiftedDown`. |
| `Grids.InsertRowAt` | src/store/gridReducer.ts:64-70 | A blank row appears at the given row, the rows after it move down one, and the last row is discarded. |
| `Grids.InsertColumnAt` | src/store/gridReducer.ts:72-74 | A blank column appears at the given column, the columns after it move right one, and the last column is discarded. |
| `Grids.DeleteCellShiftLeft` | src/store/gridReducer.ts:76-88 | The other rows are unchanged. In the cursor row the cells after the cursor move one place left, and a blank fills the last cell. |
| `Grids.ShiftedUp` | src/store/gridReducer.ts:90-110 | The rows up to the cursor row are unchanged. Each row below gets a rightward shift from the cursor column, with the value from the row below (blank for the last row) written into the cursor column. |
| `Grids.DeleteCellShiftUp` | src/store/gridReducer.ts:90-110 | The loop, which runs from the last row upwards, computes exactly `ShiftedUp`. |
| `Grids.DeleteRowAt` | src/store/gridReducer.ts:112-118 | The rows after the given row move up one, and a blank last row appears. |
| `Grids.FillRow` | src/store/gridReducer.ts:120-126 | The row is replaced by the values and every other row is unchanged. The grid stays 10 × 10 exactly when ten values are given. |
| `Grids.FillColumn` | src/store/gridReducer.ts:128-132 | Cell i of the column becomes values[i]. Every other column is unchanged. |
| `Grids.ClearRow` | src/store/gridReducer.ts:134-136 | The row becomes blank and every other row is unchanged. |
| `Grids.ClearColumn` | src/store/gridReducer.ts:138-142 | The column becomes blank and every other cell is unchanged. |
| `Grids.DeleteColumnAt` | src/store/gridReducer.ts:144-146 | The columns after the given column move left one, and a blank last column appears. |
| `Grids.CellRangeEmpty` | src/store/gridReducer.ts:152-164 | The nested scan returns true exactly when every cell of the inclusive rectangle is blank. |
| `Grids.CellsEmpty` | src/store/gridReducer.ts:166-171 | The whole-grid scan holds exactly when the grid equals the all-blank grid. |
| `Grids.InitialGridValid` | src/store/gridReducer.ts:173-187 | The seed grid is 10 × 10, its cursor (0, 0) is in bounds, and it is not blank. |
| `Grids.CellsReducer` | src/store/gridReducer.ts:189-248 | The result is 10 × 10. Navigation commands, Undo and Redo leave the cells as they were. |
| `Grids.GridReducer` | src/store/gridReducer.ts:250-255 | The grid stays valid. Navigation commands change only the cursor, every other command keeps the cursor, and Undo and Redo change nothing. |
| `Grids.DeleteRowAfterInsertRow` | src/store/gridReducer.ts:64-70 | Deleting the row just inserted gives back the grid with its discarded last row blank. |
| `Grids.DeleteColumnAfterInsertColumn` | src/store/gridReducer.ts:72-74 | Deleting the column just inserted gives back the grid with its discarded last column blank. |
| `Grids.InsertRowAfterDeleteRow` | src/store/gridReducer.ts:112-118 | Inserting a row where one was deleted gives back the grid with that row blank. |
| `Grids.InsertColumnAfterDeleteColumn` | src/store/gridReducer.ts:144-146 | Inserting a column where one was deleted gives back the grid with that column blank. |
| `Grids.DeleteCellAfterInsertCell` | src/store/gridReducer.ts:28-40 | A horizontal delete after a horizontal insert at the same cell gives back the grid with the discarded last cell of the row blank. |
| `Grids.InsertCellAfterDeleteCell` | src/store/gridReducer.ts:76-88 | A horizontal insert after a horizontal delete at the same cell gives back the grid with that cell blank. |
| `Grids.PutValueRestoresCell` | src/store/gridReducer.ts:14-26 | On a grid that differs from a target only at one cell, putting the target's value there gives the target. |
| `Grids.FillRowRestoresRow` | src/store/gridReducer.ts:120-126 | On a grid that differs from a target only in one row, filling that row with the target's row gives the target. |
| `Grids.FillColumnRestoresColumn` | src/store/gridReducer.ts:128-150 | On a grid that differs from a target only in one column, filling that column with the column read from the target gives the target. |
| `Grids.ReadColumnFromCells` | src/store/gridReducer.ts:148-150 | Ten values, the one at position i being the cell of row i in the given column. |
| `Grids.RowEmptyIsBlankRow` | src/store/gridReducer.ts:152-164 | A one-row range is empty exactly when the row is ten blanks. |
| `Grids.ColumnEmptyIsBlankColumn` | src/store/gridReducer.ts:148-164 | A one-column range is empty exactly when the column read from it is ten blanks. |
| `Grids.ClearingBlankLineIsNoOp` | src/store/gridReducer.ts:134-142 | Clearing a row or column that is already empty changes nothing. |
| `Grids.ShiftedDownSplicesCursorRow` | src/store/gridReducer.ts:42-62 | In the cursor row, the vertical insert does exactly what the horizontal insert does. |
| `Undo.IsUndoableAction` | src/store/undoReducer.ts:19-43 | A command is undoable exactly when it is neither a navigation command nor Undo nor Redo. |
| `Undo.RemoveNull` | src/store/undoReducer.ts:45-47 | The result is never longer than the input. `RemoveNullCons` and `RemoveNullMembers` give its contents and order. |
| `Undo.RemoveNullCons` | src/store/undoReducer.ts:45-47 | Dropping the absent entries works entry by entry and keeps the order. |
| `Undo.RemoveNullMembers` | src/store/undoReducer.ts:45-47 | A value is in the result exactly when it was present in the input. |
| `Undo.CalculateUndoActions` | src/store/undoReducer.ts:50-222 | A command that is not undoable (a cursor move, Undo, Redo) has an empty inverse. The inverse of each undoable command is given by the shape lemmas below, and `UndoCorrectness` proves what replaying it gives back. |
| `Undo.UndoClearRowShape` | src/store/undoReducer.ts:189-200 | Clearing a row is undone by filling it with its old contents. Clearing a row that is already blank records nothing, so clearing it again has an empty inverse. |
| `Undo.UndoClearColumnShape` | src/store/undoReducer.ts:202-213 | Clearing a column is undone by filling it with its old contents. Clearing a column that is already blank records nothing. |
| `Undo.UndoPutValueShape` | src/store/undoReducer.ts:58-64 | A put is undone by exactly a move back to the cursor and a put of the old value, even when the value does not change. |
| `Undo.UndoFillRowShape` | src/store/undoReducer.ts:165-175 | A row fill is undone in one step: a clear when the row was blank, otherwise a fill with its old contents. |
| `Undo.UndoFillColumnShape` | src/store/undoReducer.ts:177-187 | A column fill is undone in one step: a clear when the column was blank, otherwise a fill with its old contents. |
| `Undo.UndoSetGridShape` | src/store/undoReducer.ts:55-56 | Replacing the grid is undone by a SetGrid of the old cells, or by a clear when they were all blank. |
| `Undo.UndoClearGridShape` | src/store/undoReducer.ts:52-53 | The inverse of ClearGrid is empty on a blank grid, and otherwise a SetGrid of the current cells. |
| `Undo.UndoInsertCellShape` | src/store/undoReducer.ts:66-87 | The inverse of InsertCell is a move back and a DeleteCell in the same direction. When the far-edge cell is not blank, it is followed by a move to that cell, a put of its value and a move back. |
| `Undo.UndoInsertRowShape` | src/store/undoReducer.ts:89-103 | The inverse of InsertRow is a move back and a DeleteRow, plus a FillRowAt of the last row when that row is not blank. |
| `Undo.UndoInsertColumnShape` | src/store/undoReducer.ts:105-119 | The inverse of InsertColumn is a move back and a DeleteColumn, plus a FillColumnAt of the last column when that column is not blank. |
| `Undo.UndoDeleteCellShape` | src/store/undoReducer.ts:121-133 | The inverse of DeleteCell is a move back and an InsertCell in the same direction, plus a put of the deleted value when it was not blank. |
| `Undo.UndoDeleteRowShape` | src/store/undoReducer.ts:135-148 | The inverse of DeleteRow is a move back and an InsertRow, plus a FillRowAt of the deleted row when it was not blank. |
| `Undo.UndoDeleteColumnShape` | src/store/undoReducer.ts:150-163 | The inverse of DeleteColumn is a move back and an InsertColumn, plus a FillColumnAt of the deleted column when it was not blank. |
| `Undo.DirectUndoWellFormed` | src/store/undoReducer.ts:165-213 | The one-step inverses of the fill, clear, put and set commands have in-range coordinates and lines of the right length. |
| `Undo.UndoActionsWellFormed` | src/store/undoReducer.ts:50-222 | Every inverse can be replayed: its coordinates are in range and its lines have the right length. |
| `App.ExtractGridState` | src/store/appReducer.ts:15-20 | The grid carries the state's own cursor and cells. |
| `App.ExtractGridStateKeepsAll` | src/store/appReducer.ts:15-20 | The extracted grid and the two stacks rebuild the whole state, so extracting drops nothing but the stacks. |
| `App.InitialStateValid` | src/store/appReducer.ts:9-13 | The initial state is the seed grid with two empty stacks, and it is valid. |
| `App.ApplyActions` | src/store/appReducer.ts:25-35 | Replaying a list of well-formed commands keeps the grid 10 × 10 with the cursor in bounds. |
| `App.RedoGroups` | src/store/appReducer.ts:25-32 | There is one replayable redo group for each command replayed. |
| `App.Reversed` | src/store/appReducer.ts:37-42 | Element i of the result is element n - 1 - i of the input. |
| `App.Flatten` | src/store/appReducer.ts:140-146 | The groups joined in order: empty for no groups, and starting with the first group otherwise. `FlattenAppend` gives the rest of the content. |
| `App.FlattenAppend` | src/store/appReducer.ts:140-146 | Concatenating groups with one more group at the end appends that group. |
| `App.RedoActions` | src/store/appReducer.ts:37-42 | The redo list collected while replaying an entry can itself be replayed. |
| `App.Squash` | src/store/appReducer.ts:140-146 | The joined redo entries can be replayed. |
| `App.PerformUndoActions` | src/store/appReducer.ts:22-48 | The loop's grid is the replay of the entry. Its redo list is the per-step inverses joined last step first when `calcRedo` holds, and empty otherwise. |
| `App.AppReducer` | src/store/appReducer.ts:51-163 | The state stays valid. Undo with an entry left replays it, keeps the undo stack and pushes its redo list; Redo with a redo entry replays the top one and pops it; with nothing to undo or redo they change nothing. An undoable command pushes the squashed redo entries (when there are any) and its own inverse, empties the redo stack and applies the grid reducer. A navigation command moves only the cursor. |
| `UndoCorrectness.ApplyConcat` | src/store/appReducer.ts:25-35 | Replaying two lists one after the other is replaying their concatenation. |
| `UndoCorrectness.PutValueUndone` | src/store/undoReducer.ts:58-64 | From any cursor, replaying the inverse of a put on the put's result gives back the grid before it, cursor included. |
| `UndoCorrectness.InsertCellThenBack` | src/store/undoReducer.ts:80-82 | After a horizontal insert, the move back and the delete give back the grid with the last cell of the row blank. |
| `UndoCorrectness.InsertCellUndone` | src/store/undoReducer.ts:66-87 | From any cursor, the inverse of a horizontal insert gives back the grid before it, the end cell included. |
| `UndoCorrectness.DeleteCellThenBack` | src/store/undoReducer.ts:128-130 | After a horizontal delete, the move back and the insert give back the grid with the cursor cell blank. |
| `UndoCorrectness.DeleteCellUndone` | src/store/undoReducer.ts:121-133 | From any cursor, the inverse of a horizontal delete gives back the grid before it. |
| `UndoCorrectness.InsertRowThenBack` | src/store/undoReducer.ts:93-95 | After a row insert, the move back and the row delete give back the grid with the last row blank. |
| `UndoCorrectness.InsertRowUndone` | src/store/undoReducer.ts:89-103 | From any cursor, the inverse of a row insert gives back the grid before it. |
| `UndoCorrectness.DeleteRowThenBack` | src/store/undoReducer.ts:138-140 | After a row delete, the move back and the row insert give back the grid with the deleted row blank. |
| `UndoCorrectness.DeleteRowUndone` | src/store/undoReducer.ts:135-148 | From any cursor, the inverse of a row delete gives back the grid before it. |
| `UndoCorrectness.InsertColumnThenBack` | src/store/undoReducer.ts:109-111 | After a column insert, the move back and the column delete give back the grid with the last column blank. |
| `UndoCorrectness.InsertColumnUndone` | src/store/undoReducer.ts:105-119 | From any cursor, the inverse of a column insert gives back the grid before it. |
| `UndoCorrectness.DeleteColumnThenBack` | src/store/undoReducer.ts:153-155 | After a column delete, the move back and the column insert give back the grid with the deleted column blank. |
| `UndoCorrectness.DeleteColumnUndone` | src/store/undoReducer.ts:150-163 | From any cursor, the inverse of a column delete gives back the grid before it. |
| `UndoCorrectness.FillRowUndone` | src/store/undoReducer.ts:165-175 | The inverse of a row fill gives back the cells, whether or not the row was blank before. |
| `UndoCorrectness.FillColumnUndone` | src/store/undoReducer.ts:177-187 | The inverse of a column fill gives back the cells, whether or not the column was blank before. |
| `UndoCorrectness.ClearRowUndone` | src/store/undoReducer.ts:189-200 | The inverse of a row clear gives back the cells, whether or not the row was already blank. |
| `UndoCorrectness.ClearColumnUndone` | src/store/undoReducer.ts:202-213 | The inverse of a column clear gives back the cells, whether or not the column was already blank. |
| `UndoCorrectness.ClearGridUndone` | src/store/undoReducer.ts:52-53 | On a grid that is not blank, the inverse of ClearGrid gives back the cells. |
| `UndoCorrectness.SetGridUndone` | src/store/undoReducer.ts:55-56 | On a grid that is not blank, the inverse of SetGrid gives back the cells. |
| `UndoCorrectness.NotUndoableUndone` | src/store/undoReducer.ts:215-221 | A command that is not undoable leaves the cells, and its empty inverse changes nothing. |
| `UndoCorrectness.InverseRestores` | src/store/undoReducer.ts:50-222 | For every command outside the four exceptions, replaying its inverse from any cursor on the command's result gives back the cells. The cursor comes back too for the commands whose inverse starts with a move. |
| `UndoCorrectness.VerticalInsertThenBack` | src/store/undoReducer.ts:80-82 | After a vertical insert, the move back and the vertical delete compute `ShiftedUp` of `ShiftedDown`. |
| `UndoCorrectness.VerticalInsertUndoneRow` | src/store/undoReducer.ts:66-87 | Above the last row, the undone vertical insert leaves the cursor row as `ShiftedUp` of `ShiftedDown` leaves it. |
| `UndoCorrectness.VerticalInsertShiftsCursorRow` | src/store/undoReducer.ts:66-87 | After the undone vertical insert, the old cursor value sits one column to the right. |
| `UndoCorrectness.RestoringEndCellKeepsRow` | src/store/undoReducer.ts:83-85 | The three restore steps for the far-edge cell change no other row. |
| `UndoCorrectness.VerticalDeleteShiftsCursorColumn` | src/store/undoReducer.ts:121-133 | After the undone vertical delete, the cell below the cursor holds the old cursor value. |
| `UndoCorrectness.VerticalInsertIsNotUndone` | src/store/undoReducer.ts:66-87 | On one concrete grid, the undone vertical insert does not give back the cells. |
| `UndoCorrectness.VerticalDeleteIsNotUndone` | src/store/undoReducer.ts:121-133 | On one concrete grid, the undone vertical delete does not give back the cells. |
| `UndoCorrectness.ClearBlankGridIsNotUndone` | src/store/undoReducer.ts:52-53 | On a blank grid, ClearGrid records nothing, and the cells after it are the seed pattern, which is not the blank grid. |
| `UndoCorrectness.SetBlankGridIsNotUndone` | src/store/undoReducer.ts:55-56 | On a blank grid, the inverse of SetGrid is ClearGrid, and replaying it leaves the seed pattern, not the blank grid. |
| `History.UndoRestoresGrid` | src/store/appReducer.ts:127-134 | For a command that round-trips, replaying its recorded entry on the grid it produced gives back the grid before it. |
| `History.RedoActionsCons` | src/store/appReducer.ts:25-42 | The redo list of an entry is the redo list of its remaining steps followed by the inverse of its first step. |
| `History.RedoRestoresCells` | src/store/appReducer.ts:37-42 | Replaying the redo list, from any cursor, on the grid an entry produced gives back the cells from before the entry. This holds when every step of the entry round-trips. The cursor ends where it stood before the first step whose inverse moves the cursor back, or stays put when no step does. |
| `History.InverseRedoCursor` | src/store/undoReducer.ts:50-222 | For every undoable command, the redo list of its inverse, replayed from the cursor before the command, leaves the cursor there. |
| `History.InverseAlwaysRoundTrips` | src/store/undoReducer.ts:50-222 | The inverse of a command that always round-trips is made only of commands that always round-trip. |
| `History.InverseStepsRoundTrip` | src/store/undoReducer.ts:50-222 | For a command that round-trips, other than SetGrid with a blank grid, every step of its recorded inverse round-trips on the grid it is replayed on. |
| `History.UndoAfterCommand` | src/store/appReducer.ts:53-81 | For a command that round-trips, the command followed by Undo gives back the grid before the command. The undo stack is kept and one redo entry is pushed. |
| `History.RedoAfterUndo` | src/store/appReducer.ts:83-97 | For a command that round-trips, other than SetGrid with a blank grid, the command, Undo and Redo give back the grid after the command, cursor included. They also give back the same undo stack and an empty redo stack. |
| `History.SetBlankThenUndoRedo` | src/store/undoReducer.ts:55-56 | Replacing the cells with a blank grid, then Undo and Redo, ends on the seed cells rather than the blank ones. |
| `History.UndosKeepUndoStack` | src/store/appReducer.ts:65-70 | From an empty redo stack, n Undos keep the undo stack and push exactly n redo entries. |
| `History.UndoPops` | src/store/appReducer.ts:73-79 | An Undo replays the selected entry, keeps the undo stack and pushes the entry's redo list. |
| `History.SquashSnoc` | src/store/appReducer.ts:140-146 | Pushing a redo entry puts it at the front of the squashed entry. |
| `History.SquashRestoresCells` | src/store/appReducer.ts:124-135 | When every one of the n undone entries round-trips, after n Undos from an empty redo stack the squashed entry, replayed from any cursor, gives back the cells from before the Undos. |
| `History.CommandAfterUndos` | src/store/appReducer.ts:105-157 | A command after n Undos keeps the old undo stack as a prefix, adds the squashed entry and its own inverse, and empties the redo stack. When every one of the n undone entries round-trips, the squashed entry gives back the cells from before the Undos. When the command round-trips, its inverse gives back the grid from before the command. |
| `Scenarios.SeedIsSeedLike` | src/store/gridReducer.ts:173-187 | The seed grid has an "o" at (4, 3), a blank last column, and two 'O's in the column before it. |
| `Scenarios.PutRecordsOverwrittenValue` | src/store/actions.ts:292-307 | Putting "X" at (4, 3) writes it there and records a move back and a put of "o". |
| `Scenarios.FirstInsertionRecordsNoFill` | src/store/actions.ts:310-325 | The first column insertion pushes off a blank column, so it records only the move back and a DeleteColumn. |
| `Scenarios.SecondInsertionSavesLastColumn` | src/store/actions.ts:329-345 | The second insertion pushes off the column with the two 'O's. It also records a FillColumnAt of column 9 with that column. |
| `Scenarios.FirstUndo` | src/store/actions.ts:348-363 | The first Undo gives back the grid after one insertion. It keeps the three undo entries and pushes one redo entry. |
| `Scenarios.SecondUndo` | src/store/actions.ts:366-381 | The second Undo gives back the grid after the put and pushes a second redo entry. |
| `Scenarios.UndosWalkBack` | src/store/actions.ts:348-381 | The two Undos reach that state, and each entry they replay round-trips. |
| `Scenarios.SquashedRedoRestores` | src/store/actions.ts:397 | The joined redo entries, replayed from any cursor, bring back the grid from before the two Undos. |
| `Scenarios.PutAfterUndosSquashes` | src/store/actions.ts:384-399 | Putting "A" gives five undo entries: the three old ones, the joined redo entries and a put of "X". The redo stack is emptied. |
| `Scenarios.FinalUndoRestoresPut` | src/store/actions.ts:404-414 | Undoing the put of "A" brings back the grid with "X". |
| `Scenarios.UndoJoinedEntry` | src/store/appReducer.ts:135 | The next Undo replays the joined entry and brings back the grid after both insertions. |
| `Scenarios.UndoSecondInsertionAgain` | src/store/appReducer.ts:136-137 | The next Undo replays the second insertion's inverse again, from wherever the cursor was left. |
| `Scenarios.UndoFirstInsertionAgain` | src/store/appReducer.ts:136-137 | The next Undo replays the first insertion's inverse again. |
| `Scenarios.UndoFirstPut` | src/store/appReducer.ts:136-137 | The next Undo takes back the first put and gives back the starting cells. |
| `Scenarios.HistoryWalkedBackToStart` | src/store/appReducer.ts:131-137 | After the put, five Undos end at the starting cells and cursor. Every undo entry then has its redo entry, and a further Undo changes nothing. |

## Left out

- `src/App.tsx` (rendering and keyboard wiring) and the Jest tests are not modelled.
- `notImplemented` in `undoReducer.ts` is never called by the core, and the unused `fs`
  import in `appReducer.ts` is not modelled.
- Structural sharing of the immutable arrays is not modelled: values are compared as
  values.
- The reducers assume well-formed input that the TypeScript never checks:
  - a 10 × 10 grid and an in-bounds cursor;
  - commands whose coordinates are in range and whose lines have the right length.

  Every member requires this, and `AppReducer` keeps it. What the TypeScript does with an
  out-of-range index or a ragged row (`undefined` cells, a row of a different length) is
  not modelled.
- Cells hold any string. The single-character convention of the editor is not enforced,
  because the core does not enforce it either.
- `UndoState` is flattened into `AppState` as its two stack fields, as the intersection
  type `Grid & UndoState` does.
- The `{ grid, redoActions }` result object of `performUndoActions` becomes the two
  out-parameters of `PerformUndoActions`.
- InverseRestores (UndoCorrectness): does not cover vertical `InsertCell` and
  `DeleteCell`, or `ClearGrid` and `SetGrid` on a blank grid. The code does not give back the grid in those cases (see
  above), and separate lemmas show it.
- InverseStepsRoundTrip (History): does not cover the cases the round-trip theorem
  excludes, or `SetGrid` with a blank grid, whose inverse is `ClearGrid`.
- UndoAfterCommand (History): does not cover the cases the round-trip theorem excludes.
  The code does not give back the grid in those cases (see above).
- RedoAfterUndo (History): does not cover the cases the round-trip theorem excludes, or
  `SetGrid` with a blank grid. The code does not give back the grid in those cases (see
  above), and separate lemmas show it.
- SquashRestoresCells (History): claims the cells only. Cursor moves are not recorded on
  the undo stack, so the cursor before the Undos can be one that no entry mentions. It
  also requires every undone entry to round-trip step by step. Entries recorded for the
  four cases that the round-trip theorem excludes can fail that.
- CommandAfterUndos (History): claims only the cells for the squashed entry, for the same
  reason as `SquashRestoresCells`, and only when every undone entry round-trips. It claims
  the grid back from the command's own inverse only when the command round-trips.
  The further Undos past the squashed entry are stated for the worked example
  (`HistoryWalkedBackToStart`), not for every history.
- The worked example is proved for every starting grid with the three features of the
  seed grid it relies on, and the seed grid is shown to have them.
