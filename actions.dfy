/** The tags of the commands, kept in a module of their own because they share their
    names with the command constructors. */
module ActionTags {
  /** The tag of every command. */
  datatype ActionType =
    | ClearGrid | SetGrid
    | MoveCursorByCell | MoveCursorToEdge | MoveCursorTo
    | PutValue
    | InsertCell | InsertRow | InsertColumn
    | DeleteCell | DeleteRow | DeleteColumn
    | FillRowAt | FillColumnAt | ClearRowAt | ClearColumnAt
    | Undo | Redo
}

/** The closed vocabulary of commands dispatched into the editor core, with one factory
    function per command. */
module Actions {
  import opened Constants
  import ActionTags
  type ActionType = ActionTags.ActionType

  datatype Direction = Right | Down | Left | Up

  datatype ShiftDirection = Horizontal | Vertical

  /** One command with exactly the fields its kind carries. Row and column numbers are
      unbounded integers: nothing in the vocabulary checks them. */
  datatype Action =
    | ClearGrid
    | SetGrid(cells: Cells)
    | MoveCursorByCell(direction: Direction)
    | MoveCursorToEdge(direction: Direction)
    | MoveCursorTo(row: int, column: int)
    | PutValue(value: string)
    | InsertCell(shiftDirection: ShiftDirection)
    | InsertRow
    | InsertColumn
    | DeleteCell(shiftDirection: ShiftDirection)
    | DeleteRow
    | DeleteColumn
    | FillRowAt(row: int, values: seq<string>)
    | FillColumnAt(column: int, values: seq<string>)
    | ClearRowAt(row: int)
    | ClearColumnAt(column: int)
    | Undo
    | Redo

  /** The `type` field of a command. */
  function TypeOf(a: Action): (r: ActionType)
    ensures r == ActionTags.Undo <==> a.Undo?
    ensures r == ActionTags.Redo <==> a.Redo?
  {
    match a
    case ClearGrid => ActionTags.ClearGrid
    case SetGrid(_) => ActionTags.SetGrid
    case MoveCursorByCell(_) => ActionTags.MoveCursorByCell
    case MoveCursorToEdge(_) => ActionTags.MoveCursorToEdge
    case MoveCursorTo(_, _) => ActionTags.MoveCursorTo
    case PutValue(_) => ActionTags.PutValue
    case InsertCell(_) => ActionTags.InsertCell
    case InsertRow => ActionTags.InsertRow
    case InsertColumn => ActionTags.InsertColumn
    case DeleteCell(_) => ActionTags.DeleteCell
    case DeleteRow => ActionTags.DeleteRow
    case DeleteColumn => ActionTags.DeleteColumn
    case FillRowAt(_, _) => ActionTags.FillRowAt
    case FillColumnAt(_, _) => ActionTags.FillColumnAt
    case ClearRowAt(_) => ActionTags.ClearRowAt
    case ClearColumnAt(_) => ActionTags.ClearColumnAt
    case Undo => ActionTags.Undo
    case Redo => ActionTags.Redo
  }

  /** The tags in declaration order. */
  const AllActionTypes: seq<ActionType> := [
    ActionTags.ClearGrid, ActionTags.SetGrid,
    ActionTags.MoveCursorByCell, ActionTags.MoveCursorToEdge, ActionTags.MoveCursorTo,
    ActionTags.PutValue,
    ActionTags.InsertCell, ActionTags.InsertRow, ActionTags.InsertColumn,
    ActionTags.DeleteCell, ActionTags.DeleteRow, ActionTags.DeleteColumn,
    ActionTags.FillRowAt, ActionTags.FillColumnAt, ActionTags.ClearRowAt, ActionTags.ClearColumnAt,
    ActionTags.Undo, ActionTags.Redo
  ]

  /** The position of a tag in the declaration. */
  function Ordinal(t: ActionType): nat {
    match t
    case ClearGrid => 0
    case SetGrid => 1
    case MoveCursorByCell => 2
    case MoveCursorToEdge => 3
    case MoveCursorTo => 4
    case PutValue => 5
    case InsertCell => 6
    case InsertRow => 7
    case InsertColumn => 8
    case DeleteCell => 9
    case DeleteRow => 10
    case DeleteColumn => 11
    case FillRowAt => 12
    case FillColumnAt => 13
    case ClearRowAt => 14
    case ClearColumnAt => 15
    case Undo => 16
    case Redo => 17
  }

  /** The table lists every tag, at its own position. */
  lemma EveryTagListed(t: ActionType)
    ensures Ordinal(t) < |AllActionTypes| && AllActionTypes[Ordinal(t)] == t
  {
  }

  /** There are eighteen tags, and no tag is listed twice. */
  lemma ActionTypesAreEighteen()
    ensures |AllActionTypes| == 18
    ensures forall i, j :: 0 <= i < j < |AllActionTypes| ==> AllActionTypes[i] != AllActionTypes[j]
  {
    forall i | 0 <= i < |AllActionTypes|
      ensures Ordinal(AllActionTypes[i]) == i
    {
    }
  }

  /** Two commands carry the same tag exactly when they are built by the same variant,
      so dispatching on the tag is dispatching on the variant. */
  lemma TypeIdentifiesVariant(a: Action, b: Action)
    ensures TypeOf(a) == TypeOf(b) <==>
      (a.ClearGrid? && b.ClearGrid?) || (a.SetGrid? && b.SetGrid?) || (a.MoveCursorByCell? && b.MoveCursorByCell?) ||
      (a.MoveCursorToEdge? && b.MoveCursorToEdge?) || (a.MoveCursorTo? && b.MoveCursorTo?) || (a.PutValue? && b.PutValue?) ||
      (a.InsertCell? && b.InsertCell?) || (a.InsertRow? && b.InsertRow?) || (a.InsertColumn? && b.InsertColumn?) ||
      (a.DeleteCell? && b.DeleteCell?) || (a.DeleteRow? && b.DeleteRow?) || (a.DeleteColumn? && b.DeleteColumn?) ||
      (a.FillRowAt? && b.FillRowAt?) || (a.FillColumnAt? && b.FillColumnAt?) || (a.ClearRowAt? && b.ClearRowAt?) ||
      (a.ClearColumnAt? && b.ClearColumnAt?) || (a.Undo? && b.Undo?) || (a.Redo? && b.Redo?)
  {
  }

  /** Every tag is the tag of some command, so there is one variant per tag. */
  lemma EveryTagHasAVariant(t: ActionType)
    ensures exists a: Action :: TypeOf(a) == t
  {
    match t
    case ClearGrid => assert TypeOf(ClearGrid) == t;
    case SetGrid => assert TypeOf(SetGrid([])) == t;
    case MoveCursorByCell => assert TypeOf(MoveCursorByCell(Right)) == t;
    case MoveCursorToEdge => assert TypeOf(MoveCursorToEdge(Right)) == t;
    case MoveCursorTo => assert TypeOf(MoveCursorTo(0, 0)) == t;
    case PutValue => assert TypeOf(PutValue("")) == t;
    case InsertCell => assert TypeOf(InsertCell(Horizontal)) == t;
    case InsertRow => assert TypeOf(InsertRow) == t;
    case InsertColumn => assert TypeOf(InsertColumn) == t;
    case DeleteCell => assert TypeOf(DeleteCell(Horizontal)) == t;
    case DeleteRow => assert TypeOf(DeleteRow) == t;
    case DeleteColumn => assert TypeOf(DeleteColumn) == t;
    case FillRowAt => assert TypeOf(FillRowAt(0, [])) == t;
    case FillColumnAt => assert TypeOf(FillColumnAt(0, [])) == t;
    case ClearRowAt => assert TypeOf(ClearRowAt(0)) == t;
    case ClearColumnAt => assert TypeOf(ClearColumnAt(0)) == t;
    case Undo => assert TypeOf(Undo) == t;
    case Redo => assert TypeOf(Redo) == t;
  }

  const AllDirections: set<Direction> := {Right, Down, Left, Up}

  const AllShiftDirections: set<ShiftDirection> := {Horizontal, Vertical}

  /** Four distinct cursor directions and two distinct shift directions. */
  lemma DirectionsCounted()
    ensures |AllDirections| == 4 && |AllShiftDirections| == 2
  {
  }

  /** The two tables list every direction. */
  lemma EveryDirectionListed(d: Direction, s: ShiftDirection)
    ensures d in AllDirections && s in AllShiftDirections
  {
    match d
    case Right =>
    case Down =>
    case Left =>
    case Up =>
  }

  // Factories. Each returns a command of its own tag whose fields are the arguments.

  function CreateClearGridAction(): (r: Action)
    ensures TypeOf(r) == ActionTags.ClearGrid
  { ClearGrid }

  function CreateSetGridAction(cells: Cells): (r: Action)
    ensures TypeOf(r) == ActionTags.SetGrid && r.cells == cells
  { SetGrid(cells) }

  function CreateMoveCursorByCellAction(direction: Direction): (r: Action)
    ensures TypeOf(r) == ActionTags.MoveCursorByCell && r.direction == direction
  { MoveCursorByCell(direction) }

  function CreateMoveCursorToEdgeAction(direction: Direction): (r: Action)
    ensures TypeOf(r) == ActionTags.MoveCursorToEdge && r.direction == direction
  { MoveCursorToEdge(direction) }

  function CreateMoveCursorToAction(row: int, column: int): (r: Action)
    ensures TypeOf(r) == ActionTags.MoveCursorTo && r.row == row && r.column == column
  { MoveCursorTo(row, column) }

  function CreatePutValueAction(value: string): (r: Action)
    ensures TypeOf(r) == ActionTags.PutValue && r.value == value
  { PutValue(value) }

  function CreateInsertCellAction(shiftDirection: ShiftDirection): (r: Action)
    ensures TypeOf(r) == ActionTags.InsertCell && r.shiftDirection == shiftDirection
  { InsertCell(shiftDirection) }

  function CreateInsertRowAction(): (r: Action)
    ensures TypeOf(r) == ActionTags.InsertRow
  { InsertRow }

  function CreateInsertColumnAction(): (r: Action)
    ensures TypeOf(r) == ActionTags.InsertColumn
  { InsertColumn }

  function CreateDeleteCellAction(shiftDirection: ShiftDirection): (r: Action)
    ensures TypeOf(r) == ActionTags.DeleteCell && r.shiftDirection == shiftDirection
  { DeleteCell(shiftDirection) }

  function CreateDeleteRowAction(): (r: Action)
    ensures TypeOf(r) == ActionTags.DeleteRow
  { DeleteRow }

  function CreateDeleteColumnAction(): (r: Action)
    ensures TypeOf(r) == ActionTags.DeleteColumn
  { DeleteColumn }

  function CreateFillRowAtAction(row: int, values: seq<string>): (r: Action)
    ensures TypeOf(r) == ActionTags.FillRowAt && r.row == row && r.values == values
  { FillRowAt(row, values) }

  function CreateFillColumnAtAction(column: int, values: seq<string>): (r: Action)
    ensures TypeOf(r) == ActionTags.FillColumnAt && r.column == column && r.values == values
  { FillColumnAt(column, values) }

  function CreateClearRowAtAction(row: int): (r: Action)
    ensures TypeOf(r) == ActionTags.ClearRowAt && r.row == row
  { ClearRowAt(row) }

  function CreateClearColumnAtAction(column: int): (r: Action)
    ensures TypeOf(r) == ActionTags.ClearColumnAt && r.column == column
  { ClearColumnAt(column) }

  function CreateUndoAction(): (r: Action)
    ensures TypeOf(r) == ActionTags.Undo
  { Undo }

  function CreateRedoAction(): (r: Action)
    ensures TypeOf(r) == ActionTags.Redo
  { Redo }
}
