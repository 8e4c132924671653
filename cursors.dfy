/** The cursor and its movement rules: clamped single steps, jumps to an edge and an
    absolute set. */
module Cursors {
  import opened Constants
  import opened Actions

  datatype Cursor = Cursor(row: int, column: int)

  /** The cursor addresses a cell of the grid. */
  predicate InBounds(c: Cursor) {
    0 <= c.row < GridRows && 0 <= c.column < GridColumns
  }

  /** Left and Right move along a row, so they change the column. */
  predicate Horizontal(d: Direction) {
    d == Left || d == Right
  }

  predicate IsNavigation(a: Action) {
    a.MoveCursorByCell? || a.MoveCursorToEdge? || a.MoveCursorTo?
  }

  function Min(a: int, b: int): int { if a <= b then a else b }

  function Max(a: int, b: int): int { if a <= b then b else a }

  /** The cursor after a command. Only the three navigation commands move it. */
  function CursorReducer(state: Cursor, action: Action): (r: Cursor)
    ensures (action.MoveCursorByCell? || action.MoveCursorToEdge?) && InBounds(state) ==> InBounds(r)
    ensures (action.MoveCursorByCell? || action.MoveCursorToEdge?) ==>
              if Horizontal(action.direction) then r.row == state.row else r.column == state.column
    ensures action.MoveCursorTo? ==> r.row == action.row && r.column == action.column
    ensures !IsNavigation(action) ==> r == state
  {
    match action
    case MoveCursorByCell(direction) =>
      (match direction
       case Right => state.(column := Min(state.column + 1, GridColumns - 1))
       case Down => state.(row := Min(state.row + 1, GridRows - 1))
       case Left => state.(column := Max(state.column - 1, 0))
       case Up => state.(row := Max(state.row - 1, 0)))
    case MoveCursorToEdge(direction) =>
      (match direction
       case Right => state.(column := GridColumns - 1)
       case Down => state.(row := GridRows - 1)
       case Left => state.(column := 0)
       case Up => state.(row := 0))
    case MoveCursorTo(row, column) => Cursor(row, column)
    case _ => state
  }

  /** A single step from a cell of the grid moves one cell in its direction unless the
      cursor is already on that boundary, where it stays (no wrap-around). */
  lemma StepIsClamped(c: Cursor, d: Direction)
    requires InBounds(c)
    ensures var r := CursorReducer(c, MoveCursorByCell(d));
      match d
      case Right => r.column == (if c.column == GridColumns - 1 then c.column else c.column + 1)
      case Left => r.column == (if c.column == 0 then 0 else c.column - 1)
      case Down => r.row == (if c.row == GridRows - 1 then c.row else c.row + 1)
      case Up => r.row == (if c.row == 0 then 0 else c.row - 1)
  {
  }

  /** A step toward a boundary the cursor already sits on changes nothing. */
  lemma StepAtBoundaryIsNoOp(c: Cursor, d: Direction)
    requires InBounds(c)
    requires (d == Right && c.column == GridColumns - 1) || (d == Left && c.column == 0)
          || (d == Down && c.row == GridRows - 1) || (d == Up && c.row == 0)
    ensures CursorReducer(c, MoveCursorByCell(d)) == c
  {
  }

  /** A jump lands on the boundary of its direction and a second identical jump does
      nothing more. */
  lemma JumpToEdgeIsIdempotent(c: Cursor, d: Direction)
    ensures var r := CursorReducer(c, MoveCursorToEdge(d));
      && (d == Right ==> r.column == GridColumns - 1)
      && (d == Left ==> r.column == 0)
      && (d == Down ==> r.row == GridRows - 1)
      && (d == Up ==> r.row == 0)
      && CursorReducer(r, MoveCursorToEdge(d)) == r
  {
  }
}
