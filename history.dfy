/** What the undo and redo stacks promise: undoing a command gives back the grid before
    it, redoing gives back the cells after it, and the entry that squashes the redo stack
    gives back the cells of the last state whose redo stack was empty. */
module History {
  import opened Constants
  import opened Actions
  import opened Cursors
  import opened Grids
  import opened Undo
  import opened App
  import opened UndoCorrectness

  /** Undoing a command that round-trips gives back the grid, cursor included. */
  lemma UndoRestoresGrid(g: Grid, action: Action)
    requires ValidGrid(g) && WellFormedAction(action) && IsUndoableAction(action) && RoundTrips(g, action)
    ensures AllWellFormed(CalculateUndoActions(g, action))
    ensures ApplyActions(GridReducer(g, action), CalculateUndoActions(g, action)) == g
  {
    UndoActionsWellFormed(g, action);
    InverseRestores(g, action, g.cursor);
  }

  /** Every command of a list round-trips on the grid it is applied to. */
  predicate StepsRoundTrip(g: Grid, actions: seq<Action>)
    requires ValidGrid(g) && AllWellFormed(actions)
    decreases |actions|
  {
    |actions| == 0 || (RoundTrips(g, actions[0]) && StepsRoundTrip(GridReducer(g, actions[0]), actions[1..]))
  }

  lemma ReversedCons<T>(x: T, s: seq<T>)
    ensures Reversed([x] + s) == Reversed(s) + [x]
  {
    assert ([x] + s)[1..] == s;
  }

  lemma ReversedSnoc<T>(s: seq<T>, x: T)
    ensures Reversed(s + [x]) == [x] + Reversed(s)
  {
  }

  lemma FlattenCons<T>(x: seq<T>, groups: seq<seq<T>>)
    ensures Flatten([x] + groups) == x + Flatten(groups)
  {
    assert ([x] + groups)[1..] == groups;
  }

  /** The redo list of a command list is the redo list of its tail followed by the inverse
      of its first command. */
  lemma RedoActionsCons(g: Grid, actions: seq<Action>)
    requires ValidGrid(g) && AllWellFormed(actions) && |actions| > 0
    ensures RedoActions(g, actions)
         == RedoActions(GridReducer(g, actions[0]), actions[1..]) + CalculateUndoActions(g, actions[0])
  {
    var first := CalculateUndoActions(g, actions[0]);
    var rest := RedoGroups(GridReducer(g, actions[0]), actions[1..]);
    ReversedCons(first, rest);
    FlattenAppend(Reversed(rest), first);
  }

  /** The cursor a redo list leaves behind: where the cursor stood before the first command
      whose inverse puts the cursor back, or the starting cursor `k` when no command does. */
  function RedoCursor(g: Grid, actions: seq<Action>, k: Cursor): Cursor
    requires ValidGrid(g) && AllWellFormed(actions)
    decreases |actions|
  {
    if |actions| == 0 then k
    else if RestoresCursor(actions[0]) then g.cursor
    else RedoCursor(GridReducer(g, actions[0]), actions[1..], k)
  }

  /** Replaying the redo list of a command list, from any cursor `k`, on the cells the list
      produced gives back the cells before it, provided each command round-trips; the cursor
      ends where `RedoCursor` says. */
  lemma {:induction false} RedoRestoresCells(g: Grid, actions: seq<Action>, k: Cursor)
    requires ValidGrid(g) && AllWellFormed(actions) && InBounds(k) && StepsRoundTrip(g, actions)
    ensures ApplyActions(Grid(k, ApplyActions(g, actions).cells), RedoActions(g, actions))
         == Grid(RedoCursor(g, actions, k), g.cells)
    decreases |actions|
  {
    if |actions| > 0 {
      var first := actions[0];
      var next := GridReducer(g, first);
      var rest := actions[1..];
      var final := ApplyActions(next, rest);
      var inverse := CalculateUndoActions(g, first);
      UndoActionsWellFormed(g, first);
      RedoActionsCons(g, actions);
      ApplyConcat(Grid(k, final.cells), RedoActions(next, rest), inverse);
      RedoRestoresCells(next, rest, k);
      var mid := ApplyActions(Grid(k, final.cells), RedoActions(next, rest));
      assert mid == Grid(RedoCursor(next, rest, k), next.cells);
      InverseRestores(g, first, mid.cursor);
    }
  }

  /** A list that moves the cursor to `c` and then runs a command whose inverse puts the
      cursor back leaves `c` as its redo cursor. */
  lemma RedoCursorAfterMoveBack(g: Grid, actions: seq<Action>, c: Cursor, k: Cursor)
    requires ValidGrid(g) && AllWellFormed(actions) && InBounds(c) && |actions| >= 2
    requires actions[0] == MoveCursorTo(c.row, c.column) && RestoresCursor(actions[1])
    ensures RedoCursor(g, actions, k) == c
  {
    MoveTo(g, c);
    assert actions[1..][0] == actions[1];
  }

  /** A list of at most one command whose inverse leaves the cursor alone leaves the
      starting cursor as its redo cursor. */
  lemma RedoCursorWithoutMoves(g: Grid, actions: seq<Action>, k: Cursor)
    requires ValidGrid(g) && AllWellFormed(actions) && |actions| <= 1
    requires |actions| == 1 ==> !RestoresCursor(actions[0])
    ensures RedoCursor(g, actions, k) == k
  {
    if |actions| == 1 {
      assert actions[1..] == [];
    }
  }

  // The redo cursor of each family of inverses, one lemma per family to keep each small.

  lemma CellInverseRedoCursor(g: Grid, d: ShiftDirection, insert: bool)
    requires ValidGrid(g)
    ensures var action := if insert then InsertCell(d) else DeleteCell(d);
      AllWellFormed(CalculateUndoActions(g, action)) &&
      RedoCursor(GridReducer(g, action), CalculateUndoActions(g, action), g.cursor) == g.cursor
  {
    var action := if insert then InsertCell(d) else DeleteCell(d);
    if insert {
      UndoInsertCellShape(g, d);
    } else {
      UndoDeleteCellShape(g, d);
    }
    RedoCursorAfterMoveBack(GridReducer(g, action), CalculateUndoActions(g, action), g.cursor, g.cursor);
  }

  lemma RowInverseRedoCursor(g: Grid, insert: bool)
    requires ValidGrid(g)
    ensures var action := if insert then InsertRow else DeleteRow;
      AllWellFormed(CalculateUndoActions(g, action)) &&
      RedoCursor(GridReducer(g, action), CalculateUndoActions(g, action), g.cursor) == g.cursor
  {
    var action := if insert then InsertRow else DeleteRow;
    if insert {
      UndoInsertRowShape(g);
    } else {
      UndoDeleteRowShape(g);
    }
    RedoCursorAfterMoveBack(GridReducer(g, action), CalculateUndoActions(g, action), g.cursor, g.cursor);
  }

  lemma ColumnInverseRedoCursor(g: Grid, insert: bool)
    requires ValidGrid(g)
    ensures var action := if insert then InsertColumn else DeleteColumn;
      AllWellFormed(CalculateUndoActions(g, action)) &&
      RedoCursor(GridReducer(g, action), CalculateUndoActions(g, action), g.cursor) == g.cursor
  {
    var action := if insert then InsertColumn else DeleteColumn;
    if insert {
      UndoInsertColumnShape(g);
    } else {
      UndoDeleteColumnShape(g);
    }
    RedoCursorAfterMoveBack(GridReducer(g, action), CalculateUndoActions(g, action), g.cursor, g.cursor);
  }

  lemma DirectInverseRedoCursor(g: Grid, action: Action)
    requires ValidGrid(g) && WellFormedAction(action)
    requires action.PutValue? || action.FillRowAt? || action.FillColumnAt? || action.ClearRowAt? ||
             action.ClearColumnAt? || action.ClearGrid? || action.SetGrid?
    ensures AllWellFormed(CalculateUndoActions(g, action))
    ensures RedoCursor(GridReducer(g, action), CalculateUndoActions(g, action), g.cursor) == g.cursor
  {
    UndoActionsWellFormed(g, action);
    var next := GridReducer(g, action);
    var inverse := CalculateUndoActions(g, action);
    if action.PutValue? {
      RedoCursorAfterMoveBack(next, inverse, g.cursor, g.cursor);
    } else {
      if action.ClearGrid? {
        UndoClearGridShape(g);
      }
      RedoCursorWithoutMoves(next, inverse, g.cursor);
    }
  }

  /** The inverse of an undoable command, computed from `g`, has a redo list that leaves the
      cursor where it stood in `g` when it is replayed from that cursor. The commands that
      move the cursor start their inverse by moving it back to `g`'s cursor; the others
      never move it. */
  lemma InverseRedoCursor(g: Grid, action: Action)
    requires ValidGrid(g) && WellFormedAction(action) && IsUndoableAction(action)
    ensures AllWellFormed(CalculateUndoActions(g, action))
    ensures RedoCursor(GridReducer(g, action), CalculateUndoActions(g, action), g.cursor) == g.cursor
  {
    match action
    case InsertCell(d) => CellInverseRedoCursor(g, d, true);
    case DeleteCell(d) => CellInverseRedoCursor(g, d, false);
    case InsertRow => RowInverseRedoCursor(g, true);
    case DeleteRow => RowInverseRedoCursor(g, false);
    case InsertColumn => ColumnInverseRedoCursor(g, true);
    case DeleteColumn => ColumnInverseRedoCursor(g, false);
    case _ => DirectInverseRedoCursor(g, action);
  }

  /** Commands that round-trip on every grid. */
  predicate AlwaysRoundTrips(action: Action) {
    !action.ClearGrid? && !action.SetGrid? &&
    !(action.InsertCell? && action.shiftDirection == Vertical) &&
    !(action.DeleteCell? && action.shiftDirection == Vertical)
  }

  lemma {:induction false} AlwaysRoundTripsSteps(g: Grid, actions: seq<Action>)
    requires ValidGrid(g) && AllWellFormed(actions)
    requires forall i :: 0 <= i < |actions| ==> AlwaysRoundTrips(actions[i])
    ensures StepsRoundTrip(g, actions)
    decreases |actions|
  {
    if |actions| > 0 {
      AlwaysRoundTripsSteps(GridReducer(g, actions[0]), actions[1..]);
    }
  }

  lemma DirectInverseAlwaysRoundTrips(g: Grid, action: Action)
    requires ValidGrid(g) && WellFormedAction(action) && AlwaysRoundTrips(action)
    requires !(action.InsertCell? || action.DeleteCell? || action.InsertRow? ||
               action.InsertColumn? || action.DeleteRow? || action.DeleteColumn?)
    ensures var r := CalculateUndoActions(g, action);
      forall i :: 0 <= i < |r| ==> AlwaysRoundTrips(r[i])
  {
  }

  lemma InsertCellInverseAlwaysRoundTrips(g: Grid)
    requires ValidGrid(g)
    ensures var r := CalculateUndoActions(g, InsertCell(Horizontal));
      forall i :: 0 <= i < |r| ==> AlwaysRoundTrips(r[i])
  {
    UndoInsertCellShape(g, Horizontal);
  }

  lemma DeleteCellInverseAlwaysRoundTrips(g: Grid)
    requires ValidGrid(g)
    ensures var r := CalculateUndoActions(g, DeleteCell(Horizontal));
      forall i :: 0 <= i < |r| ==> AlwaysRoundTrips(r[i])
  {
    UndoDeleteCellShape(g, Horizontal);
  }

  lemma RowInverseAlwaysRoundTrips(g: Grid, action: Action)
    requires ValidGrid(g) && (action.InsertRow? || action.DeleteRow?)
    ensures var r := CalculateUndoActions(g, action);
      forall i :: 0 <= i < |r| ==> AlwaysRoundTrips(r[i])
  {
    if action.InsertRow? {
      UndoInsertRowShape(g);
    } else {
      UndoDeleteRowShape(g);
    }
  }

  lemma ColumnInverseAlwaysRoundTrips(g: Grid, action: Action)
    requires ValidGrid(g) && (action.InsertColumn? || action.DeleteColumn?)
    ensures var r := CalculateUndoActions(g, action);
      forall i :: 0 <= i < |r| ==> AlwaysRoundTrips(r[i])
  {
    if action.InsertColumn? {
      UndoInsertColumnShape(g);
    } else {
      UndoDeleteColumnShape(g);
    }
  }

  /** The inverse of a command that always round-trips is made of such commands. */
  lemma InverseAlwaysRoundTrips(g: Grid, action: Action)
    requires ValidGrid(g) && WellFormedAction(action) && AlwaysRoundTrips(action)
    ensures var r := CalculateUndoActions(g, action);
      forall i :: 0 <= i < |r| ==> AlwaysRoundTrips(r[i])
  {
    if action.InsertCell? {
      InsertCellInverseAlwaysRoundTrips(g);
    } else if action.DeleteCell? {
      DeleteCellInverseAlwaysRoundTrips(g);
    } else if action.InsertRow? || action.DeleteRow? {
      RowInverseAlwaysRoundTrips(g, action);
    } else if action.InsertColumn? || action.DeleteColumn? {
      ColumnInverseAlwaysRoundTrips(g, action);
    } else {
      DirectInverseAlwaysRoundTrips(g, action);
    }
  }

  /** The inverse of a round-tripping command round-trips in its turn, step by step, on
      the grid the command produced, unless the command replaced the grid with blanks. */
  lemma InverseStepsRoundTrip(g: Grid, action: Action)
    requires ValidGrid(g) && WellFormedAction(action) && RoundTrips(g, action)
    requires !(action.SetGrid? && CellsEmpty(action.cells))
    ensures AllWellFormed(CalculateUndoActions(g, action))
    ensures StepsRoundTrip(GridReducer(g, action), CalculateUndoActions(g, action))
  {
    UndoActionsWellFormed(g, action);
    var next := GridReducer(g, action);
    if action.ClearGrid? || action.SetGrid? {
      InitialGridValid();
      if action.ClearGrid? {
        UndoClearGridShape(g);
      }
      Step(g, action);
      assert !CellsEmpty(next.cells);
      assert StepsRoundTrip(GridReducer(next, SetGrid(g.cells)), []);
      assert [SetGrid(g.cells)][1..] == [];
    } else {
      InverseAlwaysRoundTrips(g, action);
      AlwaysRoundTripsSteps(next, CalculateUndoActions(g, action));
    }
  }

  // The application reducer.

  /** After an undoable command, Undo gives back the grid before it, leaves the undo stack
      alone and pushes one redo entry. */
  lemma UndoAfterCommand(s: AppState, action: Action)
    requires Valid(s) && WellFormedAction(action) && IsUndoableAction(action)
    requires RoundTrips(ExtractGridState(s), action)
    ensures var done := AppReducer(s, action);
      var undone := AppReducer(done, Undo);
      ExtractGridState(undone) == ExtractGridState(s) &&
      undone.undoStack == done.undoStack && |undone.redoStack| == 1
  {
    UndoRestoresGrid(ExtractGridState(s), action);
  }

  /** After an undoable command and Undo, Redo gives back the grid after the command,
      cursor included, and leaves both stacks as they were after it. */
  lemma RedoAfterUndo(s: AppState, action: Action)
    requires Valid(s) && WellFormedAction(action) && IsUndoableAction(action)
    requires RoundTrips(ExtractGridState(s), action) && !(action.SetGrid? && CellsEmpty(action.cells))
    ensures var done := AppReducer(s, action);
      var redone := AppReducer(AppReducer(done, Undo), Redo);
      ExtractGridState(redone) == ExtractGridState(done) &&
      redone.undoStack == done.undoStack && redone.redoStack == []
  {
    var g := ExtractGridState(s);
    var next := GridReducer(g, action);
    var inverse := CalculateUndoActions(g, action);
    UndoRestoresGrid(g, action);
    InverseStepsRoundTrip(g, action);
    RedoRestoresCells(next, inverse, g.cursor);
    InverseRedoCursor(g, action);
    var done := AppReducer(s, action);
    var undone := AppReducer(done, Undo);
    assert undone.redoStack == [RedoActions(next, inverse)];
  }

  /** Replacing the cells with a blank grid, then Undo and Redo, ends on the seed grid
      rather than the blanks: the redo entry is computed from the blank grid, so it is a
      clear (or nothing at all), and clearing writes the seed. */
  lemma SetBlankThenUndoRedo(s: AppState, cells: Cells)
    requires Valid(s) && WellFormedCells(cells) && CellsEmpty(cells)
    ensures var done := AppReducer(s, SetGrid(cells));
      var redone := AppReducer(AppReducer(done, Undo), Redo);
      done.cells == cells && redone.cells == InitialCells != done.cells
  {
    InitialGridValid();
    var g := ExtractGridState(s);
    var next := GridReducer(g, SetGrid(cells));
    Step(g, SetGrid(cells));
    var inverse := CalculateUndoActions(g, SetGrid(cells));
    UndoActionsWellFormed(g, SetGrid(cells));
    RedoActionsCons(next, inverse);
    assert inverse[1..] == [];
    ApplyOne(next, inverse[0]);
    var back := GridReducer(next, inverse[0]);
    if CellsEmpty(g.cells) {
      UndoClearGridShape(next);
      assert RedoActions(next, inverse) == [];
    } else {
      assert back == g;
      assert RedoActions(next, inverse) == [ClearGrid];
      ApplyOne(back, ClearGrid);
    }
  }
  // Undoing several times, then squashing.

  /** The state after `n` Undo commands in a row. */
  function Undos(s: AppState, n: nat): (r: AppState)
    requires Valid(s)
    ensures Valid(r)
  {
    if n == 0 then s else AppReducer(Undos(s, n - 1), Undo)
  }

  /** Starting from an empty redo stack, Undos keep the undo stack and push one redo
      entry each. */
  lemma {:induction false} UndosKeepUndoStack(s: AppState, n: nat)
    requires Valid(s) && s.redoStack == [] && n <= |s.undoStack|
    ensures Undos(s, n).undoStack == s.undoStack && |Undos(s, n).redoStack| == n
    decreases n
  {
    if n > 0 {
      UndosKeepUndoStack(s, n - 1);
    }
  }

  /** One Undo with redo entries to spare replays `entry`, the first undo entry below
      those already undone, and pushes its redo entry. */
  lemma UndoPops(st: AppState, entry: UndoActions)
    requires Valid(st) && |st.undoStack| > |st.redoStack|
    requires entry == st.undoStack[|st.undoStack| - 1 - |st.redoStack|]
    ensures AllWellFormed(entry)
    ensures AppReducer(st, Undo).undoStack == st.undoStack
    ensures AppReducer(st, Undo).redoStack == st.redoStack + [RedoActions(ExtractGridState(st), entry)]
    ensures ExtractGridState(AppReducer(st, Undo)) == ApplyActions(ExtractGridState(st), entry)
  {
  }

  /** An Undo on a state that keeps the undo stack of `s` and holds `m` redo entries
      replays the entry `m` places below the top of that stack. */
  lemma UndoBelow(s: AppState, before: AppState, m: nat)
    requires Valid(s) && Valid(before) && m < |s.undoStack|
    requires before.undoStack == s.undoStack && |before.redoStack| == m
    ensures AllWellFormed(s.undoStack[|s.undoStack| - 1 - m])
    ensures AppReducer(before, Undo).undoStack == s.undoStack
    ensures AppReducer(before, Undo).redoStack
         == before.redoStack + [RedoActions(ExtractGridState(before), s.undoStack[|s.undoStack| - 1 - m])]
    ensures ExtractGridState(AppReducer(before, Undo))
         == ApplyActions(ExtractGridState(before), s.undoStack[|s.undoStack| - 1 - m])
  {
    UndoPops(before, s.undoStack[|s.undoStack| - 1 - m]);
  }

  /** The Undo after `m` others replays the undo entry `m` places below the top and
      pushes the redo entry computed from it. */
  lemma UndoAfterUndos(s: AppState, m: nat)
    requires Valid(s) && s.redoStack == [] && m < |s.undoStack|
    ensures AllWellFormed(s.undoStack[|s.undoStack| - 1 - m])
    ensures Undos(s, m + 1).undoStack == s.undoStack
    ensures Undos(s, m + 1).redoStack == Undos(s, m).redoStack
      + [RedoActions(ExtractGridState(Undos(s, m)), s.undoStack[|s.undoStack| - 1 - m])]
    ensures ExtractGridState(Undos(s, m + 1))
      == ApplyActions(ExtractGridState(Undos(s, m)), s.undoStack[|s.undoStack| - 1 - m])
  {
    var before := Undos(s, m);
    UndosKeepUndoStack(s, m);
    UndoBelow(s, before, m);
    assert Undos(s, m + 1) == AppReducer(before, Undo);
  }

  /** The `n`-th Undo, counted from one. */
  lemma UndosStacks(s: AppState, n: nat)
    requires Valid(s) && s.redoStack == [] && 0 < n <= |s.undoStack|
    ensures Undos(s, n).undoStack == s.undoStack && |Undos(s, n).redoStack| == n
    ensures AllWellFormed(s.undoStack[|s.undoStack| - n])
    ensures Undos(s, n).redoStack == Undos(s, n - 1).redoStack
      + [RedoActions(ExtractGridState(Undos(s, n - 1)), s.undoStack[|s.undoStack| - n])]
    ensures ExtractGridState(Undos(s, n))
      == ApplyActions(ExtractGridState(Undos(s, n - 1)), s.undoStack[|s.undoStack| - n])
  {
    var m: nat := n - 1;
    assert s.undoStack[|s.undoStack| - 1 - m] == s.undoStack[|s.undoStack| - n];
    assert Undos(s, m + 1) == Undos(s, n);
    UndosKeepUndoStack(s, n);
    UndoAfterUndos(s, m);
  }

  /** The `i`-th Undo from `s` replays an entry whose commands all round-trip. */
  predicate UndoneEntryRoundTrips(s: AppState, i: nat)
    requires Valid(s) && i < |s.undoStack|
  {
    StepsRoundTrip(ExtractGridState(Undos(s, i)), s.undoStack[|s.undoStack| - 1 - i])
  }

  /** Pushing a redo entry puts it in front of the squashed entry. */
  lemma SquashSnoc(redoStack: seq<UndoActions>, entry: UndoActions)
    requires StackWellFormed(redoStack) && AllWellFormed(entry)
    ensures StackWellFormed(redoStack + [entry])
    ensures Squash(redoStack + [entry]) == entry + Squash(redoStack)
  {
    ReversedSnoc(redoStack, entry);
    FlattenCons(entry, Reversed(redoStack));
  }

  /** The `n`-th Undo pushes a redo entry that gives back the cells before it. */
  lemma LastUndoStep(s: AppState, n: nat, k: Cursor)
    requires Valid(s) && s.redoStack == [] && 0 < n <= |s.undoStack| && InBounds(k)
    requires UndoneEntryRoundTrips(s, n - 1)
    ensures var t := Undos(s, n);
      var before := Undos(s, n - 1);
      var redo := RedoActions(ExtractGridState(before), s.undoStack[|s.undoStack| - n]);
      Squash(t.redoStack) == redo + Squash(before.redoStack) &&
      ApplyActions(Grid(k, t.cells), redo).cells == before.cells
  {
    var before := Undos(s, n - 1);
    var entry := s.undoStack[|s.undoStack| - n];
    var redo := RedoActions(ExtractGridState(before), entry);
    UndosStacks(s, n);
    SquashSnoc(before.redoStack, redo);
    RedoRestoresCells(ExtractGridState(before), entry, k);
  }

  /** Replaying the redo stack after the `n`-th Undo, from cursor `k`, runs its newest
      entry and arrives at the cells before that Undo, at some cursor `k2`, with the
      older entries still to replay. */
  lemma SquashStep(s: AppState, n: nat, k: Cursor) returns (k2: Cursor)
    requires Valid(s) && s.redoStack == [] && 0 < n <= |s.undoStack| && InBounds(k)
    requires UndoneEntryRoundTrips(s, n - 1)
    ensures InBounds(k2)
    ensures var t := Undos(s, n);
      var before := Undos(s, n - 1);
      ApplyActions(Grid(k, t.cells), Squash(t.redoStack)) ==
      ApplyActions(Grid(k2, before.cells), Squash(before.redoStack))
  {
    var t := Undos(s, n);
    var before := Undos(s, n - 1);
    var redo := RedoActions(ExtractGridState(before), s.undoStack[|s.undoStack| - n]);
    var start := Grid(k, t.cells);
    var mid := ApplyActions(start, redo);
    LastUndoStep(s, n, k);
    ApplyConcat(start, redo, Squash(before.redoStack));
    k2 := mid.cursor;
    assert mid == Grid(k2, before.cells);
  }

  /** Replaying the redo stack built by `n` Undos, last entry first, from any cursor, gives
      back the cells the Undos started from. */
  lemma {:induction false} SquashRestoresCells(s: AppState, n: nat, k: Cursor)
    requires Valid(s) && s.redoStack == [] && n <= |s.undoStack| && InBounds(k)
    requires forall i :: 0 <= i < n ==> UndoneEntryRoundTrips(s, i)
    ensures var t := Undos(s, n);
      ApplyActions(Grid(k, t.cells), Squash(t.redoStack)).cells == s.cells
    decreases n
  {
    if n == 0 {
      assert Undos(s, n) == s;
      assert Reversed(s.redoStack) == [];
      assert Squash(s.redoStack) == [];
      ApplyNone(Grid(k, s.cells));
    } else {
      var k2 := SquashStep(s, n, k);
      SquashRestoresCells(s, n - 1, k2);
    }
  }

  /** The squash: an undoable command after `n` Undos keeps the undo stack below, pushes
      the joined redo entries and then the command's own inverse, and empties the redo
      stack. The joined entry gives back the cells from before the Undos, and the
      command's inverse gives back the grid the command was applied to. */
  lemma CommandAfterUndos(s: AppState, n: nat, action: Action, k: Cursor)
    requires Valid(s) && s.redoStack == [] && 0 < n <= |s.undoStack| && InBounds(k)
    requires WellFormedAction(action) && IsUndoableAction(action)
    requires forall i :: 0 <= i < n ==> UndoneEntryRoundTrips(s, i)
    ensures var t := Undos(s, n);
      var r := AppReducer(t, action);
      |r.undoStack| == |s.undoStack| + 2 && r.undoStack[..|s.undoStack|] == s.undoStack &&
      r.redoStack == [] &&
      ApplyActions(Grid(k, t.cells), r.undoStack[|s.undoStack|]).cells == s.cells &&
      (RoundTrips(ExtractGridState(t), action) ==>
         ApplyActions(ExtractGridState(r), r.undoStack[|s.undoStack| + 1]) == ExtractGridState(t))
  {
    var t := Undos(s, n);
    UndosStacks(s, n);
    SquashRestoresCells(s, n, k);
    var r := AppReducer(t, action);
    assert r.undoStack[..|s.undoStack|] == s.undoStack;
    if RoundTrips(ExtractGridState(t), action) {
      UndoRestoresGrid(ExtractGridState(t), action);
    }
  }
}
