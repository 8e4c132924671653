/** The application state, which joins the grid with the undo and redo stacks, and the
    top-level reducer, which records inverses, undoes, redoes and squashes redo entries. */
module App {
  import opened Constants
  import opened Actions
  import opened Cursors
  import opened Grids
  import opened Undo

  /** The grid's fields together with both stacks of undo entries. While entries are on
      the redo stack, the matching undo entries stay on the undo stack, so the next entry
      to undo is `undoStack[|undoStack| - 1 - |redoStack|]`. */
  datatype AppState = AppState(cursor: Cursor, cells: Cells, undoStack: seq<UndoActions>, redoStack: seq<UndoActions>)

  /** The grid part of the state: its cursor and cells. */
  function ExtractGridState(state: AppState): (r: Grid)
    ensures r.cursor == state.cursor && r.cells == state.cells
  {
    Grid(state.cursor, state.cells)
  }

  /** The grid part and the two stacks rebuild the whole state: nothing else is dropped. */
  lemma ExtractGridStateKeepsAll(state: AppState)
    ensures var g := ExtractGridState(state);
      AppState(g.cursor, g.cells, state.undoStack, state.redoStack) == state
  {
  }

  predicate StackWellFormed(stack: seq<UndoActions>) {
    forall i :: 0 <= i < |stack| ==> AllWellFormed(stack[i])
  }

  /** A well-formed grid, and every command on both stacks can be replayed. */
  predicate Valid(state: AppState) {
    ValidGrid(ExtractGridState(state)) && StackWellFormed(state.undoStack) && StackWellFormed(state.redoStack)
  }

  /** Every redo entry is matched by an undo entry that is still on the undo stack. */
  predicate StacksMatched(state: AppState) {
    |state.redoStack| <= |state.undoStack|
  }

  const InitialState: AppState := AppState(InitialGrid.cursor, InitialGrid.cells, [], [])

  lemma InitialStateValid()
    ensures Valid(InitialState) && StacksMatched(InitialState)
    ensures ExtractGridState(InitialState) == InitialGrid
  {
    InitialGridValid();
  }

  /** The grid after running the commands one after another through the grid reducer. */
  function ApplyActions(state: Grid, actions: seq<Action>): (r: Grid)
    requires ValidGrid(state) && AllWellFormed(actions)
    ensures ValidGrid(r)
    decreases |actions|
  {
    if |actions| == 0 then state
    else ApplyActions(GridReducer(state, actions[0]), actions[1..])
  }

  /** For each command in turn, its inverse computed from the grid it is applied to. */
  function RedoGroups(state: Grid, actions: seq<Action>): (r: seq<UndoActions>)
    requires ValidGrid(state) && AllWellFormed(actions)
    ensures |r| == |actions| && StackWellFormed(r)
    decreases |actions|
  {
    if |actions| == 0 then []
    else
      UndoActionsWellFormed(state, actions[0]);
      [CalculateUndoActions(state, actions[0])] + RedoGroups(GridReducer(state, actions[0]), actions[1..])
  }

  function Reversed<T>(s: seq<T>): (r: seq<T>)
    ensures |r| == |s|
    ensures forall i :: 0 <= i < |s| ==> r[i] == s[|s| - 1 - i]
  {
    if |s| == 0 then [] else Reversed(s[1..]) + [s[0]]
  }

  /** The groups joined end to end, first group first. */
  function Flatten<T>(groups: seq<seq<T>>): (r: seq<T>)
    ensures |groups| == 0 ==> r == []
    ensures |groups| > 0 ==> |groups[0]| <= |r| && r[..|groups[0]|] == groups[0]
  {
    if |groups| == 0 then [] else groups[0] + Flatten(groups[1..])
  }

  /** The commands that undo `actions`: each step's inverse, last step first. */
  function RedoActions(state: Grid, actions: seq<Action>): (r: UndoActions)
    requires ValidGrid(state) && AllWellFormed(actions)
    ensures AllWellFormed(r)
  {
    SquashWellFormed(RedoGroups(state, actions));
    Flatten(Reversed(RedoGroups(state, actions)))
  }

  lemma {:induction false} FlattenAppend<T>(groups: seq<seq<T>>, last: seq<T>)
    ensures Flatten(groups + [last]) == Flatten(groups) + last
    decreases |groups|
  {
    if |groups| == 0 {
      assert [] + [last] == [last];
      assert [last][1..] == [];
    } else {
      assert (groups + [last])[1..] == groups[1..] + [last];
      FlattenAppend(groups[1..], last);
    }
  }

  lemma {:induction false} FlattenWellFormed(groups: seq<UndoActions>)
    requires StackWellFormed(groups)
    ensures AllWellFormed(Flatten(groups))
    decreases |groups|
  {
    if |groups| > 0 {
      FlattenWellFormed(groups[1..]);
    }
  }

  lemma ReversedWellFormed(groups: seq<UndoActions>)
    requires StackWellFormed(groups)
    ensures StackWellFormed(Reversed(groups))
  {
    var r := Reversed(groups);
    forall i | 0 <= i < |r| ensures AllWellFormed(r[i]) {
      assert r[i] == groups[|groups| - 1 - i];
    }
  }

  /** A squashed redo stack, and so every redo entry, can be replayed. */
  lemma SquashWellFormed(groups: seq<UndoActions>)
    requires StackWellFormed(groups)
    ensures AllWellFormed(Flatten(Reversed(groups)))
  {
    ReversedWellFormed(groups);
    FlattenWellFormed(Reversed(groups));
  }

  /** The redo entries joined into one undo entry, the most recent entry first. */
  function Squash(redoStack: seq<UndoActions>): (r: UndoActions)
    requires StackWellFormed(redoStack)
    ensures AllWellFormed(r)
  {
    SquashWellFormed(redoStack);
    Flatten(Reversed(redoStack))
  }

  /** Joining the groups from `i` on, last group first, ends with group `i`. */
  lemma FlattenReversedStep<T>(groups: seq<seq<T>>, i: nat)
    requires i < |groups|
    ensures Flatten(Reversed(groups[i..])) == Flatten(Reversed(groups[i + 1..])) + groups[i]
  {
    assert groups[i..][1..] == groups[i + 1..];
    FlattenAppend(Reversed(groups[i + 1..]), groups[i]);
  }

  /** One step of a replay and of its redo groups, from position `k` of a command list,
      with the groups collected so far in front. */
  lemma ReplayStep(g: Grid, actions: seq<Action>, k: nat, collected: seq<UndoActions>)
    requires ValidGrid(g) && AllWellFormed(actions) && k < |actions|
    ensures AllWellFormed(actions[k..]) && AllWellFormed(actions[k + 1..])
    ensures ApplyActions(g, actions[k..]) == ApplyActions(GridReducer(g, actions[k]), actions[k + 1..])
    ensures collected + RedoGroups(g, actions[k..])
         == (collected + [CalculateUndoActions(g, actions[k])]) + RedoGroups(GridReducer(g, actions[k]), actions[k + 1..])
  {
    assert actions[k..][1..] == actions[k + 1..];
  }

  /** `performUndoActions`: runs the commands of one stack entry from `gridState` and,
      when `calcRedo` holds, collects the inverse of each step and joins them last step
      first, so that they undo the whole entry. */
  method PerformUndoActions(gridState: Grid, undoActions: UndoActions, calcRedo: bool)
      returns (grid: Grid, redoActions: UndoActions)
    requires ValidGrid(gridState) && AllWellFormed(undoActions)
    ensures grid == ApplyActions(gridState, undoActions)
    ensures redoActions == if calcRedo then RedoActions(gridState, undoActions) else []
  {
    var redoGroups: seq<UndoActions> := [];
    grid := gridState;
    var k := 0;
    while k < |undoActions|
      invariant 0 <= k <= |undoActions|
      invariant ValidGrid(grid)
      invariant ApplyActions(gridState, undoActions) == ApplyActions(grid, undoActions[k..])
      invariant calcRedo ==> RedoGroups(gridState, undoActions) == redoGroups + RedoGroups(grid, undoActions[k..])
      invariant !calcRedo ==> redoGroups == []
    {
      var undoAction := undoActions[k];
      ReplayStep(grid, undoActions, k, redoGroups);
      if calcRedo {
        var redo := CalculateUndoActions(grid, undoAction);
        redoGroups := redoGroups + [redo];
      }
      grid := GridReducer(grid, undoAction);
      k := k + 1;
    }
    assert redoGroups == if calcRedo then RedoGroups(gridState, undoActions) else [];
    redoActions := [];
    var i := |redoGroups| - 1;
    while i >= 0
      invariant -1 <= i < |redoGroups|
      invariant redoActions == Flatten(Reversed(redoGroups[i + 1..]))
    {
      FlattenReversedStep(redoGroups, i);
      redoActions := redoActions + redoGroups[i];
      i := i - 1;
    }
    assert redoGroups[0..] == redoGroups;
  }

  /** `appReducer`. Undo replays the next undo entry and pushes its inverse onto the redo
      stack; Redo replays the top redo entry and pops it; an undoable command first
      squashes the redo stack into one undo entry, then pushes its own inverse; every
      other command only moves the cursor. */
  function AppReducer(state: AppState, action: Action): (r: AppState)
    requires Valid(state) && WellFormedAction(action)
    ensures Valid(r)
    ensures StacksMatched(state) ==> StacksMatched(r)
    ensures action.Undo? && |state.undoStack| <= |state.redoStack| ==> r == state
    ensures action.Undo? && |state.undoStack| > |state.redoStack| ==>
      var entry := state.undoStack[|state.undoStack| - 1 - |state.redoStack|];
      ExtractGridState(r) == ApplyActions(ExtractGridState(state), entry) &&
      r.undoStack == state.undoStack &&
      r.redoStack == state.redoStack + [RedoActions(ExtractGridState(state), entry)]
    ensures action.Redo? && |state.redoStack| == 0 ==> r == state
    ensures action.Redo? && |state.redoStack| > 0 ==>
      ExtractGridState(r) == ApplyActions(ExtractGridState(state), state.redoStack[|state.redoStack| - 1]) &&
      r.undoStack == state.undoStack && r.redoStack == state.redoStack[..|state.redoStack| - 1]
    ensures IsUndoableAction(action) ==>
      ExtractGridState(r) == GridReducer(ExtractGridState(state), action) &&
      r.undoStack == state.undoStack
        + (if |state.redoStack| == 0 then [] else [Squash(state.redoStack)])
        + [CalculateUndoActions(ExtractGridState(state), action)] &&
      r.redoStack == []
    ensures IsNavigation(action) ==>
      r.cells == state.cells && r.cursor == CursorReducer(state.cursor, action) &&
      r.undoStack == state.undoStack && r.redoStack == state.redoStack
  {
    var gridState := ExtractGridState(state);
    if action.Undo? then
      if |state.undoStack| > |state.redoStack| then
        var entry := state.undoStack[|state.undoStack| - 1 - |state.redoStack|];
        var grid := ApplyActions(gridState, entry);
        AppState(grid.cursor, grid.cells, state.undoStack, state.redoStack + [RedoActions(gridState, entry)])
      else state
    else if action.Redo? then
      if |state.redoStack| > 0 then
        var grid := ApplyActions(gridState, state.redoStack[|state.redoStack| - 1]);
        AppState(grid.cursor, grid.cells, state.undoStack, state.redoStack[..|state.redoStack| - 1])
      else state
    else
      var next := GridReducer(gridState, action);
      if IsUndoableAction(action) then
        var squashRedo := if |state.redoStack| == 0 then [] else [Squash(state.redoStack)];
        UndoActionsWellFormed(gridState, action);
        AppState(next.cursor, next.cells, state.undoStack + squashRedo + [CalculateUndoActions(gridState, action)], [])
      else
        AppState(next.cursor, next.cells, state.undoStack, state.redoStack)
  }
}
