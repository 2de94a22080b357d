# Finite state machine with undo/redo history

A Dafny model of the `FSM` class in `src/fsm.js`. An FSM is built from a configuration
`{states, initial}`. `states` is a table that maps each state name to `{transitions: event -> destination}`.
The FSM keeps:

- the current state;
- a history record `{states, step, statusRedo}`: the first history entry followed by every name
  passed to `setHistory` (by `changeState`, `trigger` or a direct call) since construction or the
  last `clearHistory` or `reset`; a cursor into that list; and a flag that `undo` sets and
  `setHistory` clears, without which `redo` fails.

It offers `getState`, `changeState`, `trigger`, `reset`, `setHistory`, `getStates`, `undo`,
`redo` and `clearHistory`.

The model has three modules:

- `StateTable` (`table.dfy`): the configuration table. A JavaScript object becomes a sequence of
  `(key, value)` pairs in iteration order. It holds the lookups `states[name]` and
  `transitions[event]`, and `Query`, the list `getStates` returns, with lemmas about it.
- `Semantics` (`semantics.dfy`): the FSM's fields as one value, `Snapshot`. There is one function
  per operation saying what that operation does to the value, and `Run` applies a sequence of
  operations. The lemmas say what holds across operations.
- `Fsm` (`fsm.dfy`): the class `FSM`. Its fields are updated in place, as in the source. Each
  method's postcondition equates the new fields with the `Semantics` function applied to the old
  fields. `getStates` is written with the source's nested loops.

The model follows the code as written:

- History is append-only. `setHistory` pushes to the end and never drops the entries after the
  cursor. After an `undo`, a new `changeState` to a state other than the abandoned entry leaves
  the cursor on an entry that is not the current state (`BranchLeavesStaleEntry`). A later `undo` or `redo` can then move to the abandoned
  entry (`UndoAfterBranchRevisitsAbandonedEntry`, `RedoAfterBranchFollowsAbandonedEntry`).
  A design that truncates history before appending would behave differently. The code has no such
  truncation, so the model has none.
- `redo` succeeds only when there is an entry after the cursor and `statusRedo` is set. Only
  `undo` sets the flag, and `setHistory` clears it. Comparing the cursor with the history length
  alone is not enough.
- `history[step] == state` is not an invariant. It holds along runs with no `undo`, no
  `clearHistory` and no direct `setHistory` call (`CursorIsStateWithoutUndo`). `clearHistory`
  keeps the current state, so it breaks the equality whenever that state is not the first
  history entry. `setHistory` is public and appends without changing the state, so a direct
  call breaks it too (`DirectSetHistoryDetachesCursor`).
- `trigger` does not check that its destination is a key of the table (`TriggerMayLeaveTable`).
- The constructor does not check that `initial` is a key of the table. There is a single error
  kind: `changeState` and `trigger` either complete or throw, and a throw changes nothing.

## Model

| member | source | states |
|---|---|---|
| `StateTable.Lookup` | src/fsm.js:30 | `states[name]` is defined exactly when some entry of the table has key `name`, and then it is that entry's definition |
| `StateTable.Transition` | src/fsm.js:46-47 | `transitions[event]` is defined exactly when some transition has key `event`, and then `(event, destination)` is one of the transitions |
| `StateTable.Query` | src/fsm.js:76-92 | `getStates` keeps table order: its result is the key list with some keys dropped. With distinct keys it repeats no state. With no event or `""` it lists every key, the i-th key in i-th place. Otherwise a state is listed exactly when it defines the event |
| `StateTable.NamesAreTheKeys` | src/fsm.js:78-82 | the all-states list has one entry per table entry, in table order, and with distinct keys no entry twice |
| `StateTable.NamesMembership` | src/fsm.js:79-80 | a name is in the all-states list exactly when `states[name]` is defined |
| `StateTable.StatesWithMembership` | src/fsm.js:84-88 | a state is listed for an event exactly when `states[s].transitions[event]` is defined |
| `StateTable.StatesWithInTableOrder` | src/fsm.js:84-88 | the states listed for an event are a subsequence of the table's keys, so they appear in table order |
| `StateTable.StatesWithDistinct` | src/fsm.js:84-88 | with distinct keys, no state is listed twice for an event |
| `Semantics.Init` | src/fsm.js:6-14 | construction sets the state to `initial` and the history to the one entry `initial`, and sets the cursor to that entry with redo off. `undo` and `redo` both return false right after it |
| `Semantics.SetHistory` | src/fsm.js:64-68 | appends exactly one entry, keeps all old entries and the state, advances the cursor by one and turns redo off, so a following `redo` fails |
| `Semantics.ChangeState` | src/fsm.js:28-38 | succeeds exactly when the target is a table key. On success: the state becomes the target, the target is appended, the cursor moves up one, redo is off, a following `redo` fails and a following `undo` succeeds and returns to the entry the cursor was on. On a throw nothing changes |
| `Semantics.Trigger` | src/fsm.js:44-54 | succeeds exactly when the current state is a key and defines the event. On success it moves to that transition's destination, appends it, and advances the cursor with redo off. When the destination is a key, this is the same as `changeState` to it. On a throw nothing changes |
| `Semantics.Undo` | src/fsm.js:99-106 | returns false and changes nothing at cursor 0. Otherwise the cursor moves back one, the state becomes that entry, history stays the same, redo turns on, and an immediate `redo` returns true and restores the cursor. It restores the state too when the cursor was on the current state |
| `Semantics.Redo` | src/fsm.js:113-120 | returns true exactly when there is an entry after the cursor and redo is on. Then the cursor moves up one and the state becomes that entry. Otherwise nothing changes |
| `Semantics.ClearHistory` | src/fsm.js:124-127 | history becomes its first entry alone and the cursor 0. The state and the redo flag stay the same. The cursor's entry equals the state exactly when the state was the first entry. `undo` and `redo` then fail |
| `Semantics.Reset` | src/fsm.js:59-62 | the result is the record construction from the first history entry would give, except that the redo flag is unchanged. `undo` and `redo` then fail |
| `Semantics.Apply` | src/fsm.js:28-127 | every operation, a direct `setHistory` call included, keeps the history non-empty and the cursor inside it, and never changes the first entry |
| `Semantics.Run` | src/fsm.js:28-127 | the same holds across any sequence of operations |
| `Semantics.RunFromInit` | src/fsm.js:9-13 | from construction, the first history entry is the initial state forever |
| `Semantics.NoUndoRunStaysAtTip` | src/fsm.js:64-68 | along runs without `undo`, `clearHistory` and direct `setHistory` calls, the cursor stays on the newest entry, that entry is the current state, and redo stays off |
| `Semantics.CursorIsStateWithoutUndo` | src/fsm.js:64-68 | from construction, without `undo`, `clearHistory` and direct `setHistory` calls, `history[step]` is the current state |
| `Semantics.DirectSetHistoryDetachesCursor` | src/fsm.js:64-68 | from the newest entry, a direct `setHistory(s)` call with `s` other than the state puts the cursor on `s` while the state stays the same |
| `Semantics.UndoTimes` | src/fsm.js:99-106 | k successful undos move the cursor back k entries onto the state at that entry and leave history unchanged |
| `Semantics.RedoTimes` | src/fsm.js:113-120 | with redo on, k redos move the cursor forward k entries onto the state at that entry |
| `Semantics.UndoAllThenRedoAll` | src/fsm.js:99-120 | whenever the state is the newest history entry (at the tip, or after an undo followed by a change), undoing until `undo` fails and then redoing until `redo` fails restores the state and the history and ends on the newest entry, which at the tip is the starting cursor |
| `Semantics.BranchLeavesStaleEntry` | src/fsm.js:64-68 | after an undo, a change to a state other than the abandoned entry keeps that entry and leaves the cursor on it, not on the current state, which is the newest entry |
| `Semantics.UndoAfterBranchRevisitsAbandonedEntry` | src/fsm.js:99-106 | undo, two changes, then undo lands on the abandoned entry |
| `Semantics.RedoAfterBranchFollowsAbandonedEntry` | src/fsm.js:113-120 | undo, a change, undo, then redo lands on the abandoned entry |
| `Semantics.TriggerMayLeaveTable` | src/fsm.js:44-54 | `trigger` can move to a state that is not a key, after which every `trigger` throws |
| `Semantics.ExampleSession` | src/fsm.js:44-120 | on a two-state table, `trigger`, `undo`, `redo` and `getStates` give the expected states and lists |
| `Fsm.FSM.constructor` | src/fsm.js:6-14 | the fields are those of `Semantics.Init`, and the table is the configured one |
| `Fsm.FSM.GetState` | src/fsm.js:20-22 | returns the current state and changes nothing |
| `Fsm.FSM.ChangeState` | src/fsm.js:28-38 | new fields and the outcome are those of `Semantics.ChangeState` |
| `Fsm.FSM.Trigger` | src/fsm.js:44-54 | new fields and the outcome are those of `Semantics.Trigger` |
| `Fsm.FSM.Reset` | src/fsm.js:59-62 | new fields are those of `Semantics.Reset` |
| `Fsm.FSM.SetHistory` | src/fsm.js:64-68 | new fields are those of `Semantics.SetHistory` |
| `Fsm.FSM.GetStates` | src/fsm.js:76-92 | the nested loops return `StateTable.Query` of the table and the event. The method has no `modifies` clause, so nothing changes |
| `Fsm.FSM.Undo` | src/fsm.js:99-106 | new fields and the return value are those of `Semantics.Undo` |
| `Fsm.FSM.Redo` | src/fsm.js:113-120 | new fields and the return value are those of `Semantics.Redo` |
| `Fsm.FSM.ClearHistory` | src/fsm.js:124-127 | new fields are those of `Semantics.ClearHistory` |

## Left out

- JavaScript property lookup through the prototype chain: `changeState('toString')` passes the
  `!== undefined` test in the source. The model treats membership as plain key-in-table.
- Loose equality in `event == undefined || event == ''` for arguments that are not strings. The
  argument is an `Option<string>`, and `None` or `Some("")` asks for all states.
- Iteration order of `for...in` for keys that look like integers. The table's sequence order is
  the iteration order.
- Values that are not strings (a destination or state name given as a number, say). Every name
  is a `string`, so no history entry is ever `undefined`. `redo`'s `=== undefined` test therefore
  becomes `step + 1 < |history|`.
- The error messages and their kinds. The "State not found" error and the TypeError that `trigger`
  raises when the current state is not a key both become `ok == false`, with no change.
  `module.exports` is not modelled.
- Sharing of the table object: `this.states` is the caller's object, and a caller could mutate
  it later. The model copies the table into a constant field.
- `Fsm.FSM.constructor`: requires the table to have distinct state keys and distinct event keys
  per state. A JavaScript object always has distinct keys, so this adds no demand on callers.
