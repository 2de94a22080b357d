/** The FSM's mutable record as a value, and what each operation of the FSM does to it,
    exactly as src/fsm.js is written: history is append-only, redo is gated by `statusRedo`,
    and a failed `changeState`/`trigger` (a thrown exception) changes nothing. */
module Semantics {
  import opened StateTable

  /** `this.state` and the `this.history` record `{states, step, statusRedo}`. */
  datatype Snapshot = Snapshot(state: string, history: seq<string>, step: nat, statusRedo: bool)

  /** The record after an operation, and the operation's boolean outcome: the return value of
      `undo`/`redo`, or for `changeState`/`trigger` whether it returned without throwing. */
  datatype Outcome = Outcome(next: Snapshot, ok: bool)

  /** Holds of every record the FSM can reach: history is never empty and `step` indexes it. */
  predicate WellShaped(m: Snapshot) {
    |m.history| > 0 && m.step < |m.history|
  }

  /** The cursor is on the newest history entry, that entry is the current state, and redo is off. */
  predicate AtTip(m: Snapshot) {
    WellShaped(m) && m.step == |m.history| - 1 && m.history[m.step] == m.state && !m.statusRedo
  }

  /** The record the constructor builds; nothing can be undone or redone from it. */
  function Init(initial: string): (m: Snapshot)
    ensures AtTip(m) && m.state == initial && m.history[0] == initial && |m.history| == 1
    ensures !Undo(m).ok && Undo(m).next == m
    ensures !Redo(m).ok
  {
    Snapshot(initial, [initial], 0, false)
  }

  /** `setHistory(s)`: push `s` onto history, advance the cursor and switch redo off.
      Nothing is ever truncated, whatever the cursor was. */
  function SetHistory(m: Snapshot, s: string): (r: Snapshot)
    requires WellShaped(m)
    ensures WellShaped(r) && r.history[0] == m.history[0] && r.state == m.state
    ensures |r.history| == |m.history| + 1 && r.history[..|m.history|] == m.history
    ensures r.history[|m.history|] == s
    ensures r.step == m.step + 1 && !r.statusRedo
    ensures !Redo(r).ok
  {
    m.(history := m.history + [s], step := m.step + 1, statusRedo := false)
  }

  /** `changeState(target)`: moves to `target` when it is a key of the table, else throws
      and leaves everything as it was. */
  function ChangeState(t: Table, m: Snapshot, target: string): (r: Outcome)
    requires WellShaped(m)
    ensures r.ok <==> target in Names(t)
    ensures !r.ok ==> r.next == m
    ensures r.ok ==> r.next.state == target && r.next.history == m.history + [target]
                     && r.next.step == m.step + 1 && !r.next.statusRedo
    ensures WellShaped(r.next) && r.next.history[0] == m.history[0]
    ensures r.ok && AtTip(m) ==> AtTip(r.next)
    ensures r.ok ==> !Redo(r.next).ok
    ensures r.ok ==> Undo(r.next).ok && Undo(r.next).next.state == m.history[m.step]
  {
    NamesMembership(t, target);
    if Lookup(t, target).Some? then
      Outcome(SetHistory(m.(state := target), target), true)
    else
      Outcome(m, false)
  }

  /** `trigger(event)`: moves along `states[state].transitions[event]` by the same path as
      `changeState`, without checking that the destination is a key of the table. Throws, and
      changes nothing, when the current state is not a key (the source's TypeError) or when it
      has no transition on `event`. */
  function Trigger(t: Table, m: Snapshot, event: string): (r: Outcome)
    requires WellShaped(m)
    ensures r.ok <==> Lookup(t, m.state).Some? && Transition(Lookup(t, m.state).value, event).Some?
    ensures !r.ok ==> r.next == m
    ensures r.ok ==> (event, r.next.state) in Lookup(t, m.state).value.transitions
    ensures r.ok ==> r.next.history == m.history + [r.next.state]
                     && r.next.step == m.step + 1 && !r.next.statusRedo
    ensures r.ok && r.next.state in Names(t) ==> r.next == ChangeState(t, m, r.next.state).next
    ensures WellShaped(r.next) && r.next.history[0] == m.history[0]
    ensures r.ok && AtTip(m) ==> AtTip(r.next)
  {
    match Lookup(t, m.state)
    case None => Outcome(m, false)
    case Some(def) =>
      match Transition(def, event)
      case None => Outcome(m, false)
      case Some(dest) =>
        NamesMembership(t, dest);
        Outcome(SetHistory(m.(state := dest), dest), true)
  }

  /** `undo()`: steps the cursor back one entry and makes that entry the current state. */
  function Undo(m: Snapshot): (r: Outcome)
    requires WellShaped(m)
    ensures r.ok <==> m.step > 0
    ensures !r.ok ==> r.next == m
    ensures r.ok ==> r.next.step == m.step - 1 && r.next.state == m.history[m.step - 1]
                     && r.next.history == m.history && r.next.statusRedo
    ensures WellShaped(r.next) && r.next.history[0] == m.history[0]
    ensures r.ok ==> Redo(r.next).ok && Redo(r.next).next.step == m.step
                     && Redo(r.next).next.history == m.history
                     && (m.history[m.step] == m.state ==> Redo(r.next).next.state == m.state)
  {
    if m.step < 1 then Outcome(m, false)
    else
      var step := m.step - 1;
      Outcome(m.(step := step, state := m.history[step], statusRedo := true), true)
  }

  /** `redo()`: steps the cursor forward one entry, only when there is an entry after the cursor
      and `statusRedo` is set (`undo` sets it, `setHistory` clears it). */
  function Redo(m: Snapshot): (r: Outcome)
    requires WellShaped(m)
    ensures r.ok <==> m.step + 1 < |m.history| && m.statusRedo
    ensures !r.ok ==> r.next == m
    ensures r.ok ==> r.next.step == m.step + 1 && r.next.state == m.history[m.step + 1]
                     && r.next.history == m.history && r.next.statusRedo
    ensures WellShaped(r.next) && r.next.history[0] == m.history[0]
  {
    if m.step + 1 >= |m.history| || !m.statusRedo then Outcome(m, false)
    else
      var step := m.step + 1;
      Outcome(m.(step := step, state := m.history[step]), true)
  }

  /** `clearHistory()`: history collapses to its first entry and the cursor to 0; the current
      state and the redo flag are left alone, so the cursor's entry is the current state only
      when the current state is the first entry. */
  function ClearHistory(m: Snapshot): (r: Snapshot)
    requires WellShaped(m)
    ensures WellShaped(r) && r.history == [m.history[0]] && r.step == 0
    ensures r.state == m.state && r.statusRedo == m.statusRedo
    ensures r.history[r.step] == r.state <==> m.state == m.history[0]
    ensures !Undo(r).ok && !Redo(r).ok
  {
    m.(step := 0, history := [m.history[0]])
  }

  /** `reset()`: back to the first history entry with a one-entry history; apart from the
      redo flag, which it leaves alone, this is the record the constructor built. */
  function Reset(m: Snapshot): (r: Snapshot)
    requires WellShaped(m)
    ensures r.(statusRedo := false) == Init(m.history[0])
    ensures r.statusRedo == m.statusRedo
    ensures !Undo(r).ok && !Redo(r).ok
  {
    ClearHistory(m.(state := m.history[0]))
  }

  /** The operations that change the FSM (`getState` and `getStates` only read it).
      `setHistory` is public in the source, so a direct call is one of them. */
  datatype Op =
    | ChangeStateOp(target: string)
    | TriggerOp(event: string)
    | SetHistoryOp(entry: string)
    | UndoOp
    | RedoOp
    | ResetOp
    | ClearHistoryOp

  function Apply(t: Table, m: Snapshot, op: Op): (r: Snapshot)
    requires WellShaped(m)
    ensures WellShaped(r) && r.history[0] == m.history[0]
  {
    match op
    case ChangeStateOp(target) => ChangeState(t, m, target).next
    case TriggerOp(event) => Trigger(t, m, event).next
    case SetHistoryOp(entry) => SetHistory(m, entry)
    case UndoOp => Undo(m).next
    case RedoOp => Redo(m).next
    case ResetOp => Reset(m)
    case ClearHistoryOp => ClearHistory(m)
  }

  /** The record after a sequence of calls, failed ones included. History never becomes empty,
      the cursor stays inside it, and its first entry never changes. */
  function Run(t: Table, m: Snapshot, ops: seq<Op>): (r: Snapshot)
    requires WellShaped(m)
    ensures WellShaped(r) && r.history[0] == m.history[0]
    decreases |ops|
  {
    if ops == [] then m else Run(t, Apply(t, m, ops[0]), ops[1..])
  }

  /** From construction on, the first history entry is always the initial state. */
  lemma RunFromInit(t: Table, initial: string, ops: seq<Op>)
    ensures WellShaped(Run(t, Init(initial), ops))
    ensures Run(t, Init(initial), ops).history[0] == initial
  {
  }

  /** No `undo`, no `clearHistory` and no direct `setHistory` call: each of these can leave the
      cursor on an entry other than the current state. */
  predicate NoUndoClearOrSetHistory(ops: seq<Op>) {
    forall i :: 0 <= i < |ops| ==>
      !ops[i].UndoOp? && !ops[i].ClearHistoryOp? && !ops[i].SetHistoryOp?
  }

  /** Along runs without `undo`, `clearHistory` and direct `setHistory` calls, the cursor stays on the newest entry and that
      entry is the current state. */
  lemma {:induction false} NoUndoRunStaysAtTip(t: Table, m: Snapshot, ops: seq<Op>)
    requires AtTip(m) && NoUndoClearOrSetHistory(ops)
    ensures AtTip(Run(t, m, ops))
    decreases |ops|
  {
    if ops != [] {
      assert !ops[0].UndoOp? && !ops[0].ClearHistoryOp? && !ops[0].SetHistoryOp?;
      var m' := Apply(t, m, ops[0]);
      assert AtTip(m');
      assert NoUndoClearOrSetHistory(ops[1..]) by {
        forall i | 0 <= i < |ops[1..]|
          ensures !ops[1..][i].UndoOp? && !ops[1..][i].ClearHistoryOp? && !ops[1..][i].SetHistoryOp?
        {
          assert ops[1..][i] == ops[i + 1];
        }
      }
      NoUndoRunStaysAtTip(t, m', ops[1..]);
    }
  }

  /** From construction, with no `undo`, no `clearHistory` and no direct `setHistory` call,
      `history[step]` is the current state. */
  lemma CursorIsStateWithoutUndo(t: Table, initial: string, ops: seq<Op>)
    requires NoUndoClearOrSetHistory(ops)
    ensures var r := Run(t, Init(initial), ops); r.history[r.step] == r.state
  {
    NoUndoRunStaysAtTip(t, Init(initial), ops);
  }

  function Repeat(op: Op, n: nat): (ops: seq<Op>)
    ensures |ops| == n && forall i :: 0 <= i < n ==> ops[i] == op
  {
    if n == 0 then [] else [op] + Repeat(op, n - 1)
  }

  /** `k` successful undos move the cursor back `k` entries and leave history alone. */
  lemma {:induction false} UndoTimes(t: Table, m: Snapshot, k: nat)
    requires WellShaped(m) && k <= m.step
    ensures var r := Run(t, m, Repeat(UndoOp, k));
      r.step == m.step - k && r.history == m.history
      && r.state == (if k == 0 then m.state else m.history[r.step])
      && r.statusRedo == (k > 0 || m.statusRedo)
    decreases k
  {
    if k > 0 {
      var ops := Repeat(UndoOp, k);
      assert ops[0] == UndoOp && ops[1..] == Repeat(UndoOp, k - 1);
      UndoTimes(t, Undo(m).next, k - 1);
    }
  }

  /** With redo on, `k` redos move the cursor forward `k` entries while entries remain. */
  lemma {:induction false} RedoTimes(t: Table, m: Snapshot, k: nat)
    requires WellShaped(m) && m.step + k < |m.history| && (k > 0 ==> m.statusRedo)
    ensures var r := Run(t, m, Repeat(RedoOp, k));
      r.step == m.step + k && r.history == m.history && r.statusRedo == m.statusRedo
      && r.state == (if k == 0 then m.state else m.history[r.step])
    decreases k
  {
    if k > 0 {
      var ops := Repeat(RedoOp, k);
      assert ops[0] == RedoOp && ops[1..] == Repeat(RedoOp, k - 1);
      RedoTimes(t, Redo(m).next, k - 1);
    }
  }

  /** Undoing until `undo()` returns false and then redoing until `redo()` returns false comes
      back to the state the undos started from whenever that state is the newest history entry:
      at the tip, and also after an undo followed by a change, when the cursor sits on a stale
      entry. The redos end on the newest entry, which is the starting cursor only at the tip. */
  lemma UndoAllThenRedoAll(t: Table, m: Snapshot)
    requires WellShaped(m) && m.state == m.history[|m.history| - 1]
    requires m.step > 0 || m.statusRedo || |m.history| == 1
    ensures var u := Run(t, m, Repeat(UndoOp, m.step));
      !Undo(u).ok
      && var v := Run(t, u, Repeat(RedoOp, |m.history| - 1));
      !Redo(v).ok && v.state == m.state && v.history == m.history
      && v.step == |m.history| - 1 && (AtTip(m) ==> v.step == m.step)
  {
    UndoTimes(t, m, m.step);
    var u := Run(t, m, Repeat(UndoOp, m.step));
    RedoTimes(t, u, |m.history| - 1);
  }

  /** A direct `setHistory(s)` call moves the cursor onto `s` without changing the state. */
  lemma DirectSetHistoryDetachesCursor(m: Snapshot, s: string)
    requires AtTip(m) && s != m.state
    ensures var r := SetHistory(m, s); r.history[r.step] == s && r.history[r.step] != r.state
  {
  }

  /** History is not truncated on a new branch: after an undo, a `changeState` to a different
      state leaves the cursor on the entry the undo stepped away from, not on the current state. */
  lemma BranchLeavesStaleEntry(t: Table, m: Snapshot, target: string)
    requires WellShaped(m) && Undo(m).ok
    requires ChangeState(t, Undo(m).next, target).ok && target != m.history[m.step]
    ensures var r := ChangeState(t, Undo(m).next, target).next;
      r.step == m.step && |r.history| == |m.history| + 1 && r.history[r.step] != r.state
      && r.state == r.history[|r.history| - 1] && r.step > 0
  {
  }

  /** After a branch of two changes, `undo()` lands on the abandoned entry rather than on the
      first state of the branch. */
  lemma UndoAfterBranchRevisitsAbandonedEntry(t: Table, m: Snapshot, x: string, y: string)
    requires WellShaped(m) && Undo(m).ok
    requires ChangeState(t, Undo(m).next, x).ok
    requires ChangeState(t, ChangeState(t, Undo(m).next, x).next, y).ok
    ensures var r := Undo(ChangeState(t, ChangeState(t, Undo(m).next, x).next, y).next);
      r.ok && r.next.state == m.history[m.step]
  {
  }

  /** After a branch, undo then redo follows the abandoned entry rather than the branch. */
  lemma RedoAfterBranchFollowsAbandonedEntry(t: Table, m: Snapshot, x: string)
    requires WellShaped(m) && Undo(m).ok
    requires ChangeState(t, Undo(m).next, x).ok
    ensures var r := Redo(Undo(ChangeState(t, Undo(m).next, x).next).next);
      r.ok && r.next.state == m.history[m.step]
  {
  }

  /** `trigger` can leave the table: with `{a: {transitions: {go: 'z'}}}` it moves to `z`,
      which is not a key, and every later `trigger` throws. */
  lemma TriggerMayLeaveTable()
    ensures var t := [("a", StateDef([("go", "z")]))];
      var r := Trigger(t, Init("a"), "go");
      r.ok && r.next.state == "z" && "z" !in Names(t)
      && forall e :: !Trigger(t, r.next, e).ok
  {
  }

  /** A session on `{a: {transitions: {go: 'b'}}, b: {transitions: {back: 'a'}}}` from `a`. */
  lemma ExampleSession()
    ensures var t := [("a", StateDef([("go", "b")])), ("b", StateDef([("back", "a")]))];
      var go := Trigger(t, Init("a"), "go");
      var undo := Undo(go.next);
      var redo := Redo(undo.next);
      go.ok && go.next.state == "b"
      && undo.ok && undo.next.state == "a"
      && redo.ok && redo.next.state == "b"
      && Query(t, Some("go")) == ["a"] && Query(t, Some("back")) == ["b"]
      && Query(t, None) == ["a", "b"] && Query(t, Some("")) == ["a", "b"]
  {
    var t := [("a", StateDef([("go", "b")])), ("b", StateDef([("back", "a")]))];
    assert t[0].1.transitions[0].0 == "go" && t[1].1.transitions[0].0 == "back";
    assert "go" != "back" by { assert "go"[0] != "back"[0]; }
    assert HasEvent(t[0].1, "go") && !HasEvent(t[1].1, "go");
    assert !HasEvent(t[0].1, "back") && HasEvent(t[1].1, "back");
  }
}
