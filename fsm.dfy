/** The `FSM` class of src/fsm.js: a transition table fixed at construction, the current state,
    and a history record `{states, step, statusRedo}` that every operation updates in place. */
module Fsm {
  import opened StateTable
  import Semantics

  /** The constructor's argument `{states, initial}`. */
  datatype Config = Config(states: Table, initial: string)

  class FSM {
    /** `this.states`: read, never written, after construction. */
    const states: Table
    /** `this.state`. */
    var state: string
    /** `this.history.states`: every state entered, oldest first. */
    var history: seq<string>
    /** `this.history.step`: the cursor into `history`. */
    var step: nat
    /** `this.history.statusRedo`: set by `undo`, cleared by `setHistory`; `redo` needs it. */
    var statusRedo: bool
    /** The state the FSM was constructed in. */
    ghost const initial: string

    /** The fields as one value, so that each method can be stated by its `Semantics` function. */
    ghost function Model(): Semantics.Snapshot
      reads this
    {
      Semantics.Snapshot(state, history, step, statusRedo)
    }

    ghost predicate Valid()
      reads this
    {
      WellFormed(states) && Semantics.WellShaped(Model()) && history[0] == initial
    }

    /** `new FSM(config)`. The initial state is not checked against the table. */
    constructor (config: Config)
      requires WellFormed(config.states)
      ensures Valid() && states == config.states && initial == config.initial
      ensures Model() == Semantics.Init(config.initial)
    {
      states := config.states;
      state := config.initial;
      initial := config.initial;
      history := [config.initial];
      step := 0;
      statusRedo := false;
    }

    /** `getState()`. */
    method GetState() returns (s: string)
      ensures s == state
    {
      s := state;
    }

    /** `changeState(target)`; `ok == false` stands for the thrown "State not found". */
    method ChangeState(target: string) returns (ok: bool)
      requires Valid()
      modifies this
      ensures Valid()
      ensures Model() == Semantics.ChangeState(states, old(Model()), target).next
      ensures ok == Semantics.ChangeState(states, old(Model()), target).ok
    {
      if Lookup(states, target).Some? {
        state := target;
        SetHistory(state);
        ok := true;
      } else {
        ok := false;
      }
    }

    /** `trigger(event)`; `ok == false` stands for the thrown "State not found", and for the
        TypeError thrown when the current state is not a key of the table. */
    method Trigger(event: string) returns (ok: bool)
      requires Valid()
      modifies this
      ensures Valid()
      ensures Model() == Semantics.Trigger(states, old(Model()), event).next
      ensures ok == Semantics.Trigger(states, old(Model()), event).ok
    {
      var def := Lookup(states, state);
      if def.None? {
        ok := false;
        return;
      }
      var dest := Transition(def.value, event);
      if dest.Some? {
        state := dest.value;
        SetHistory(state);
        ok := true;
      } else {
        ok := false;
      }
    }

    /** `reset()`. */
    method Reset()
      requires Valid()
      modifies this
      ensures Valid()
      ensures Model() == Semantics.Reset(old(Model()))
    {
      state := history[0];
      ClearHistory();
    }

    /** `setHistory(s)`: append, never truncate. */
    method SetHistory(s: string)
      requires Valid()
      modifies this
      ensures Valid()
      ensures Model() == Semantics.SetHistory(old(Model()), s)
    {
      history := history + [s];
      step := step + 1;
      statusRedo := false;
    }

    /** `getStates(event)`: the nested `for...in` loops over the table and each state's
        transitions. `None` and `Some("")` both ask for every state. */
    method GetStates(event: Option<string>) returns (r: seq<string>)
      requires Valid()
      ensures r == Query(states, event)
    {
      r := [];
      if event.None? || event.value == "" {
        var i := 0;
        while i < |states|
          invariant 0 <= i <= |states|
          invariant r == Names(states[..i])
        {
          NamesSnoc(states[..i], states[i]);
          assert states[..i + 1] == states[..i] + [states[i]];
          r := r + [states[i].0];
          i := i + 1;
        }
        assert states[..i] == states;
      } else {
        var e := event.value;
        var i := 0;
        while i < |states|
          invariant 0 <= i <= |states|
          invariant r == StatesWith(states[..i], e)
        {
          var name := states[i].0;
          var ts := states[i].1.transitions;
          assert DistinctEvents(states[i].1);
          ghost var before := r;
          var j := 0;
          while j < |ts|
            invariant 0 <= j <= |ts|
            invariant r == before + (if exists k :: 0 <= k < j && ts[k].0 == e then [name] else [])
          {
            if ts[j].0 == e {
              r := r + [name];
            }
            j := j + 1;
          }
          StatesWithSnoc(states[..i], states[i], e);
          assert states[..i + 1] == states[..i] + [states[i]];
          i := i + 1;
        }
        assert states[..i] == states;
      }
    }

    /** `undo()`. */
    method Undo() returns (ok: bool)
      requires Valid()
      modifies this
      ensures Valid()
      ensures Model() == Semantics.Undo(old(Model())).next
      ensures ok == Semantics.Undo(old(Model())).ok
    {
      if step < 1 {
        return false;
      }
      step := step - 1;
      state := history[step];
      statusRedo := true;
      return true;
    }

    /** `redo()`. An entry of `history` is never `undefined`, so "an entry exists at `step + 1`"
        is `step + 1 < |history|`. */
    method Redo() returns (ok: bool)
      requires Valid()
      modifies this
      ensures Valid()
      ensures Model() == Semantics.Redo(old(Model())).next
      ensures ok == Semantics.Redo(old(Model())).ok
    {
      if step + 1 >= |history| || !statusRedo {
        return false;
      }
      step := step + 1;
      state := history[step];
      return true;
    }

    /** `clearHistory()`. */
    method ClearHistory()
      requires Valid()
      modifies this
      ensures Valid()
      ensures Model() == Semantics.ClearHistory(old(Model()))
    {
      step := 0;
      history := [history[0]];
    }
  }
}
