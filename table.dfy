/** The transition table an FSM is configured with: state name -> { transitions: event -> destination }.
    A JavaScript object literal is modelled as a sequence of (key, value) pairs in iteration order,
    with distinct keys (an object cannot hold the same key twice). */
module StateTable {

  datatype Option<T> = None | Some(value: T)

  /** The `{transitions: {...}}` record of one state; events in iteration order. */
  datatype StateDef = StateDef(transitions: seq<(string, string)>)

  type Table = seq<(string, StateDef)>

  predicate DistinctEvents(d: StateDef) {
    forall i, j :: 0 <= i < j < |d.transitions| ==> d.transitions[i].0 != d.transitions[j].0
  }

  predicate DistinctKeys(t: Table) {
    forall i, j :: 0 <= i < j < |t| ==> t[i].0 != t[j].0
  }

  /** What a JavaScript object table always satisfies: unique state keys, unique event keys. */
  predicate WellFormed(t: Table) {
    DistinctKeys(t) && forall i :: 0 <= i < |t| ==> DistinctEvents(t[i].1)
  }

  predicate Distinct(s: seq<string>) {
    forall i, j :: 0 <= i < j < |s| ==> s[i] != s[j]
  }

  /** `states[name]`: the definition stored under `name`, or None (`undefined`). */
  function Lookup(t: Table, name: string): (r: Option<StateDef>)
    ensures r.Some? <==> exists i :: 0 <= i < |t| && t[i].0 == name
    ensures r.Some? ==> exists i :: 0 <= i < |t| && t[i].0 == name && t[i].1 == r.value
  {
    if t == [] then None
    else if t[0].0 == name then Some(t[0].1)
    else
      var r := Lookup(t[1..], name);
      assert forall i :: 1 <= i < |t| ==> t[i] == t[1..][i - 1];
      r
  }

  /** `transitions[event]`: the destination of `event`, or None (`undefined`). */
  function Transition(d: StateDef, event: string): (r: Option<string>)
    ensures r.Some? <==> exists i :: 0 <= i < |d.transitions| && d.transitions[i].0 == event
    ensures r.Some? ==> (event, r.value) in d.transitions
    decreases |d.transitions|
  {
    var ts := d.transitions;
    if ts == [] then None
    else if ts[0].0 == event then Some(ts[0].1)
    else
      var r := Transition(StateDef(ts[1..]), event);
      assert forall i :: 1 <= i < |ts| ==> ts[i] == ts[1..][i - 1];
      r
  }

  predicate HasEvent(d: StateDef, event: string) {
    exists i :: 0 <= i < |d.transitions| && d.transitions[i].0 == event
  }

  /** Every key of the table, in iteration order. */
  function Names(t: Table): seq<string> {
    if t == [] then [] else [t[0].0] + Names(t[1..])
  }

  /** The keys of the states that define a transition on `event`, in iteration order. */
  function StatesWith(t: Table, event: string): seq<string> {
    if t == [] then []
    else if HasEvent(t[0].1, event) then [t[0].0] + StatesWith(t[1..], event)
    else StatesWith(t[1..], event)
  }

  /** What `getStates(event)` returns: all keys when the event is absent or empty,
      otherwise the keys of the states that define the event. */
  function Query(t: Table, event: Option<string>): (r: seq<string>)
    ensures Subsequence(r, Names(t))
    ensures DistinctKeys(t) ==> Distinct(r)
    ensures event.None? || event.value == "" ==>
              |r| == |t| && forall i :: 0 <= i < |t| ==> r[i] == t[i].0
    ensures event.Some? && event.value != "" && DistinctKeys(t) ==>
              forall x :: x in r <==>
                Lookup(t, x).Some? && Transition(Lookup(t, x).value, event.value).Some?
  {
    NamesAreTheKeys(t);
    if event.None? || event.value == "" then
      SubsequenceReflexive(Names(t));
      Names(t)
    else
      StatesWithInTableOrder(t, event.value);
      if DistinctKeys(t) then
        StatesWithDistinct(t, event.value);
        forall x ensures x in StatesWith(t, event.value) <==>
            Lookup(t, x).Some? && Transition(Lookup(t, x).value, event.value).Some? {
          StatesWithMembership(t, event.value, x);
        }
        StatesWith(t, event.value)
      else
        StatesWith(t, event.value)
  }

  /** `a` is `b` with some elements dropped, the rest kept in their order. */
  predicate Subsequence(a: seq<string>, b: seq<string>)
    decreases |b|
  {
    if a == [] then true
    else if b == [] then false
    else (a[0] == b[0] && Subsequence(a[1..], b[1..])) || Subsequence(a, b[1..])
  }

  /** `getStates()` lists every key of the table, each exactly once, in table order. */
  lemma {:induction false} NamesAreTheKeys(t: Table)
    ensures |Names(t)| == |t|
    ensures forall i :: 0 <= i < |t| ==> Names(t)[i] == t[i].0
    ensures DistinctKeys(t) ==> Distinct(Names(t))
  {
    if t != [] {
      NamesAreTheKeys(t[1..]);
      assert forall i :: 1 <= i < |t| ==> t[i] == t[1..][i - 1];
    }
  }

  /** A name is listed by `getStates()` exactly when `states[name]` is defined. */
  lemma NamesMembership(t: Table, name: string)
    ensures name in Names(t) <==> Lookup(t, name).Some?
  {
    NamesAreTheKeys(t);
    if name in Names(t) {
      var k :| 0 <= k < |Names(t)| && Names(t)[k] == name;
      assert t[k].0 == name;
    }
  }

  /** `getStates(event)` lists exactly the states `s` for which `states[s].transitions[event]`
      is defined. */
  lemma {:induction false} StatesWithMembership(t: Table, event: string, name: string)
    requires DistinctKeys(t)
    ensures name in StatesWith(t, event) <==>
              Lookup(t, name).Some? && Transition(Lookup(t, name).value, event).Some?
  {
    if t != [] {
      DistinctKeysTail(t);
      StatesWithMembership(t[1..], event, name);
      if t[0].0 == name {
        HeadNotInTail(t);
      }
    }
  }

  /** `getStates(event)` keeps table order: it is the key list with some keys dropped. */
  lemma {:induction false} StatesWithInTableOrder(t: Table, event: string)
    ensures Subsequence(StatesWith(t, event), Names(t))
  {
    if t != [] {
      StatesWithInTableOrder(t[1..], event);
    }
  }

  /** With distinct keys, `getStates(event)` lists no state twice. */
  lemma {:induction false} StatesWithDistinct(t: Table, event: string)
    requires DistinctKeys(t)
    ensures Distinct(StatesWith(t, event))
  {
    if t != [] {
      DistinctKeysTail(t);
      StatesWithDistinct(t[1..], event);
      if HasEvent(t[0].1, event) {
        StatesWithInTableOrder(t[1..], event);
        SubsequenceElements(StatesWith(t[1..], event), Names(t[1..]));
        NamesMembership(t[1..], t[0].0);
        HeadNotInTail(t);
      }
    }
  }

  lemma DistinctKeysTail(t: Table)
    requires t != [] && DistinctKeys(t)
    ensures DistinctKeys(t[1..])
  {
    forall i, j | 0 <= i < j < |t[1..]| ensures t[1..][i].0 != t[1..][j].0 {
      assert t[1..][i] == t[i + 1] && t[1..][j] == t[j + 1];
    }
  }

  lemma HeadNotInTail(t: Table)
    requires t != [] && DistinctKeys(t)
    ensures Lookup(t[1..], t[0].0).None?
  {
    forall i | 0 <= i < |t[1..]| ensures t[1..][i].0 != t[0].0 {
      assert t[1..][i] == t[i + 1];
    }
  }

  lemma {:induction false} SubsequenceReflexive(a: seq<string>)
    ensures Subsequence(a, a)
    decreases |a|
  {
    if a != [] {
      SubsequenceReflexive(a[1..]);
    }
  }

  lemma {:induction false} SubsequenceElements(a: seq<string>, b: seq<string>)
    requires Subsequence(a, b)
    ensures forall x :: x in a ==> x in b
    decreases |b|
  {
    if a != [] {
      if a[0] == b[0] && Subsequence(a[1..], b[1..]) {
        SubsequenceElements(a[1..], b[1..]);
        assert a == [a[0]] + a[1..] && b == [b[0]] + b[1..];
      } else {
        SubsequenceElements(a, b[1..]);
      }
    }
  }

  /** Scanning one more entry adds its key to the key list. */
  lemma {:induction false} NamesSnoc(t: Table, x: (string, StateDef))
    ensures Names(t + [x]) == Names(t) + [x.0]
  {
    if t != [] {
      assert (t + [x])[1..] == t[1..] + [x];
      NamesSnoc(t[1..], x);
    }
  }

  /** Scanning one more entry adds its key exactly when it defines the event. */
  lemma {:induction false} StatesWithSnoc(t: Table, x: (string, StateDef), event: string)
    ensures StatesWith(t + [x], event) ==
              StatesWith(t, event) + (if HasEvent(x.1, event) then [x.0] else [])
  {
    if t != [] {
      assert (t + [x])[1..] == t[1..] + [x];
      StatesWithSnoc(t[1..], x, event);
    } else {
      assert StatesWith([x], event) == StatesWith([x][1..], event) + (if HasEvent(x.1, event) then [x.0] else []);
    }
  }
}
