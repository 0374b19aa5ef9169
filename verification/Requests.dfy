/** What the handles of the interning table stand for: the values their threads asked for. */
module Requests {
  import opened Intern

  /** The values that handles have been created for, directly or by cloning, and not been released. */
  function Asked<T>(actions: seq<Action<T>>): map<HandleId, T> {
    if actions == [] then map[] else Then(Asked(actions[..|actions| - 1]), actions[|actions| - 1])
  }

  function Then<T>(asked: map<HandleId, T>, a: Action<T>): map<HandleId, T> {
    match a
    case NewAction(h, v, _) => asked[h := v]
    case CloneAction(h, copy) => if h in asked then asked[copy := asked[h]] else asked
    case ReleaseAction(h) => asked - {h}
    case _ => asked
  }

  /** The handles of the state are those asked for, and each has its value. */
  ghost predicate Stands<T(!new)>(s: State<T>, asked: map<HandleId, T>) {
    s.handles.Keys == asked.Keys && forall h :: h in s.handles ==> StandsFor(s, h, asked[h])
  }

  ghost predicate StandsFor<T(!new)>(s: State<T>, h: HandleId, v: T)
    requires h in s.handles
  {
    s.handles[h].ptr in s.heap && ValueOf(s, h) == v
  }

  /** No step changes the value of an allocation or moves a handle. */
  lemma StepKeeps<T(!new)>(s: State<T>, s': State<T>, a: Action<T>, h: HandleId)
    requires Inv(s) && Inv(s') && Step(s, s', a) && h in s.handles && h in s'.handles
    ensures s'.handles[h].ptr == s.handles[h].ptr && s.handles[h].ptr in s.heap && s'.handles[h].ptr in s'.heap
    ensures ValueOf(s', h) == ValueOf(s, h)
  {
    assert HandleInv(s, h) && HandleInv(s', h);
  }

  lemma StepStands<T(!new)>(s: State<T>, s': State<T>, a: Action<T>, asked: map<HandleId, T>)
    requires Inv(s) && Inv(s') && Step(s, s', a) && Stands(s, asked)
    ensures Stands(s', Then(asked, a))
  {
    forall h | h in s'.handles ensures h in Then(asked, a) && StandsFor(s', h, Then(asked, a)[h]) {
      if h in s.handles {
        StepKeeps(s, s', a, h);
        assert StandsFor(s, h, asked[h]);
      } else {
        assert HandleInv(s', h);
        if a.CloneAction? { assert StandsFor(s, a.h, asked[a.h]); }
        if a.NewAction? && a.v in s.table { assert s.heap[s.table[a.v]].value == a.v; }
      }
    }
  }

  /** In every interleaving each handle has the value it was asked for. */
  lemma {:induction false} HandlesAsAsked<T(!new)>(states: seq<State<T>>, actions: seq<Action<T>>, i: nat)
    requires Run(states, actions) && i < |states|
    ensures Stands(states[i], Asked(actions[..i]))
  {
    if i > 0 {
      HandlesAsAsked(states, actions, i - 1);
      assert Step(states[i - 1], states[i - 1 + 1], actions[i - 1]);
      RunInv(states, actions, i - 1);
      RunInv(states, actions, i);
      StepStands(states[i - 1], states[i], actions[i - 1], Asked(actions[..i - 1]));
      assert actions[..i][..i - 1] == actions[..i - 1];
    }
  }

  /** So live handles share an allocation exactly when equal values were asked for. */
  lemma EqualRequests<T(!new)>(states: seq<State<T>>, actions: seq<Action<T>>, i: nat, h1: HandleId, h2: HandleId)
    requires Run(states, actions) && i < |states|
    requires h1 in states[i].handles && states[i].handles[h1].phase.Live?
    requires h2 in states[i].handles && states[i].handles[h2].phase.Live?
    ensures h1 in Asked(actions[..i]) && h2 in Asked(actions[..i])
    ensures states[i].handles[h1].ptr == states[i].handles[h2].ptr <==>
            Asked(actions[..i])[h1] == Asked(actions[..i])[h2]
  {
    HandlesAsAsked(states, actions, i);
    assert StandsFor(states[i], h1, Asked(actions[..i])[h1]) && StandsFor(states[i], h2, Asked(actions[..i])[h2]);
    PointerEquality(states, actions, i, h1, h2);
  }

  /** A handle keeps the value it was created with until it is released. */
  lemma {:induction false} KeepsValue<T(!new)>(states: seq<State<T>>, actions: seq<Action<T>>, h: HandleId, i: nat,
                                                j: nat)
    requires Run(states, actions) && i <= j < |states| && h in states[i].handles
    requires forall n :: i <= n < j ==> actions[n] != ReleaseAction(h)
    ensures h in states[j].handles && states[j].handles[h].ptr == states[i].handles[h].ptr
    ensures states[i].handles[h].ptr in states[i].heap && states[j].handles[h].ptr in states[j].heap
    ensures ValueOf(states[j], h) == ValueOf(states[i], h)
    decreases j - i
  {
    RunInv(states, actions, j);
    if i == j {
      assert HandleInv(states[i], h);
    } else {
      KeepsValue(states, actions, h, i, j - 1);
      assert Step(states[j - 1], states[j - 1 + 1], actions[j - 1]);
      RunInv(states, actions, j - 1);
      StepKeeps(states[j - 1], states[j], actions[j - 1], h);
    }
  }
}
