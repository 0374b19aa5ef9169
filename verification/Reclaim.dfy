/** When the interning table gives its entries up: exactly which interleavings of drops leave one
    behind. */
module Reclaim {
  import opened Intern

  /** The handle has not yet decided to leave the entry of its value alone. */
  ghost predicate Keeps<T(!new)>(s: State<T>, h: HandleId, v: T) {
    h in s.handles && !s.handles[h].phase.Releasing? && s.handles[h].ptr in s.heap && ValueOf(s, h) == v
  }

  /** The table holds exactly the values of such handles; without handles it is empty. */
  ghost predicate Exact<T(!new)>(s: State<T>) {
    forall v :: InTable(s, v) <==> exists h :: Keeps(s, h, v)
  }

  ghost predicate InTable<T(!new)>(s: State<T>, v: T) {
    v in s.table
  }

  /** No other handle to the allocation is before its decision. */
  ghost predicate Last<T(!new)>(s: State<T>, h: HandleId)
    requires h in s.handles
  {
    forall h1 :: h1 in HandlesAt(s, s.handles[h].ptr) && h1 != h ==> s.handles[h1].phase.Releasing?
  }

  /** A drop reads a count other than two, and so leaves the entry alone, although the other handles
      have all decided to do so already. */
  ghost predicate Overlooks<T(!new)>(s: State<T>, a: Action<T>) {
    && (a.DropBeginAction? || a.RecheckAction?)
    && a.h in s.handles && s.handles[a.h].ptr in s.heap
    && s.heap[s.handles[a.h].ptr].strong != 2 && Last(s, a.h)
  }

  /** An entry and a handle before its decision go together. */
  lemma KeeperAt<T(!new)>(s: State<T>, h: HandleId, v: T)
    requires Inv(s)
    ensures Keeps(s, h, v) <==>
            h in s.handles && !s.handles[h].phase.Releasing? && v in s.table && s.table[v] == s.handles[h].ptr
  {
    if h in s.handles { assert HandleInv(s, h); }
  }

  /** Values other than that of the handle that acts are not affected. */
  lemma OtherExact<T(!new)>(s: State<T>, s': State<T>, a: Action<T>, v: T)
    requires Inv(s) && Inv(s') && Step(s, s', a) && (InTable(s, v) <==> exists h :: Keeps(s, h, v))
    requires a.NewAction? ==> a.v != v
    requires !a.NewAction? ==> a.h in s.handles && s.handles[a.h].ptr in s.heap && ValueOf(s, a.h) != v
    ensures InTable(s', v) <==> exists h :: Keeps(s', h, v)
  {
    if h :| Keeps(s, h, v) {
      assert HandleInv(s, h);
      assert Keeps(s', h, v);
    }
    if h :| Keeps(s', h, v) {
      KeeperAt(s', h, v);
      assert HandleInv(s', h);
      if h in s.handles {
        assert HandleInv(s, h);
        assert Keeps(s, h, v);
      }
    }
  }

  lemma AddExact<T(!new)>(s: State<T>, s': State<T>, a: Action<T>, v: T)
    requires Inv(s) && Inv(s') && Step(s, s', a) && (a.NewAction? || a.CloneAction?)
    requires if a.NewAction? then a.v == v else a.h in s.handles && s.handles[a.h].ptr in s.heap && ValueOf(s, a.h) == v
    ensures InTable(s', v) && exists h :: Keeps(s', h, v)
  {
    var h := if a.NewAction? then a.h else a.copy;
    assert HandleInv(s', h);
    assert Keeps(s', h, v);
  }

  /** The decision to leave the entry alone is right unless the drop overlooks that it is the last. */
  lemma DecideExact<T(!new)>(s: State<T>, s': State<T>, a: Action<T>, v: T)
    requires Inv(s) && Inv(s') && Step(s, s', a) && (a.DropBeginAction? || a.RecheckAction?)
    requires s.handles[a.h].ptr in s.heap && ValueOf(s, a.h) == v
    ensures (InTable(s', v) <==> exists h :: Keeps(s', h, v)) <==> !Overlooks(s, a)
  {
    var p := s.handles[a.h].ptr;
    assert HandleInv(s, a.h);
    if s.heap[p].strong == 2 {
      assert Keeps(s', a.h, v);
    } else if Last(s, a.h) {
      forall h ensures !Keeps(s', h, v) {
        if Keeps(s', h, v) { KeeperAt(s', h, v); }
        assert h in HandlesAt(s, p) <==> h in s.handles && s.handles[h].ptr == p;
      }
    } else {
      var h :| h in HandlesAt(s, p) && h != a.h && !s.handles[h].phase.Releasing?;
      assert Keeps(s', h, v);
    }
  }

  lemma LockExact<T(!new)>(s: State<T>, s': State<T>, a: Action<T>, v: T)
    requires Inv(s) && Inv(s') && Step(s, s', a) && a.LockAction? && s.handles[a.h].ptr in s.heap &&
             ValueOf(s, a.h) == v
    ensures InTable(s', v) && exists h :: Keeps(s', h, v)
  {
    assert HandleInv(s, a.h);
    assert Keeps(s', a.h, v);
  }

  /** The entry and the last handle before its decision go together. */
  lemma RemoveExact<T(!new)>(s: State<T>, s': State<T>, a: Action<T>, v: T)
    requires Inv(s) && Inv(s') && Step(s, s', a) && a.RemoveAction? && s.handles[a.h].ptr in s.heap &&
             ValueOf(s, a.h) == v
    ensures !InTable(s', v) && !exists h :: Keeps(s', h, v)
  {
    forall h ensures !Keeps(s', h, v) { KeeperAt(s', h, v); }
  }

  lemma ReleaseExact<T(!new)>(s: State<T>, s': State<T>, a: Action<T>, v: T)
    requires Inv(s) && Inv(s') && Step(s, s', a) && a.ReleaseAction? && s.handles[a.h].ptr in s.heap &&
             ValueOf(s, a.h) == v
    requires InTable(s, v) <==> exists h :: Keeps(s, h, v)
    ensures InTable(s', v) <==> exists h :: Keeps(s', h, v)
  {
    if h :| Keeps(s, h, v) {
      KeeperAt(s, h, v);
      assert HandleInv(s', h);
      assert Keeps(s', h, v);
    }
    if h :| Keeps(s', h, v) {
      KeeperAt(s', h, v);
      assert HandleInv(s, h);
      assert Keeps(s, h, v);
    }
  }

  /** A step keeps the table exact unless it is such a decision. */
  lemma StepExact<T(!new)>(s: State<T>, s': State<T>, a: Action<T>)
    requires Inv(s) && Step(s, s', a) && Exact(s)
    ensures Inv(s') && (Exact(s') <==> !Overlooks(s, a))
  {
    StepInv(s, s', a);
    var v := if a.NewAction? then a.v else ValueOf(s, a.h);
    forall w | w != v ensures InTable(s', w) <==> exists h :: Keeps(s', h, w) {
      OtherExact(s, s', a, w);
    }
    match a
    case NewAction(_, _, _) => AddExact(s, s', a, v);
    case CloneAction(_, _) => AddExact(s, s', a, v);
    case LockAction(_) => LockExact(s, s', a, v);
    case RemoveAction(_) => RemoveExact(s, s', a, v);
    case ReleaseAction(_) => ReleaseExact(s, s', a, v);
    case DropBeginAction(_) => DecideExact(s, s', a, v);
    case RecheckAction(_) => DecideExact(s, s', a, v);
  }

  ghost predicate NoneOverlooks<T(!new)>(states: seq<State<T>>, actions: seq<Action<T>>)
    requires |states| == |actions| + 1
  {
    forall i :: 0 <= i < |actions| ==> !Overlooks(states[i], actions[i])
  }

  /** An interleaving keeps the table exact throughout exactly when no drop overlooks that it is
      the last to decide. */
  lemma ReclaimsIff<T(!new)>(states: seq<State<T>>, actions: seq<Action<T>>)
    requires Run(states, actions)
    ensures (forall i :: 0 <= i < |states| ==> Exact(states[i])) <==> NoneOverlooks(states, actions)
  {
    if NoneOverlooks(states, actions) {
      forall i | 0 <= i < |states| ensures Exact(states[i]) { StaysExact(states, actions, i); }
    }
    if forall i :: 0 <= i < |states| ==> Exact(states[i]) {
      forall i | 0 <= i < |actions| ensures !Overlooks(states[i], actions[i]) {
        RunInv(states, actions, i);
        assert Step(states[i], states[i + 1], actions[i]) && Exact(states[i + 1]);
        StepExact(states[i], states[i + 1], actions[i]);
      }
    }
  }

  lemma {:induction false} StaysExact<T(!new)>(states: seq<State<T>>, actions: seq<Action<T>>, i: nat)
    requires Run(states, actions) && i < |states|
    requires forall j :: 0 <= j < i ==> !Overlooks(states[j], actions[j])
    ensures Inv(states[i]) && Exact(states[i])
  {
    if i == 0 {
      StartInv(states[0].shard);
    } else {
      StaysExact(states, actions, i - 1);
      assert Step(states[i - 1], states[i - 1 + 1], actions[i - 1]);
      StepExact(states[i - 1], states[i], actions[i - 1]);
    }
  }

  // ----- drops of one allocation that do not overlap -----

  /** No other handle to the allocation is inside its drop. */
  ghost predicate Alone<T(!new)>(s: State<T>, h: HandleId) {
    forall h1 :: h1 in s.handles && h in s.handles && h1 != h && s.handles[h1].ptr == s.handles[h].ptr ==>
        s.handles[h1].phase.Live?
  }

  /** A drop begins only when no other drop of the same allocation is under way; drops of other
      allocations, and interning and cloning of the same one, may come in between. */
  ghost predicate Serial<T(!new)>(states: seq<State<T>>, actions: seq<Action<T>>)
    requires |states| == |actions| + 1
  {
    forall i :: 0 <= i < |actions| && actions[i].DropBeginAction? ==> Alone(states[i], actions[i].h)
  }

  /** At most one drop per allocation is under way. */
  ghost predicate OneDrop<T(!new)>(s: State<T>) {
    forall h :: h in s.handles && !s.handles[h].phase.Live? ==> Alone(s, h)
  }

  lemma StepOneDrop<T(!new)>(s: State<T>, s': State<T>, a: Action<T>)
    requires Inv(s) && Step(s, s', a) && OneDrop(s) && (a.DropBeginAction? ==> Alone(s, a.h))
    ensures OneDrop(s') && !Overlooks(s, a)
  {
    NothingOverlooked(s, s', a);
    StaysOneDrop(s, s', a);
  }

  lemma NothingOverlooked<T(!new)>(s: State<T>, s': State<T>, a: Action<T>)
    requires Inv(s) && Step(s, s', a) && OneDrop(s) && (a.DropBeginAction? ==> Alone(s, a.h))
    ensures !Overlooks(s, a)
  {
    if a.h in s.handles {
      var p := s.handles[a.h].ptr;
      assert HandleInv(s, a.h) && CountInv(s, p) && a.h in HandlesAt(s, p);
      if (a.DropBeginAction? || a.RecheckAction?) && s.heap[p].strong != 2 {
        assert Alone(s, a.h);
        var others := HandlesAt(s, p) - {a.h};
        assert HandlesAt(s, p) == others + {a.h};
        var other :| other in others;
        assert !Last(s, a.h);
      }
    }
  }

  lemma StaysOneDrop<T(!new)>(s: State<T>, s': State<T>, a: Action<T>)
    requires Step(s, s', a) && OneDrop(s) && (a.DropBeginAction? ==> Alone(s, a.h))
    ensures OneDrop(s')
  {
    forall h | h in s'.handles && !s'.handles[h].phase.Live? ensures Alone(s', h) {
      assert h in s.handles && Alone(s, h);
    }
  }

  /** Then the table is exact throughout. */
  lemma SerialDropsReclaim<T(!new)>(states: seq<State<T>>, actions: seq<Action<T>>)
    requires Run(states, actions) && Serial(states, actions)
    ensures forall i :: 0 <= i < |states| ==> Exact(states[i])
  {
    forall i | 0 <= i < |actions| ensures !Overlooks(states[i], actions[i]) {
      SerialOneDrop(states, actions, i);
      RunInv(states, actions, i);
      assert Step(states[i], states[i + 1], actions[i]);
      StepOneDrop(states[i], states[i + 1], actions[i]);
    }
    ReclaimsIff(states, actions);
  }

  lemma {:induction false} SerialOneDrop<T(!new)>(states: seq<State<T>>, actions: seq<Action<T>>, i: nat)
    requires Run(states, actions) && Serial(states, actions) && i < |states|
    ensures OneDrop(states[i])
  {
    if i > 0 {
      SerialOneDrop(states, actions, i - 1);
      RunInv(states, actions, i - 1);
      assert Step(states[i - 1], states[i - 1 + 1], actions[i - 1]);
      StepOneDrop(states[i - 1], states[i], actions[i - 1]);
    }
  }
}
