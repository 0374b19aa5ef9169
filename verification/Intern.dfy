/** Concurrent interning: any number of threads create, clone and drop handles to shared
    allocations kept in a sharded table.  Every action that other threads can observe is one
    step: the reference count is read without a lock when a handle is dropped, read again under
    the lock of the shard, and decremented last. */
module Intern {

  type Ptr = nat
  type HandleId = nat

  /** Where a handle stands: usable, or inside its drop. */
  datatype Phase =
    | Live
    | Slow        // the count was two: about to lock the shard
    | Locked      // the shard is locked: about to read the count again
    | Removing    // the count was two again: about to remove the entry
    | Releasing   // about to decrement the count

  datatype Handle = Handle(ptr: Ptr, phase: Phase)

  datatype Alloc<T> = Alloc(value: T, strong: nat)

  datatype State<!T> = State(
    shard: T -> nat,
    table: map<T, Ptr>,
    heap: map<Ptr, Alloc<T>>,
    handles: map<HandleId, Handle>,
    locks: map<nat, HandleId>)

  function ValueOf<T>(s: State<T>, h: HandleId): T
    requires h in s.handles && s.handles[h].ptr in s.heap
  {
    s.heap[s.handles[h].ptr].value
  }

  function SetPhase<T>(s: State<T>, h: HandleId, phase: Phase): map<HandleId, Handle>
    requires h in s.handles
  {
    s.handles[h := s.handles[h].(phase := phase)]
  }

  function AddStrong<T>(s: State<T>, p: Ptr): map<Ptr, Alloc<T>>
    requires p in s.heap
  {
    s.heap[p := s.heap[p].(strong := s.heap[p].strong + 1)]
  }

  /** Give up one reference; the last one frees the allocation. */
  function DropStrong<T>(heap: map<Ptr, Alloc<T>>, p: Ptr): map<Ptr, Alloc<T>>
    requires p in heap && heap[p].strong > 0
  {
    if heap[p].strong == 1 then heap - {p} else heap[p := heap[p].(strong := heap[p].strong - 1)]
  }

  // ----- steps -----

  /** Intern a value, under the lock of its shard: share the stored allocation or store a new one. */
  ghost predicate New<T(!new)>(s: State<T>, s': State<T>, h: HandleId, v: T, addr: Ptr) {
    && h !in s.handles && s.shard(v) !in s.locks
    && if v in s.table then
         s.table[v] in s.heap &&
         s' == s.(heap := AddStrong(s, s.table[v]), handles := s.handles[h := Handle(s.table[v], Live)])
       else
         addr !in s.heap &&
         s' == s.(table := s.table[v := addr], heap := s.heap[addr := Alloc(v, 2)],
                  handles := s.handles[h := Handle(addr, Live)])
  }

  ghost predicate Clone<T(!new)>(s: State<T>, s': State<T>, h: HandleId, copy: HandleId) {
    && h in s.handles && s.handles[h].phase.Live? && copy !in s.handles && s.handles[h].ptr in s.heap
    && s' == s.(heap := AddStrong(s, s.handles[h].ptr), handles := s.handles[copy := Handle(s.handles[h].ptr, Live)])
  }

  /** Read the count, without a lock. */
  ghost predicate DropBegin<T(!new)>(s: State<T>, s': State<T>, h: HandleId) {
    && h in s.handles && s.handles[h].phase.Live? && s.handles[h].ptr in s.heap
    && s' == s.(handles := SetPhase(s, h, if s.heap[s.handles[h].ptr].strong == 2 then Slow else Releasing))
  }

  ghost predicate Lock<T(!new)>(s: State<T>, s': State<T>, h: HandleId) {
    && h in s.handles && s.handles[h].phase.Slow? && s.handles[h].ptr in s.heap
    && var shard := s.shard(ValueOf(s, h));
       shard !in s.locks &&
       s' == s.(handles := SetPhase(s, h, Locked), locks := s.locks[shard := h])
  }

  /** Read the count of the entry found in the table. */
  ghost predicate Recheck<T(!new)>(s: State<T>, s': State<T>, h: HandleId) {
    && h in s.handles && s.handles[h].phase.Locked? && s.handles[h].ptr in s.heap
    && var v := ValueOf(s, h);
       v in s.table && s.table[v] in s.heap &&
       if s.heap[s.table[v]].strong == 2 then s' == s.(handles := SetPhase(s, h, Removing))
       else s' == s.(handles := SetPhase(s, h, Releasing), locks := s.locks - {s.shard(v)})
  }

  /** Remove the entry, which gives up the table's reference, and unlock. */
  ghost predicate Remove<T(!new)>(s: State<T>, s': State<T>, h: HandleId) {
    && h in s.handles && s.handles[h].phase.Removing? && s.handles[h].ptr in s.heap
    && var v := ValueOf(s, h);
       v in s.table && s.table[v] in s.heap && s.heap[s.table[v]].strong > 0 &&
       s' == s.(table := s.table - {v}, heap := DropStrong(s.heap, s.table[v]),
                handles := SetPhase(s, h, Releasing), locks := s.locks - {s.shard(v)})
  }

  /** Give up the handle's own reference. */
  ghost predicate Release<T(!new)>(s: State<T>, s': State<T>, h: HandleId) {
    && h in s.handles && s.handles[h].phase.Releasing?
    && s.handles[h].ptr in s.heap && s.heap[s.handles[h].ptr].strong > 0
    && s' == s.(heap := DropStrong(s.heap, s.handles[h].ptr), handles := s.handles - {h})
  }

  datatype Action<T> =
    | NewAction(h: HandleId, v: T, addr: Ptr)
    | CloneAction(h: HandleId, copy: HandleId)
    | DropBeginAction(h: HandleId)
    | LockAction(h: HandleId)
    | RecheckAction(h: HandleId)
    | RemoveAction(h: HandleId)
    | ReleaseAction(h: HandleId)

  ghost predicate Step<T(!new)>(s: State<T>, s': State<T>, a: Action<T>) {
    match a
    case NewAction(h, v, addr) => New(s, s', h, v, addr)
    case CloneAction(h, copy) => Clone(s, s', h, copy)
    case DropBeginAction(h) => DropBegin(s, s', h)
    case LockAction(h) => Lock(s, s', h)
    case RecheckAction(h) => Recheck(s, s', h)
    case RemoveAction(h) => Remove(s, s', h)
    case ReleaseAction(h) => Release(s, s', h)
  }

  function Start<T>(shard: T -> nat): State<T> {
    State(shard, map[], map[], map[], map[])
  }

  /** An interleaving: each state follows from the one before by some thread's action. */
  ghost predicate Run<T(!new)>(states: seq<State<T>>, actions: seq<Action<T>>) {
    && |states| == |actions| + 1
    && states[0] == Start(states[0].shard)
    && forall i :: 0 <= i < |actions| ==> Step(states[i], states[i + 1], actions[i])
  }

  // ----- the invariant -----

  /** Handles, in whatever phase, that refer to an allocation. */
  function HandlesAt<T>(s: State<T>, p: Ptr): set<HandleId> {
    set h | h in s.handles && s.handles[h].ptr == p
  }

  predicate Stored<T(==)>(s: State<T>, p: Ptr)
    requires p in s.heap
  {
    s.heap[p].value in s.table && s.table[s.heap[p].value] == p
  }

  ghost predicate Inv<T(!new)>(s: State<T>) {
    && (forall v :: v in s.table ==> s.table[v] in s.heap && s.heap[s.table[v]].value == v)
    && (forall h {:trigger HandleInv(s, h)} :: h in s.handles ==> HandleInv(s, h))
    && (forall p {:trigger CountInv(s, p)} :: p in s.heap ==> CountInv(s, p))
    && (forall n {:trigger LockInv(s, n)} :: n in s.locks ==> LockInv(s, n))
  }

  /** Until its entry is removed or its count released, a handle's allocation is the stored one;
      a handle past the second look is the only one left. */
  ghost predicate HandleInv<T(!new)>(s: State<T>, h: HandleId)
    requires h in s.handles
  {
    var p := s.handles[h].ptr;
    && p in s.heap
    && (!s.handles[h].phase.Releasing? ==> Stored(s, p))
    && (s.handles[h].phase.Removing? ==> HandlesAt(s, p) == {h})
    && (s.handles[h].phase.Locked? || s.handles[h].phase.Removing? ==>
          s.shard(s.heap[p].value) in s.locks && s.locks[s.shard(s.heap[p].value)] == h)
  }

  /** The count is exact. */
  ghost predicate CountInv<T(!new)>(s: State<T>, p: Ptr)
    requires p in s.heap
  {
    s.heap[p].strong == |HandlesAt(s, p)| + (if Stored(s, p) then 1 else 0) && s.heap[p].strong > 0
  }

  ghost predicate LockInv<T(!new)>(s: State<T>, n: nat)
    requires n in s.locks
  {
    var h := s.locks[n];
    && h in s.handles && s.handles[h].ptr in s.heap
    && (s.handles[h].phase.Locked? || s.handles[h].phase.Removing?)
    && s.shard(ValueOf(s, h)) == n
  }

  lemma StartInv<T(!new)>(shard: T -> nat)
    ensures Inv(Start(shard))
  {
  }

  /** Adding a handle to `p` adds one to its count and to no other. */
  lemma AddHandle<T(!new)>(s: State<T>, s': State<T>, h: HandleId, p: Ptr)
    requires h !in s.handles && s'.handles == s.handles[h := Handle(p, Live)]
    ensures HandlesAt(s', p) == HandlesAt(s, p) + {h} && |HandlesAt(s', p)| == |HandlesAt(s, p)| + 1
    ensures forall q :: q != p ==> HandlesAt(s', q) == HandlesAt(s, q)
  {
    assert HandlesAt(s', p) == HandlesAt(s, p) + {h};
  }

  lemma SamePtrs<T(!new)>(s: State<T>, s': State<T>, h: HandleId, phase: Phase)
    requires h in s.handles && s'.handles == SetPhase(s, h, phase)
    ensures forall q :: HandlesAt(s', q) == HandlesAt(s, q)
  {
  }

  lemma RemoveHandle<T(!new)>(s: State<T>, s': State<T>, h: HandleId)
    requires h in s.handles && s'.handles == s.handles - {h}
    ensures HandlesAt(s', s.handles[h].ptr) == HandlesAt(s, s.handles[h].ptr) - {h}
    ensures |HandlesAt(s', s.handles[h].ptr)| == |HandlesAt(s, s.handles[h].ptr)| - 1
    ensures forall q :: q != s.handles[h].ptr ==> HandlesAt(s', q) == HandlesAt(s, q)
  {
    var p := s.handles[h].ptr;
    assert h in HandlesAt(s, p);
    assert HandlesAt(s', p) == HandlesAt(s, p) - {h};
  }

  lemma NewInv<T(!new)>(s: State<T>, s': State<T>, h: HandleId, v: T, addr: Ptr)
    requires Inv(s) && New(s, s', h, v, addr)
    ensures Inv(s')
  {
    var p := if v in s.table then s.table[v] else addr;
    AddHandle(s, s', h, p);
    if v !in s.table {
      assert HandlesAt(s, addr) == {} by {
        forall h1 | h1 in s.handles ensures s.handles[h1].ptr != addr { assert HandleInv(s, h1); }
      }
    }
    forall q | q in s'.heap ensures CountInv(s', q) {
      if q in s.heap { assert CountInv(s, q); }
    }
    forall h1 | h1 in s'.handles ensures HandleInv(s', h1) {
      if h1 != h {
        assert HandleInv(s, h1);
        if s.handles[h1].phase.Removing? { assert s.heap[s.handles[h1].ptr].value != v; }
      }
    }
    forall n | n in s'.locks ensures LockInv(s', n) { assert LockInv(s, n); }
  }

  lemma CloneInv<T(!new)>(s: State<T>, s': State<T>, h: HandleId, copy: HandleId)
    requires Inv(s) && Clone(s, s', h, copy)
    ensures Inv(s')
  {
    var p := s.handles[h].ptr;
    AddHandle(s, s', copy, p);
    assert HandleInv(s, h);
    assert h in HandlesAt(s, p);
    forall q | q in s'.heap ensures CountInv(s', q) { assert CountInv(s, q); }
    forall h1 | h1 in s'.handles ensures HandleInv(s', h1) {
      if h1 != copy { assert HandleInv(s, h1); }
    }
    forall n | n in s'.locks ensures LockInv(s', n) { assert LockInv(s, n); }
  }

  lemma DropBeginInv<T(!new)>(s: State<T>, s': State<T>, h: HandleId)
    requires Inv(s) && DropBegin(s, s', h)
    ensures Inv(s')
  {
    SamePtrs(s, s', h, s'.handles[h].phase);
    forall q | q in s'.heap ensures CountInv(s', q) { assert CountInv(s, q); }
    forall h1 | h1 in s'.handles ensures HandleInv(s', h1) { assert HandleInv(s, h1); }
    forall n | n in s'.locks ensures LockInv(s', n) { assert LockInv(s, n); }
  }

  lemma LockStepInv<T(!new)>(s: State<T>, s': State<T>, h: HandleId)
    requires Inv(s) && Lock(s, s', h)
    ensures Inv(s')
  {
    SamePtrs(s, s', h, Locked);
    forall q | q in s'.heap ensures CountInv(s', q) { assert CountInv(s, q); }
    forall h1 | h1 in s'.handles ensures HandleInv(s', h1) { assert HandleInv(s, h1); }
    forall n | n in s'.locks ensures LockInv(s', n) {
      if n in s.locks { assert LockInv(s, n); }
    }
  }

  lemma RecheckInv<T(!new)>(s: State<T>, s': State<T>, h: HandleId)
    requires Inv(s) && Recheck(s, s', h)
    ensures Inv(s')
  {
    var p := s.handles[h].ptr;
    assert HandleInv(s, h) && CountInv(s, p);
    SamePtrs(s, s', h, s'.handles[h].phase);
    if s.heap[p].strong == 2 {
      OnlyOne(HandlesAt(s, p), h);
    }
    forall q | q in s'.heap ensures CountInv(s', q) { assert CountInv(s, q); }
    forall h1 | h1 in s'.handles ensures HandleInv(s', h1) { assert HandleInv(s, h1); }
    forall n | n in s'.locks ensures LockInv(s', n) { assert LockInv(s, n); }
  }

  lemma OnlyOne(hs: set<HandleId>, h: HandleId)
    requires h in hs && |hs| == 1
    ensures hs == {h}
  {
    assert |hs - {h}| == 0;
    assert hs == (hs - {h}) + {h};
  }

  lemma RemoveInv<T(!new)>(s: State<T>, s': State<T>, h: HandleId)
    requires Inv(s) && Remove(s, s', h)
    ensures Inv(s')
  {
    var p := s.handles[h].ptr;
    assert HandleInv(s, h) && CountInv(s, p);
    SamePtrs(s, s', h, Releasing);
    forall q | q in s'.heap ensures CountInv(s', q) { assert CountInv(s, q); }
    forall h1 | h1 in s'.handles ensures HandleInv(s', h1) {
      assert HandleInv(s, h1);
      if h1 != h { assert h1 !in HandlesAt(s, p); }
    }
    forall n | n in s'.locks ensures LockInv(s', n) { assert LockInv(s, n); }
  }

  lemma ReleaseInv<T(!new)>(s: State<T>, s': State<T>, h: HandleId)
    requires Inv(s) && Release(s, s', h)
    ensures Inv(s')
  {
    var p := s.handles[h].ptr;
    assert HandleInv(s, h) && CountInv(s, p);
    RemoveHandle(s, s', h);
    assert h in HandlesAt(s, p);
    forall q | q in s'.heap ensures CountInv(s', q) { assert CountInv(s, q); }
    forall h1 | h1 in s'.handles ensures HandleInv(s', h1) {
      assert HandleInv(s, h1);
      if s.handles[h1].ptr == p { TwoMembers(HandlesAt(s, p), h, h1); }
    }
    forall v | v in s'.table ensures s'.table[v] in s'.heap && s'.heap[s'.table[v]].value == v {
    }
    forall n | n in s'.locks ensures LockInv(s', n) { assert LockInv(s, n); }
  }

  lemma TwoMembers(hs: set<HandleId>, h1: HandleId, h2: HandleId)
    requires h1 in hs && h2 in hs && h1 != h2
    ensures |hs| >= 2
  {
    assert h2 in hs - {h1};
    assert |hs - {h1}| >= 1;
  }

  lemma StepInv<T(!new)>(s: State<T>, s': State<T>, a: Action<T>)
    requires Inv(s) && Step(s, s', a)
    ensures Inv(s')
  {
    match a
    case NewAction(h, v, addr) => NewInv(s, s', h, v, addr);
    case CloneAction(h, copy) => CloneInv(s, s', h, copy);
    case DropBeginAction(h) => DropBeginInv(s, s', h);
    case LockAction(h) => LockStepInv(s, s', h);
    case RecheckAction(h) => RecheckInv(s, s', h);
    case RemoveAction(h) => RemoveInv(s, s', h);
    case ReleaseAction(h) => ReleaseInv(s, s', h);
  }

  lemma {:induction false} RunInv<T(!new)>(states: seq<State<T>>, actions: seq<Action<T>>, i: nat)
    requires Run(states, actions) && i < |states|
    ensures Inv(states[i])
  {
    if i == 0 {
      StartInv(states[0].shard);
    } else {
      RunInv(states, actions, i - 1);
      assert Step(states[i - 1], states[i - 1 + 1], actions[i - 1]);
      StepInv(states[i - 1], states[i], actions[i - 1]);
    }
  }

  // ----- what every interleaving guarantees -----

  /** Pointer equality is value equality: two live handles share an allocation exactly when
      their values are equal. */
  lemma PointerEquality<T(!new)>(states: seq<State<T>>, actions: seq<Action<T>>, i: nat, h1: HandleId, h2: HandleId)
    requires Run(states, actions) && i < |states|
    requires h1 in states[i].handles && states[i].handles[h1].phase.Live?
    requires h2 in states[i].handles && states[i].handles[h2].phase.Live?
    ensures states[i].handles[h1].ptr in states[i].heap && states[i].handles[h2].ptr in states[i].heap
    ensures states[i].handles[h1].ptr == states[i].handles[h2].ptr <==> ValueOf(states[i], h1) == ValueOf(states[i], h2)
  {
    RunInv(states, actions, i);
    assert HandleInv(states[i], h1) && HandleInv(states[i], h2);
  }

  /** The strong count of an allocation is the number of its handles, plus one if it is stored. */
  lemma CountExact<T(!new)>(states: seq<State<T>>, actions: seq<Action<T>>, i: nat, p: Ptr)
    requires Run(states, actions) && i < |states| && p in states[i].heap
    ensures states[i].heap[p].strong == |HandlesAt(states[i], p)| + (if Stored(states[i], p) then 1 else 0)
  {
    RunInv(states, actions, i);
    assert CountInv(states[i], p);
  }

  /** Under the lock, the lookup finds the entry, and it is the handle's own allocation. */
  lemma LookupFinds<T(!new)>(states: seq<State<T>>, actions: seq<Action<T>>, i: nat, h: HandleId)
    requires Run(states, actions) && i < |states|
    requires h in states[i].handles && !states[i].handles[h].phase.Live? && !states[i].handles[h].phase.Releasing?
    ensures states[i].handles[h].ptr in states[i].heap
    ensures ValueOf(states[i], h) in states[i].table &&
            states[i].table[ValueOf(states[i], h)] == states[i].handles[h].ptr
  {
    RunInv(states, actions, i);
    assert HandleInv(states[i], h);
  }

  /** A drop is never stuck except on a lock that another drop holds. */
  lemma DropProceeds<T(!new)>(states: seq<State<T>>, actions: seq<Action<T>>, i: nat, h: HandleId)
    requires Run(states, actions) && i < |states| && h in states[i].handles
    ensures states[i].handles[h].ptr in states[i].heap
    ensures (exists s': State<T>, a: Action<T> :: a.h == h && Step(states[i], s', a)) ||
            (states[i].handles[h].phase.Slow? && states[i].shard(ValueOf(states[i], h)) in states[i].locks &&
             states[i].locks[states[i].shard(ValueOf(states[i], h))] != h)
  {
    var s := states[i];
    RunInv(states, actions, i);
    assert HandleInv(s, h) && CountInv(s, s.handles[h].ptr);
    match s.handles[h].phase
    case Live =>
      assert Step(s, s.(handles := SetPhase(s, h, if s.heap[s.handles[h].ptr].strong == 2 then Slow else Releasing)),
                  DropBeginAction(h));
    case Slow =>
      var n := s.shard(ValueOf(s, h));
      if n !in s.locks {
        assert Step(s, s.(handles := SetPhase(s, h, Locked), locks := s.locks[n := h]), LockAction(h));
      } else {
        assert LockInv(s, n);
      }
    case Locked =>
      var v := ValueOf(s, h);
      if s.heap[s.table[v]].strong == 2 {
        assert Step(s, s.(handles := SetPhase(s, h, Removing)), RecheckAction(h));
      } else {
        assert Step(s, s.(handles := SetPhase(s, h, Releasing), locks := s.locks - {s.shard(v)}), RecheckAction(h));
      }
    case Removing =>
      var v := ValueOf(s, h);
      assert Step(s, s.(table := s.table - {v}, heap := DropStrong(s.heap, s.table[v]),
                        handles := SetPhase(s, h, Releasing), locks := s.locks - {s.shard(v)}), RemoveAction(h));
    case Releasing =>
      assert Step(s, s.(heap := DropStrong(s.heap, s.handles[h].ptr), handles := s.handles - {h}), ReleaseAction(h));
  }

  // ----- interrupted drops -----

  /** Two handles to the same value, dropped at the same time, can both read a count of three;
      neither removes the entry, which stays without a handle. */
  lemma InterruptedDropsLeak<T(!new)>(shard: T -> nat, v: T) returns (states: seq<State<T>>, actions: seq<Action<T>>)
    ensures Run(states, actions)
    ensures var last := states[|states| - 1]; last.handles == map[] && v in last.table
  {
    var s: State<T>;
    states, actions, s := SharedByTwo(shard, v);
    states, actions := Extend(states, actions, s.(handles := map[0 := Handle(0, Releasing), 1 := Handle(0, Live)]),
                              DropBeginAction(0));
    states, actions := Extend(states, actions, s.(handles := map[0 := Handle(0, Releasing), 1 := Handle(0, Releasing)]),
                              DropBeginAction(1));
    states, actions := Extend(states, actions,
                              s.(heap := map[0 := Alloc(v, 2)], handles := map[1 := Handle(0, Releasing)]),
                              ReleaseAction(0));
    states, actions := Extend(states, actions, s.(heap := map[0 := Alloc(v, 1)], handles := map[]), ReleaseAction(1));
  }

  lemma SharedByTwo<T(!new)>(shard: T -> nat, v: T)
    returns (states: seq<State<T>>, actions: seq<Action<T>>, s: State<T>)
    ensures Run(states, actions) && states[|states| - 1] == s
    ensures s == State(shard, map[v := 0], map[0 := Alloc(v, 3)], map[0 := Handle(0, Live), 1 := Handle(0, Live)],
                       map[])
  {
    var s0 := Start(shard);
    var s1 := s0.(table := map[v := 0], heap := map[0 := Alloc(v, 2)], handles := map[0 := Handle(0, Live)]);
    s := s1.(heap := map[0 := Alloc(v, 3)], handles := map[0 := Handle(0, Live), 1 := Handle(0, Live)]);
    states, actions := [s0], [];
    states, actions := Extend(states, actions, s1, NewAction(0, v, 0));
    states, actions := Extend(states, actions, s, CloneAction(0, 1));
  }

  lemma Extend<T(!new)>(states: seq<State<T>>, actions: seq<Action<T>>, s: State<T>, a: Action<T>)
    returns (states': seq<State<T>>, actions': seq<Action<T>>)
    requires Run(states, actions) && Step(states[|states| - 1], s, a)
    ensures Run(states', actions') && states'[|states'| - 1] == s
  {
    states', actions' := states + [s], actions + [a];
  }
}
