/** How the blocks of a function with join points are traversed, for any control-flow graph:
    jumps to ordinary blocks recurse, jumps to join points leave an environment behind, and a
    loop in reverse postorder picks those up. */
module Traversals {
  import opened Logic
  import opened Mir
  import opened Visit

  // ----- predecessors -----

  function EdgesFrom(succs: seq<nat>, b: nat, t: nat, i: nat): (r: seq<(nat, nat)>)
    requires i <= |succs|
  {
    if i == 0 then [] else EdgesFrom(succs, b, t, i - 1) + (if succs[i - 1] == t then [(b, i - 1)] else [])
  }

  function EdgesInto(graph: seq<seq<nat>>, t: nat, n: nat): seq<(nat, nat)>
    requires n <= |graph|
  {
    if n == 0 then [] else EdgesInto(graph, t, n - 1) + EdgesFrom(graph[n - 1], n - 1, t, |graph[n - 1]|)
  }

  function Graph(body: Body): (r: seq<seq<nat>>)
    ensures |r| == |body.blocks| && forall b :: 0 <= b < |r| ==> r[b] == Successors(body.blocks[b])
  {
    seq(|body.blocks|, b requires 0 <= b < |body.blocks| => Successors(body.blocks[b]))
  }

  /** One entry per edge into `t`, block by block. */
  function Predecessors(body: Body, t: nat): seq<(nat, nat)> {
    EdgesInto(Graph(body), t, |body.blocks|)
  }

  ghost predicate Distinct<T>(xs: seq<T>) {
    forall i, j :: 0 <= i < j < |xs| ==> xs[i] != xs[j]
  }

  predicate FromBlock(succs: seq<nat>, b: nat, e: (nat, nat), t: nat, i: nat)
    requires i <= |succs|
  {
    e.0 == b && e.1 < i && succs[e.1] == t
  }

  predicate IsEdge(graph: seq<seq<nat>>, e: (nat, nat), t: nat, n: nat)
    requires n <= |graph|
  {
    e.0 < n && FromBlock(graph[e.0], e.0, e, t, |graph[e.0]|)
  }

  lemma InAppend<T>(a: seq<T>, b: seq<T>, x: T)
    ensures x in a + b <==> x in a || x in b
  {
  }

  lemma {:induction false} EdgeFromIff(succs: seq<nat>, b: nat, t: nat, i: nat, e: (nat, nat))
    requires i <= |succs|
    ensures e in EdgesFrom(succs, b, t, i) <==> FromBlock(succs, b, e, t, i)
  {
    if i > 0 {
      EdgeFromIff(succs, b, t, i - 1, e);
      EdgeFromStep(succs, b, t, i, e, EdgesFrom(succs, b, t, i - 1));
    }
  }

  lemma EdgeFromStep(succs: seq<nat>, b: nat, t: nat, i: nat, e: (nat, nat), front: seq<(nat, nat)>)
    requires 0 < i <= |succs| && (e in front <==> FromBlock(succs, b, e, t, i - 1))
    ensures e in front + (if succs[i - 1] == t then [(b, i - 1)] else []) <==> FromBlock(succs, b, e, t, i)
  {
    InAppend(front, if succs[i - 1] == t then [(b, i - 1)] else [], e);
  }

  lemma {:induction false} EdgesFromDistinct(succs: seq<nat>, b: nat, t: nat, i: nat)
    requires i <= |succs|
    ensures Distinct(EdgesFrom(succs, b, t, i))
  {
    if i > 0 {
      EdgesFromDistinct(succs, b, t, i - 1);
      EdgeFromIff(succs, b, t, i - 1, (b, i - 1));
    }
  }

  lemma {:induction false} EdgeIntoIff(graph: seq<seq<nat>>, t: nat, n: nat, e: (nat, nat))
    requires n <= |graph|
    ensures e in EdgesInto(graph, t, n) <==> IsEdge(graph, e, t, n)
  {
    if n > 0 {
      EdgeIntoIff(graph, t, n - 1, e);
      EdgeFromIff(graph[n - 1], n - 1, t, |graph[n - 1]|, e);
      EdgeIntoStep(graph, t, n, e, EdgesInto(graph, t, n - 1), EdgesFrom(graph[n - 1], n - 1, t, |graph[n - 1]|));
    }
  }

  lemma EdgeIntoStep(graph: seq<seq<nat>>, t: nat, n: nat, e: (nat, nat), front: seq<(nat, nat)>, back: seq<(nat, nat)>)
    requires 0 < n <= |graph|
    requires e in front <==> IsEdge(graph, e, t, n - 1)
    requires e in back <==> FromBlock(graph[n - 1], n - 1, e, t, |graph[n - 1]|)
    ensures e in front + back <==> IsEdge(graph, e, t, n)
  {
    InAppend(front, back, e);
  }

  lemma {:induction false} EdgesIntoDistinct(graph: seq<seq<nat>>, t: nat, n: nat)
    requires n <= |graph|
    ensures Distinct(EdgesInto(graph, t, n))
  {
    if n > 0 {
      EdgesIntoDistinct(graph, t, n - 1);
      var front, back := EdgesInto(graph, t, n - 1), EdgesFrom(graph[n - 1], n - 1, t, |graph[n - 1]|);
      EdgesFromDistinct(graph[n - 1], n - 1, t, |graph[n - 1]|);
      forall e | e in front ensures e !in back {
        EdgeIntoIff(graph, t, n - 1, e);
        EdgeFromIff(graph[n - 1], n - 1, t, |graph[n - 1]|, e);
      }
      AppendDistinct(front, back);
    }
  }

  lemma PredecessorIff(body: Body, t: nat, e: (nat, nat))
    ensures e in Predecessors(body, t) <==> Edge(body, e.0, e.1, t)
  {
    EdgeIntoIff(Graph(body), t, |body.blocks|, e);
  }

  lemma AppendDistinct<T>(a: seq<T>, b: seq<T>)
    requires Distinct(a) && Distinct(b) && forall x :: x in a ==> x !in b
    ensures Distinct(a + b) && forall x :: x in a + b <==> x in a || x in b
  {
    var all := a + b;
    forall i, j | 0 <= i < j < |all| ensures all[i] != all[j] {
      if i < |a| <= j { assert a[i] in a && b[j - |a|] in b; }
    }
  }

  /** The entry of the function counts as an edge into the start block. */
  predicate IsJoin(body: Body, t: nat) {
    |Predecessors(body, t)| > (if t == 0 then 0 else 1)
  }

  lemma JoinMeaning(body: Body, t: nat)
    ensures IsJoin(body, t) <==> IsJoinPoint(body, t)
  {
    if IsJoin(body, t) {
      CountedIsJoin(body, t);
    }
    if IsJoinPoint(body, t) {
      JoinIsCounted(body, t);
    }
  }

  lemma CountedIsJoin(body: Body, t: nat)
    requires IsJoin(body, t)
    ensures IsJoinPoint(body, t)
  {
    var preds := Predecessors(body, t);
    var e1 := preds[0];
    PredecessorIff(body, t, e1);
    if t != 0 {
      var e2 := preds[1];
      PredecessorIff(body, t, e2);
      EdgesIntoDistinct(Graph(body), t, |body.blocks|);
      assert TwoEdges(body, e1.0, e1.1, e2.0, e2.1, t);
    }
  }

  lemma TwoMembers<T>(xs: seq<T>, x: T, y: T)
    requires x in xs && y in xs && x != y
    ensures |xs| > 1
  {
  }

  lemma JoinIsCounted(body: Body, t: nat)
    requires IsJoinPoint(body, t)
    ensures IsJoin(body, t)
  {
    if b1: nat, i1: nat, b2: nat, i2: nat :| TwoEdges(body, b1, i1, b2, i2, t) {
      EdgeCounted(body, t, b1, i1);
      EdgeCounted(body, t, b2, i2);
      TwoMembers(Predecessors(body, t), (b1, i1), (b2, i2));
    } else {
      var b: nat, i: nat :| Edge(body, b, i, t);
      EdgeCounted(body, t, b, i);
    }
  }

  lemma EdgeCounted(body: Body, t: nat, b: nat, i: nat)
    requires Edge(body, b, i, t)
    ensures (b, i) in Predecessors(body, t)
  {
    PredecessorIff(body, t, (b, i));
  }

  // ----- reachability -----

  ghost predicate Path(body: Body, p: seq<nat>) {
    && p != [] && p[0] == 0
    && forall k :: 0 <= k < |p| - 1 ==> Steps(body, p[k], p[k + 1])
  }

  ghost predicate Steps(body: Body, b: nat, t: nat) {
    exists i: nat :: Edge(body, b, i, t)
  }

  ghost predicate Reachable(body: Body, t: nat) {
    exists p: seq<nat> :: Path(body, p) && p[|p| - 1] == t
  }

  lemma StartReachable(body: Body)
    ensures Reachable(body, 0)
  {
    var p: seq<nat> := [0];
    assert Path(body, p) && p[|p| - 1] == 0;
  }

  lemma EdgeReachable(body: Body, b: nat, i: nat, t: nat)
    requires Reachable(body, b) && Edge(body, b, i, t)
    ensures Reachable(body, t)
  {
    var p: seq<nat> :| Path(body, p) && p[|p| - 1] == b;
    var q := p + [t];
    assert Steps(body, b, t);
    assert Path(body, q) && q[|q| - 1] == t;
  }

  /** What holds of the start and is kept by edges holds of every reachable block. */
  lemma {:induction false} AlongPath(body: Body, p: seq<nat>, s: set<nat>)
    requires Path(body, p) && 0 in s
    requires forall b: nat, i: nat, t: nat :: b in s && Edge(body, b, i, t) ==> t in s
    ensures p[|p| - 1] in s
  {
    if |p| > 1 {
      var q := p[..|p| - 1];
      AlongPath(body, q, s);
      assert Steps(body, p[|p| - 2], p[|p| - 1]);
    }
  }

  /** A reverse postorder: the reachable blocks, each but the start after one of its predecessors. */
  ghost predicate IsOrder(body: Body, rpo: seq<nat>) {
    && (forall t: nat :: t in rpo <==> Reachable(body, t))
    && forall k :: 0 <= k < |rpo| && rpo[k] != 0 ==> HasEarlier(body, rpo, k)
  }

  ghost predicate HasEarlier(body: Body, rpo: seq<nat>, k: nat)
    requires k < |rpo|
  {
    exists j: nat :: j < k && Steps(body, rpo[j], rpo[k])
  }

  // ----- the state of a traversal -----

  /** `log` is the sequence of the blocks whose bodies have been checked. */
  datatype Trace = Trace(visited: set<nat>, envs: set<nat>, log: seq<nat>)

  /** Control has reached the block: it has been checked or, at a join point, has an environment. */
  ghost predicate Reached(body: Body, s: Trace, t: nat) {
    if IsJoinPoint(body, t) then t in s.envs else t in s.visited
  }

  /** Control has reached all the successors of the block. */
  ghost predicate Handled(body: Body, s: Trace, b: nat) {
    forall i: nat, t: nat :: Edge(body, b, i, t) ==> Reached(body, s, t)
  }

  ghost predicate Inv(body: Body, s: Trace) {
    && Closed(body, s.visited)
    && (forall b :: b in s.visited ==> b < |body.blocks| && Reachable(body, b))
    && (forall t :: t in s.envs ==> IsJoinPoint(body, t) && Reachable(body, t))
    && Distinct(s.log) && forall b :: b in s.log <==> b in s.visited
  }

  ghost predicate Grown(s: Trace, s': Trace) {
    s.visited <= s'.visited && s.envs <= s'.envs && s.log <= s'.log
  }

  /** The blocks visited in between have been handled. */
  ghost predicate Finished(body: Body, s: Trace, s': Trace) {
    forall b :: b in s'.visited - s.visited ==> Handled(body, s', b)
  }

  lemma HandledLater(body: Body, s: Trace, s': Trace, b: nat)
    requires Handled(body, s, b) && Grown(s, s')
    ensures Handled(body, s', b)
  {
    forall i: nat, t: nat | Edge(body, b, i, t) ensures Reached(body, s', t) {
      assert Reached(body, s, t);
    }
  }

  /** Control has reached the start, and all the successors of every visited block. */
  ghost predicate Settled(body: Body, s: Trace) {
    Reached(body, s, 0) && forall b :: b in s.visited ==> Handled(body, s, b)
  }

  lemma FinishedTrans(body: Body, s: Trace, s1: Trace, s': Trace)
    requires Grown(s, s1) && Grown(s1, s') && Finished(body, s, s1) && Finished(body, s1, s')
    ensures Grown(s, s') && Finished(body, s, s')
  {
    forall b | b in s'.visited - s.visited ensures Handled(body, s', b) {
      if b in s1.visited { HandledLater(body, s1, s', b); }
    }
  }

  /** With every listed block checked and handled, control has reached exactly the reachable blocks. */
  lemma AllReached(body: Body, s: Trace)
    requires WellTargeted(body) && Inv(body, s) && Settled(body, s)
    requires s.envs <= s.visited
    ensures forall t: nat :: t in s.visited <==> Reachable(body, t)
    ensures forall t: nat :: t in s.envs <==> Reachable(body, t) && IsJoinPoint(body, t)
  {
    forall t: nat | Reachable(body, t) ensures Reached(body, s, t) && t in s.visited {
      ReachedAt(body, s, t);
    }
  }

  lemma ReachedAt(body: Body, s: Trace, t: nat)
    requires Settled(body, s) && Reachable(body, t) && s.envs <= s.visited
    ensures Reached(body, s, t) && t in s.visited
  {
    var p: seq<nat> :| Path(body, p) && p[|p| - 1] == t;
    forall b: nat, i: nat, x: nat | b in s.visited && Edge(body, b, i, x) ensures x in s.visited {
      assert Handled(body, s, b) && Reached(body, s, x);
    }
    AlongPath(body, p, s.visited);
    if t != 0 {
      AlongPath(body, p[..|p| - 1], s.visited);
      assert Steps(body, p[|p| - 2], t);
      assert Handled(body, s, p[|p| - 2]);
    }
  }

  predicate Listed(rpo: seq<nat>, k: nat, visited: set<nat>) {
    k <= |rpo| && forall j :: 0 <= j < k ==> rpo[j] in visited
  }

  /** The next listed block has been reached, once the blocks before it are handled. */
  lemma NextReached(body: Body, s: Trace, rpo: seq<nat>, k: nat)
    requires IsOrder(body, rpo) && k < |rpo| && Settled(body, s) && Listed(rpo, k, s.visited)
    ensures Reached(body, s, rpo[k])
  {
    if rpo[k] != 0 {
      assert HasEarlier(body, rpo, k);
      var j: nat :| j < k && Steps(body, rpo[j], rpo[k]);
      var i: nat :| Edge(body, rpo[j], i, rpo[k]);
      assert Handled(body, s, rpo[j]);
    }
  }

  // ----- the traversal -----

  /** Reported: checking a call has reported an error, which ends the traversal.  Panicked: an
      environment or a shape was missing. */
  datatype Outcome = Done | Reported | Panicked

  datatype Mode = Inference | Check(shapes: set<nat>)

  /** The block ends in a call that reports an error. */
  predicate CallFails(body: Body, reports: set<nat>, b: nat) {
    b < |body.blocks| && body.blocks[b].terminator.Some? && body.blocks[b].terminator.value.Call? && b in reports
  }

  class Traversal {
    const body: Body
    /** The blocks whose call is going to report an error. */
    const reports: set<nat>
    ghost const given: set<nat>
    var visited: set<nat>
    var bbEnvs: set<nat>
    var mode: Mode
    ghost var log: seq<nat>

    predicate Fails(b: nat) {
      CallFails(body, reports, b)
    }

    /** The traversal stops exactly at a failing block. */
    ghost predicate StopsAt(r: Outcome, v0: set<nat>, v1: set<nat>) {
      && (r == Done ==> forall b :: b in v1 && b !in v0 ==> !Fails(b))
      && (r == Reported ==> exists b :: b in v1 && Fails(b))
    }

    ghost function State(): Trace
      reads this
    {
      Trace(visited, bbEnvs, log)
    }

    /** In `Check` mode the shapes left are those of the join points that have no environment yet. */
    ghost predicate ShapesLeft()
      reads this
    {
      mode.Check? ==>
        && mode.shapes == given - bbEnvs
        && forall t: nat :: Reachable(body, t) && IsJoinPoint(body, t) ==> t in given
    }

    ghost predicate Valid()
      reads this
    {
      WellTargeted(body) && Inv(body, State()) && ShapesLeft()
    }

    constructor (body: Body, reports: set<nat>, mode: Mode)
      requires WellTargeted(body)
      requires mode.Check? ==> forall t: nat :: Reachable(body, t) && IsJoinPoint(body, t) ==> t in mode.shapes
      ensures Valid() && this.body == body && this.reports == reports && State() == Trace({}, {}, []) &&
              this.mode == mode
      ensures mode.Check? ==> given == mode.shapes
    {
      this.body, this.reports, this.mode := body, reports, mode;
      visited, bbEnvs, log := {}, {}, [];
      given := if mode.Check? then mode.shapes else {};
    }

    method Run(rpo: seq<nat>) returns (r: Outcome)
      requires Valid() && State() == Trace({}, {}, []) && IsOrder(body, rpo)
      modifies this
      ensures Valid() && r != Panicked && (mode.Check? <==> old(mode.Check?))
      ensures Distinct(log) && forall b :: b in log ==> Reachable(body, b)
      ensures r == Done <==> forall t: nat :: Reachable(body, t) ==> !Fails(t)
      ensures r == Done ==> forall t: nat :: t in log <==> Reachable(body, t)
      ensures r == Done ==> forall t: nat :: t in bbEnvs <==> Reachable(body, t) && IsJoinPoint(body, t)
    {
      StartReachable(body);
      r := CheckGoto(0);
      var k := 0;
      while r == Done && k < |rpo|
        invariant k <= |rpo| && Valid() && r != Panicked && (mode.Check? <==> old(mode.Check?))
        invariant r == Done ==> Settled(body, State()) && Listed(rpo, k, visited)
        invariant StopsAt(r, {}, visited)
      {
        r := CheckListed(rpo, k);
        k := k + 1;
      }
      if r == Done {
        forall t | t in bbEnvs ensures t in visited {
          assert t in rpo;
        }
        AllReached(body, State());
      }
    }

    /** The next block of the order, unless it has been visited already. */
    method CheckListed(rpo: seq<nat>, k: nat) returns (r: Outcome)
      requires Valid() && IsOrder(body, rpo) && k < |rpo| && Settled(body, State()) && Listed(rpo, k, visited)
      modifies this
      ensures Valid() && r != Panicked && (mode.Check? <==> old(mode.Check?))
      ensures r == Done ==> Settled(body, State()) && Listed(rpo, k + 1, visited)
      ensures old(visited) <= visited && StopsAt(r, old(visited), visited)
    {
      var bb := rpo[k];
      NextReached(body, State(), rpo, k);
      if bb in visited {
        return Done;
      }
      if bb !in bbEnvs {
        return Panicked;
      }
      ghost var s := State();
      ReachableIsBlock(body, bb);
      r := CheckBasicBlock(bb);
      if r == Done {
        SettledLater(body, s, State());
      }
    }

    method CheckBasicBlock(bb: nat) returns (r: Outcome)
      requires Valid() && Enterable(body, visited, bb) && Reachable(body, bb)
      modifies this
      ensures Valid() && Grown(old(State()), State()) && (mode.Check? <==> old(mode.Check?))
      ensures r != Panicked && bb in visited && DescendsFrom(body, bb, visited - old(visited))
      ensures StopsAt(r, old(visited), visited)
      ensures r == Done ==> Finished(body, old(State()), State())
      decreases Blocks(|body.blocks|) - visited, 1
    {
      ghost var s0 := State();
      SuccessorsAhead(body, visited, bb);
      visited := visited + {bb};
      log := log + [bb];
      ghost var s1 := State();
      match body.blocks[bb].terminator {
        case None => r := Done;
        case Some(t) => r := CheckTerminator(bb, t);
      }
      FromBelow(body, bb, s0.visited, visited);
      if r == Done {
        forall b | b in visited - s0.visited ensures Handled(body, State(), b) {
          if b != bb { assert b in visited - s1.visited; }
        }
      }
    }

    method CheckTerminator(bb: nat, t: Terminator) returns (r: Outcome)
      requires Valid() && Visiting(body, visited, bb) && body.blocks[bb].terminator == Some(t) &&
               Ahead(body, visited, bb, 0)
      modifies this
      ensures Valid() && Grown(old(State()), State()) && (mode.Check? <==> old(mode.Check?))
      ensures r != Panicked && DescendsBelow(body, bb, visited - old(visited))
      ensures StopsAt(r, old(visited), visited) && (r == Done ==> !Fails(bb))
      ensures r == Done ==> Finished(body, old(State()), State()) && Handled(body, State(), bb)
      decreases Blocks(|body.blocks|) - visited, 4
    {
      ghost var s0 := State();
      match t {
        case Return =>
          r := Done;
        case Goto(target) =>
          r := CheckEdge(s0, bb, 0, target);
        case Drop(_, target) =>
          r := CheckEdge(s0, bb, 0, target);
        case Call(destination) =>
          if bb in reports {
            return Reported;
          }
          match destination {
            case None => r := Done;
            case Some(target) => r := CheckEdge(s0, bb, 0, target);
          }
        case SwitchInt(_, targets, otherwise) =>
          r := Done;
          var i := 0;
          while r == Done && i < |targets|
            invariant i <= |targets| && Between(s0, bb, i, r) && (mode.Check? <==> old(mode.Check?))
            decreases |targets| - i
          {
            assert Successors(body.blocks[bb])[i] == targets[i].1;
            r := CheckEdge(s0, bb, i, targets[i].1);
            i := i + 1;
          }
          if r == Done {
            r := CheckEdge(s0, bb, |targets|, otherwise);
          }
      }
    }

    /** The first `i` edges out of `bb` have been followed since `s0`. */
    ghost predicate Between(s0: Trace, bb: nat, i: nat, r: Outcome)
      reads this
    {
      && Valid() && Visiting(body, visited, bb) && Grown(s0, State()) && r != Panicked
      && DescendsBelow(body, bb, visited - s0.visited) && StopsAt(r, s0.visited, visited)
      && (r == Done ==>
            && Ahead(body, visited, bb, i) && Finished(body, s0, State())
            && forall j :: 0 <= j < i && j < |Successors(body.blocks[bb])| ==>
                 Reached(body, State(), Successors(body.blocks[bb])[j]))
    }

    method CheckEdge(ghost s0: Trace, bb: nat, i: nat, target: nat) returns (r: Outcome)
      requires Between(s0, bb, i, Done) && i < |Successors(body.blocks[bb])| && Successors(body.blocks[bb])[i] == target
      modifies this
      ensures Between(s0, bb, i + 1, r) && Grown(old(State()), State()) && (mode.Check? <==> old(mode.Check?))
      decreases Blocks(|body.blocks|) - visited, 3
    {
      ghost var s1 := State();
      assert Edge(body, bb, i, target);
      EdgeReachable(body, bb, i, target);
      if !IsJoinPoint(body, target) {
        EdgeEnterable(body, visited, bb, i);
      }
      r := CheckGoto(target);
      NextVisited(body, s0.visited, s1.visited, visited, bb, i);
      if r == Done {
        FinishedTrans(body, s0, s1, State());
        StillReached(body, s1, State(), bb, i);
      }
    }

    method CheckGoto(target: nat) returns (r: Outcome)
      requires Valid() && target < |body.blocks| && Reachable(body, target)
      requires !IsJoinPoint(body, target) ==> Enterable(body, visited, target)
      modifies this
      ensures Valid() && Grown(old(State()), State()) && (mode.Check? <==> old(mode.Check?))
      ensures r != Panicked && DescendsFrom(body, target, visited - old(visited))
      ensures StopsAt(r, old(visited), visited)
      ensures r == Done ==> Finished(body, old(State()), State()) && Reached(body, State(), target)
      decreases Blocks(|body.blocks|) - visited, 2
    {
      JoinMeaning(body, target);
      if IsJoin(body, target) {
        r := CheckGotoJoinPoint(target);
      } else {
        r := CheckBasicBlock(target);
      }
    }

    /** The first jump to a join point leaves an environment, in `Check` mode one of the inferred shape. */
    method CheckGotoJoinPoint(target: nat) returns (r: Outcome)
      requires Valid() && Reachable(body, target) && IsJoinPoint(body, target)
      modifies `bbEnvs, `mode
      ensures Valid() && r == Done && bbEnvs == old(bbEnvs) + {target} && (mode.Check? <==> old(mode.Check?))
    {
      if target !in bbEnvs {
        if mode.Check? {
          if target !in mode.shapes {
            return Panicked;
          }
          mode := Check(mode.shapes - {target});
        }
        bbEnvs := bbEnvs + {target};
      }
      r := Done;
    }
  }

  lemma SettledLater(body: Body, s: Trace, s': Trace)
    requires Grown(s, s') && Settled(body, s) && Finished(body, s, s')
    ensures Settled(body, s')
  {
    forall b | b in s'.visited ensures Handled(body, s', b) {
      if b in s.visited { HandledLater(body, s, s', b); }
    }
  }

  lemma StillReached(body: Body, s: Trace, s': Trace, bb: nat, i: nat)
    requires Grown(s, s') && bb < |body.blocks| && i < |Successors(body.blocks[bb])|
    requires forall j :: 0 <= j < i ==> Reached(body, s, Successors(body.blocks[bb])[j])
    requires Reached(body, s', Successors(body.blocks[bb])[i])
    ensures forall j :: 0 <= j < i + 1 ==> Reached(body, s', Successors(body.blocks[bb])[j])
  {
    forall j | 0 <= j < i + 1 ensures Reached(body, s', Successors(body.blocks[bb])[j]) {
      var t := Successors(body.blocks[bb])[j];
      assert j < i ==> Reached(body, s, t);
    }
  }

  lemma ReachableIsBlock(body: Body, t: nat)
    requires WellTargeted(body) && Reachable(body, t)
    ensures t < |body.blocks|
  {
    var p: seq<nat> :| Path(body, p) && p[|p| - 1] == t;
    if |p| > 1 {
      assert Steps(body, p[|p| - 2], p[|p| - 1]);
    }
  }

  /** Checking after inference: the shapes that inference leaves are those that checking needs.  The calls
      that report an error may differ between the passes. */
  method InferThenCheck(body: Body, rpo: seq<nat>, inferReports: set<nat>, checkReports: set<nat>)
    returns (r: Outcome, ghost inferred: seq<nat>, ghost checked: seq<nat>)
    requires WellTargeted(body) && IsOrder(body, rpo)
    ensures r != Panicked && Distinct(inferred) && Distinct(checked)
    ensures r == Done <==>
            forall t: nat :: Reachable(body, t) ==>
                !CallFails(body, inferReports, t) && !CallFails(body, checkReports, t)
    ensures r == Done ==> forall t: nat ::
              (t in inferred <==> Reachable(body, t)) && (t in checked <==> Reachable(body, t))
  {
    checked := [];
    var inference := new Traversal(body, inferReports, Inference);
    r := inference.Run(rpo);
    inferred := inference.log;
    if r == Done {
      var check := new Traversal(body, checkReports, Check(inference.bbEnvs));
      r := check.Run(rpo);
      checked := check.log;
    }
  }
}
