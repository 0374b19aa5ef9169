/** Typing environments as values: bindings of locations, the stores they describe, and the
    levels of strong references. */
module Environment {
  import opened Logic
  import opened Tree
  import opened Types
  import opened Position
  import opened Subtyping

  datatype Binding = Strong(sty: Ty) | Weak(bound: Ty, wty: Ty)

  type Bindings = map<Loc, Binding>

  function BindingTy(b: Binding): Ty {
    match b
    case Strong(ty) => ty
    case Weak(_, ty) => ty
  }

  /** Every location holds a value of its type. */
  ghost predicate Describes(bs: Bindings, st: Store, env: Env, k: Interp, tcx: Variances) {
    forall loc :: loc in bs ==> loc in st && In(st[loc], BindingTy(bs[loc]), env, k, tcx, st)
  }

  ghost predicate WfBindings(bs: Bindings, g: Scope, kvars: seq<seq<Sort>>) {
    forall loc :: loc in bs ==>
      WfTy(BindingTy(bs[loc]), g, kvars) && (bs[loc].Weak? ==> WfTy(bs[loc].bound, g, kvars))
  }

  lemma WfInsert(bs: Bindings, loc: Loc, ty: Ty, g: Scope, kvars: seq<seq<Sort>>)
    requires WfBindings(bs, g, kvars) && WfTy(ty, g, kvars)
    ensures WfBindings(bs[loc := Strong(ty)], g, kvars)
  {
  }

  ghost predicate RefFreeBindings(bs: Bindings) {
    forall loc :: loc in bs ==> bs[loc].Strong? && RefFree(bs[loc].sty)
  }

  lemma WfBindingsExtends(bs: Bindings, g0: Scope, g1: Scope, kvars0: seq<seq<Sort>>, kvars1: seq<seq<Sort>>)
    requires WfBindings(bs, g0, kvars0) && Extends(g0, g1) && kvars0 <= kvars1
    ensures WfBindings(bs, g1, kvars1)
  {
    forall loc | loc in bs
      ensures WfTy(BindingTy(bs[loc]), g1, kvars1) && (bs[loc].Weak? ==> WfTy(bs[loc].bound, g1, kvars1))
    {
      WfTyExtends(BindingTy(bs[loc]), g0, g1, kvars0, kvars1);
      if bs[loc].Weak? {
        WfTyExtends(bs[loc].bound, g0, g1, kvars0, kvars1);
      }
    }
  }

  // ----- places -----

  /** Types over which a place may be written. */
  predicate Writable(ty: Ty) {
    !ty.Ref? && !ty.Exists?
  }

  /** The location reached from `loc` by following `n` strong references. */
  function Walk(bs: Bindings, loc: Loc, n: nat): Option<Loc>
    decreases n
  {
    if loc !in bs then None
    else if n == 0 then Some(loc)
    else
      match BindingTy(bs[loc])
      case StrgRef(referee) => Walk(bs, referee, n - 1)
      case _ => None
  }

  /** Bound locations, each but the last a strong reference to the next. */
  ghost predicate Chain(bs: Bindings, path: seq<Loc>) {
    path != [] && forall i :: 0 <= i < |path| ==> LinkAt(bs, path, i)
  }

  ghost predicate LinkAt(bs: Bindings, path: seq<Loc>, i: nat)
    requires i < |path|
  {
    path[i] in bs && (i + 1 < |path| ==> BindingTy(bs[path[i]]) == StrgRef(path[i + 1]))
  }

  lemma {:induction false} WalkOfChain(bs: Bindings, path: seq<Loc>)
    requires Chain(bs, path)
    ensures Walk(bs, path[0], |path| - 1) == Some(path[|path| - 1])
    decreases |path|
  {
    assert LinkAt(bs, path, 0);
    if |path| > 1 {
      var rest := path[1..];
      forall i | 0 <= i < |rest| ensures LinkAt(bs, rest, i) { assert LinkAt(bs, path, i + 1); }
      WalkOfChain(bs, rest);
    }
  }

  lemma {:induction false} ChainOfWalk(bs: Bindings, loc: Loc, n: nat) returns (path: seq<Loc>)
    requires Walk(bs, loc, n).Some?
    ensures Chain(bs, path) && |path| == n + 1 && path[0] == loc
    decreases n
  {
    if n == 0 {
      path := [loc];
    } else {
      var rest := ChainOfWalk(bs, BindingTy(bs[loc]).loc, n - 1);
      path := [loc] + rest;
      forall i | 0 <= i < |path| ensures LinkAt(bs, path, i) {
        if i > 0 { assert LinkAt(bs, rest, i - 1); }
      }
    }
  }

  /** A place leads somewhere exactly when there is a chain of as many references as it has dereferences. */
  lemma WalkIff(bs: Bindings, loc: Loc, n: nat, end: Loc)
    ensures Walk(bs, loc, n) == Some(end) <==>
            exists path :: Chain(bs, path) && |path| == n + 1 && path[0] == loc && path[n] == end
  {
    if Walk(bs, loc, n).Some? {
      var path := ChainOfWalk(bs, loc, n);
      WalkOfChain(bs, path);
    }
    forall path | Chain(bs, path) && |path| == n + 1 && path[0] == loc ensures Walk(bs, loc, n) == Some(path[n]) {
      WalkOfChain(bs, path);
    }
  }

  /** The same walk over the values in memory. */
  function WalkStore(st: Store, loc: Loc, n: nat): Option<Loc>
    decreases n
  {
    if loc !in st then None
    else if n == 0 then Some(loc)
    else
      match st[loc]
      case Pointer(referee) => WalkStore(st, referee, n - 1)
      case _ => None
  }

  /** Strong references are exact: types and memory lead to the same location. */
  lemma {:induction false} WalkSound(bs: Bindings, st: Store, loc: Loc, n: nat, env: Env, k: Interp, tcx: Variances)
    requires Describes(bs, st, env, k, tcx) && Walk(bs, loc, n).Some?
    ensures WalkStore(st, loc, n) == Walk(bs, loc, n) && Walk(bs, loc, n).value in bs
    decreases n
  {
    if n > 0 {
      WalkSound(bs, st, BindingTy(bs[loc]).loc, n - 1, env, k, tcx);
    }
  }

  /** Writing to a location of a reference-free environment changes the type of that location
      and disturbs no other, whatever references point to it. */
  lemma StrongUpdate(bs: Bindings, st: Store, loc: Loc, v: Val, ty: Ty, env: Env, k: Interp, tcx: Variances)
    requires RefFreeBindings(bs) && RefFree(ty) && Describes(bs, st, env, k, tcx)
    requires In(v, ty, env, k, tcx, st)
    ensures Describes(bs[loc := Strong(ty)], st[loc := v], env, k, tcx)
  {
    var bs', st' := bs[loc := Strong(ty)], st[loc := v];
    forall l | l in bs' ensures l in st' && In(st'[l], BindingTy(bs'[l]), env, k, tcx, st') {
      InStore(st'[l], BindingTy(bs'[l]), env, k, tcx, st, st');
    }
  }

  // ----- levels -----

  /** References lead to bound locations and the rank decreases along them. */
  ghost predicate Acyclic(bs: Bindings, rank: map<Loc, nat>) {
    forall loc :: loc in bs ==>
      && loc in rank
      && (BindingTy(bs[loc]).StrgRef? ==>
            var r := BindingTy(bs[loc]).loc; r in bs && r in rank && rank[r] < rank[loc])
  }

  /** The level of a location: zero, or one more than that of the location it refers to. */
  ghost predicate IsLevels(levels: map<Loc, nat>, bs: Bindings) {
    && levels.Keys == bs.Keys
    && forall loc :: loc in bs ==> LevelAt(levels, bs, loc)
  }

  ghost predicate LevelAt(levels: map<Loc, nat>, bs: Bindings, loc: Loc)
    requires loc in bs && loc in levels
  {
    match BindingTy(bs[loc])
    case StrgRef(r) => r in levels && levels[loc] == levels[r] + 1
    case _ => levels[loc] == 0
  }

  /** Levels are determined by the environment, so the order in which they are computed is immaterial. */
  lemma LevelsUnique(bs: Bindings, levels1: map<Loc, nat>, levels2: map<Loc, nat>)
    requires IsLevels(levels1, bs) && IsLevels(levels2, bs)
    ensures levels1 == levels2
  {
    forall loc | loc in bs ensures levels1[loc] == levels2[loc] {
      LevelUnique(bs, levels1, levels2, loc);
    }
  }

  lemma {:induction false} LevelUnique(bs: Bindings, levels1: map<Loc, nat>, levels2: map<Loc, nat>, loc: Loc)
    requires IsLevels(levels1, bs) && IsLevels(levels2, bs) && loc in bs
    ensures levels1[loc] == levels2[loc]
    decreases levels1[loc]
  {
    assert LevelAt(levels1, bs, loc) && LevelAt(levels2, bs, loc);
    if BindingTy(bs[loc]).StrgRef? {
      LevelUnique(bs, levels1, levels2, BindingTy(bs[loc]).loc);
    }
  }

  /** They exist exactly for closed environments without reference cycles. */
  lemma LevelsAreRanks(bs: Bindings, levels: map<Loc, nat>)
    requires IsLevels(levels, bs)
    ensures Acyclic(bs, levels)
  {
    forall loc | loc in bs
      ensures BindingTy(bs[loc]).StrgRef? ==>
                BindingTy(bs[loc]).loc in bs && levels[BindingTy(bs[loc]).loc] < levels[loc]
    {
      assert LevelAt(levels, bs, loc);
    }
  }

  // ----- weakening and the target of a jump -----

  /** Drop the locations the other environment does not have; forget what it does not initialize. */
  function Weakened(bs: Bindings, other: Bindings): Bindings {
    map loc | loc in bs && loc in other ::
      if BindingTy(other[loc]).Uninit? then Strong(Uninit) else bs[loc]
  }

  lemma WeakenedDescribes(bs: Bindings, other: Bindings, st: Store, env: Env, k: Interp, tcx: Variances)
    requires Describes(bs, st, env, k, tcx)
    ensures Describes(Weakened(bs, other), st, env, k, tcx)
  {
  }

  /** The obligations in `s1` imply that a store described by `b0` is described by `b1`. */
  ghost predicate Weakens(s0: State, p: Pos, s1: State, b0: Bindings, b1: Bindings, tcx: Variances)
    requires At(s0, p)
  {
    forall k: Interp, env: Env, st: Store |
      Holds(s1.root, map[], k) && Reach(s0.root, p.node, map[], env, k) && Describes(b0, st, env, k, tcx) ::
        Describes(b1, st, env, k, tcx)
  }

  /** One more step: from `b1` to `b2`, with obligations added between `s1` and `s2`. */
  lemma WeakensStep(s0: State, s1: State, p: Pos, s2: State, b0: Bindings, b1: Bindings, b2: Bindings, tcx: Variances)
    requires At(s0, p) && At(s1, p) && Keeps(s0, s1, p) && Keeps(s1, s2, p)
    requires Weakens(s0, p, s1, b0, b1, tcx) && Weakens(s1, p, s2, b1, b2, tcx)
    ensures Weakens(s0, p, s2, b0, b2, tcx)
  {
    forall k: Interp, env: Env, st: Store |
      Holds(s2.root, map[], k) && Reach(s0.root, p.node, map[], env, k) && Describes(b0, st, env, k, tcx)
      ensures Describes(b2, st, env, k, tcx)
    {
      GrowsHolds(s1.root, s2.root, map[], k);
      KeepsReach(s0, s1, p, env, k);
    }
  }

  /** Replacing the type of a location by a larger one. */
  lemma WeakensBySubtyping(s0: State, p: Pos, s1: State, b: Bindings, loc: Loc, ty: Ty, tcx: Variances)
    requires At(s0, p) && loc in b && Entails(s0, p, s1, BindingTy(b[loc]), ty, tcx)
    ensures Weakens(s0, p, s1, b, b[loc := Strong(ty)], tcx)
  {
    forall k: Interp, env: Env, st: Store |
      Holds(s1.root, map[], k) && Reach(s0.root, p.node, map[], env, k) && Describes(b, st, env, k, tcx)
      ensures Describes(b[loc := Strong(ty)], st, env, k, tcx)
    {
      assert Contained(BindingTy(b[loc]), ty, env, k, tcx);
    }
  }
}
