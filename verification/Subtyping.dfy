/** The steps of a subtyping comparison: opening an existential type and pushing the goal of an index. */
module Subtyping {
  import opened Logic
  import opened Tree
  import opened Types
  import opened Position

  function FreeVar(x: Name): Expr {
    Var(Free(x))
  }

  /** The state after unpacking `{v: b | p}` with the next fresh name. */
  function UnpackState(s: State, p: Pos, b: BaseTy, pred: Pred): State
    requires At(s, p)
  {
    PushForallState(s.(gen := s.gen + 1), p, s.gen, SortOfBase(b), SubstPred(pred, FreeVar(s.gen)))
  }

  lemma {:induction false} NamesInScope(e: Expr, g: Scope, nu: Option<Sort>)
    requires SortOf(e, g, nu).Some?
    ensures forall x :: x in FreeNames(e) ==> x in g
  {
    match e
    case Var(_) =>
    case Constant(_) =>
    case BinaryOp(_, e1, e2) =>
      NamesInScope(e1, g, nu);
      NamesInScope(e2, g, nu);
    case UnaryOp(_, e1) =>
      NamesInScope(e1, g, nu);
  }

  /** The predicate of the binder: well-sorted, with the binder only as an argument of its own. */
  lemma UnpackedPred(b: BaseTy, pred: Pred, g: Scope, kvars: seq<seq<Sort>>, x: Name)
    requires WfTy(Exists(b, pred), g, kvars) && x !in g
    ensures WfPred(SubstPred(pred, FreeVar(x)), g[x := SortOfBase(b)], None, kvars)
    ensures OwnBinderFree(x, SubstPred(pred, FreeVar(x)))
  {
    var sort := SortOfBase(b);
    var g1 := g[x := sort];
    WfPredExtends(pred, g, g1, Some(sort), kvars, kvars);
    WfSubst(pred, FreeVar(x), g1, None, kvars);
    if pred.KVar? {
      forall i | 0 <= i < |pred.args|
        ensures IsFreeVar(Subst(pred.args[i], FreeVar(x))) || x !in FreeNames(Subst(pred.args[i], FreeVar(x)))
      {
        if pred.args[i] != Var(Bound) {
          SubstNoBound(pred.args[i], FreeVar(x));
          NamesInScope(pred.args[i], g, Some(sort));
        }
      }
    }
  }

  lemma UnpackBindable(s: State, p: Pos, b: BaseTy, pred: Pred)
    requires Wf(s, p) && WfTy(Exists(b, pred), ScopeOf(s, p), s.kvars)
    ensures Bindable(s, p, SortOfBase(b), SubstPred(pred, FreeVar(s.gen)))
  {
    UnpackedPred(b, pred, ScopeOf(s, p), s.kvars, s.gen);
  }

  lemma UnpackWf(s: State, p: Pos, b: BaseTy, pred: Pred)
    requires Wf(s, p) && WfTy(Exists(b, pred), ScopeOf(s, p), s.kvars)
    ensures var s1 := UnpackState(s, p, b, pred);
            && Wf(s1, PushForallPos(s, p))
            && ScopeOf(s1, PushForallPos(s, p)) == ScopeOf(s, p)[s.gen := SortOfBase(b)]
            && Extends(ScopeOf(s, p), ScopeOf(s1, PushForallPos(s, p)))
  {
    UnpackBindable(s, p, b, pred);
    BindFreshWf(s, p, SortOfBase(b), SubstPred(pred, FreeVar(s.gen)));
  }

  lemma UnpackKeeps(s: State, p: Pos, b: BaseTy, pred: Pred)
    requires Wf(s, p) && WfTy(Exists(b, pred), ScopeOf(s, p), s.kvars)
    ensures Wf(UnpackState(s, p, b, pred), p) && Keeps(s, UnpackState(s, p, b, pred), p)
  {
    UnpackBindable(s, p, b, pred);
    BindFreshKeeps(s, p, SortOfBase(b), SubstPred(pred, FreeVar(s.gen)));
  }

  /** A member of the existential type opens the binder: with its index as the value of the
      fresh name, the new position is reached. */
  lemma UnpackReach(s: State, p: Pos, b: BaseTy, pred: Pred, env: Env, idx: Value, k: Interp)
    requires Wf(s, p) && WfTy(Exists(b, pred), ScopeOf(s, p), s.kvars)
    requires Reach(s.root, p.node, map[], env, k)
    requires SortOfValue(idx) == SortOfBase(b) && HoldsPred(pred, env, Some(idx), k)
    ensures At(UnpackState(s, p, b, pred), PushForallPos(s, p))
    ensures Reach(UnpackState(s, p, b, pred).root, PushForallPos(s, p).node, map[], env[s.gen := idx], k)
  {
    UnpackWf(s, p, b, pred);
    var g, x, sort := ScopeOf(s, p), s.gen, SortOfBase(b);
    var env1 := env[x := idx];
    ReachScope(s, p, env, k);
    assert Agree(g, env, env1);
    PredAgree(pred, g, Some(sort), s.kvars, env, env1, Some(idx), k);
    SubstHolds(pred, FreeVar(x), env1, None, k);
    var m := ForAll(x, sort, SubstPred(pred, FreeVar(x)), []);
    assert Enter(m, env, env1, k);
    PushReach(s.root, p.node, m, map[], env, env1, k);
  }

  /** The other way around: what reaches the new position comes from a value of the type. */
  lemma UnpackReachInv(s: State, p: Pos, b: BaseTy, pred: Pred, env1: Env, k: Interp) returns (env: Env)
    requires Wf(s, p) && WfTy(Exists(b, pred), ScopeOf(s, p), s.kvars)
    requires At(UnpackState(s, p, b, pred), PushForallPos(s, p))
    requires Reach(UnpackState(s, p, b, pred).root, PushForallPos(s, p).node, map[], env1, k)
    ensures Reach(s.root, p.node, map[], env, k)
    ensures s.gen in env1 && env1 == env[s.gen := env1[s.gen]] && SortOfValue(env1[s.gen]) == SortOfBase(b)
    ensures HoldsPred(pred, env, Some(env1[s.gen]), k)
    ensures Agree(ScopeOf(s, p), env, env1)
  {
    var g, x, sort := ScopeOf(s, p), s.gen, SortOfBase(b);
    var m := ForAll(x, sort, SubstPred(pred, FreeVar(x)), []);
    env := PushReachInv(s.root, p.node, m, map[], env1, k);
    ReachScope(s, p, env, k);
    assert Agree(g, env, env1);
    SubstHolds(pred, FreeVar(x), env1, None, k);
    PredAgree(pred, g, Some(sort), s.kvars, env, env1, Some(env1[x]), k);
  }

  /** The binder itself obliges to nothing. */
  lemma UnpackHolds(s: State, p: Pos, b: BaseTy, pred: Pred, k: Interp)
    requires At(s, p)
    ensures Holds(UnpackState(s, p, b, pred).root, map[], k) <==> Holds(s.root, map[], k)
  {
    var m := ForAll(s.gen, SortOfBase(b), SubstPred(pred, FreeVar(s.gen)), []);
    PushMeaning(s.root, p.node, m, map[], k);
    forall env: Env ensures Holds(m, env, k) {
      assert forall env1: Env | Enter(m, env, env1, k) :: HoldsAll(m.children, env1, k);
    }
  }

  // ----- the goal pushed for an indexed type -----

  /** The predicate an index must satisfy to be of the second type. */
  function Goal(e: Expr, t2: Ty): Pred
    requires t2.Refine? || t2.Exists?
  {
    if t2.Refine? then Pred.Expr(BinaryOp(Eq, e, t2.e)) else SubstPred(SubstPred(t2.p, e), e)
  }

  lemma GoalMeaning(e: Expr, t2: Ty, idx: Value, env: Env, k: Interp)
    requires t2.Refine? || t2.Exists?
    requires !HasBound(e) && Eval(e, env, None) == Some(idx)
    ensures HoldsPred(Goal(e, t2), env, None, k) <==>
            if t2.Refine? then Eval(t2.e, env, None) == Some(idx) else HoldsPred(t2.p, env, Some(idx), k)
  {
    if t2.Exists? {
      SubstPredTwice(t2.p, e);
      SubstHolds(t2.p, e, env, None, k);
    }
  }

  lemma GoalWf(e: Expr, t2: Ty, g: Scope, kvars: seq<seq<Sort>>)
    requires t2.Refine? || t2.Exists?
    requires SortOf(e, g, None) == Some(SortOfBase(t2.bty)) && WfTy(t2, g, kvars)
    ensures WfPred(Goal(e, t2), g, None, kvars)
  {
    if t2.Exists? {
      SortedHasNoBound(e, g);
      SubstPredTwice(t2.p, e);
      WfSubst(t2.p, e, g, None, kvars);
    }
  }

  /** Pushing a goal: the state afterwards.  A goal that is literally true is not pushed. */
  function GoalState(s: State, p: Pos, goal: Pred): State
    requires ValidPath(s.root, p.node)
  {
    if PredIsTrue(goal) then s else PushState(s, p, Head(goal))
  }

  lemma GoalStateMeaning(s: State, p: Pos, goal: Pred, k: Interp)
    requires At(s, p)
    ensures Holds(GoalState(s, p, goal).root, map[], k) <==>
            Holds(s.root, map[], k) && forall env: Env | Reach(s.root, p.node, map[], env, k) ::
                HoldsPred(goal, env, None, k)
  {
    if !PredIsTrue(goal) {
      PushMeaning(s.root, p.node, Head(goal), map[], k);
      assert forall env: Env :: Holds(Head(goal), env, k) <==> HoldsPred(goal, env, None, k);
    }
  }

  lemma GoalStateWf(s: State, p: Pos, goal: Pred)
    requires Wf(s, p) && WfPred(goal, ScopeOf(s, p), None, s.kvars)
    ensures Wf(GoalState(s, p, goal), p) && Keeps(s, GoalState(s, p, goal), p)
    ensures ScopeOf(GoalState(s, p, goal), p) == ScopeOf(s, p)
  {
    KeepsRefl(s, p);
    if !PredIsTrue(goal) {
      PushWfState(s, p, Head(goal));
    }
  }

  predicate Scalar(b: BaseTy) {
    !b.Adt?
  }

  /** A scalar value with a given index. */
  lemma ScalarWitness(b: BaseTy, idx: Value, env: Env, k: Interp, tcx: Variances, st: Store) returns (v: Val)
    requires Scalar(b) && SortOfValue(idx) == SortOfBase(b)
    ensures InBase(v, b, env, k, tcx, st) && Index(v) == Some(idx)
  {
    v := if idx.IntVal? then Num(idx.n) else Truth(idx.b);
  }

  // ----- type arguments -----

  /** Containment of one pair of type arguments, in the direction of the variance. */
  ghost predicate ArgContained(variance: Variance, t1: Ty, t2: Ty, env: Env, k: Interp, tcx: Variances) {
    && ((variance.Covariant? || variance.Invariant?) ==> Contained(t1, t2, env, k, tcx))
    && ((variance.Contravariant? || variance.Invariant?) ==> Contained(t2, t1, env, k, tcx))
  }

  ghost predicate EntailsArg(s: State, p: Pos, s1: State, variance: Variance, t1: Ty, t2: Ty, tcx: Variances)
    requires At(s, p)
  {
    forall k: Interp, env: Env | Holds(s1.root, map[], k) && Reach(s.root, p.node, map[], env, k) ::
      ArgContained(variance, t1, t2, env, k, tcx)
  }

  lemma ArgsContained(did: nat, s1: seq<Ty>, s2: seq<Ty>, env: Env, k: Interp, tcx: Variances)
    requires |s1| == |s2|
    requires forall i | 0 <= i < |s1| && i < |tcx(did)| :: ArgContained(tcx(did)[i], s1[i], s2[i], env, k, tcx)
    ensures ContainedBase(Adt(did, s1), Adt(did, s2), env, k, tcx)
  {
    forall v: Val, st: Store | InBase(v, Adt(did, s1), env, k, tcx, st)
      ensures InBase(v, Adt(did, s2), env, k, tcx, st)
    {
      forall i, x | 0 <= i < |s2| && i < |tcx(did)|
        ensures (tcx(did)[i].Covariant? || tcx(did)[i].Invariant?) && x in v.gives[i] ==> In(x, s2[i], env, k, tcx, st)
        ensures (tcx(did)[i].Contravariant? || tcx(did)[i].Invariant?) && x in v.refuses[i] ==>
                  !In(x, s2[i], env, k, tcx, st)
      {
        assert ArgContained(tcx(did)[i], s1[i], s2[i], env, k, tcx);
      }
    }
  }

  /** Later growth keeps what has been established. */
  lemma EntailsLater(s: State, p: Pos, s1: State, s2: State, t1: Ty, t2: Ty, tcx: Variances)
    requires At(s, p) && Grows(s1.root, s2.root)
    requires Entails(s, p, s1, t1, t2, tcx)
    ensures Entails(s, p, s2, t1, t2, tcx)
  {
    forall k: Interp, env: Env | Holds(s2.root, map[], k) && Reach(s.root, p.node, map[], env, k)
      ensures Contained(t1, t2, env, k, tcx)
    {
      GrowsHolds(s1.root, s2.root, map[], k);
    }
  }

  /** ... and what is established at a later state holds for the environments of an earlier one. */
  lemma EntailsEarlier(s: State, s1: State, p: Pos, s2: State, t1: Ty, t2: Ty, tcx: Variances)
    requires At(s, p) && At(s1, p) && Keeps(s, s1, p)
    requires Entails(s1, p, s2, t1, t2, tcx)
    ensures Entails(s, p, s2, t1, t2, tcx)
  {
    forall k: Interp, env: Env | Holds(s2.root, map[], k) && Reach(s.root, p.node, map[], env, k)
      ensures Contained(t1, t2, env, k, tcx)
    {
      KeepsReach(s, s1, p, env, k);
    }
  }
}
