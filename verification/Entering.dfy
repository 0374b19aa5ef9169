/** The environment at the entry of a function, built parameter by parameter and cell by cell: every call
    that meets the signature is among the environments that reach the position, and no others are. */
module Entering {
  import L = Logic
  import opened Logic
  import opened Tree
  import opened Types
  import opened Position
  import opened Subtyping
  import opened Environment
  import opened Mir
  import opened Rules
  import opened Lowering
  import opened Calls
  import C = Core

  // ----- parameters -----

  /** Every choice of parameters that satisfies their predicates is one of the environments
      reaching the position. */
  ghost predicate ParamsReach(s: Position.State, p: Position.Pos, exprs: map<Name, Expr>, params: seq<C.Param>)
    requires At(s, p)
  {
    forall k: Interp, mu: Env | ParamsOk(params, mu) :: SomeReach(s, p, exprs, mu, k)
  }

  ghost predicate SomeReach(s: Position.State, p: Position.Pos, exprs: map<Name, Expr>, mu: Env, k: Interp)
    requires At(s, p)
  {
    exists env: Env :: Reach(s.root, p.node, map[], env, k) && Reflects(exprs, env, mu)
  }

  /** Conversely, every environment that reaches the position comes from such a choice. */
  ghost predicate ParamsCovered(s: Position.State, p: Position.Pos, exprs: map<Name, Expr>, params: seq<C.Param>)
    requires At(s, p)
  {
    forall k: Interp, env: Env | Reach(s.root, p.node, map[], env, k) :: SomeParams(exprs, params, env)
  }

  ghost predicate SomeParams(exprs: map<Name, Expr>, params: seq<C.Param>, env: Env) {
    exists mu: Env :: ParamsOk(params, mu) && Reflects(exprs, env, mu)
  }

  /** Nothing has to be shown yet. */
  ghost predicate Unobliged(s: Position.State) {
    forall k: Interp :: Holds(s.root, map[], k)
  }

  lemma UnobligedForAll(s: Position.State, p: Position.Pos, x: Name, sort: Sort, pred: Pred)
    requires At(s, p) && Unobliged(s)
    ensures Unobliged(PushForallState(s, p, x, sort, pred))
  {
    var m := ForAll(x, sort, pred, []);
    forall k: Interp ensures Holds(PushForallState(s, p, x, sort, pred).root, map[], k) {
      PushMeaning(s.root, p.node, m, map[], k);
      assert forall env: Env :: Holds(m, env, k);
    }
  }

  lemma ReflectsMore(exprs: map<Name, Expr>, cenv: C.SortEnv, g: Scope, env: Env, env1: Env, mu: Env)
    requires SortsReflect(exprs, g, cenv) && (forall y :: y in exprs ==> L.Free(y) in cenv)
    requires Agree(g, env, env1) && Reflects(exprs, env, mu)
    ensures Reflects(exprs, env1, mu)
  {
    forall y | y in exprs ensures Eval(exprs[y], env1, None) == Eval(exprs[y], env, None) {
      EvalAgree(exprs[y], g, None, env, env1, None);
    }
  }

  lemma SortsReflectMore(exprs: map<Name, Expr>, cenv: C.SortEnv, g0: Scope, g1: Scope)
    requires SortsReflect(exprs, g0, cenv) && Extends(g0, g1)
    ensures SortsReflect(exprs, g1, cenv)
  {
    forall y | L.Free(y) in cenv ensures SortOf(exprs[y], g1, None) == Some(cenv[L.Free(y)]) {
      SortExtends(exprs[y], g0, g1, None);
    }
  }

  /** The first `i` parameters have been bound. */
  ghost predicate ParamsDone(s: Position.State, p: Position.Pos, exprs: map<Name, Expr>, params: seq<C.Param>, i: nat)
    requires i <= |params|
  {
    && Wf(s, p) && Unobliged(s)
    && SortsReflect(exprs, ScopeOf(s, p), ParamSorts(params[..i]))
    && (forall y :: y in exprs ==> L.Free(y) in ParamSorts(params[..i]))
    && (forall j :: i <= j < |params| ==> params[j].name !in exprs)
    && ParamsReach(s, p, exprs, params[..i])
    && ParamsCovered(s, p, exprs, params[..i])
  }

  /** The next parameter: its name, its lowered predicate, and the state with its binder. */
  function NextExprs(exprs: map<Name, Expr>, param: C.Param, x: Name): map<Name, Expr> {
    exprs[param.name := FreeVar(x)]
  }

  function NextParam(s: Position.State, p: Position.Pos, exprs: map<Name, Expr>, param: C.Param): Position.State
    requires At(s, p) && NamesIn(param.pred, NextExprs(exprs, param, s.gen))
  {
    PushForallState(s.(gen := s.gen + 1), p, s.gen, param.sort,
                    Pred.Expr(LowerExpr(param.pred, NextExprs(exprs, param, s.gen))))
  }

  lemma ParamStepWf(s: Position.State, p: Position.Pos, exprs: map<Name, Expr>, params: seq<C.Param>, i: nat)
    requires Wf(s, p) && i < |params| && ParamWf(params, i)
    requires SortsReflect(exprs, ScopeOf(s, p), ParamSorts(params[..i]))
    ensures var exprs' := NextExprs(exprs, params[i], s.gen);
            && NamesIn(params[i].pred, exprs')
            && Bindable(s, p, params[i].sort, Pred.Expr(LowerExpr(params[i].pred, exprs')))
            && SortsReflect(exprs', ScopeOf(s, p)[s.gen := params[i].sort], ParamSorts(params[..i + 1]))
  {
    var g, x := ScopeOf(s, p), s.gen;
    var exprs', g' := NextExprs(exprs, params[i], x), g[x := params[i].sort];
    assert params[..i + 1][..i] == params[..i];
    forall y | L.Free(y) in ParamSorts(params[..i + 1])
      ensures y in exprs' && SortOf(exprs'[y], g', None) == Some(ParamSorts(params[..i + 1])[L.Free(y)])
    {
      if y != params[i].name {
        SortExtends(exprs[y], g, g', None);
      }
    }
    ParamSortsFree(params[..i + 1]);
    SynthLowers(params[i].pred, ParamSorts(params[..i + 1]), exprs', g');
  }

  /** One environment for the parameters so far, extended by a value for the next. */
  lemma ParamValue(s: Position.State, p: Position.Pos, exprs: map<Name, Expr>, params: seq<C.Param>, i: nat,
                   env: Env, mu: Env, v: Value, k: Interp)
    requires Wf(s, p) && i < |params| && params[i].name !in exprs
    requires SortsReflect(exprs, ScopeOf(s, p), ParamSorts(params[..i])) &&
             forall y :: y in exprs ==> L.Free(y) in ParamSorts(params[..i])
    requires NamesIn(params[i].pred, NextExprs(exprs, params[i], s.gen))
    requires Reach(s.root, p.node, map[], env, k) && Reflects(exprs, env, mu) && params[i].name in mu &&
             mu[params[i].name] == v
    ensures var exprs', env1 := NextExprs(exprs, params[i], s.gen), env[s.gen := v];
            && Reflects(exprs', env1, mu)
            && Eval(LowerExpr(params[i].pred, exprs'), env1, None) == C.Eval(params[i].pred, mu, None)
  {
    var exprs', env1 := NextExprs(exprs, params[i], s.gen), env[s.gen := v];
    ReachScope(s, p, env, k);
    assert Agree(ScopeOf(s, p), env, env1);
    ReflectsMore(exprs, ParamSorts(params[..i]), ScopeOf(s, p), env, env1, mu);
    LowerExprMeaning(params[i].pred, exprs', env1, mu, None);
  }

  lemma ParamStepReach(s: Position.State, p: Position.Pos, exprs: map<Name, Expr>, params: seq<C.Param>, i: nat)
    requires i < |params| && ParamsDone(s, p, exprs, params, i)
    requires NamesIn(params[i].pred, NextExprs(exprs, params[i], s.gen)) &&
             At(NextParam(s, p, exprs, params[i]), PushForallPos(s, p))
    ensures ParamsReach(NextParam(s, p, exprs, params[i]), PushForallPos(s, p), NextExprs(exprs, params[i], s.gen),
                        params[..i + 1])
  {
    var x, q := s.gen, PushForallPos(s, p);
    var exprs', s1 := NextExprs(exprs, params[i], x), NextParam(s, p, exprs, params[i]);
    var m := ForAll(x, params[i].sort, Pred.Expr(LowerExpr(params[i].pred, exprs')), []);
    forall k: Interp, mu: Env | ParamsOk(params[..i + 1], mu) ensures SomeReach(s1, q, exprs', mu, k) {
      ParamsPrefix(params, i, mu);
      assert SomeReach(s, p, exprs, mu, k);
      var env: Env :| Reach(s.root, p.node, map[], env, k) && Reflects(exprs, env, mu);
      var env1 := env[x := mu[params[i].name]];
      ParamValue(s, p, exprs, params, i, env, mu, mu[params[i].name], k);
      assert Enter(m, env, env1, k);
      PushReach(s.root, p.node, m, map[], env, env1, k);
    }
  }

  lemma ParamsPrefix(params: seq<C.Param>, i: nat, mu: Env)
    requires i < |params| && ParamsOk(params[..i + 1], mu)
    ensures ParamsOk(params[..i], mu) && ParamOk(params[i], mu)
  {
    var all, init := params[..i + 1], params[..i];
    assert all[i] == params[i];
    forall j | 0 <= j < |init| ensures ParamOk(init[j], mu) { assert init[j] == all[j]; }
  }

  lemma ParamStepCovered(s: Position.State, p: Position.Pos, exprs: map<Name, Expr>, params: seq<C.Param>, i: nat)
    requires i < |params| && ParamsWf(params) && ParamsDone(s, p, exprs, params, i)
    requires NamesIn(params[i].pred, NextExprs(exprs, params[i], s.gen)) &&
             At(NextParam(s, p, exprs, params[i]), PushForallPos(s, p))
    ensures ParamsCovered(NextParam(s, p, exprs, params[i]), PushForallPos(s, p), NextExprs(exprs, params[i], s.gen),
                          params[..i + 1])
  {
    var x, q := s.gen, PushForallPos(s, p);
    var exprs', s1 := NextExprs(exprs, params[i], x), NextParam(s, p, exprs, params[i]);
    var m := ForAll(x, params[i].sort, Pred.Expr(LowerExpr(params[i].pred, exprs')), []);
    forall k: Interp, env1: Env | Reach(s1.root, q.node, map[], env1, k)
      ensures SomeParams(exprs', params[..i + 1], env1)
    {
      var env := PushReachInv(s.root, p.node, m, map[], env1, k);
      assert SomeParams(exprs, params[..i], env);
      var mu: Env :| ParamsOk(params[..i], mu) && Reflects(exprs, env, mu);
      var mu1 := mu[params[i].name := env1[x]];
      assert Reflects(exprs, env, mu1);
      ParamValue(s, p, exprs, params, i, env, mu1, env1[x], k);
      ParamsOkMore(params, i, mu, env1[x]);
    }
  }

  /** The state with the binder of the next parameter. */
  lemma ParamBound(s: Position.State, p: Position.Pos, exprs: map<Name, Expr>, params: seq<C.Param>, i: nat)
    requires Wf(s, p) && Unobliged(s) && i < |params| && ParamWf(params, i)
    requires SortsReflect(exprs, ScopeOf(s, p), ParamSorts(params[..i]))
    ensures NamesIn(params[i].pred, NextExprs(exprs, params[i], s.gen))
    ensures var s1, q := NextParam(s, p, exprs, params[i]), PushForallPos(s, p);
            && Wf(s1, q) && Unobliged(s1)
            && SortsReflect(NextExprs(exprs, params[i], s.gen), ScopeOf(s1, q), ParamSorts(params[..i + 1]))
  {
    ParamStepWf(s, p, exprs, params, i);
    BoundUnobliged(s, p, params[i].sort, Pred.Expr(LowerExpr(params[i].pred, NextExprs(exprs, params[i], s.gen))));
  }

  lemma BoundUnobliged(s: Position.State, p: Position.Pos, sort: Sort, pred: Pred)
    requires Wf(s, p) && Unobliged(s) && Bindable(s, p, sort, pred)
    ensures var s1, q := PushForallState(s.(gen := s.gen + 1), p, s.gen, sort, pred), PushForallPos(s, p);
            Wf(s1, q) && Unobliged(s1) && ScopeOf(s1, q) == ScopeOf(s, p)[s.gen := sort]
  {
    BindFreshWf(s, p, sort, pred);
    UnobligedForAll(s.(gen := s.gen + 1), p, s.gen, sort, pred);
  }

  lemma ParamStep(s: Position.State, p: Position.Pos, exprs: map<Name, Expr>, params: seq<C.Param>, i: nat)
    requires i < |params| && ParamsWf(params) && ParamsDone(s, p, exprs, params, i)
    ensures NamesIn(params[i].pred, NextExprs(exprs, params[i], s.gen))
    ensures ParamsDone(NextParam(s, p, exprs, params[i]), PushForallPos(s, p), NextExprs(exprs, params[i], s.gen),
                       params, i + 1)
  {
    ParamBound(s, p, exprs, params, i);
    ParamStepReach(s, p, exprs, params, i);
    ParamStepCovered(s, p, exprs, params, i);
    assert params[..i + 1][..i] == params[..i];
  }

  /** At the root, before anything is pushed. */
  lemma StartDone(params: seq<C.Param>)
    ensures ParamsDone(Position.State(Conj([]), [], [], [], 0), Position.Pos([], 0, 0), map[], params, 0)
  {
    var s, p := Position.State(Conj([]), [], [], [], 0), Position.Pos([], 0, 0);
    forall k: Interp, mu: Env | ParamsOk([], mu) ensures SomeReach(s, p, map[], mu, k) {
      var env: Env := map[];
      assert Reach(s.root, [], map[], env, k) && Reflects(map[], env, mu);
    }
    forall k: Interp, env: Env | Reach(s.root, p.node, map[], env, k) ensures SomeParams(map[], [], env) {
      var mu: Env := map[];
      assert ParamsOk([], mu) && Reflects(map[], env, mu);
    }
  }
}
