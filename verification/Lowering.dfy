/** Lowering of signatures to the refinement types of the checker. */
module Lowering {
  import L = Logic
  import opened Logic
  import opened Types
  import C = Core
  import F = Fixpoint
  import Translate

  predicate NamesIn(e: C.Expr, exprs: map<Name, Expr>) {
    match e
    case Var(v) => v.Free? ==> v.name in exprs
    case Literal(_) => true
    case BinaryOp(_, e1, e2) => NamesIn(e1, exprs) && NamesIn(e2, exprs)
  }

  function LowerExpr(e: C.Expr, exprs: map<Name, Expr>): Expr
    requires NamesIn(e, exprs)
  {
    match e
    case Var(Bound) => Var(Bound)
    case Var(Free(x)) => exprs[x]
    case Literal(lit) => Constant(if lit.IntLit? then FromInt(lit.n) else FromBool(lit.b))
    case BinaryOp(op, e1, e2) => BinaryOp(C.LowerBinOp(op), LowerExpr(e1, exprs), LowerExpr(e2, exprs))
  }

  /** No panic while lowering: every name and every location is known. */
  predicate Lowerable(ty: C.Ty, exprs: map<Name, Expr>, locs: map<Name, Loc>)
    decreases ty
  {
    match ty
    case Refine(b, e) => LowerableBase(b, exprs, locs) && NamesIn(e, exprs)
    case Exists(b, e) => LowerableBase(b, exprs, locs) && NamesIn(e, exprs)
    case MutRef(x) => x in locs
    case Param(_) => true
  }

  predicate LowerableBase(b: C.BaseTy, exprs: map<Name, Expr>, locs: map<Name, Loc>)
    decreases b
  {
    b.Adt? ==> forall i | 0 <= i < |b.substs| :: Lowerable(b.substs[i], exprs, locs)
  }

  function LowerTy(ty: C.Ty, exprs: map<Name, Expr>, locs: map<Name, Loc>): Ty
    requires Lowerable(ty, exprs, locs)
    decreases ty
  {
    match ty
    case Refine(b, e) => Refine(LowerBaseTy(b, exprs, locs), LowerExpr(e, exprs))
    case Exists(b, e) => Exists(LowerBaseTy(b, exprs, locs), Pred.Expr(LowerExpr(e, exprs)))
    case MutRef(x) => StrgRef(locs[x])
    case Param(i) => Param(i)
  }

  function LowerBaseTy(b: C.BaseTy, exprs: map<Name, Expr>, locs: map<Name, Loc>): (r: BaseTy)
    requires LowerableBase(b, exprs, locs)
    ensures SortOfBase(r) == C.SortOfBase(b)
    decreases b
  {
    match b
    case Int(i) => BaseTy.Int(i)
    case Uint(u) => Uint(u)
    case Bool => BaseTy.Bool
    case Adt(did, substs) => Adt(did, seq(|substs|, i requires 0 <= i < |substs| => LowerTy(substs[i], exprs, locs)))
  }

  // ----- lowering preserves meaning -----

  /** The lowered parameters have the values of the parameters. */
  ghost predicate Reflects(exprs: map<Name, Expr>, env: Env, mu: Env) {
    forall x :: x in exprs ==> x in mu && Eval(exprs[x], env, None) == Some(mu[x]) && !HasBound(exprs[x])
  }

  lemma OpMeaning(op: C.BinOp, v1: Value, v2: Value)
    ensures EvalBinOp(C.LowerBinOp(op), Some(v1), Some(v2)) == C.ApplyOp(op, v1, v2)
  {
  }

  lemma {:induction false} ClosedEval(e: Expr, env: Env, nu: Option<Value>)
    requires !HasBound(e)
    ensures Eval(e, env, nu) == Eval(e, env, None)
  {
    match e
    case Var(_) =>
    case Constant(_) =>
    case BinaryOp(_, e1, e2) =>
      ClosedEval(e1, env, nu);
      ClosedEval(e2, env, nu);
    case UnaryOp(_, e1) =>
      ClosedEval(e1, env, nu);
  }

  /** A lowered expression has the value of the original, whatever that is. */
  lemma {:induction false} LowerExprMeaning(e: C.Expr, exprs: map<Name, Expr>, env: Env, mu: Env, nu: Option<Value>)
    requires NamesIn(e, exprs) && Reflects(exprs, env, mu)
    ensures Eval(LowerExpr(e, exprs), env, nu) == C.Eval(e, mu, nu)
  {
    match e
    case Var(Bound) =>
    case Var(Free(x)) => ClosedEval(exprs[x], env, nu);
    case Literal(_) =>
    case BinaryOp(op, e1, e2) =>
      LowerExprMeaning(e1, exprs, env, mu, nu);
      LowerExprMeaning(e2, exprs, env, mu, nu);
      if C.Eval(e1, mu, nu).Some? && C.Eval(e2, mu, nu).Some? {
        OpMeaning(op, C.Eval(e1, mu, nu).value, C.Eval(e2, mu, nu).value);
      }
  }

  /** The parameters have the sorts the signature declares. */
  ghost predicate SortsReflect(exprs: map<Name, Expr>, g: Scope, cenv: C.SortEnv) {
    forall x :: L.Free(x) in cenv ==> x in exprs && SortOf(exprs[x], g, None) == Some(cenv[L.Free(x)])
  }

  function NuSort(cenv: C.SortEnv): Option<Sort> {
    if L.Bound in cenv then Some(cenv[L.Bound]) else None
  }

  /** Values for exactly the variables in scope, of their sorts. */
  ghost predicate Values(cenv: C.SortEnv, mu: Env, nu: Option<Value>) {
    && (forall x :: x in mu <==> L.Free(x) in cenv)
    && (forall x :: x in mu ==> cenv[L.Free(x)] == SortOfValue(mu[x]))
    && (nu.Some? <==> L.Bound in cenv) && (nu.Some? ==> cenv[L.Bound] == SortOfValue(nu.value))
  }

  /** An expression is accepted at a sort exactly when it has a value of that sort, for any one choice of
      values for the variables in scope. */
  lemma {:induction false} AcceptedIffValue(cenv: C.SortEnv, e: C.Expr, s: Sort, mu: Env, nu: Option<Value>)
    requires Values(cenv, mu, nu)
    ensures C.SynthExpr(cenv, e) == C.Sorted(s) <==>
            C.Eval(e, mu, nu).Some? && SortOfValue(C.Eval(e, mu, nu).value) == s
    decreases e
  {
    match e
    case Var(_) =>
    case Literal(_) =>
    case BinaryOp(op, e1, e2) =>
      AcceptedIffValue(cenv, e1, Sort.Int, mu, nu);
      AcceptedIffValue(cenv, e1, Sort.Bool, mu, nu);
      AcceptedIffValue(cenv, e2, Sort.Int, mu, nu);
      AcceptedIffValue(cenv, e2, Sort.Bool, mu, nu);
  }

  /** An application is accepted exactly when its operands are, at sorts the operator takes. */
  lemma SynthOperands(cenv: C.SortEnv, op: C.BinOp, e1: C.Expr, e2: C.Expr)
    ensures C.SynthExpr(cenv, C.BinaryOp(op, e1, e2)).Sorted? <==>
            C.SynthExpr(cenv, e1).Sorted? && C.SynthExpr(cenv, e2).Sorted? &&
            SortOfBinOp(C.LowerBinOp(op), C.SynthExpr(cenv, e1).sort, C.SynthExpr(cenv, e2).sort).Some?
    ensures C.SynthExpr(cenv, C.BinaryOp(op, e1, e2)).Sorted? ==>
            Some(C.SynthExpr(cenv, C.BinaryOp(op, e1, e2)).sort) ==
            SortOfBinOp(C.LowerBinOp(op), C.SynthExpr(cenv, e1).sort, C.SynthExpr(cenv, e2).sort)
  {
  }

  /** What the sort checker accepts lowers without panic to an expression of the same sort. */
  lemma {:induction false} SynthLowers(e: C.Expr, cenv: C.SortEnv, exprs: map<Name, Expr>, g: Scope)
    requires SortsReflect(exprs, g, cenv) && C.SynthExpr(cenv, e).Sorted?
    ensures NamesIn(e, exprs) && SortOf(LowerExpr(e, exprs), g, NuSort(cenv)) == Some(C.SynthExpr(cenv, e).sort)
  {
    match e
    case Var(Bound) =>
    case Var(Free(x)) => SortIgnoresNu(exprs[x], g, NuSort(cenv));
    case Literal(_) =>
    case BinaryOp(op, e1, e2) =>
      SynthOperands(cenv, op, e1, e2);
      SynthLowers(e1, cenv, exprs, g);
      SynthLowers(e2, cenv, exprs, g);
  }

  /** The chain: an accepted expression, lowered and translated, evaluates without getting stuck
      to a value of the checked sort, and that is the value of the original. */
  lemma CheckLowerTranslate(e: C.Expr, expected: Sort, cenv: C.SortEnv, exprs: map<Name, Expr>, g: Scope, env: Env,
                            mu: Env)
    requires C.CheckExpr(cenv, e, expected) == C.Sorted(expected)
    requires L.Bound !in cenv && SortsReflect(exprs, g, cenv) && Conforms(env, g) && Reflects(exprs, env, mu)
    ensures NamesIn(e, exprs) && !HasBound(LowerExpr(e, exprs))
    ensures var v := F.Eval(Translate.ExprToFixpoint(LowerExpr(e, exprs)), env);
            v.Some? && SortOfValue(v.value) == expected && C.Eval(e, mu, None) == v
  {
    SynthLowers(e, cenv, exprs, g);
    SortedHasNoBound(LowerExpr(e, exprs), g);
    EvalSorted(LowerExpr(e, exprs), g, None, env, None);
    LowerExprMeaning(e, exprs, env, mu, None);
    Translate.ExprMeaning(LowerExpr(e, exprs), env);
  }

  /** A lowered type has the values of the original type. */
  lemma {:induction false} LowerTyMeaning(v: Val, ty: C.Ty, exprs: map<Name, Expr>, locs: map<Name, Loc>, env: Env,
                                          mu: Env, k: Interp, tcx: Variances, st: Store)
    requires Lowerable(ty, exprs, locs) && Reflects(exprs, env, mu)
    ensures In(v, LowerTy(ty, exprs, locs), env, k, tcx, st) <==> C.In(v, ty, mu, locs, tcx)
    decreases ty
  {
    match ty
    case Refine(b, e) =>
      LowerBaseMeaning(v, b, exprs, locs, env, mu, k, tcx, st);
      LowerExprMeaning(e, exprs, env, mu, None);
    case Exists(b, e) =>
      LowerBaseMeaning(v, b, exprs, locs, env, mu, k, tcx, st);
      LowerExprMeaning(e, exprs, env, mu, Index(v));
    case MutRef(_) =>
    case Param(_) =>
  }

  lemma {:induction false} LowerBaseMeaning(v: Val, b: C.BaseTy, exprs: map<Name, Expr>, locs: map<Name, Loc>, env: Env,
                                            mu: Env, k: Interp, tcx: Variances, st: Store)
    requires LowerableBase(b, exprs, locs) && Reflects(exprs, env, mu)
    ensures InBase(v, LowerBaseTy(b, exprs, locs), env, k, tcx, st) <==> C.InBase(v, b, mu, locs, tcx)
    decreases b
  {
    if b.Adt? {
      forall i, x | 0 <= i < |b.substs|
        ensures In(x, LowerTy(b.substs[i], exprs, locs), env, k, tcx, st) <==> C.In(x, b.substs[i], mu, locs, tcx)
      {
        LowerTyMeaning(x, b.substs[i], exprs, locs, env, mu, k, tcx, st);
      }
    }
  }

  // ----- well-sorted types -----

  /** Sorts of a type, its type arguments included. */
  ghost predicate WellSorted(ty: C.Ty, cenv: C.SortEnv, locs: set<Name>)
    decreases ty
  {
    match ty
    case Refine(b, e) => WellSortedBase(b, cenv, locs) &&
      C.CheckExpr(cenv, e, C.SortOfBase(b)) == C.Sorted(C.SortOfBase(b))
    case Exists(b, e) =>
      WellSortedBase(b, cenv, locs) &&
      C.CheckExpr(cenv[L.Bound := C.SortOfBase(b)], e, Sort.Bool) == C.Sorted(Sort.Bool)
    case MutRef(x) => x in locs
    case Param(_) => true
  }

  ghost predicate WellSortedBase(b: C.BaseTy, cenv: C.SortEnv, locs: set<Name>)
    decreases b
  {
    b.Adt? ==> forall i | 0 <= i < |b.substs| :: WellSorted(b.substs[i], cenv, locs)
  }

  lemma {:induction false} LowerTyWf(ty: C.Ty, cenv: C.SortEnv, exprs: map<Name, Expr>, locs: map<Name, Loc>, g: Scope,
                                     kvars: seq<seq<Sort>>)
    requires WellSorted(ty, cenv, locs.Keys) && L.Bound !in cenv && SortsReflect(exprs, g, cenv)
    ensures Lowerable(ty, exprs, locs)
    ensures WfTy(LowerTy(ty, exprs, locs), g, kvars) && RefFree(LowerTy(ty, exprs, locs))
    decreases ty
  {
    match ty
    case Refine(b, e) =>
      LowerBaseWf(b, cenv, exprs, locs, g, kvars);
      SynthLowers(e, cenv, exprs, g);
    case Exists(b, e) =>
      LowerBaseWf(b, cenv, exprs, locs, g, kvars);
      SynthLowers(e, cenv[L.Bound := C.SortOfBase(b)], exprs, g);
    case MutRef(_) =>
    case Param(_) =>
  }

  lemma {:induction false} LowerBaseWf(b: C.BaseTy, cenv: C.SortEnv, exprs: map<Name, Expr>, locs: map<Name, Loc>,
                                       g: Scope, kvars: seq<seq<Sort>>)
    requires WellSortedBase(b, cenv, locs.Keys) && L.Bound !in cenv && SortsReflect(exprs, g, cenv)
    ensures LowerableBase(b, exprs, locs)
    ensures WfBase(LowerBaseTy(b, exprs, locs), g, kvars) && RefFreeBase(LowerBaseTy(b, exprs, locs))
    decreases b
  {
    if b.Adt? {
      forall i | 0 <= i < |b.substs|
        ensures Lowerable(b.substs[i], exprs, locs)
        ensures WfTy(LowerTy(b.substs[i], exprs, locs), g, kvars) && RefFree(LowerTy(b.substs[i], exprs, locs))
      {
        LowerTyWf(b.substs[i], cenv, exprs, locs, g, kvars);
      }
    }
  }
}
