/** The language of the external solver: constraints whose kvars take names only. */
module Fixpoint {
  import L = Logic
  import opened Logic

  datatype Expr =
    | Var(name: Name)
    | Constant(c: L.Constant)
    | BinaryOp(bop: BinOp, e1: Expr, e2: Expr)
    | UnaryOp(uop: UnOp, e: Expr)

  datatype Pred =
    | And(preds: seq<Pred>)
    | KVar(kvid: KVid, args: seq<Name>)
    | Expr(expr: Expr)

  datatype Constraint =
    | Pred(pred: Pred)
    | Conj(conjuncts: seq<Constraint>)
    | Guard(guard: Expr, body: Constraint)
    | ForAll(name: Name, sort: Sort, hyp: Pred, body: Constraint)

  function TrueConstraint(): Constraint {
    Constraint.Pred(Pred.Expr(Expr.Constant(L.BoolConst(true))))
  }

  function Eval(e: Expr, env: Env): Option<Value> {
    match e
    case Var(x) => Lookup(env, x)
    case Constant(c) => Some(ConstantValue(c))
    case BinaryOp(op, e1, e2) => EvalBinOp(op, Eval(e1, env), Eval(e2, env))
    case UnaryOp(op, e1) => EvalUnOp(op, Eval(e1, env))
  }

  function LookupAll(xs: seq<Name>, env: Env): (r: Option<seq<Value>>)
    ensures r.Some? ==> |r.value| == |xs|
  {
    if xs == [] then Some([])
    else
      match (Lookup(env, xs[0]), LookupAll(xs[1..], env))
      case (Some(v), Some(vs)) => Some([v] + vs)
      case _ => None
  }

  predicate SatPred(p: Pred, env: Env, k: Interp) {
    match p
    case And(ps) => forall q | q in ps :: SatPred(q, env, k)
    case KVar(kvid, xs) =>
      var vs := LookupAll(xs, env);
      vs.Some? && k(kvid, vs.value)
    case Expr(e) => IsTrue(Eval(e, env))
  }

  /** The constraint holds in an environment, under an interpretation of its kvars. */
  ghost predicate Sat(c: Constraint, env: Env, k: Interp) {
    match c
    case Pred(p) => SatPred(p, env, k)
    case Conj(cs) => forall d | d in cs :: Sat(d, env, k)
    case Guard(e, d) => IsTrue(Eval(e, env)) ==> Sat(d, env, k)
    case ForAll(x, s, p, d) =>
      forall v: Value | SortOfValue(v) == s ::
        SatPred(p, env[x := v], k) ==> Sat(d, env[x := v], k)
  }

  // ----- well-sorted, closed constraints -----

  function SortOf(e: Expr, g: Scope): Option<Sort> {
    match e
    case Var(x) => if x in g then Some(g[x]) else None
    case Constant(c) => Some(SortOfConstant(c))
    case BinaryOp(op, e1, e2) =>
      (match (SortOf(e1, g), SortOf(e2, g))
       case (Some(s1), Some(s2)) => SortOfBinOp(op, s1, s2)
       case _ => None)
    case UnaryOp(op, e1) =>
      (match SortOf(e1, g)
       case Some(s) => SortOfUnOp(op, s)
       case None => None)
  }

  ghost predicate WfPred(p: Pred, g: Scope, kvars: seq<seq<Sort>>) {
    match p
    case And(ps) => forall q | q in ps :: WfPred(q, g, kvars)
    case KVar(kvid, xs) =>
      kvid < |kvars| && |xs| == |kvars[kvid]| &&
      forall i :: 0 <= i < |xs| ==> xs[i] in g && g[xs[i]] == kvars[kvid][i]
    case Expr(e) => SortOf(e, g) == Some(Sort.Bool)
  }

  /** Every name is bound with the sort at which it is used. */
  ghost predicate Wf(c: Constraint, g: Scope, kvars: seq<seq<Sort>>) {
    match c
    case Pred(p) => WfPred(p, g, kvars)
    case Conj(cs) => forall d | d in cs :: Wf(d, g, kvars)
    case Guard(e, d) => SortOf(e, g) == Some(Sort.Bool) && Wf(d, g, kvars)
    case ForAll(x, s, p, d) => WfPred(p, g[x := s], kvars) && Wf(d, g[x := s], kvars)
  }
}
