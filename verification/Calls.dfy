/** Signatures: when they are well-formed, what a caller provides and what it gets. */
module Calls {
  import L = Logic
  import opened Logic
  import opened Types
  import opened Mir
  import opened Lowering
  import C = Core

  // ----- well-formed signatures -----

  function ParamSorts(params: seq<C.Param>): C.SortEnv {
    if params == [] then map[]
    else ParamSorts(params[..|params| - 1])[L.Free(params[|params| - 1].name) := params[|params| - 1].sort]
  }

  ghost predicate ParamsWf(params: seq<C.Param>) {
    && (forall i, j :: 0 <= i < j < |params| ==> params[i].name != params[j].name)
    && forall i :: 0 <= i < |params| ==> ParamWf(params, i)
  }

  ghost predicate ParamWf(params: seq<C.Param>, i: nat)
    requires i < |params|
  {
    C.CheckExpr(ParamSorts(params[..i + 1]), params[i].pred, Sort.Bool) == C.Sorted(Sort.Bool)
  }

  function CellNames(required: seq<(Name, C.Ty)>): set<Name> {
    set i | 0 <= i < |required| :: required[i].0
  }

  /** All types are well-sorted and mention only parameters and cells that are declared before. */
  ghost predicate SigWf(sig: C.FnSig) {
    && ParamsWf(sig.params)
    && (forall i, j :: 0 <= i < j < |sig.required| ==> sig.required[i].0 != sig.required[j].0)
    && (forall i :: 0 <= i < |sig.required| ==>
        WellSorted(sig.required[i].1, ParamSorts(sig.params), CellNames(sig.required[..i])))
    && (forall i :: 0 <= i < |sig.args| ==> WellSorted(sig.args[i], ParamSorts(sig.params), CellNames(sig.required)))
    && (forall i :: 0 <= i < |sig.ensured| ==>
          sig.ensured[i].0 in CellNames(sig.required) &&
          WellSorted(sig.ensured[i].1, ParamSorts(sig.params), CellNames(sig.required)))
    && WellSorted(sig.ret, ParamSorts(sig.params), CellNames(sig.required))
  }

  // ----- what a caller provides and gets -----

  ghost predicate ParamsOk(params: seq<C.Param>, mu: Env) {
    forall i :: 0 <= i < |params| ==> ParamOk(params[i], mu)
  }

  ghost predicate ParamOk(param: C.Param, mu: Env) {
    param.name in mu && SortOfValue(mu[param.name]) == param.sort && IsTrue(C.Eval(param.pred, mu, None))
  }

  /** A location and the type its value has to have. */
  type Cell = (Loc, C.Ty)

  ghost predicate CellOk(c: Cell, mu: Env, locs: map<Name, Loc>, st: Store, tcx: Variances) {
    c.0 in st && C.In(st[c.0], c.1, mu, locs, tcx)
  }

  /** The memory a call starts in: parameters, referenced cells and arguments as required, and
      room for the other locals. */
  ghost predicate CallOk(sig: C.FnSig, body: Body, mu: Env, locs: map<Name, Loc>, st: Store, tcx: Variances) {
    && ParamsOk(sig.params, mu)
    && (forall i :: 0 <= i < |sig.required| ==> RequiredOk(sig.required[i], mu, locs, st, tcx))
    && (forall i :: 0 <= i < body.argCount && i < |sig.args| ==> CellOk((Local(i + 1), sig.args[i]), mu, locs, st, tcx))
    && (forall i :: 0 <= i < body.nlocals ==> Local(i) in st)
    && Local(0) in st
  }

  ghost predicate RequiredOk(required: (Name, C.Ty), mu: Env, locs: map<Name, Loc>, st: Store, tcx: Variances) {
    required.0 in locs && CellOk((locs[required.0], required.1), mu, locs, st, tcx)
  }

  ghost predicate ReturnOk(sig: C.FnSig, mu: Env, locs: map<Name, Loc>, st: Store, tcx: Variances) {
    && Local(0) in st && C.In(st[Local(0)], sig.ret, mu, locs, tcx)
    && forall i :: 0 <= i < |sig.ensured| ==>
         sig.ensured[i].0 in locs && locs[sig.ensured[i].0] in st &&
         C.In(st[locs[sig.ensured[i].0]], sig.ensured[i].1, mu, locs, tcx)
  }

  /** No step fails, and a return is to a memory as ensured. */
  ghost predicate RunOk(sig: C.FnSig, body: Body, mu: Env, locs: map<Name, Loc>, st: Store, n: nat, tcx: Variances) {
    match Exec(body, Config(0, 0, st), n)
    case Failed => false
    case Returned(st1) => ReturnOk(sig, mu, locs, st1, tcx)
    case _ => true
  }

  /** The same, and the run uses nothing that has no meaning here. */
  ghost predicate RunSure(sig: C.FnSig, body: Body, mu: Env, locs: map<Name, Loc>, st: Store, n: nat, tcx: Variances) {
    RunOk(sig, body, mu, locs, st, n, tcx) && !Exec(body, Config(0, 0, st), n).Outside?
  }

  /** Arguments and required cells hold no data types. */
  predicate DataFree(sig: C.FnSig) {
    (forall i :: 0 <= i < |sig.required| ==> ScalarCore(sig.required[i].1)) &&
      forall i :: 0 <= i < |sig.args| ==> ScalarCore(sig.args[i])
  }

  predicate ScalarCore(ty: C.Ty) {
    ty.Refine? || ty.Exists? ==> !ty.bty.Adt?
  }

  // ----- the sorts of the parameters -----

  lemma {:induction false} ParamSortsFree(params: seq<C.Param>)
    ensures L.Bound !in ParamSorts(params)
  {
    if params != [] {
      ParamSortsFree(params[..|params| - 1]);
    }
  }

  lemma {:induction false} ParamSortsNames(params: seq<C.Param>, x: Name)
    requires L.Free(x) in ParamSorts(params)
    ensures exists i :: 0 <= i < |params| && params[i].name == x
  {
    var init, last := params[..|params| - 1], params[|params| - 1];
    if last.name != x {
      ParamSortsNames(init, x);
      var i :| 0 <= i < |init| && init[i].name == x;
      assert params[i].name == x;
    }
  }

  lemma {:induction false} CoreEvalAgree(e: C.Expr, cenv: C.SortEnv, mu0: Env, mu1: Env, nu: Option<Value>)
    requires C.SynthExpr(cenv, e).Sorted?
    requires forall x :: L.Free(x) in cenv ==> Lookup(mu0, x) == Lookup(mu1, x)
    ensures C.Eval(e, mu0, nu) == C.Eval(e, mu1, nu)
  {
    match e
    case Var(_) =>
    case Literal(_) =>
    case BinaryOp(op, e1, e2) =>
      SynthOperands(cenv, op, e1, e2);
      CoreEvalAgree(e1, cenv, mu0, mu1, nu);
      CoreEvalAgree(e2, cenv, mu0, mu1, nu);
  }

  /** A value for one more parameter does not disturb the earlier ones. */
  lemma ParamsOkMore(params: seq<C.Param>, i: nat, mu: Env, v: Value)
    requires ParamsWf(params) && i < |params| && ParamsOk(params[..i], mu)
    requires SortOfValue(v) == params[i].sort && IsTrue(C.Eval(params[i].pred, mu[params[i].name := v], None))
    ensures ParamsOk(params[..i + 1], mu[params[i].name := v])
  {
    var mu1 := mu[params[i].name := v];
    var all := params[..i + 1];
    forall j | 0 <= j < |all| ensures ParamOk(all[j], mu1) {
      assert all[j] == params[j];
      if j < i {
        assert params[..i][j] == params[j] && ParamOk(params[..i][j], mu) && ParamWf(params, j);
        forall x | L.Free(x) in ParamSorts(params[..j + 1]) ensures Lookup(mu, x) == Lookup(mu1, x) {
          ParamSortsNames(params[..j + 1], x);
        }
        CoreEvalAgree(params[j].pred, ParamSorts(params[..j + 1]), mu, mu1, None);
      }
    }
  }
}
