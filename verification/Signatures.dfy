/** The check of function signatures: what it accepts, and what the rest of the pipeline needs. */
module Signatures {
  import L = Logic
  import opened Logic
  import opened Lowering
  import opened Calls
  import C = Core
  import opened Types

  /** Panicked: a variable was looked up that is not in scope. */
  datatype Outcome = Accepted | Reported | Panicked

  function After(env: C.SortEnv, ty: C.Ty): C.SortEnv {
    if ty.Exists? then env[L.Bound := C.SortOfBase(ty.bty)] else env
  }

  /** The check of a type, in the environment that earlier types have left behind. */
  function TypeResult(env: C.SortEnv, ty: C.Ty): C.Checked {
    match ty
    case Refine(b, e) => C.CheckExpr(env, e, C.SortOfBase(b))
    case Exists(_, e) => C.CheckExpr(After(env, ty), e, Sort.Bool)
    case _ => C.Sorted(Sort.Bool)
  }

  /** The bound variable is still in scope for the next type, at the sort of the last existential one. */
  lemma BoundStays(env: C.SortEnv, b: C.BaseTy, e: C.Expr, next: C.BaseTy)
    ensures TypeResult(After(env, C.Exists(b, e)), C.Refine(next, C.Var(L.Bound))).Sorted? <==>
            C.SortOfBase(b) == C.SortOfBase(next)
  {
  }

  /** The arguments of a data type are not looked at. */
  lemma ArgumentsUnchecked(env: C.SortEnv, did: nat, a1: seq<C.Ty>, a2: seq<C.Ty>, e: C.Expr)
    ensures TypeResult(env, C.Refine(C.Adt(did, a1), e)) == TypeResult(env, C.Refine(C.Adt(did, a2), e))
    ensures TypeResult(env, C.Exists(C.Adt(did, a1), e)) == TypeResult(env, C.Exists(C.Adt(did, a2), e))
  {
  }

  function AfterAll(env: C.SortEnv, tys: seq<C.Ty>): C.SortEnv {
    if tys == [] then env else After(AfterAll(env, tys[..|tys| - 1]), tys[|tys| - 1])
  }

  /** Every type passes, one after the other. */
  ghost predicate Pass(env: C.SortEnv, tys: seq<C.Ty>) {
    forall i :: 0 <= i < |tys| ==> TypeResult(AfterAll(env, tys[..i]), tys[i]).Sorted?
  }

  /** The types that are checked, in order. */
  function TypesOf(sig: C.FnSig): seq<C.Ty> {
    sig.args + Seconds(sig.ensured) + [sig.ret]
  }

  function Seconds(xs: seq<(Name, C.Ty)>): (r: seq<C.Ty>)
    ensures |r| == |xs| && forall i :: 0 <= i < |r| ==> r[i] == xs[i].1
  {
    seq(|xs|, i requires 0 <= i < |xs| => xs[i].1)
  }

  ghost predicate PredsPass(params: seq<C.Param>) {
    forall i :: 0 <= i < |params| ==> ParamWf(params, i)
  }

  ghost predicate Accepts(sig: C.FnSig) {
    PredsPass(sig.params) && Pass(ParamSorts(sig.params), TypesOf(sig))
  }

  class Wf {
    var env: C.SortEnv

    constructor ()
      ensures env == map[]
    {
      env := map[];
    }

    /** All errors are reported before the check fails; a panic ends it. */
    method CheckFnSig(sig: C.FnSig) returns (r: Outcome)
      requires env == map[]
      modifies this
      ensures r == Accepted <==> Accepts(sig)
    {
      r := CheckParams(sig.params);
      if r == Panicked {
        return;
      }
      ghost var env0 := env;
      var types := CheckTypes(TypesOf(sig), env0);
      r := if types == Accepted then r else types;
    }

    method CheckParams(params: seq<C.Param>) returns (r: Outcome)
      requires env == map[]
      modifies this
      ensures r == Accepted <==> PredsPass(params)
      ensures r != Panicked ==> env == ParamSorts(params)
    {
      r := Accepted;
      for i := 0 to |params|
        invariant env == ParamSorts(params[..i])
        invariant r == Accepted <==> forall j :: 0 <= j < i ==> ParamWf(params, j)
        invariant r != Panicked
      {
        env := env[L.Free(params[i].name) := params[i].sort];
        assert params[..i + 1][..i] == params[..i];
        var c := C.CheckExpr(env, params[i].pred, Sort.Bool);
        assert env == ParamSorts(params[..i + 1]);
        assert ParamWf(params, i) <==> c.Sorted?;
        if c.Unbound? {
          return Panicked;
        }
        r := if c.Sorted? then r else Reported;
      }
      assert params[..|params|] == params;
    }

    method CheckTypes(tys: seq<C.Ty>, ghost env0: C.SortEnv) returns (r: Outcome)
      requires env == env0
      modifies this
      ensures r == Accepted <==> Pass(env0, tys)
    {
      r := Accepted;
      for i := 0 to |tys|
        invariant env == AfterAll(env0, tys[..i]) && r != Panicked
        invariant r == Accepted <==> forall j :: 0 <= j < i ==> TypeResult(AfterAll(env0, tys[..j]), tys[j]).Sorted?
      {
        assert tys[..i + 1][..i] == tys[..i];
        var c := CheckType(tys[i]);
        if c.Unbound? {
          assert !TypeResult(AfterAll(env0, tys[..i]), tys[i]).Sorted?;
          return Panicked;
        }
        r := if c.Sorted? then r else Reported;
      }
      assert forall j :: 0 <= j < |tys| ==> tys[..j] == tys[..|tys|][..j];
    }

    /** The bound variable of an existential type stays in the environment. */
    method CheckType(ty: C.Ty) returns (c: C.Checked)
      modifies this
      ensures c == TypeResult(old(env), ty) && env == After(old(env), ty)
    {
      match ty
      case Refine(b, e) =>
        c := C.CheckExpr(env, e, C.SortOfBase(b));
      case Exists(b, e) =>
        env := env[L.Bound := C.SortOfBase(b)];
        c := C.CheckExpr(env, e, Sort.Bool);
      case MutRef(_) => c := C.Sorted(Sort.Bool);
      case Param(_) => c := C.Sorted(Sort.Bool);
    }
  }

  // ----- what acceptance means for the rest of the pipeline -----

  predicate MentionsBound(e: C.Expr) {
    match e
    case Var(v) => v.Bound?
    case Literal(_) => false
    case BinaryOp(_, e1, e2) => MentionsBound(e1) || MentionsBound(e2)
  }

  /** An index, unlike the predicate of an existential type, has no bound variable to speak of. */
  predicate IndexClosed(ty: C.Ty) {
    ty.Refine? ==> !MentionsBound(ty.e)
  }

  /** What the check does not look at: the arguments of data types and the names of cells. */
  ghost predicate OutsideOk(ty: C.Ty, sorts: C.SortEnv, cells: set<Name>) {
    ((ty.Refine? || ty.Exists?) ==> WellSortedBase(ty.bty, sorts, cells)) && (ty.MutRef? ==> ty.loc in cells)
  }

  /** The same for a signature, with the types of the required cells and the distinctness of names. */
  ghost predicate RestOk(sig: C.FnSig) {
    var sorts, cells := ParamSorts(sig.params), CellNames(sig.required);
    && (forall i, j :: 0 <= i < j < |sig.params| ==> sig.params[i].name != sig.params[j].name)
    && (forall i, j :: 0 <= i < j < |sig.required| ==> sig.required[i].0 != sig.required[j].0)
    && (forall i :: 0 <= i < |sig.required| ==> WellSorted(sig.required[i].1, sorts, CellNames(sig.required[..i])))
    && (forall i :: 0 <= i < |sig.ensured| ==> sig.ensured[i].0 in cells)
    && (forall i :: 0 <= i < |TypesOf(sig)| ==> OutsideOk(TypesOf(sig)[i], sorts, cells))
  }

  ghost predicate SameBut(env: C.SortEnv, env': C.SortEnv) {
    forall x: L.Var :: !x.Bound? ==> (x in env <==> x in env') && (x in env ==> env[x] == env'[x])
  }

  lemma {:induction false} SynthSameBut(env: C.SortEnv, env': C.SortEnv, e: C.Expr)
    requires SameBut(env, env') && (MentionsBound(e) ==>
                                    L.Bound in env && L.Bound in env' && env[L.Bound] == env'[L.Bound])
    ensures C.SynthExpr(env, e) == C.SynthExpr(env', e)
  {
    match e
    case Var(_) =>
    case Literal(_) =>
    case BinaryOp(_, e1, e2) =>
      SynthSameBut(env, env', e1);
      SynthSameBut(env, env', e2);
  }

  lemma {:induction false} UnboundIsFound(env: C.SortEnv, e: C.Expr)
    requires L.Bound !in env && C.SynthExpr(env, e).Sorted?
    ensures !MentionsBound(e)
  {
    match e
    case Var(_) =>
    case Literal(_) =>
    case BinaryOp(_, e1, e2) =>
      UnboundIsFound(env, e1);
      UnboundIsFound(env, e2);
  }

  lemma {:induction false} AfterAllSameBut(env: C.SortEnv, tys: seq<C.Ty>)
    ensures SameBut(env, AfterAll(env, tys))
  {
    if tys != [] {
      AfterAllSameBut(env, tys[..|tys| - 1]);
    }
  }

  /** A type passes and has a closed index exactly when it is well-sorted, the rest being in order. */
  lemma TypeIff(sorts: C.SortEnv, env: C.SortEnv, ty: C.Ty, cells: set<Name>)
    requires L.Bound !in sorts && SameBut(sorts, env) && OutsideOk(ty, sorts, cells)
    ensures TypeResult(env, ty).Sorted? && IndexClosed(ty) <==> WellSorted(ty, sorts, cells)
  {
    match ty
    case Refine(b, e) =>
      if !MentionsBound(e) {
        SynthSameBut(sorts, env, e);
      } else if C.SynthExpr(sorts, e).Sorted? {
        UnboundIsFound(sorts, e);
      }
    case Exists(b, e) =>
      SynthSameBut(sorts[L.Bound := C.SortOfBase(b)], After(env, ty), e);
    case MutRef(_) =>
    case Param(_) =>
  }

  /** What name resolution guarantees: the name bound by an existential type is gone from its table
      before the next type is resolved. */
  ghost predicate Resolved(sig: C.FnSig) {
    forall i :: 0 <= i < |TypesOf(sig)| ==> IndexClosed(TypesOf(sig)[i])
  }

  /** A resolved signature that is accepted is fit for the rest of the pipeline exactly when what the
      check leaves out is in order; and resolution is needed, for the check leaves the bound variable
      in scope. */
  lemma AcceptedIff(sig: C.FnSig)
    ensures SigWf(sig) <==> RestOk(sig) && Accepts(sig) && Resolved(sig)
  {
    ParamSortsFree(sig.params);
    var sorts, cells, tys := ParamSorts(sig.params), CellNames(sig.required), TypesOf(sig);
    AllTypes(sig);
    forall i | 0 <= i < |tys| && OutsideOk(tys[i], sorts, cells)
      ensures TypeResult(AfterAll(sorts, tys[..i]), tys[i]).Sorted? && IndexClosed(tys[i]) <==>
                WellSorted(tys[i], sorts, cells)
    {
      AfterAllSameBut(sorts, tys[..i]);
      TypeIff(sorts, AfterAll(sorts, tys[..i]), tys[i], cells);
    }
    if SigWf(sig) {
      forall i | 0 <= i < |tys| ensures OutsideOk(tys[i], sorts, cells) {
        assert WellSorted(tys[i], sorts, cells);
      }
    }
  }

  /** The types of a signature are well-sorted one by one. */
  lemma TypesAt(sig: C.FnSig)
    ensures var m, n, tys := |sig.args|, |sig.ensured|, TypesOf(sig);
            && |tys| == m + n + 1 && tys[m + n] == sig.ret
            && (forall i :: 0 <= i < m ==> tys[i] == sig.args[i])
            && (forall i :: 0 <= i < n ==> tys[m + i] == sig.ensured[i].1)
            && (forall i :: m <= i < m + n ==> tys[i] == sig.ensured[i - m].1)
  {
  }

  lemma AllTypes(sig: C.FnSig)
    ensures var sorts, cells, tys := ParamSorts(sig.params), CellNames(sig.required), TypesOf(sig);
            (forall i :: 0 <= i < |tys| ==> WellSorted(tys[i], sorts, cells)) <==>
            && (forall i :: 0 <= i < |sig.args| ==> WellSorted(sig.args[i], sorts, cells))
            && (forall i :: 0 <= i < |sig.ensured| ==> WellSorted(sig.ensured[i].1, sorts, cells))
            && WellSorted(sig.ret, sorts, cells)
  {
    var sorts, cells, tys := ParamSorts(sig.params), CellNames(sig.required), TypesOf(sig);
    var m, n := |sig.args|, |sig.ensured|;
    TypesAt(sig);
    if forall i :: 0 <= i < |tys| ==> WellSorted(tys[i], sorts, cells) {
      forall i | 0 <= i < m ensures WellSorted(sig.args[i], sorts, cells) { assert WellSorted(tys[i], sorts, cells); }
      forall i | 0 <= i < n
        ensures WellSorted(sig.ensured[i].1, sorts, cells)
      {
        assert WellSorted(tys[m + i], sorts, cells);
      }
    }
  }

  function IllSorted(): C.Ty {
    C.Refine(C.Int(Isize), C.Literal(C.BoolLit(true)))
  }

  /** The check never looks at required cells: to every accepted signature one can be added that holds
      an integer indexed by a boolean, and the result is still accepted. */
  lemma RequiredUnchecked(sig: C.FnSig, cell: Name)
    requires Accepts(sig) && Resolved(sig)
    ensures var sig' := sig.(required := sig.required + [(cell, IllSorted())]);
            Accepts(sig') && Resolved(sig') && !SigWf(sig')
  {
    var sig' := sig.(required := sig.required + [(cell, IllSorted())]);
    var n := |sig.required|;
    assert sig'.required[n] == (cell, IllSorted());
    assert !WellSorted(sig'.required[n].1, ParamSorts(sig'.params), CellNames(sig'.required[..n]));
    assert TypesOf(sig') == TypesOf(sig);
  }
}
