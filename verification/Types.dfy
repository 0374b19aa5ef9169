/** Refinement types and the program values they describe. */
module Types {
  import opened Logic

  datatype IntTy = Isize | I8 | I16 | I32 | I64 | I128
  datatype UintTy = Usize | U8 | U16 | U32 | U64 | U128

  datatype Loc = Local(index: nat) | Abstract(name: Name)

  datatype Ty =
    | Refine(bty: BaseTy, e: Expr)
    | Exists(bty: BaseTy, p: Pred)
    | Uninit
    | StrgRef(loc: Loc)
    | Ref(ty: Ty)
    | Param(param: nat)

  datatype BaseTy =
    | Int(ity: IntTy)
    | Uint(uty: UintTy)
    | Bool
    | Adt(did: nat, substs: seq<Ty>)

  datatype Variance = Covariant | Invariant | Contravariant | Bivariant

  /** The compiler's answer for each data type: the variance of its type parameters. */
  type Variances = nat -> seq<Variance>

  function SortOfBase(b: BaseTy): Sort {
    if b.Bool? then Sort.Bool else Sort.Int
  }

  // ----- program values -----

  /** A data type value carries its index and, for each type parameter, values it gives out
      and values it refuses to take in. */
  datatype Val =
    | Num(n: int)
    | Truth(b: bool)
    | Data(did: nat, index: int, gives: seq<seq<Val>>, refuses: seq<seq<Val>>)
    | Pointer(loc: Loc)
    | Opaque(param: nat, id: nat)
    | Junk

  type Store = map<Loc, Val>

  /** The logical index of a value. */
  function Index(v: Val): Option<Value> {
    match v
    case Num(n) => Some(IntVal(n))
    case Truth(b) => Some(BoolVal(b))
    case Data(_, n, _, _) => Some(IntVal(n))
    case _ => None
  }

  /** Membership of a value in a type, in a store, where the names in scope have the values `env`. */
  ghost predicate In(v: Val, ty: Ty, env: Env, k: Interp, tcx: Variances, st: Store)
    decreases ty
  {
    match ty
    case Refine(b, e) => InBase(v, b, env, k, tcx, st) && Index(v).Some? && Eval(e, env, None) == Index(v)
    case Exists(b, p) => InBase(v, b, env, k, tcx, st) && Index(v).Some? && HoldsPred(p, env, Index(v), k)
    case Uninit => true
    case StrgRef(loc) => v == Pointer(loc)
    case Ref(t) => v.Pointer? && v.loc in st && In(st[v.loc], t, env, k, tcx, st)
    case Param(i) => v.Opaque? && v.param == i
  }

  ghost predicate InBase(v: Val, b: BaseTy, env: Env, k: Interp, tcx: Variances, st: Store)
    decreases b
  {
    match b
    case Int(_) => v.Num?
    case Uint(_) => v.Num?
    case Bool => v.Truth?
    case Adt(did, substs) =>
      && v.Data? && v.did == did && |v.gives| == |substs| == |v.refuses|
      && (forall i | 0 <= i < |substs| && i < |tcx(did)| && (tcx(did)[i].Covariant? || tcx(did)[i].Invariant?) ::
            forall x | x in v.gives[i] :: In(x, substs[i], env, k, tcx, st))
      && (forall i | 0 <= i < |substs| && i < |tcx(did)| && (tcx(did)[i].Contravariant? || tcx(did)[i].Invariant?) ::
            forall x | x in v.refuses[i] :: !In(x, substs[i], env, k, tcx, st))
  }

  /** Every value of the first type is a value of the second, in every store. */
  ghost predicate Contained(t1: Ty, t2: Ty, env: Env, k: Interp, tcx: Variances) {
    forall v: Val, st: Store | In(v, t1, env, k, tcx, st) :: In(v, t2, env, k, tcx, st)
  }

  ghost predicate ContainedBase(b1: BaseTy, b2: BaseTy, env: Env, k: Interp, tcx: Variances) {
    forall v: Val, st: Store | InBase(v, b1, env, k, tcx, st) :: InBase(v, b2, env, k, tcx, st)
  }

  lemma BaseIndexSort(v: Val, b: BaseTy, env: Env, k: Interp, tcx: Variances, st: Store)
    requires InBase(v, b, env, k, tcx, st)
    ensures Index(v).Some? && SortOfValue(Index(v).value) == SortOfBase(b)
  {
  }

  // ----- well-formed types -----

  ghost predicate WfTy(ty: Ty, g: Scope, kvars: seq<seq<Sort>>)
    decreases ty
  {
    match ty
    case Refine(b, e) => WfBase(b, g, kvars) && SortOf(e, g, None) == Some(SortOfBase(b))
    case Exists(b, p) => WfBase(b, g, kvars) && WfPred(p, g, Some(SortOfBase(b)), kvars) && NuVariable(p)
    case Uninit => true
    case StrgRef(_) => true
    case Ref(t) => WfTy(t, g, kvars)
    case Param(_) => true
  }

  ghost predicate WfBase(b: BaseTy, g: Scope, kvars: seq<seq<Sort>>)
    decreases b
  {
    b.Adt? ==> forall i | 0 <= i < |b.substs| :: WfTy(b.substs[i], g, kvars)
  }

  /** In a kvar, the bound variable occurs only as an argument of its own. */
  predicate NuVariable(p: Pred) {
    p.KVar? ==> forall i :: 0 <= i < |p.args| ==> p.args[i] == Var(Bound) || !HasBound(p.args[i])
  }

  lemma {:induction false} WfTyExtends(ty: Ty, g0: Scope, g1: Scope, kvars0: seq<seq<Sort>>, kvars1: seq<seq<Sort>>)
    requires WfTy(ty, g0, kvars0) && Extends(g0, g1) && kvars0 <= kvars1
    ensures WfTy(ty, g1, kvars1)
    decreases ty
  {
    match ty
    case Refine(b, e) =>
      WfBaseExtends(b, g0, g1, kvars0, kvars1);
      SortExtends(e, g0, g1, None);
    case Exists(b, p) =>
      WfBaseExtends(b, g0, g1, kvars0, kvars1);
      WfPredExtends(p, g0, g1, Some(SortOfBase(b)), kvars0, kvars1);
    case Ref(t) => WfTyExtends(t, g0, g1, kvars0, kvars1);
    case _ =>
  }

  lemma {:induction false} WfBaseExtends(b: BaseTy, g0: Scope, g1: Scope, kvars0: seq<seq<Sort>>,
                                         kvars1: seq<seq<Sort>>)
    requires WfBase(b, g0, kvars0) && Extends(g0, g1) && kvars0 <= kvars1
    ensures WfBase(b, g1, kvars1)
    decreases b
  {
    if b.Adt? {
      forall i | 0 <= i < |b.substs| ensures WfTy(b.substs[i], g1, kvars1) {
        WfTyExtends(b.substs[i], g0, g1, kvars0, kvars1);
      }
    }
  }

  /** A well-formed type only looks at the names in scope. */
  lemma {:induction false} InAgree(v: Val, ty: Ty, g: Scope, kvars: seq<seq<Sort>>, env0: Env, env1: Env,
                                   k: Interp, tcx: Variances, st: Store)
    requires WfTy(ty, g, kvars) && Agree(g, env0, env1)
    ensures In(v, ty, env0, k, tcx, st) <==> In(v, ty, env1, k, tcx, st)
    decreases ty
  {
    match ty
    case Refine(b, e) =>
      InBaseAgree(v, b, g, kvars, env0, env1, k, tcx, st);
      EvalAgree(e, g, None, env0, env1, None);
    case Exists(b, p) =>
      InBaseAgree(v, b, g, kvars, env0, env1, k, tcx, st);
      PredAgree(p, g, Some(SortOfBase(b)), kvars, env0, env1, Index(v), k);
    case Ref(t) =>
      if v.Pointer? && v.loc in st {
        InAgree(st[v.loc], t, g, kvars, env0, env1, k, tcx, st);
      }
    case _ =>
  }

  lemma {:induction false} InBaseAgree(v: Val, b: BaseTy, g: Scope, kvars: seq<seq<Sort>>, env0: Env, env1: Env,
                                       k: Interp, tcx: Variances, st: Store)
    requires WfBase(b, g, kvars) && Agree(g, env0, env1)
    ensures InBase(v, b, env0, k, tcx, st) <==> InBase(v, b, env1, k, tcx, st)
    decreases b
  {
    if b.Adt? {
      forall i, x | 0 <= i < |b.substs|
        ensures In(x, b.substs[i], env0, k, tcx, st) <==> In(x, b.substs[i], env1, k, tcx, st)
      {
        InAgree(x, b.substs[i], g, kvars, env0, env1, k, tcx, st);
      }
    }
  }

  // ----- types that do not look at the store -----

  predicate RefFree(ty: Ty)
    decreases ty
  {
    match ty
    case Refine(b, _) => RefFreeBase(b)
    case Exists(b, _) => RefFreeBase(b)
    case Ref(_) => false
    case _ => true
  }

  predicate RefFreeBase(b: BaseTy)
    decreases b
  {
    b.Adt? ==> forall i | 0 <= i < |b.substs| :: RefFree(b.substs[i])
  }

  lemma {:induction false} InStore(v: Val, ty: Ty, env: Env, k: Interp, tcx: Variances, st0: Store, st1: Store)
    requires RefFree(ty)
    ensures In(v, ty, env, k, tcx, st0) <==> In(v, ty, env, k, tcx, st1)
    decreases ty
  {
    if ty.Refine? || ty.Exists? {
      InBaseStore(v, ty.bty, env, k, tcx, st0, st1);
    }
  }

  lemma {:induction false} InBaseStore(v: Val, b: BaseTy, env: Env, k: Interp, tcx: Variances, st0: Store, st1: Store)
    requires RefFreeBase(b)
    ensures InBase(v, b, env, k, tcx, st0) <==> InBase(v, b, env, k, tcx, st1)
    decreases b
  {
    if b.Adt? {
      forall i, x | 0 <= i < |b.substs|
        ensures In(x, b.substs[i], env, k, tcx, st0) <==> In(x, b.substs[i], env, k, tcx, st1)
      {
        InStore(x, b.substs[i], env, k, tcx, st0, st1);
      }
    }
  }

  // ----- what subtyping accepts -----

  function TySize(ty: Ty): nat
    decreases ty
  {
    match ty
    case Refine(b, _) => 1 + BaseSize(b)
    case Exists(b, _) => 1 + BaseSize(b)
    case Ref(t) => 1 + TySize(t)
    case _ => 1
  }

  function BaseSize(b: BaseTy): nat
    decreases b
  {
    if b.Adt? then 1 + SumSizes(b.substs) else 1
  }

  function SumSizes(ts: seq<Ty>): nat
    decreases ts
  {
    if ts == [] then 0 else TySize(ts[0]) + SumSizes(ts[1..])
  }

  lemma {:induction false} SizeOfMember(ts: seq<Ty>, i: nat)
    requires i < |ts|
    ensures TySize(ts[i]) <= SumSizes(ts)
  {
    if i > 0 {
      assert ts[i] == ts[1..][i - 1];
      SizeOfMember(ts[1..], i - 1);
    }
  }

  /** The pairs of types subtyping does not panic on. */
  ghost predicate Compatible(t1: Ty, t2: Ty, tcx: Variances)
    decreases TySize(t1) + TySize(t2), 1
  {
    if t2.Uninit? then true
    else if (t1.Refine? || t1.Exists?) && (t2.Refine? || t2.Exists?) then CompatibleBase(t1.bty, t2.bty, tcx)
    else if t1.StrgRef? && t2.StrgRef? then t1.loc == t2.loc
    else t1.Param? && t2.Param? && t1.param == t2.param
  }

  ghost predicate CompatibleBase(b1: BaseTy, b2: BaseTy, tcx: Variances)
    decreases BaseSize(b1) + BaseSize(b2), 0
  {
    match (b1, b2)
    case (Int(i1), Int(i2)) => i1 == i2
    case (Uint(u1), Uint(u2)) => u1 == u2
    case (Bool, Bool) => true
    case (Adt(d1, s1), Adt(d2, s2)) =>
      d1 == d2 && |s1| == |s2| &&
      forall i | 0 <= i < |s1| && i < |tcx(d1)| ::
        SizeOfMember(s1, i); SizeOfMember(s2, i);
        CompatibleArg(tcx(d1)[i], s1[i], s2[i], tcx)
    case _ => false
  }

  ghost predicate CompatibleArg(variance: Variance, t1: Ty, t2: Ty, tcx: Variances)
    decreases TySize(t1) + TySize(t2), 2
  {
    match variance
    case Covariant => Compatible(t1, t2, tcx)
    case Invariant => Compatible(t1, t2, tcx) && Compatible(t2, t1, tcx)
    case Contravariant => Compatible(t2, t1, tcx)
    case Bivariant => true
  }
}
