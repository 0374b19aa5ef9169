/** What a subtyping step obliges to, as a judgement on types: exactly what the tree gains, no more
    and no less, and how it relates to containment. */
module Obligations {
  import opened Logic
  import opened Tree
  import opened Types
  import opened Position
  import opened Subtyping

  // ----- the judgement -----

  /** An index meets what an indexed or existential type says about it. */
  ghost predicate IndexMeets(idx: Option<Value>, ty: Ty, env: Env, k: Interp)
    requires ty.Refine? || ty.Exists?
  {
    idx.Some? && if ty.Refine? then Eval(ty.e, env, None) == idx else HoldsPred(ty.p, env, idx, k)
  }

  /** The same index or the same predicate on both sides. */
  predicate SameIndex(t1: Ty, t2: Ty) {
    (t1.Refine? && t2.Refine? && t1.e == t2.e) || (t1.Exists? && t2.Exists? && t1.p == t2.p)
  }

  /** The type arguments to be compared for one parameter, in the directions of its variance. */
  function ArgPairs(variance: Variance, t1: Ty, t2: Ty): (r: seq<(Ty, Ty)>)
    ensures forall i :: 0 <= i < |r| ==> TySize(r[i].0) + TySize(r[i].1) == TySize(t1) + TySize(t2)
  {
    match variance
    case Covariant => [(t1, t2)]
    case Contravariant => [(t2, t1)]
    case Invariant => [(t1, t2), (t2, t1)]
    case Bivariant => []
  }

  /** For the first `n` parameters. */
  function ArgsPairs(variances: seq<Variance>, a1: seq<Ty>, a2: seq<Ty>, n: nat): (r: seq<(Ty, Ty)>)
    requires n <= |variances| && n <= |a1| && n <= |a2|
    ensures forall i :: 0 <= i < |r| ==> TySize(r[i].0) + TySize(r[i].1) <= SumSizes(a1) + SumSizes(a2)
  {
    if n == 0 then []
    else
      SizeOfMember(a1, n - 1);
      SizeOfMember(a2, n - 1);
      ArgsPairs(variances, a1, a2, n - 1) + ArgPairs(variances[n - 1], a1[n - 1], a2[n - 1])
  }

  function Compared(did: nat, a1: seq<Ty>, tcx: Variances): (n: nat)
    ensures n <= |tcx(did)| && n <= |a1|
  {
    if |tcx(did)| <= |a1| then |tcx(did)| else |a1|
  }

  function BasePairs(b1: BaseTy, b2: BaseTy, tcx: Variances): (r: seq<(Ty, Ty)>)
    ensures forall i :: 0 <= i < |r| ==> TySize(r[i].0) + TySize(r[i].1) < BaseSize(b1) + BaseSize(b2)
  {
    if b1.Adt? && b2.Adt? && b1.did == b2.did && |b1.substs| == |b2.substs| then
      ArgsPairs(tcx(b1.did), b1.substs, b2.substs, Compared(b1.did, b1.substs, tcx))
    else []
  }

  /** Where the names in scope have the values `env`: every index of the first type meets the second,
      and so do the type arguments wherever there is an index. */
  ghost predicate Subtype(t1: Ty, t2: Ty, env: Env, k: Interp, tcx: Variances)
    decreases TySize(t1) + TySize(t2), 1
  {
    if !((t1.Refine? || t1.Exists?) && (t2.Refine? || t2.Exists?)) then true
    else if SameIndex(t1, t2) then SubtypeBase(t1.bty, t2.bty, env, k, tcx)
    else
      forall idx: Value | IndexOf(idx, t1, env, k) ::
        IndexMeets(Some(idx), t2, env, k) && SubtypeBase(t1.bty, t2.bty, env, k, tcx)
  }

  ghost predicate SubtypeBase(b1: BaseTy, b2: BaseTy, env: Env, k: Interp, tcx: Variances)
    decreases BaseSize(b1) + BaseSize(b2), 0
  {
    forall i | 0 <= i < |BasePairs(b1, b2, tcx)| ::
      Subtype(BasePairs(b1, b2, tcx)[i].0, BasePairs(b1, b2, tcx)[i].1, env, k, tcx)
  }

  ghost predicate IndexOf(idx: Value, ty: Ty, env: Env, k: Interp)
    requires ty.Refine? || ty.Exists?
  {
    SortOfValue(idx) == SortOfBase(ty.bty) && IndexMeets(Some(idx), ty, env, k)
  }

  ghost predicate AllSub(pairs: seq<(Ty, Ty)>, env: Env, k: Interp, tcx: Variances) {
    forall i | 0 <= i < |pairs| :: Subtype(pairs[i].0, pairs[i].1, env, k, tcx)
  }

  lemma AllSubConcat(a: seq<(Ty, Ty)>, b: seq<(Ty, Ty)>, env: Env, k: Interp, tcx: Variances)
    ensures AllSub(a + b, env, k, tcx) <==> AllSub(a, env, k, tcx) && AllSub(b, env, k, tcx)
  {
    var c := a + b;
    if AllSub(c, env, k, tcx) {
      forall i | 0 <= i < |a| ensures Subtype(a[i].0, a[i].1, env, k, tcx) { assert c[i] == a[i]; }
      forall i | 0 <= i < |b| ensures Subtype(b[i].0, b[i].1, env, k, tcx) { assert c[|a| + i] == b[i]; }
    }
  }

  lemma AllSubOne(t1: Ty, t2: Ty, env: Env, k: Interp, tcx: Variances)
    ensures AllSub([(t1, t2)], env, k, tcx) <==> Subtype(t1, t2, env, k, tcx)
  {
    assert [(t1, t2)][0] == (t1, t2);
  }

  // ----- judgement and containment -----

  lemma {:induction false} ArgSound(variance: Variance, t1: Ty, t2: Ty, env: Env, k: Interp, tcx: Variances)
    requires AllSub(ArgPairs(variance, t1, t2), env, k, tcx) && CompatibleArg(variance, t1, t2, tcx)
    ensures ArgContained(variance, t1, t2, env, k, tcx)
    decreases TySize(t1) + TySize(t2), 2
  {
    var pairs := ArgPairs(variance, t1, t2);
    match variance
    case Covariant => assert Subtype(pairs[0].0, pairs[0].1, env, k, tcx); SubSound(t1, t2, env, k, tcx);
    case Contravariant => assert Subtype(pairs[0].0, pairs[0].1, env, k, tcx); SubSound(t2, t1, env, k, tcx);
    case Invariant =>
      assert Subtype(pairs[0].0, pairs[0].1, env, k, tcx) && Subtype(pairs[1].0, pairs[1].1, env, k, tcx);
      SubSound(t1, t2, env, k, tcx);
      SubSound(t2, t1, env, k, tcx);
    case Bivariant =>
  }

  /** The judgement implies containment. */
  lemma {:induction false} SubSound(t1: Ty, t2: Ty, env: Env, k: Interp, tcx: Variances)
    requires Subtype(t1, t2, env, k, tcx) && Compatible(t1, t2, tcx)
    ensures Contained(t1, t2, env, k, tcx)
    decreases TySize(t1) + TySize(t2), 1
  {
    if (t1.Refine? || t1.Exists?) && (t2.Refine? || t2.Exists?) {
      forall v: Val, st: Store | In(v, t1, env, k, tcx, st) ensures In(v, t2, env, k, tcx, st) {
        BaseIndexSort(v, t1.bty, env, k, tcx, st);
        assert IndexOf(Index(v).value, t1, env, k);
        BaseSound(t1.bty, t2.bty, env, k, tcx);
        assert InBase(v, t2.bty, env, k, tcx, st);
      }
    }
  }

  lemma {:induction false} BaseSound(b1: BaseTy, b2: BaseTy, env: Env, k: Interp, tcx: Variances)
    requires SubtypeBase(b1, b2, env, k, tcx) && CompatibleBase(b1, b2, tcx)
    ensures ContainedBase(b1, b2, env, k, tcx)
    decreases BaseSize(b1) + BaseSize(b2), 0
  {
    if b1.Adt? {
      var n := Compared(b1.did, b1.substs, tcx);
      assert BasePairs(b1, b2, tcx) == ArgsPairs(tcx(b1.did), b1.substs, b2.substs, n);
      assert AllSub(BasePairs(b1, b2, tcx), env, k, tcx);
      forall i | 0 <= i < |b1.substs| && i < |tcx(b1.did)|
        ensures ArgContained(tcx(b1.did)[i], b1.substs[i], b2.substs[i], env, k, tcx)
      {
        ArgOfPairs(tcx(b1.did), b1.substs, b2.substs, n, i, env, k, tcx);
        SizeOfMember(b1.substs, i);
        SizeOfMember(b2.substs, i);
        ArgSound(tcx(b1.did)[i], b1.substs[i], b2.substs[i], env, k, tcx);
      }
      ArgsContained(b1.did, b1.substs, b2.substs, env, k, tcx);
    }
  }

  lemma {:induction false} ArgOfPairs(variances: seq<Variance>, a1: seq<Ty>, a2: seq<Ty>, n: nat, i: nat, env: Env,
                                      k: Interp, tcx: Variances)
    requires n <= |variances| && n <= |a1| && n <= |a2| && i < n
    requires AllSub(ArgsPairs(variances, a1, a2, n), env, k, tcx)
    ensures AllSub(ArgPairs(variances[i], a1[i], a2[i]), env, k, tcx)
  {
    var init, last := ArgsPairs(variances, a1, a2, n - 1), ArgPairs(variances[n - 1], a1[n - 1], a2[n - 1]);
    assert ArgsPairs(variances, a1, a2, n) == init + last;
    AllSubConcat(init, last, env, k, tcx);
    if i < n - 1 {
      ArgOfPairs(variances, a1, a2, n - 1, i, env, k, tcx);
    }
  }

  /** Types without type arguments. */
  predicate ScalarType(ty: Ty) {
    ty.Refine? || ty.Exists? ==> Scalar(ty.bty)
  }

  /** For them containment implies the judgement. */
  lemma SubNeeded(t1: Ty, t2: Ty, env: Env, k: Interp, tcx: Variances)
    requires ScalarType(t1) && Contained(t1, t2, env, k, tcx)
    ensures Subtype(t1, t2, env, k, tcx)
  {
    if (t1.Refine? || t1.Exists?) && (t2.Refine? || t2.Exists?) && !SameIndex(t1, t2) {
      forall idx: Value | IndexOf(idx, t1, env, k) ensures IndexMeets(Some(idx), t2, env, k) {
        var v := ScalarWitness(t1.bty, idx, env, k, tcx, map[]);
        assert In(v, t1, env, k, tcx, map[]);
        assert In(v, t2, env, k, tcx, map[]);
      }
    }
  }

  lemma ArgNeeded(variance: Variance, t1: Ty, t2: Ty, env: Env, k: Interp, tcx: Variances)
    requires ScalarType(t1) && ScalarType(t2) && ArgContained(variance, t1, t2, env, k, tcx)
    ensures AllSub(ArgPairs(variance, t1, t2), env, k, tcx)
  {
    if variance.Covariant? || variance.Invariant? { SubNeeded(t1, t2, env, k, tcx); }
    if variance.Contravariant? || variance.Invariant? { SubNeeded(t2, t1, env, k, tcx); }
  }

  // ----- the judgement looks at the names in scope only -----

  lemma {:induction false} SubAgree(t1: Ty, t2: Ty, g: Scope, kvars: seq<seq<Sort>>, env0: Env, env1: Env, k: Interp,
                                    tcx: Variances)
    requires WfTy(t1, g, kvars) && WfTy(t2, g, kvars) && Agree(g, env0, env1)
    ensures Subtype(t1, t2, env0, k, tcx) <==> Subtype(t1, t2, env1, k, tcx)
    decreases TySize(t1) + TySize(t2), 1
  {
    if (t1.Refine? || t1.Exists?) && (t2.Refine? || t2.Exists?) {
      SubBaseAgree(t1.bty, t2.bty, g, kvars, env0, env1, k, tcx);
      forall idx: Value
        ensures IndexOf(idx, t1, env0, k) <==> IndexOf(idx, t1, env1, k)
        ensures IndexMeets(Some(idx), t2, env0, k) <==> IndexMeets(Some(idx), t2, env1, k)
      {
        IndexAgree(Some(idx), t1, g, kvars, env0, env1, k);
        IndexAgree(Some(idx), t2, g, kvars, env0, env1, k);
      }
    }
  }

  lemma IndexAgree(idx: Option<Value>, ty: Ty, g: Scope, kvars: seq<seq<Sort>>, env0: Env, env1: Env, k: Interp)
    requires (ty.Refine? || ty.Exists?) && WfTy(ty, g, kvars) && Agree(g, env0, env1)
    ensures IndexMeets(idx, ty, env0, k) <==> IndexMeets(idx, ty, env1, k)
  {
    if ty.Refine? {
      EvalAgree(ty.e, g, None, env0, env1, None);
    } else {
      PredAgree(ty.p, g, Some(SortOfBase(ty.bty)), kvars, env0, env1, idx, k);
    }
  }

  lemma {:induction false} SubBaseAgree(b1: BaseTy, b2: BaseTy, g: Scope, kvars: seq<seq<Sort>>, env0: Env, env1: Env,
                                        k: Interp, tcx: Variances)
    requires WfBase(b1, g, kvars) && WfBase(b2, g, kvars) && Agree(g, env0, env1)
    ensures SubtypeBase(b1, b2, env0, k, tcx) <==> SubtypeBase(b1, b2, env1, k, tcx)
    decreases BaseSize(b1) + BaseSize(b2), 0
  {
    var pairs := BasePairs(b1, b2, tcx);
    forall i | 0 <= i < |pairs|
      ensures Subtype(pairs[i].0, pairs[i].1, env0, k, tcx) <==> Subtype(pairs[i].0, pairs[i].1, env1, k, tcx)
    {
      BasePairsWf(b1, b2, g, kvars, tcx, i);
      SubAgree(pairs[i].0, pairs[i].1, g, kvars, env0, env1, k, tcx);
    }
  }

  lemma BasePairsWf(b1: BaseTy, b2: BaseTy, g: Scope, kvars: seq<seq<Sort>>, tcx: Variances, i: nat)
    requires WfBase(b1, g, kvars) && WfBase(b2, g, kvars) && i < |BasePairs(b1, b2, tcx)|
    ensures WfTy(BasePairs(b1, b2, tcx)[i].0, g, kvars) && WfTy(BasePairs(b1, b2, tcx)[i].1, g, kvars)
  {
    ArgsPairsWf(tcx(b1.did), b1.substs, b2.substs, Compared(b1.did, b1.substs, tcx), g, kvars, i);
  }

  lemma {:induction false} ArgsPairsWf(variances: seq<Variance>, a1: seq<Ty>, a2: seq<Ty>, n: nat, g: Scope,
                                       kvars: seq<seq<Sort>>, i: nat)
    requires n <= |variances| && n <= |a1| && n <= |a2| && i < |ArgsPairs(variances, a1, a2, n)|
    requires forall j :: 0 <= j < n ==> WfTy(a1[j], g, kvars) && WfTy(a2[j], g, kvars)
    ensures var pair := ArgsPairs(variances, a1, a2, n)[i]; WfTy(pair.0, g, kvars) && WfTy(pair.1, g, kvars)
  {
    if i < |ArgsPairs(variances, a1, a2, n - 1)| {
      ArgsPairsWf(variances, a1, a2, n - 1, g, kvars, i);
    }
  }

  // ----- what the tree gains -----

  /** Between the two states the tree has gained exactly that the pairs are in the judgement wherever the
      position is reached. */
  ghost predicate Obliged(s0: State, p: Pos, s1: State, pairs: seq<(Ty, Ty)>, tcx: Variances)
    requires At(s0, p)
  {
    forall k: Interp ::
      Holds(s1.root, map[], k) <==> Holds(s0.root, map[], k) && SubsHold(s0, p, pairs, k, tcx)
  }

  ghost predicate SubsHold(s: State, p: Pos, pairs: seq<(Ty, Ty)>, k: Interp, tcx: Variances)
    requires At(s, p)
  {
    forall env: Env | Reach(s.root, p.node, map[], env, k) :: AllSub(pairs, env, k, tcx)
  }

  lemma NothingObliged(s: State, p: Pos, pairs: seq<(Ty, Ty)>, tcx: Variances)
    requires At(s, p)
    requires forall i :: 0 <= i < |pairs| ==>
               !((pairs[i].0.Refine? || pairs[i].0.Exists?) && (pairs[i].1.Refine? || pairs[i].1.Exists?))
    ensures Obliged(s, p, s, pairs, tcx)
  {
    forall k: Interp ensures SubsHold(s, p, pairs, k, tcx) {
      forall env: Env ensures AllSub(pairs, env, k, tcx) {
      }
    }
  }

  lemma SubsHoldConcat(s: State, p: Pos, a: seq<(Ty, Ty)>, b: seq<(Ty, Ty)>, k: Interp, tcx: Variances)
    requires At(s, p)
    ensures SubsHold(s, p, a + b, k, tcx) <==> SubsHold(s, p, a, k, tcx) && SubsHold(s, p, b, k, tcx)
  {
    forall env: Env ensures AllSub(a + b, env, k, tcx) <==> AllSub(a, env, k, tcx) && AllSub(b, env, k, tcx) {
      AllSubConcat(a, b, env, k, tcx);
    }
  }

  lemma SubsHoldLater(s0: State, s1: State, p: Pos, pairs: seq<(Ty, Ty)>, k: Interp, tcx: Variances)
    requires At(s0, p) && At(s1, p) && Keeps(s0, s1, p)
    ensures SubsHold(s0, p, pairs, k, tcx) <==> SubsHold(s1, p, pairs, k, tcx)
  {
    forall env: Env ensures Reach(s1.root, p.node, map[], env, k) <==> Reach(s0.root, p.node, map[], env, k) {
      KeepsReach(s0, s1, p, env, k);
    }
  }

  /** One piece of work after another. */
  lemma ObligedTrans(s0: State, s1: State, p: Pos, s2: State, a: seq<(Ty, Ty)>, b: seq<(Ty, Ty)>, tcx: Variances)
    requires At(s0, p) && At(s1, p) && Keeps(s0, s1, p)
    requires Obliged(s0, p, s1, a, tcx) && Obliged(s1, p, s2, b, tcx)
    ensures Obliged(s0, p, s2, a + b, tcx)
  {
    forall k: Interp
      ensures Holds(s2.root, map[], k) <==> Holds(s0.root, map[], k) && SubsHold(s0, p, a + b, k, tcx)
    {
      SubsHoldConcat(s0, p, a, b, k, tcx);
      SubsHoldLater(s0, s1, p, b, k, tcx);
    }
  }

  /** Hence containment, under the obligations ... */
  lemma ObligedEntails(s0: State, p: Pos, s1: State, t1: Ty, t2: Ty, tcx: Variances)
    requires At(s0, p) && Obliged(s0, p, s1, [(t1, t2)], tcx) && Compatible(t1, t2, tcx)
    ensures Entails(s0, p, s1, t1, t2, tcx)
  {
    forall k: Interp, env: Env | Holds(s1.root, map[], k) && Reach(s0.root, p.node, map[], env, k)
      ensures Contained(t1, t2, env, k, tcx)
    {
      assert SubsHold(s0, p, [(t1, t2)], k, tcx);
      AllSubOne(t1, t2, env, k, tcx);
      SubSound(t1, t2, env, k, tcx);
    }
  }

  /** ... and for scalars the obligations, where there is containment. */
  lemma ObligedNecessary(s0: State, p: Pos, s1: State, t1: Ty, t2: Ty, tcx: Variances)
    requires At(s0, p) && Obliged(s0, p, s1, [(t1, t2)], tcx) && ScalarType(t1)
    ensures Necessary(s0, p, s1, t1, t2, tcx)
  {
    forall k: Interp |
      Holds(s0.root, map[], k) &&
      forall env: Env | Reach(s0.root, p.node, map[], env, k) :: Contained(t1, t2, env, k, tcx)
      ensures Holds(s1.root, map[], k)
    {
      forall env: Env | Reach(s0.root, p.node, map[], env, k) ensures AllSub([(t1, t2)], env, k, tcx) {
        SubNeeded(t1, t2, env, k, tcx);
        AllSubOne(t1, t2, env, k, tcx);
      }
      assert SubsHold(s0, p, [(t1, t2)], k, tcx);
    }
  }

  /** The same for type arguments, in the directions of the variance. */
  lemma ArgObligedEntails(s0: State, p: Pos, s1: State, variance: Variance, t1: Ty, t2: Ty, tcx: Variances)
    requires At(s0, p) && Obliged(s0, p, s1, ArgPairs(variance, t1, t2), tcx) && CompatibleArg(variance, t1, t2, tcx)
    ensures EntailsArg(s0, p, s1, variance, t1, t2, tcx)
  {
    forall k: Interp, env: Env | Holds(s1.root, map[], k) && Reach(s0.root, p.node, map[], env, k)
      ensures ArgContained(variance, t1, t2, env, k, tcx)
    {
      assert SubsHold(s0, p, ArgPairs(variance, t1, t2), k, tcx);
      ArgSound(variance, t1, t2, env, k, tcx);
    }
  }

  lemma ArgObligedNecessary(s0: State, p: Pos, s1: State, variance: Variance, t1: Ty, t2: Ty, tcx: Variances)
    requires At(s0, p) && Obliged(s0, p, s1, ArgPairs(variance, t1, t2), tcx) && ScalarType(t1) && ScalarType(t2)
    ensures NecessaryArg(s0, p, s1, variance, t1, t2, tcx)
  {
    forall k: Interp |
      Holds(s0.root, map[], k) &&
      forall env: Env | Reach(s0.root, p.node, map[], env, k) :: ArgContained(variance, t1, t2, env, k, tcx)
      ensures Holds(s1.root, map[], k)
    {
      forall env: Env | Reach(s0.root, p.node, map[], env, k) ensures AllSub(ArgPairs(variance, t1, t2), env, k, tcx) {
        ArgNeeded(variance, t1, t2, env, k, tcx);
      }
      assert SubsHold(s0, p, ArgPairs(variance, t1, t2), k, tcx);
    }
  }

  lemma ArgObliged(s0: State, p: Pos, s1: State, variance: Variance, t1: Ty, t2: Ty, tcx: Variances)
    requires At(s0, p) && Obliged(s0, p, s1, ArgPairs(variance, t1, t2), tcx) && CompatibleArg(variance, t1, t2, tcx)
    ensures EntailsArg(s0, p, s1, variance, t1, t2, tcx)
    ensures ScalarType(t1) && ScalarType(t2) ==> NecessaryArg(s0, p, s1, variance, t1, t2, tcx)
  {
    ArgObligedEntails(s0, p, s1, variance, t1, t2, tcx);
    if ScalarType(t1) && ScalarType(t2) { ArgObligedNecessary(s0, p, s1, variance, t1, t2, tcx); }
  }

  ghost predicate NecessaryArg(s0: State, p: Pos, s1: State, variance: Variance, t1: Ty, t2: Ty, tcx: Variances)
    requires At(s0, p)
  {
    forall k: Interp |
      Holds(s0.root, map[], k) &&
      forall env: Env | Reach(s0.root, p.node, map[], env, k) :: ArgContained(variance, t1, t2, env, k, tcx) ::
        Holds(s1.root, map[], k)
  }

  // ----- the steps of the comparison -----

  lemma SameIndexObliged(s: State, p: Pos, s1: State, t1: Ty, t2: Ty, tcx: Variances)
    requires At(s, p) && SameIndex(t1, t2) && Obliged(s, p, s1, BasePairs(t1.bty, t2.bty, tcx), tcx)
    ensures Obliged(s, p, s1, [(t1, t2)], tcx)
  {
    forall k: Interp
      ensures SubsHold(s, p, [(t1, t2)], k, tcx) <==> SubsHold(s, p, BasePairs(t1.bty, t2.bty, tcx), k, tcx)
    {
      forall env: Env
        ensures AllSub([(t1, t2)], env, k, tcx) <==> AllSub(BasePairs(t1.bty, t2.bty, tcx), env, k, tcx)
      {
        AllSubOne(t1, t2, env, k, tcx);
      }
    }
  }

  /** The goal pushed for an indexed type, after its base types. */
  lemma GoalObliged(s: State, p: Pos, s1: State, b1: BaseTy, e: Expr, t2: Ty, tcx: Variances)
    requires Wf(s, p) && At(s1, p) && Keeps(s, s1, p) && (t2.Refine? || t2.Exists?) && !SameIndex(Refine(b1, e), t2)
    requires SortOf(e, ScopeOf(s, p), None) == Some(SortOfBase(b1))
    requires Obliged(s, p, s1, BasePairs(b1, t2.bty, tcx), tcx)
    ensures Obliged(s, p, GoalState(s1, p, Goal(e, t2)), [(Refine(b1, e), t2)], tcx)
  {
    var s2, t1 := GoalState(s1, p, Goal(e, t2)), Refine(b1, e);
    forall k: Interp
      ensures Holds(s2.root, map[], k) <==> Holds(s.root, map[], k) && SubsHold(s, p, [(t1, t2)], k, tcx)
    {
      GoalStateMeaning(s1, p, Goal(e, t2), k);
      forall env: Env | Reach(s.root, p.node, map[], env, k)
        ensures Reach(s1.root, p.node, map[], env, k)
        ensures AllSub([(t1, t2)], env, k, tcx) <==>
                AllSub(BasePairs(b1, t2.bty, tcx), env, k, tcx) && HoldsPred(Goal(e, t2), env, None, k)
      {
        KeepsReach(s, s1, p, env, k);
        ReachScope(s, p, env, k);
        GoalSub(b1, e, t2, ScopeOf(s, p), env, k, tcx);
        AllSubOne(t1, t2, env, k, tcx);
      }
      forall env: Env | Reach(s1.root, p.node, map[], env, k) ensures Reach(s.root, p.node, map[], env, k) {
        KeepsReach(s, s1, p, env, k);
      }
    }
  }

  lemma GoalSub(b1: BaseTy, e: Expr, t2: Ty, g: Scope, env: Env, k: Interp, tcx: Variances)
    requires (t2.Refine? || t2.Exists?) && !SameIndex(Refine(b1, e), t2)
    requires SortOf(e, g, None) == Some(SortOfBase(b1)) && Conforms(env, g)
    ensures Subtype(Refine(b1, e), t2, env, k, tcx) <==>
            SubtypeBase(b1, t2.bty, env, k, tcx) && HoldsPred(Goal(e, t2), env, None, k)
  {
    EvalSorted(e, g, None, env, None);
    SortedHasNoBound(e, g);
    var idx := Eval(e, env, None).value;
    GoalMeaning(e, t2, idx, env, k);
    assert IndexOf(idx, Refine(b1, e), env, k);
  }

  /** An existential type: what is gained below its binder. */
  lemma UnpackObliged(s: State, p: Pos, b: BaseTy, pred: Pred, s2: State, t2: Ty, tcx: Variances)
    requires Wf(s, p) && WfTy(Exists(b, pred), ScopeOf(s, p), s.kvars) && WfTy(t2, ScopeOf(s, p), s.kvars)
    requires At(UnpackState(s, p, b, pred), PushForallPos(s, p)) && !SameIndex(Exists(b, pred), t2)
    requires Obliged(UnpackState(s, p, b, pred), PushForallPos(s, p), s2, [(Refine(b, FreeVar(s.gen)), t2)], tcx)
    ensures Obliged(s, p, s2, [(Exists(b, pred), t2)], tcx)
  {
    var s1, q, t1, u1 := UnpackState(s, p, b, pred), PushForallPos(s, p), Exists(b, pred), Refine(b, FreeVar(s.gen));
    forall k: Interp ensures SubsHold(s, p, [(t1, t2)], k, tcx) <==> SubsHold(s1, q, [(u1, t2)], k, tcx) {
      if SubsHold(s, p, [(t1, t2)], k, tcx) {
        forall env1: Env | Reach(s1.root, q.node, map[], env1, k) ensures AllSub([(u1, t2)], env1, k, tcx) {
          var env := UnpackReachInv(s, p, b, pred, env1, k);
          AllSubOne(t1, t2, env, k, tcx);
          OpenedSub(s, p, b, pred, t2, env, env1, k, tcx);
          AllSubOne(u1, t2, env1, k, tcx);
        }
      }
      if SubsHold(s1, q, [(u1, t2)], k, tcx) {
        forall env: Env | Reach(s.root, p.node, map[], env, k) ensures AllSub([(t1, t2)], env, k, tcx) {
          ClosedSub(s, p, b, pred, t2, env, k, tcx);
          AllSubOne(t1, t2, env, k, tcx);
        }
      }
    }
    forall k: Interp ensures Holds(s1.root, map[], k) <==> Holds(s.root, map[], k) {
      UnpackHolds(s, p, b, pred, k);
    }
  }

  lemma OpenedSub(s: State, p: Pos, b: BaseTy, pred: Pred, t2: Ty, env: Env, env1: Env, k: Interp, tcx: Variances)
    requires p.nvars <= |s.vars| && WfBase(b, ScopeOf(s, p), s.kvars) && WfTy(t2, ScopeOf(s, p), s.kvars)
    requires !SameIndex(Exists(b, pred), t2) && Agree(ScopeOf(s, p), env, env1)
    requires s.gen in env1 && SortOfValue(env1[s.gen]) == SortOfBase(b) && HoldsPred(pred, env, Some(env1[s.gen]), k)
    requires Subtype(Exists(b, pred), t2, env, k, tcx)
    ensures Subtype(Refine(b, FreeVar(s.gen)), t2, env1, k, tcx)
  {
    if t2.Refine? || t2.Exists? {
      assert IndexOf(env1[s.gen], Exists(b, pred), env, k);
      IndexAgree(Some(env1[s.gen]), t2, ScopeOf(s, p), s.kvars, env, env1, k);
      SubBaseAgree(b, t2.bty, ScopeOf(s, p), s.kvars, env, env1, k, tcx);
    }
  }

  lemma ClosedSub(s: State, p: Pos, b: BaseTy, pred: Pred, t2: Ty, env: Env, k: Interp, tcx: Variances)
    requires Wf(s, p) && WfTy(Exists(b, pred), ScopeOf(s, p), s.kvars) && WfTy(t2, ScopeOf(s, p), s.kvars)
    requires At(UnpackState(s, p, b, pred), PushForallPos(s, p)) && !SameIndex(Exists(b, pred), t2)
    requires SubsHold(UnpackState(s, p, b, pred), PushForallPos(s, p), [(Refine(b, FreeVar(s.gen)), t2)], k, tcx)
    requires Reach(s.root, p.node, map[], env, k)
    ensures Subtype(Exists(b, pred), t2, env, k, tcx)
  {
    var u1 := Refine(b, FreeVar(s.gen));
    if t2.Refine? || t2.Exists? {
      forall idx: Value | IndexOf(idx, Exists(b, pred), env, k)
        ensures IndexMeets(Some(idx), t2, env, k) && SubtypeBase(b, t2.bty, env, k, tcx)
      {
        var env1 := env[s.gen := idx];
        UnpackReach(s, p, b, pred, env, idx, k);
        AllSubOne(u1, t2, env1, k, tcx);
        ReachScope(s, p, env, k);
        assert Agree(ScopeOf(s, p), env, env1);
        FreshIndex(s, p, b, t2);
        assert IndexOf(idx, u1, env1, k);
        IndexAgree(Some(idx), t2, ScopeOf(s, p), s.kvars, env, env1, k);
        SubBaseAgree(b, t2.bty, ScopeOf(s, p), s.kvars, env, env1, k, tcx);
      }
    }
  }

  /** The name of the binder is not the index of a type in scope. */
  lemma FreshIndex(s: State, p: Pos, b: BaseTy, t2: Ty)
    requires Wf(s, p) && WfTy(t2, ScopeOf(s, p), s.kvars)
    ensures !SameIndex(Refine(b, FreeVar(s.gen)), t2)
  {
    assert s.gen !in ScopeOf(s, p);
  }

  /** Comparing an existential type: what was gained below its binder is gained above it. */
  lemma UnpackedWork(s: State, p: Pos, b: BaseTy, pred: Pred, s2: State, t2: Ty, ok: bool, tcx: Variances)
    requires Wf(s, p) && WfTy(Exists(b, pred), ScopeOf(s, p), s.kvars) && WfTy(t2, ScopeOf(s, p), s.kvars)
    requires At(UnpackState(s, p, b, pred), PushForallPos(s, p)) && !SameIndex(Exists(b, pred), t2)
    requires Worked(UnpackState(s, p, b, pred), s2, PushForallPos(s, p))
    requires ok ==> Obliged(UnpackState(s, p, b, pred), PushForallPos(s, p), s2, [(Refine(b, FreeVar(s.gen)), t2)], tcx)
    ensures Worked(s, s2, p)
    ensures ok ==> Obliged(s, p, s2, [(Exists(b, pred), t2)], tcx)
  {
    var s1, q := UnpackState(s, p, b, pred), PushForallPos(s, p);
    UnpackKeeps(s, p, b, pred);
    KeepsTrans(s, s1, s2, p, q);
    KeepsWf(s, s2, p, q);
    if ok {
      UnpackObliged(s, p, b, pred, s2, t2, tcx);
    }
  }

  ghost predicate CompatibleUpTo(variances: seq<Variance>, a1: seq<Ty>, a2: seq<Ty>, n: nat, tcx: Variances)
    requires n <= |variances| && n <= |a1| && n <= |a2|
  {
    forall i | 0 <= i < n :: CompatibleArg(variances[i], a1[i], a2[i], tcx)
  }

  lemma IncompatibleArg(did: nat, a1: seq<Ty>, a2: seq<Ty>, i: nat, tcx: Variances)
    requires |a1| == |a2| && i < |a1| && i < |tcx(did)| && !CompatibleArg(tcx(did)[i], a1[i], a2[i], tcx)
    ensures !CompatibleBase(Adt(did, a1), Adt(did, a2), tcx)
  {
  }

  /** One more pair of type arguments. */
  lemma ArgsStep(s0: State, s1: State, p: Pos, s2: State, variances: seq<Variance>, a1: seq<Ty>, a2: seq<Ty>, i: nat,
                 tcx: Variances)
    requires i < |variances| && i < |a1| == |a2|
    requires At(s0, p) && At(s1, p) && Keeps(s0, s1, p)
    requires CompatibleUpTo(variances, a1, a2, i, tcx) && CompatibleArg(variances[i], a1[i], a2[i], tcx)
    requires Obliged(s0, p, s1, ArgsPairs(variances, a1, a2, i), tcx)
    requires Obliged(s1, p, s2, ArgPairs(variances[i], a1[i], a2[i]), tcx)
    ensures CompatibleUpTo(variances, a1, a2, i + 1, tcx)
    ensures Obliged(s0, p, s2, ArgsPairs(variances, a1, a2, i + 1), tcx)
  {
    ObligedTrans(s0, s1, p, s2, ArgsPairs(variances, a1, a2, i), ArgPairs(variances[i], a1[i], a2[i]), tcx);
  }

  lemma CompatibleSort(b1: BaseTy, b2: BaseTy, tcx: Variances)
    requires CompatibleBase(b1, b2, tcx)
    ensures SortOfBase(b1) == SortOfBase(b2)
  {
  }
}
