/** Joining environments at a join point, for types without references: the order in which types
    are weakened, up to the names of kvars, and how often an environment can change. */
module Joins {
  import opened Logic
  import opened Types
  import opened Environment

  /** Without references, and with as many arguments as the data types have parameters. */
  predicate Plain(ty: Ty, tcx: Variances)
    decreases ty
  {
    match ty
    case Refine(b, _) => PlainBase(b, tcx)
    case Exists(b, _) => PlainBase(b, tcx)
    case Uninit => true
    case StrgRef(_) => false
    case Ref(_) => false
    case Param(_) => true
  }

  predicate PlainBase(b: BaseTy, tcx: Variances)
    decreases b
  {
    b.Adt? ==> |b.substs| == |tcx(b.did)| && forall i | 0 <= i < |b.substs| :: Plain(b.substs[i], tcx)
  }

  ghost predicate PlainBindings(bs: Bindings, tcx: Variances) {
    forall loc :: loc in bs ==> bs[loc].Strong? && Plain(bs[loc].sty, tcx)
  }

  // ----- the order of types -----

  /** The second type knows less: an index is forgotten, or everything.  Predicates do not count. */
  predicate Leq(t1: Ty, t2: Ty)
    decreases t1
  {
    if t2.Uninit? then true
    else if t1.Refine? && t2.Refine? then t1.e == t2.e && LeqBase(t1.bty, t2.bty)
    else if (t1.Refine? || t1.Exists?) && t2.Exists? then LeqBase(t1.bty, t2.bty)
    else t1.Param? && t1 == t2
  }

  predicate LeqBase(b1: BaseTy, b2: BaseTy)
    decreases b1
  {
    if b1.Adt? && b2.Adt? then
      b1.did == b2.did && |b1.substs| == |b2.substs| &&
        forall i | 0 <= i < |b1.substs| :: Leq(b1.substs[i], b2.substs[i])
    else b1 == b2
  }

  lemma {:induction false} LeqRefl(t: Ty, tcx: Variances)
    requires Plain(t, tcx)
    ensures Leq(t, t)
    decreases t
  {
    if t.Refine? || t.Exists? {
      LeqBaseRefl(t.bty, tcx);
    }
  }

  lemma {:induction false} LeqBaseRefl(b: BaseTy, tcx: Variances)
    requires PlainBase(b, tcx)
    ensures LeqBase(b, b)
    decreases b
  {
    if b.Adt? {
      forall i | 0 <= i < |b.substs| ensures Leq(b.substs[i], b.substs[i]) {
        LeqRefl(b.substs[i], tcx);
      }
    }
  }

  /** Types that have a join: equal ones, anything with nothing, and indexed or existential types of
      the same kind, where data types have to be covariant in joinable arguments. */
  predicate Joinable(t1: Ty, t2: Ty, tcx: Variances)
    decreases t1
  {
    t1 == t2 || t1.Uninit? || t2.Uninit? ||
    ((t1.Refine? || t1.Exists?) && (t2.Refine? || t2.Exists?) && JoinableBase(t1.bty, t2.bty, tcx))
  }

  predicate JoinableBase(b1: BaseTy, b2: BaseTy, tcx: Variances)
    decreases b1
  {
    if b1.Adt? && b2.Adt? then
      && b1.did == b2.did && |b1.substs| == |b2.substs| == |tcx(b1.did)|
      && forall i | 0 <= i < |b1.substs| :: tcx(b1.did)[i].Covariant? && Joinable(b1.substs[i], b2.substs[i], tcx)
    else b1 == b2
  }

  /** Environments join where their common locations do. */
  predicate JoinableBindings(b: Bindings, other: Bindings, tcx: Variances) {
    forall loc :: loc in b && loc in other ==> Joinable(BindingTy(b[loc]), BindingTy(other[loc]), tcx)
  }

  ghost predicate LeastAbove(t1: Ty, t2: Ty, t: Ty) {
    Leq(t1, t) && Leq(t2, t) && forall u: Ty | Leq(t1, u) && Leq(t2, u) :: Leq(t, u)
  }

  ghost predicate LeastAboveBase(b1: BaseTy, b2: BaseTy, b: BaseTy) {
    LeqBase(b1, b) && LeqBase(b2, b) && forall c: BaseTy | LeqBase(b1, c) && LeqBase(b2, c) :: LeqBase(b, c)
  }

  lemma ArgsLeast(did: nat, s1: seq<Ty>, s2: seq<Ty>, s: seq<Ty>)
    requires |s1| == |s2| == |s| && forall i :: 0 <= i < |s| ==> LeastAbove(s1[i], s2[i], s[i])
    ensures LeastAboveBase(Adt(did, s1), Adt(did, s2), Adt(did, s))
  {
    forall c: BaseTy | LeqBase(Adt(did, s1), c) && LeqBase(Adt(did, s2), c) ensures LeqBase(Adt(did, s), c) {
      forall i | 0 <= i < |s| ensures Leq(s[i], c.substs[i]) {
        assert LeastAbove(s1[i], s2[i], s[i]);
        assert Leq(s1[i], c.substs[i]) && Leq(s2[i], c.substs[i]);
      }
    }
  }

  lemma RefineLeast(b1: BaseTy, b2: BaseTy, b: BaseTy, e: Expr)
    requires LeastAboveBase(b1, b2, b)
    ensures LeastAbove(Refine(b1, e), Refine(b2, e), Refine(b, e))
  {
  }

  lemma ExistsLeast(t1: Ty, t2: Ty, b: BaseTy, p: Pred)
    requires (t1.Refine? || t1.Exists?) && (t2.Refine? || t2.Exists?) && LeastAboveBase(t1.bty, t2.bty, b)
    requires !(t1.Refine? && t2.Refine? && t1.e == t2.e)
    ensures LeastAbove(t1, t2, Exists(b, p))
  {
  }

  // ----- what the join of two types contains -----

  /** The kvars from `n` on hold of everything. */
  ghost predicate Permissive(k: Interp, n: nat) {
    forall kvid: KVid, vs: seq<Value> :: kvid >= n ==> k(kvid, vs)
  }

  ghost predicate Above(t1: Ty, t2: Ty, n: nat, g: Scope, tcx: Variances) {
    forall k: Interp, env: Env | Permissive(k, n) && Conforms(env, g) :: Contained(t1, t2, env, k, tcx)
  }

  ghost predicate AboveBase(b1: BaseTy, b2: BaseTy, n: nat, g: Scope, tcx: Variances) {
    forall k: Interp, env: Env | Permissive(k, n) && Conforms(env, g) :: ContainedBase(b1, b2, env, k, tcx)
  }

  lemma AboveRefine(b1: BaseTy, b: BaseTy, e: Expr, n: nat, g: Scope, tcx: Variances)
    requires AboveBase(b1, b, n, g, tcx)
    ensures Above(Refine(b1, e), Refine(b, e), n, g, tcx)
  {
    forall k: Interp, env: Env | Permissive(k, n) && Conforms(env, g)
      ensures Contained(Refine(b1, e), Refine(b, e), env, k, tcx)
    {
      assert ContainedBase(b1, b, env, k, tcx);
    }
  }

  /** A kvar that holds of everything bounds every type of the base. */
  lemma AboveKvar(t1: Ty, b: BaseTy, p: Pred, n: nat, g: Scope, kvars: seq<seq<Sort>>, tcx: Variances)
    requires (t1.Refine? || t1.Exists?) && AboveBase(t1.bty, b, n, g, tcx)
    requires p.KVar? && p.kvid >= n && WfPred(p, g, Some(SortOfBase(b)), kvars)
    ensures Above(t1, Exists(b, p), n, g, tcx)
  {
    forall k: Interp, env: Env | Permissive(k, n) && Conforms(env, g) ensures Contained(t1, Exists(b, p), env, k, tcx) {
      assert ContainedBase(t1.bty, b, env, k, tcx);
      forall v: Val, st: Store | In(v, t1, env, k, tcx, st) ensures In(v, Exists(b, p), env, k, tcx, st) {
        assert InBase(v, b, env, k, tcx, st);
        BaseIndexSort(v, b, env, k, tcx, st);
        EvalAllSorted(p.args, g, Some(SortOfBase(b)), env, Index(v));
      }
    }
  }

  lemma AboveArgs(did: nat, s1: seq<Ty>, s: seq<Ty>, n: nat, g: Scope, tcx: Variances)
    requires |s1| == |s| == |tcx(did)| && forall i :: 0 <= i < |s| ==> tcx(did)[i].Covariant?
    requires forall i :: 0 <= i < |s| ==> Above(s1[i], s[i], n, g, tcx)
    ensures AboveBase(Adt(did, s1), Adt(did, s), n, g, tcx)
  {
    forall k: Interp, env: Env | Permissive(k, n) && Conforms(env, g)
      ensures ContainedBase(Adt(did, s1), Adt(did, s), env, k, tcx)
    {
      forall v: Val, st: Store | InBase(v, Adt(did, s1), env, k, tcx, st)
        ensures InBase(v, Adt(did, s), env, k, tcx, st)
      {
        forall i, x | 0 <= i < |s| && x in v.gives[i] ensures In(x, s[i], env, k, tcx, st) {
          assert Above(s1[i], s[i], n, g, tcx) && Contained(s1[i], s[i], env, k, tcx);
        }
      }
    }
  }

  lemma AboveLater(t1: Ty, t2: Ty, n0: nat, n1: nat, g: Scope, tcx: Variances)
    requires Above(t1, t2, n1, g, tcx) && n0 <= n1
    ensures Above(t1, t2, n0, g, tcx)
  {
    forall k: Interp, env: Env | Permissive(k, n0) && Conforms(env, g) ensures Contained(t1, t2, env, k, tcx) {
      assert Permissive(k, n1);
    }
  }

  lemma AboveSelf(t: Ty, n: nat, g: Scope, tcx: Variances)
    ensures Above(t, t, n, g, tcx)
  {
  }

  lemma AboveUninit(t: Ty, n: nat, g: Scope, tcx: Variances)
    ensures Above(t, Uninit, n, g, tcx)
  {
    forall k: Interp, env: Env | Permissive(k, n) && Conforms(env, g) ensures Contained(t, Uninit, env, k, tcx) {
    }
  }

  // ----- environments -----

  /** A location of the join. */
  ghost predicate JoinedAt(b0: Bindings, other: Bindings, b: Bindings, n: nat, g: Scope, tcx: Variances, loc: Loc) {
    && loc in b0 && loc in other && loc in b && b[loc].Strong? && Plain(b[loc].sty, tcx)
    && Joinable(BindingTy(b0[loc]), BindingTy(other[loc]), tcx)
    && LeastAbove(BindingTy(b0[loc]), BindingTy(other[loc]), b[loc].sty)
    && Above(BindingTy(b0[loc]), b[loc].sty, n, g, tcx) && Above(BindingTy(other[loc]), b[loc].sty, n, g, tcx)
  }

  /** The join has the common locations, each with the least type above both. */
  ghost predicate Joined(b0: Bindings, other: Bindings, b: Bindings, n: nat, g: Scope, tcx: Variances) {
    b.Keys == b0.Keys * other.Keys && forall loc :: loc in b ==> JoinedAt(b0, other, b, n, g, tcx, loc)
  }

  /** Every store that one of the environments describes is described by their join, when the
      fresh kvars hold of everything. */
  lemma JoinedDescribes(b0: Bindings, other: Bindings, b: Bindings, n: nat, g: Scope, tcx: Variances, st: Store,
                        env: Env, k: Interp)
    requires Joined(b0, other, b, n, g, tcx) && Permissive(k, n) && Conforms(env, g)
    requires Describes(b0, st, env, k, tcx) || Describes(other, st, env, k, tcx)
    ensures Describes(b, st, env, k, tcx)
  {
    forall loc | loc in b ensures loc in st && In(st[loc], BindingTy(b[loc]), env, k, tcx, st) {
      assert JoinedAt(b0, other, b, n, g, tcx, loc);
      if Describes(b0, st, env, k, tcx) {
        assert Contained(BindingTy(b0[loc]), b[loc].sty, env, k, tcx);
      } else {
        assert Contained(BindingTy(other[loc]), b[loc].sty, env, k, tcx);
      }
    }
  }

  /** A type is an upper bound of what weakening leaves of the other. */
  lemma WeakenedJoin(b0: Bindings, other: Bindings, b: Bindings, n: nat, n1: nat, g: Scope, tcx: Variances, loc: Loc,
                     ty: Ty)
    requires loc in b0 && loc in other && n <= n1 && Plain(ty, tcx) && b0[loc].Strong? && other[loc].Strong?
    requires Joinable(b0[loc].sty, other[loc].sty, tcx)
    requires var ty1 := Weakened(b0, other)[loc].sty;
             LeastAbove(ty1, other[loc].sty, ty) && Above(ty1, ty, n1, g, tcx) && Above(other[loc].sty, ty, n1, g, tcx)
    ensures JoinedAt(b0, other, b[loc := Strong(ty)], n, g, tcx, loc)
  {
    AboveLater(other[loc].sty, ty, n, n1, g, tcx);
    if other[loc].sty.Uninit? {
      AboveUninit(b0[loc].sty, n, g, tcx);
    } else {
      AboveLater(b0[loc].sty, ty, n, n1, g, tcx);
    }
  }

  ghost predicate PendingAt(b0: Bindings, other: Bindings, b: Bindings, loc: Loc) {
    loc in b0 && loc in other && loc in b && b[loc] == Weakened(b0, other)[loc]
  }

  /** In the course of joining, the pending locations are as weakening has left them. */
  ghost predicate Joining(b0: Bindings, other: Bindings, b: Bindings, pending: set<Loc>, n: nat, g: Scope,
                          tcx: Variances)
  {
    && b.Keys == b0.Keys * other.Keys && pending <= b.Keys
    && (forall loc :: loc in pending ==> PendingAt(b0, other, b, loc))
    && (forall loc :: loc in b.Keys - pending ==> JoinedAt(b0, other, b, n, g, tcx, loc))
  }

  lemma JoiningStarts(b0: Bindings, other: Bindings, n: nat, g: Scope, kvars: seq<seq<Sort>>, tcx: Variances)
    requires PlainBindings(b0, tcx) && WfBindings(b0, g, kvars)
    ensures var w := Weakened(b0, other);
            PlainBindings(w, tcx) && WfBindings(w, g, kvars) && Joining(b0, other, w, w.Keys, n, g, tcx)
  {
  }

  lemma JoiningEnds(b0: Bindings, other: Bindings, b: Bindings, n: nat, g: Scope, tcx: Variances)
    requires Joining(b0, other, b, {}, n, g, tcx)
    ensures Joined(b0, other, b, n, g, tcx) && JoinableBindings(b0, other, tcx)
  {
    forall loc | loc in b ensures JoinedAt(b0, other, b, n, g, tcx, loc) {
      assert loc in b.Keys - {};
    }
    forall loc | loc in b0 && loc in other ensures Joinable(BindingTy(b0[loc]), BindingTy(other[loc]), tcx) {
      assert loc in b && JoinedAt(b0, other, b, n, g, tcx, loc);
    }
  }

  lemma JoiningNext(b0: Bindings, other: Bindings, b: Bindings, loc: Loc, ty: Ty, pending: set<Loc>, n: nat, g: Scope,
                    tcx: Variances)
    requires Joining(b0, other, b, pending, n, g, tcx) && loc in pending
    requires JoinedAt(b0, other, b[loc := Strong(ty)], n, g, tcx, loc)
    ensures Joining(b0, other, b[loc := Strong(ty)], pending - {loc}, n, g, tcx)
  {
    var b' := b[loc := Strong(ty)];
    forall l | l in pending - {loc} ensures PendingAt(b0, other, b', l) {
      assert PendingAt(b0, other, b, l);
    }
    forall l | l in b'.Keys - (pending - {loc}) ensures JoinedAt(b0, other, b', n, g, tcx, l) {
      if l != loc { assert JoinedAt(b0, other, b, n, g, tcx, l); }
    }
  }

  // ----- how often an environment can change -----

  /** How often a type can still be weakened. */
  function Height(ty: Ty): nat
    decreases ty
  {
    match ty
    case Refine(b, _) => 2 + HeightBase(b)
    case Exists(b, _) => 1 + HeightBase(b)
    case Uninit => 0
    case _ => 1
  }

  function HeightBase(b: BaseTy): nat
    decreases b
  {
    if b.Adt? then Heights(b.substs) else 0
  }

  function Heights(ts: seq<Ty>): nat
    decreases ts
  {
    if ts == [] then 0 else Height(ts[0]) + Heights(ts[1..])
  }

  /** Weakening lowers the height, unless it changes only predicates. */
  lemma {:induction false} LeqHeight(t1: Ty, t2: Ty)
    requires Leq(t1, t2)
    ensures Height(t2) <= Height(t1) && (Height(t2) == Height(t1) ==> Leq(t2, t1))
    decreases t1, 1
  {
    if !t2.Uninit? && !t1.Param? {
      LeqBaseHeight(t1.bty, t2.bty);
    }
  }

  lemma {:induction false} LeqBaseHeight(b1: BaseTy, b2: BaseTy)
    requires LeqBase(b1, b2)
    ensures HeightBase(b2) <= HeightBase(b1) && (HeightBase(b2) == HeightBase(b1) ==> LeqBase(b2, b1))
    decreases b1, 1
  {
    if b1.Adt? {
      LeqHeights(b1.substs, b2.substs);
    }
  }

  lemma {:induction false} LeqHeights(s1: seq<Ty>, s2: seq<Ty>)
    requires |s1| == |s2| && forall i :: 0 <= i < |s1| ==> Leq(s1[i], s2[i])
    ensures Heights(s2) <= Heights(s1)
    ensures Heights(s2) == Heights(s1) ==> forall i :: 0 <= i < |s1| ==> Leq(s2[i], s1[i])
    decreases s1, 0
  {
    if s1 != [] {
      LeqHeight(s1[0], s2[0]);
      LeqHeights(s1[1..], s2[1..]);
      if Heights(s2) == Heights(s1) {
        forall i | 0 <= i < |s1| ensures Leq(s2[i], s1[i]) {
          if i > 0 { assert s1[i] == s1[1..][i - 1] && s2[i] == s2[1..][i - 1]; }
        }
      }
    }
  }

  /** Joining only loses locations and knowledge. */
  ghost predicate Weaker(b: Bindings, b': Bindings) {
    b'.Keys <= b.Keys && forall loc :: loc in b' ==> Leq(BindingTy(b[loc]), BindingTy(b'[loc]))
  }

  /** Something other than a predicate is different. */
  ghost predicate Changed(b: Bindings, b': Bindings) {
    b'.Keys != b.Keys || exists loc :: loc in b && loc in b' && !Leq(BindingTy(b'[loc]), BindingTy(b[loc]))
  }

  function LocHeight(b: Bindings, loc: Loc): nat {
    if loc in b then 1 + Height(BindingTy(b[loc])) else 0
  }

  ghost function Total(b: Bindings, locs: set<Loc>): nat {
    if locs == {} then 0
    else
      var loc :| loc in locs;
      LocHeight(b, loc) + Total(b, locs - {loc})
  }

  lemma {:induction false} TotalWithout(b: Bindings, locs: set<Loc>, loc: Loc)
    requires loc in locs
    ensures Total(b, locs) == LocHeight(b, loc) + Total(b, locs - {loc})
    decreases locs
  {
    var other :| other in locs && Total(b, locs) == LocHeight(b, other) + Total(b, locs - {other});
    if other != loc {
      TotalWithout(b, locs - {other}, loc);
      TotalWithout(b, locs - {loc}, other);
      assert locs - {other} - {loc} == locs - {loc} - {other};
    }
  }

  lemma {:induction false} TotalLeq(b: Bindings, b': Bindings, locs: set<Loc>)
    requires Weaker(b, b')
    ensures Total(b', locs) <= Total(b, locs)
    ensures (exists loc :: loc in locs && LocHeight(b', loc) < LocHeight(b, loc)) ==> Total(b', locs) < Total(b, locs)
    decreases locs
  {
    if locs != {} {
      var loc :| loc in locs && (LocHeight(b', loc) < LocHeight(b, loc) ||
                                 forall l :: l in locs ==> LocHeight(b', l) >= LocHeight(b, l));
      TotalWithout(b, locs, loc);
      TotalWithout(b', locs, loc);
      TotalLeq(b, b', locs - {loc});
      if loc in b' { LeqHeight(BindingTy(b[loc]), BindingTy(b'[loc])); }
    }
  }

  /** A change uses up height. */
  lemma ChangeLowers(b: Bindings, b': Bindings)
    requires Weaker(b, b')
    ensures Total(b', b.Keys) <= Total(b, b.Keys) && (Changed(b, b') ==> Total(b', b.Keys) < Total(b, b.Keys))
  {
    TotalLeq(b, b', b.Keys);
    if Changed(b, b') {
      if b'.Keys != b.Keys {
        var loc :| loc in b && loc !in b';
        assert LocHeight(b', loc) < LocHeight(b, loc);
      } else {
        var loc :| loc in b && loc in b' && !Leq(BindingTy(b'[loc]), BindingTy(b[loc]));
        LeqHeight(BindingTy(b[loc]), BindingTy(b'[loc]));
        assert LocHeight(b', loc) < LocHeight(b, loc);
      }
    }
  }

  lemma {:induction false} TotalOutside(b: Bindings, locs: set<Loc>)
    requires b.Keys <= locs
    ensures Total(b, locs) == Total(b, b.Keys)
    decreases locs
  {
    if locs != b.Keys {
      var loc :| loc in locs && loc !in b;
      TotalWithout(b, locs, loc);
      TotalOutside(b, locs - {loc});
    }
  }

  ghost function Changes(bs: seq<Bindings>): nat
    requires bs != []
  {
    if |bs| == 1 then 0
    else Changes(bs[..|bs| - 1]) + (if Changed(bs[|bs| - 2], bs[|bs| - 1]) then 1 else 0)
  }

  /** Along any sequence of joins the changes are bounded by what there is to forget at its start. */
  lemma {:induction false} ChangesBounded(bs: seq<Bindings>)
    requires bs != [] && forall i :: 0 <= i < |bs| - 1 ==> Weaker(bs[i], bs[i + 1])
    ensures Changes(bs) + Total(bs[|bs| - 1], bs[|bs| - 1].Keys) <= Total(bs[0], bs[0].Keys)
    decreases |bs|
  {
    if |bs| > 1 {
      var init, b, b' := bs[..|bs| - 1], bs[|bs| - 2], bs[|bs| - 1];
      ChangesBounded(init);
      assert Weaker(bs[|bs| - 2], bs[|bs| - 2 + 1]);
      ChangeLowers(b, b');
      TotalOutside(b', b.Keys);
    }
  }

  ghost predicate ScalarBindings(b: Bindings) {
    forall loc :: loc in b ==> var ty := BindingTy(b[loc]); (ty.Refine? || ty.Exists?) ==> !ty.bty.Adt?
  }

  /** For scalars that is linear in the number of locations. */
  lemma {:induction false} ScalarTotal(b: Bindings, locs: set<Loc>)
    requires ScalarBindings(b)
    ensures Total(b, locs) <= 3 * |locs|
    decreases locs
  {
    if locs != {} {
      var loc :| loc in locs;
      TotalWithout(b, locs, loc);
      ScalarTotal(b, locs - {loc});
      if loc in b {
        var ty := BindingTy(b[loc]);
        assert ty.Refine? || ty.Exists? ==> HeightBase(ty.bty) == 0;
      }
    }
  }

  /** Joining is a step down. */
  lemma JoinedWeaker(b0: Bindings, other: Bindings, b: Bindings, n: nat, g: Scope, tcx: Variances)
    requires Joined(b0, other, b, n, g, tcx)
    ensures Weaker(b0, b) && Weaker(other, b)
  {
    forall loc | loc in b
      ensures Leq(BindingTy(b0[loc]), BindingTy(b[loc])) && Leq(BindingTy(other[loc]), BindingTy(b[loc]))
    {
      assert JoinedAt(b0, other, b, n, g, tcx, loc);
    }
  }

  // ----- the results of joining, with their kvars -----

  /** A plain well-sorted type, the least above both, that contains both when the kvars from `n` on hold of
      everything. */
  ghost predicate JoinOf(t1: Ty, t2: Ty, t: Ty, n: nat, g: Scope, kvars: seq<seq<Sort>>, tcx: Variances) {
    && LeastAbove(t1, t2, t) && Above(t1, t, n, g, tcx) && Above(t2, t, n, g, tcx)
    && Plain(t, tcx) && WfTy(t, g, kvars)
  }

  ghost predicate JoinOfBase(b1: BaseTy, b2: BaseTy, b: BaseTy, n: nat, g: Scope, kvars: seq<seq<Sort>>,
                             tcx: Variances)
  {
    && LeastAboveBase(b1, b2, b) && AboveBase(b1, b, n, g, tcx) && AboveBase(b2, b, n, g, tcx)
    && PlainBase(b, tcx) && WfBase(b, g, kvars) && SortOfBase(b) == SortOfBase(b1) == SortOfBase(b2)
  }

  lemma RefineJoin(b1: BaseTy, b2: BaseTy, b: BaseTy, e: Expr, n: nat, g: Scope, kvars: seq<seq<Sort>>, tcx: Variances)
    requires JoinOfBase(b1, b2, b, n, g, kvars, tcx) && SortOf(e, g, None) == Some(SortOfBase(b1))
    ensures JoinOf(Refine(b1, e), Refine(b2, e), Refine(b, e), n, g, kvars, tcx)
  {
    RefineLeast(b1, b2, b, e);
    AboveRefine(b1, b, e, n, g, tcx);
    AboveRefine(b2, b, e, n, g, tcx);
  }

  lemma KvarJoin(t1: Ty, t2: Ty, b: BaseTy, p: Pred, n: nat, g: Scope, kvars0: seq<seq<Sort>>, kvars1: seq<seq<Sort>>,
                 tcx: Variances)
    requires (t1.Refine? || t1.Exists?) && (t2.Refine? || t2.Exists?) && !(t1.Refine? && t2.Refine? && t1.e == t2.e)
    requires JoinOfBase(t1.bty, t2.bty, b, n, g, kvars0, tcx) && kvars0 <= kvars1
    requires p.KVar? && p.kvid >= n && WfPred(p, g, Some(SortOfBase(b)), kvars1) && NuVariable(p)
    ensures JoinOf(t1, t2, Exists(b, p), n, g, kvars1, tcx)
  {
    ExistsLeast(t1, t2, b, p);
    AboveKvar(t1, b, p, n, g, kvars1, tcx);
    AboveKvar(t2, b, p, n, g, kvars1, tcx);
    WfBaseExtends(b, g, g, kvars0, kvars1);
  }

  lemma JoinOfNext(s1: seq<Ty>, s2: seq<Ty>, s: seq<Ty>, t: Ty, n: nat, n1: nat, g: Scope, kvars0: seq<seq<Sort>>,
                   kvars1: seq<seq<Sort>>, tcx: Variances)
    requires |s| < |s1| && |s| < |s2| && n <= n1 && kvars0 <= kvars1
    requires forall j :: 0 <= j < |s| ==> JoinOf(s1[j], s2[j], s[j], n, g, kvars0, tcx)
    requires JoinOf(s1[|s|], s2[|s|], t, n1, g, kvars1, tcx)
    ensures forall j :: 0 <= j < |s| + 1 ==> JoinOf(s1[j], s2[j], (s + [t])[j], n, g, kvars1, tcx)
  {
    forall j | 0 <= j < |s| + 1 ensures JoinOf(s1[j], s2[j], (s + [t])[j], n, g, kvars1, tcx) {
      if j < |s| {
        assert JoinOf(s1[j], s2[j], s[j], n, g, kvars0, tcx);
        WfTyExtends(s[j], g, g, kvars0, kvars1);
      } else {
        AboveLater(s1[j], t, n, n1, g, tcx);
        AboveLater(s2[j], t, n, n1, g, tcx);
      }
    }
  }

  lemma ArgsJoin(did: nat, s1: seq<Ty>, s2: seq<Ty>, s: seq<Ty>, n: nat, g: Scope, kvars: seq<seq<Sort>>,
                 tcx: Variances)
    requires |s1| == |s2| == |s| == |tcx(did)| && forall i :: 0 <= i < |s| ==> tcx(did)[i].Covariant?
    requires forall i :: 0 <= i < |s| ==> JoinOf(s1[i], s2[i], s[i], n, g, kvars, tcx)
    ensures JoinOfBase(Adt(did, s1), Adt(did, s2), Adt(did, s), n, g, kvars, tcx)
  {
    assert forall i :: 0 <= i < |s| ==>
             LeastAbove(s1[i], s2[i], s[i]) && Above(s1[i], s[i], n, g, tcx) && Above(s2[i], s[i], n, g, tcx);
    ArgsLeast(did, s1, s2, s);
    AboveArgs(did, s1, s, n, g, tcx);
    AboveArgs(did, s2, s, n, g, tcx);
  }
}
