/** What the unknown predicates of a join can express: every invariant, location by location. */
module Expressive {
  import opened Logic
  import opened Tree
  import opened Types
  import opened Position
  import opened Environment

  /** Two types whose join forgets an index: neither is equal to the other or uninitialized, and they are
      not indexed by the same expression. */
  predicate Differ(t1: Ty, t2: Ty) {
    && t1 != t2 && (t1.Refine? || t1.Exists?) && (t2.Refine? || t2.Exists?)
    && !(t1.Refine? && t2.Refine? && t1.e == t2.e)
  }

  /** An existential type whose predicate is a kvar from `n` up to `m` over all names in scope. */
  predicate Unknown(t: Ty, n: nat, m: nat, binders: seq<Binder>) {
    t.Exists? && t.p.KVar? && n <= t.p.kvid < m && t.p.args == KvarArgs(binders)
  }

  /** A join that forgets nothing but such indices, in type arguments as well: equal types stay, types with the
      same index keep it, and only an uninitialized type gives one. */
  predicate Sharp(t1: Ty, t2: Ty, t: Ty, n: nat, m: nat, binders: seq<Binder>)
    decreases t1
  {
    if t1 == t2 then t == t1
    else if Differ(t1, t2) then Unknown(t, n, m, binders) && SharpBase(t1.bty, t2.bty, t.bty, n, m, binders)
    else if t1.Refine? && t2.Refine? then
      t.Refine? && t.e == t1.e && SharpBase(t1.bty, t2.bty, t.bty, n, m, binders)
    else (t1.Uninit? || t2.Uninit?) && t.Uninit?
  }

  predicate SharpBase(b1: BaseTy, b2: BaseTy, b: BaseTy, n: nat, m: nat, binders: seq<Binder>)
    decreases b1
  {
    if b1.Adt? && b2.Adt? then
      && b.Adt? && b.did == b1.did && |b.substs| == |b1.substs| == |b2.substs|
      && forall i | 0 <= i < |b1.substs| :: Sharp(b1.substs[i], b2.substs[i], b.substs[i], n, m, binders)
    else b == b1
  }

  lemma {:induction false} SharpLater(t1: Ty, t2: Ty, t: Ty, n: nat, m: nat, n': nat, m': nat, binders: seq<Binder>)
    requires Sharp(t1, t2, t, n, m, binders) && n' <= n && m <= m'
    ensures Sharp(t1, t2, t, n', m', binders)
    decreases t1
  {
    if t1 != t2 && (t1.Refine? || t1.Exists?) && (t2.Refine? || t2.Exists?) {
      SharpBaseLater(t1.bty, t2.bty, t.bty, n, m, n', m', binders);
    }
  }

  lemma {:induction false} SharpBaseLater(b1: BaseTy, b2: BaseTy, b: BaseTy, n: nat, m: nat, n': nat, m': nat,
                                          binders: seq<Binder>)
    requires SharpBase(b1, b2, b, n, m, binders) && n' <= n && m <= m'
    ensures SharpBase(b1, b2, b, n', m', binders)
    decreases b1
  {
    if b1.Adt? && b2.Adt? {
      forall i | 0 <= i < |b1.substs| ensures Sharp(b1.substs[i], b2.substs[i], b.substs[i], n', m', binders) {
        SharpLater(b1.substs[i], b2.substs[i], b.substs[i], n, m, n', m', binders);
      }
    }
  }

  predicate SharpUpTo(s1: seq<Ty>, s2: seq<Ty>, s: seq<Ty>, n: nat, m: nat, binders: seq<Binder>) {
    |s| <= |s1| && |s| <= |s2| && forall i | 0 <= i < |s| :: Sharp(s1[i], s2[i], s[i], n, m, binders)
  }

  lemma SharpNext(s1: seq<Ty>, s2: seq<Ty>, s: seq<Ty>, t: Ty, n: nat, m: nat, m': nat, binders: seq<Binder>)
    requires SharpUpTo(s1, s2, s, n, m, binders) && |s| < |s1| && |s| < |s2| && n <= m <= m'
    requires Sharp(s1[|s|], s2[|s|], t, m, m', binders)
    ensures SharpUpTo(s1, s2, s + [t], n, m', binders)
  {
    forall i | 0 <= i < |s| + 1 ensures Sharp(s1[i], s2[i], (s + [t])[i], n, m', binders) {
      if i < |s| {
        SharpLater(s1[i], s2[i], s[i], n, m, n, m', binders);
      } else {
        SharpLater(s1[i], s2[i], t, m, m', n, m', binders);
      }
    }
  }

  /** At a location, where what the other environment does not initialize has been forgotten. */
  predicate SharpAt(b0: Bindings, other: Bindings, b: Bindings, n: nat, m: nat, binders: seq<Binder>, loc: Loc) {
    loc in b0 && loc in other && loc in b && b[loc].Strong? &&
    Sharp(BindingTy(Weakened(b0, other)[loc]), BindingTy(other[loc]), b[loc].sty, n, m, binders)
  }

  predicate DifferAt(b0: Bindings, other: Bindings, loc: Loc) {
    loc in b0 && loc in other && Differ(BindingTy(b0[loc]), BindingTy(other[loc]))
  }

  /** Apart from the pending locations, the join is sharp and those that differ have got kvars of their own. */
  ghost predicate Apart(b0: Bindings, other: Bindings, b: Bindings, pending: set<Loc>, n: nat, m: nat,
                        binders: seq<Binder>)
  {
    && (forall loc :: loc in b && loc !in pending ==> SharpAt(b0, other, b, n, m, binders, loc))
    && forall l1, l2 :: l1 in b && l1 !in pending && l2 in b && l2 !in pending && l1 != l2 &&
                        DifferAt(b0, other, l1) && DifferAt(b0, other, l2) ==>
                          b[l1].sty.p.kvid != b[l2].sty.p.kvid
  }

  lemma ApartStarts(b0: Bindings, other: Bindings, b: Bindings, n: nat, binders: seq<Binder>)
    ensures Apart(b0, other, b, b.Keys, n, n, binders)
  {
  }

  /** One more location, whose kvar is newer than all before. */
  lemma ApartNext(b0: Bindings, other: Bindings, b: Bindings, loc: Loc, ty: Ty, pending: set<Loc>, n: nat, m: nat,
                  m': nat, binders: seq<Binder>)
    requires Apart(b0, other, b, pending, n, m, binders) && loc in pending && n <= m <= m'
    requires loc in b0 && loc in other && loc in b
    requires Sharp(BindingTy(Weakened(b0, other)[loc]), BindingTy(other[loc]), ty, m, m', binders)
    ensures Apart(b0, other, b[loc := Strong(ty)], pending - {loc}, n, m', binders)
  {
    var b', w := b[loc := Strong(ty)], Weakened(b0, other);
    forall l | l in b' && l !in pending - {loc} ensures SharpAt(b0, other, b', n, m', binders, l) {
      if l != loc {
        assert SharpAt(b0, other, b, n, m, binders, l);
        SharpLater(BindingTy(w[l]), BindingTy(other[l]), b[l].sty, n, m, n, m', binders);
      } else {
        SharpLater(BindingTy(w[loc]), BindingTy(other[loc]), ty, m, m', n, m', binders);
      }
    }
    forall l1, l2 | l1 in b' && l1 !in pending - {loc} && l2 in b' && l2 !in pending - {loc} && l1 != l2 &&
                    DifferAt(b0, other, l1) && DifferAt(b0, other, l2)
      ensures b'[l1].sty.p.kvid != b'[l2].sty.p.kvid
    {
      assert l1 != loc ==> SharpAt(b0, other, b, n, m, binders, l1);
      assert l2 != loc ==> SharpAt(b0, other, b, n, m, binders, l2);
    }
  }

  // ----- choosing an interpretation -----

  /** A property of the value at a location and the values of the names in scope. */
  type Family = (Loc, seq<Value>) -> bool

  /** The value, followed by the values of the names in scope. */
  function Known(idx: Value, binders: seq<Binder>, env: Env): (r: seq<Value>)
    requires forall i :: 0 <= i < |binders| ==> binders[i].0 in env
    ensures |r| == |binders| + 1 && r[0] == idx && forall i :: 0 <= i < |binders| ==> r[i + 1] == env[binders[i].0]
  {
    [idx] + seq(|binders|, i requires 0 <= i < |binders| => env[binders[i].0])
  }

  ghost predicate SameBelow(k0: Interp, k: Interp, n: nat) {
    forall kvid: KVid, vs: seq<Value> :: kvid < n ==> k(kvid, vs) == k0(kvid, vs)
  }

  /** The type has exactly the values of its base type with the property. */
  ghost predicate Exactly(t: Ty, loc: Loc, family: Family, binders: seq<Binder>, env: Env, k: Interp, tcx: Variances)
    requires t.Exists? && forall i :: 0 <= i < |binders| ==> binders[i].0 in env
  {
    forall v: Val, st: Store ::
      In(v, t, env, k, tcx, st) <==>
      InBase(v, t.bty, env, k, tcx, st) && Index(v).Some? && family(loc, Known(Index(v).value, binders, env))
  }

  ghost predicate ExactlyAt(b0: Bindings, other: Bindings, b: Bindings, loc: Loc, family: Family, binders: seq<Binder>,
                            env: Env, k: Interp, tcx: Variances)
    requires forall i :: 0 <= i < |binders| ==> binders[i].0 in env
  {
    DifferAt(b0, other, loc) && loc in b ==>
      BindingTy(b[loc]).Exists? && Exactly(BindingTy(b[loc]), loc, family, binders, env, k, tcx)
  }

  /** For any family of properties some interpretation, unchanged on older kvars, makes the type of every
      location that differs say exactly its property. */
  ghost predicate Expresses(b0: Bindings, other: Bindings, b: Bindings, n: nat, binders: seq<Binder>, tcx: Variances) {
    forall k0: Interp, family: Family :: Realizable(b0, other, b, n, binders, k0, family, tcx)
  }

  ghost predicate Realizable(b0: Bindings, other: Bindings, b: Bindings, n: nat, binders: seq<Binder>, k0: Interp,
                             family: Family, tcx: Variances)
  {
    exists k: Interp :: Realizes(b0, other, b, n, binders, k0, family, k, tcx)
  }

  ghost predicate Realizes(b0: Bindings, other: Bindings, b: Bindings, n: nat, binders: seq<Binder>, k0: Interp,
                           family: Family, k: Interp, tcx: Variances)
  {
    && SameBelow(k0, k, n)
    && forall loc, env: Env | forall i :: 0 <= i < |binders| ==> binders[i].0 in env ::
         ExactlyAt(b0, other, b, loc, family, binders, env, k, tcx)
  }

  lemma {:induction false} EvalAllAt(es: seq<Expr>, vs: seq<Value>, env: Env, nu: Option<Value>)
    requires |es| == |vs| && forall i :: 0 <= i < |es| ==> Eval(es[i], env, nu) == Some(vs[i])
    ensures EvalAll(es, env, nu) == Some(vs)
  {
    if es != [] {
      EvalAllAt(es[1..], vs[1..], env, nu);
      assert vs == [vs[0]] + vs[1..];
    }
  }

  lemma {:induction false} ApartExpresses(b0: Bindings, other: Bindings, b: Bindings, n: nat, m: nat,
                                          binders: seq<Binder>, tcx: Variances)
    requires Apart(b0, other, b, {}, n, m, binders)
    ensures Expresses(b0, other, b, n, binders, tcx)
  {
    forall k0: Interp, family: Family ensures Realizable(b0, other, b, n, binders, k0, family, tcx) {
      var k := Chosen(b0, other, b, n, k0, family);
      forall loc, env: Env | forall i :: 0 <= i < |binders| ==> binders[i].0 in env
        ensures ExactlyAt(b0, other, b, loc, family, binders, env, k, tcx)
      {
        if DifferAt(b0, other, loc) && loc in b {
          assert SharpAt(b0, other, b, n, m, binders, loc);
          ChosenAt(b0, other, b, n, m, binders, k0, family, loc);
          KvarSays(b[loc].sty, loc, family, binders, env, k, tcx);
        }
      }
      assert Realizes(b0, other, b, n, binders, k0, family, k, tcx);
    }
  }

  ghost predicate AllSharp(b0: Bindings, other: Bindings, b: Bindings, n: nat, m: nat, binders: seq<Binder>) {
    forall loc :: loc in b ==> SharpAt(b0, other, b, n, m, binders, loc)
  }

  /** Each kvar of a location that differs stands for the property of that location. */
  ghost function Chosen(b0: Bindings, other: Bindings, b: Bindings, n: nat, k0: Interp, family: Family): Interp {
    (kvid: KVid, vs: seq<Value>) =>
      if kvid < n then k0(kvid, vs)
      else forall loc | loc in b && DifferAt(b0, other, loc) && HasKvar(b[loc], kvid) :: family(loc, vs)
  }

  lemma ChosenAt(b0: Bindings, other: Bindings, b: Bindings, n: nat, m: nat, binders: seq<Binder>, k0: Interp,
                 family: Family, loc: Loc)
    requires Apart(b0, other, b, {}, n, m, binders) && loc in b && DifferAt(b0, other, loc)
    requires Unknown(BindingTy(b[loc]), n, m, binders)
    ensures SaysOf(Chosen(b0, other, b, n, k0, family), BindingTy(b[loc]).p.kvid, family, loc)
  {
    var kvid := BindingTy(b[loc]).p.kvid;
    assert SharpAt(b0, other, b, n, m, binders, loc);
    forall l | l in b && DifferAt(b0, other, l) && HasKvar(b[l], kvid) ensures l == loc {
      assert SharpAt(b0, other, b, n, m, binders, l);
    }
    forall vs: seq<Value> ensures Chosen(b0, other, b, n, k0, family)(kvid, vs) == family(loc, vs) {
      if Chosen(b0, other, b, n, k0, family)(kvid, vs) {
        assert HasKvar(b[loc], kvid);
      }
    }
  }

  ghost predicate SaysOf(k: Interp, kvid: KVid, family: Family, loc: Loc) {
    forall vs: seq<Value> :: k(kvid, vs) == family(loc, vs)
  }

  predicate HasKvar(b: Binding, kvid: KVid) {
    b.Strong? && b.sty.Exists? && b.sty.p.KVar? && b.sty.p.kvid == kvid
  }

  lemma {:induction false} KvarSays(t: Ty, loc: Loc, family: Family, binders: seq<Binder>, env: Env, k: Interp,
                                    tcx: Variances)
    requires t.Exists? && t.p.KVar? && t.p.args == KvarArgs(binders)
    requires forall i :: 0 <= i < |binders| ==> binders[i].0 in env
    requires SaysOf(k, t.p.kvid, family, loc)
    ensures Exactly(t, loc, family, binders, env, k, tcx)
  {
    forall v: Val | Index(v).Some?
      ensures HoldsPred(t.p, env, Index(v), k) <==> family(loc, Known(Index(v).value, binders, env))
    {
      var vs := Known(Index(v).value, binders, env);
      EvalAllAt(t.p.args, vs, env, Index(v));
    }
  }
}
