/** The cells a function can see at its entry: required cells, arguments and locals, bound one by one. */
module Cells {
  import L = Logic
  import opened Logic
  import opened Tree
  import opened Types
  import opened Position
  import opened Subtyping
  import opened Environment
  import opened Mir
  import opened Rules
  import opened Lowering
  import opened Calls
  import opened Entering
  import opened Necessity
  import C = Core

  /** How far the entry has been built: the builder and the position, what the names of the signature
      stand for, the bindings, the cells with their declared types, and locations that hold anything. */
  datatype Stage = Stage(
    s: Position.State, p: Position.Pos, exprs: map<Name, Expr>, locs: map<Name, Loc>, params: seq<C.Param>,
    bs: Bindings, cells: seq<Cell>, room: set<Loc>, tcx: Variances)

  ghost predicate CellsOk(cells: seq<Cell>, mu: Env, locs: map<Name, Loc>, st: Store, tcx: Variances) {
    forall i :: 0 <= i < |cells| ==> CellOk(cells[i], mu, locs, st, tcx)
  }

  /** Parameters and memory as the signature requires. */
  ghost predicate Provided(t: Stage, mu: Env, st: Store) {
    ParamsOk(t.params, mu) && CellsOk(t.cells, mu, t.locs, st, t.tcx) && t.room <= st.Keys
  }

  /** The environment reflects the parameters and makes the bindings describe the memory. */
  ghost predicate Fits(t: Stage, env: Env, mu: Env, st: Store, k: Interp) {
    Reflects(t.exprs, env, mu) && Describes(t.bs, st, env, k, t.tcx)
  }

  ghost predicate SomeStart(t: Stage, mu: Env, st: Store, k: Interp)
    requires At(t.s, t.p)
  {
    exists env: Env :: Reach(t.s.root, t.p.node, map[], env, k) && Fits(t, env, mu, st, k)
  }

  ghost predicate SomeCall(t: Stage, env: Env, k: Interp) {
    exists mu: Env, st: Store :: Provided(t, mu, st) && Fits(t, env, mu, st, k)
  }

  /** Whatever is provided, some environment that reaches the position fits it ... */
  ghost predicate CellsReach(t: Stage)
    requires At(t.s, t.p)
  {
    forall k: Interp, mu: Env, st: Store | Provided(t, mu, st) :: SomeStart(t, mu, st, k)
  }

  /** ... and every environment that reaches the position fits something that can be provided. */
  ghost predicate CellsCovered(t: Stage)
    requires At(t.s, t.p)
  {
    forall k: Interp, env: Env | Reach(t.s.root, t.p.node, map[], env, k) :: SomeCall(t, env, k)
  }

  /** A lowered type after unpacking: an existential type has got an index. */
  predicate Opened(u: Ty, ty: Ty) {
    if ty.Exists? then u.Refine? && u.bty == ty.bty else u == ty
  }

  /** The cell is bound to its opened type. */
  predicate BoundAs(c: Cell, exprs: map<Name, Expr>, locs: map<Name, Loc>, bs: Bindings) {
    && c.0 in bs && bs[c.0].Strong? && Lowerable(c.1, exprs, locs)
    && Opened(bs[c.0].sty, LowerTy(c.1, exprs, locs))
  }

  function CellLocs(cells: seq<Cell>): set<Loc> {
    set i | 0 <= i < |cells| :: cells[i].0
  }

  /** Cells and room are what is bound. */
  ghost predicate BoundOnly(t: Stage) {
    && (forall i :: 0 <= i < |t.cells| ==> BoundAs(t.cells[i], t.exprs, t.locs, t.bs))
    && (forall loc :: loc in t.room ==> loc in t.bs && t.bs[loc] == Strong(Uninit))
    && t.bs.Keys == CellLocs(t.cells) + t.room
  }

  ghost predicate Done(t: Stage) {
    && Wf(t.s, t.p) && Unobliged(t.s)
    && SortsReflect(t.exprs, ScopeOf(t.s, t.p), ParamSorts(t.params))
    && (forall y :: y in t.exprs ==> L.Free(y) in ParamSorts(t.params))
    && EnvOk(t.bs, ScopeOf(t.s, t.p), t.s.kvars)
    && (forall i :: 0 <= i < |t.cells| ==> WellSorted(t.cells[i].1, ParamSorts(t.params), t.locs.Keys))
    && BoundOnly(t)
    && CellsReach(t)
    && CellsCovered(t)
  }

  lemma StartCells(s: Position.State, p: Position.Pos, exprs: map<Name, Expr>, params: seq<C.Param>, tcx: Variances)
    requires ParamsDone(s, p, exprs, params, |params|)
    ensures Done(Stage(s, p, exprs, map[], params, map[], [], {}, tcx))
  {
    var t := Stage(s, p, exprs, map[], params, map[], [], {}, tcx);
    assert params[..|params|] == params;
    forall k: Interp, mu: Env, st: Store | Provided(t, mu, st) ensures SomeStart(t, mu, st, k) {
      assert SomeReach(s, p, exprs, mu, k);
      var env: Env :| Reach(s.root, p.node, map[], env, k) && Reflects(exprs, env, mu);
      assert Fits(t, env, mu, st, k);
    }
    forall k: Interp, env: Env | Reach(s.root, p.node, map[], env, k) ensures SomeCall(t, env, k) {
      assert SomeParams(exprs, params, env);
      var mu: Env :| ParamsOk(params, mu) && Reflects(exprs, env, mu);
      var st: Store := map[];
      assert Provided(t, mu, st) && Fits(t, env, mu, st, k);
    }
  }

  /** Drawing a name changes nothing. */
  lemma DrawName(t: Stage)
    requires Done(t)
    ensures Done(t.(s := t.s.(gen := t.s.gen + 1)))
  {
    var t1 := t.(s := t.s.(gen := t.s.gen + 1));
    WfLater(t.s, t1.s, t.p);
    forall k: Interp, mu: Env, st: Store | Provided(t1, mu, st) ensures SomeStart(t1, mu, st, k) {
      assert Provided(t, mu, st) && SomeStart(t, mu, st, k);
      var env: Env :| Reach(t.s.root, t.p.node, map[], env, k) && Fits(t, env, mu, st, k);
      assert Fits(t1, env, mu, st, k);
    }
    forall k: Interp, env: Env | Reach(t1.s.root, t1.p.node, map[], env, k) ensures SomeCall(t1, env, k) {
      assert SomeCall(t, env, k);
      var mu: Env, st: Store :| Provided(t, mu, st) && Fits(t, env, mu, st, k);
      assert Provided(t1, mu, st) && Fits(t1, env, mu, st, k);
    }
  }

  // ----- a new location name does not disturb earlier types -----

  ghost predicate MoreLocs(locs0: map<Name, Loc>, locs1: map<Name, Loc>) {
    forall x :: x in locs0 ==> x in locs1 && locs1[x] == locs0[x]
  }

  lemma {:induction false} InMoreLocs(v: Val, ty: C.Ty, cenv: C.SortEnv, mu: Env, locs0: map<Name, Loc>,
                                      locs1: map<Name, Loc>, tcx: Variances)
    requires WellSorted(ty, cenv, locs0.Keys) && MoreLocs(locs0, locs1)
    ensures C.In(v, ty, mu, locs0, tcx) <==> C.In(v, ty, mu, locs1, tcx)
    decreases ty
  {
    if ty.Refine? || ty.Exists? {
      InBaseMoreLocs(v, ty.bty, cenv, mu, locs0, locs1, tcx);
    }
  }

  lemma {:induction false} InBaseMoreLocs(v: Val, b: C.BaseTy, cenv: C.SortEnv, mu: Env, locs0: map<Name, Loc>,
                                          locs1: map<Name, Loc>, tcx: Variances)
    requires WellSortedBase(b, cenv, locs0.Keys) && MoreLocs(locs0, locs1)
    ensures C.InBase(v, b, mu, locs0, tcx) <==> C.InBase(v, b, mu, locs1, tcx)
    decreases b
  {
    if b.Adt? {
      forall i, x | 0 <= i < |b.substs|
        ensures C.In(x, b.substs[i], mu, locs0, tcx) <==> C.In(x, b.substs[i], mu, locs1, tcx)
      {
        InMoreLocs(x, b.substs[i], cenv, mu, locs0, locs1, tcx);
      }
    }
  }

  lemma {:induction false} WellSortedMoreLocs(ty: C.Ty, cenv: C.SortEnv, names0: set<Name>, names1: set<Name>)
    requires WellSorted(ty, cenv, names0) && names0 <= names1
    ensures WellSorted(ty, cenv, names1)
    decreases ty
  {
    if ty.Refine? || ty.Exists? {
      WellSortedBaseMoreLocs(ty.bty, cenv, names0, names1);
    }
  }

  lemma {:induction false} WellSortedBaseMoreLocs(b: C.BaseTy, cenv: C.SortEnv, names0: set<Name>, names1: set<Name>)
    requires WellSortedBase(b, cenv, names0) && names0 <= names1
    ensures WellSortedBase(b, cenv, names1)
    decreases b
  {
    if b.Adt? {
      forall i | 0 <= i < |b.substs| ensures WellSorted(b.substs[i], cenv, names1) {
        WellSortedMoreLocs(b.substs[i], cenv, names0, names1);
      }
    }
  }

  lemma {:induction false} LowerMoreLocs(ty: C.Ty, exprs: map<Name, Expr>, locs0: map<Name, Loc>, locs1: map<Name, Loc>)
    requires Lowerable(ty, exprs, locs0) && MoreLocs(locs0, locs1)
    ensures Lowerable(ty, exprs, locs1) && LowerTy(ty, exprs, locs1) == LowerTy(ty, exprs, locs0)
    decreases ty
  {
    if ty.Refine? || ty.Exists? {
      LowerBaseMoreLocs(ty.bty, exprs, locs0, locs1);
    }
  }

  lemma {:induction false} LowerBaseMoreLocs(b: C.BaseTy, exprs: map<Name, Expr>, locs0: map<Name, Loc>,
                                             locs1: map<Name, Loc>)
    requires LowerableBase(b, exprs, locs0) && MoreLocs(locs0, locs1)
    ensures LowerableBase(b, exprs, locs1) && LowerBaseTy(b, exprs, locs1) == LowerBaseTy(b, exprs, locs0)
    decreases b
  {
    if b.Adt? {
      forall i | 0 <= i < |b.substs|
        ensures Lowerable(b.substs[i], exprs, locs1) &&
                LowerTy(b.substs[i], exprs, locs1) == LowerTy(b.substs[i], exprs, locs0)
      {
        LowerMoreLocs(b.substs[i], exprs, locs0, locs1);
      }
      assert LowerBaseTy(b, exprs, locs1).substs == LowerBaseTy(b, exprs, locs0).substs;
    }
  }

  lemma CellsMoreLocs(t: Stage, locs1: map<Name, Loc>, mu: Env, st: Store)
    requires Done(t) && MoreLocs(t.locs, locs1)
    ensures Provided(t, mu, st) <==> Provided(t.(locs := locs1), mu, st)
  {
    forall i | 0 <= i < |t.cells|
      ensures CellOk(t.cells[i], mu, t.locs, st, t.tcx) <==> CellOk(t.cells[i], mu, locs1, st, t.tcx)
    {
      if t.cells[i].0 in st {
        InMoreLocs(st[t.cells[i].0], t.cells[i].1, ParamSorts(t.params), mu, t.locs, locs1, t.tcx);
      }
    }
  }

  lemma NameLocs(t: Stage, locs1: map<Name, Loc>)
    requires Done(t) && MoreLocs(t.locs, locs1)
    ensures Done(t.(locs := locs1))
  {
    var t1 := t.(locs := locs1);
    forall i | 0 <= i < |t.cells|
      ensures WellSorted(t.cells[i].1, ParamSorts(t.params), locs1.Keys) && BoundAs(t.cells[i], t.exprs, locs1, t.bs)
    {
      WellSortedMoreLocs(t.cells[i].1, ParamSorts(t.params), t.locs.Keys, locs1.Keys);
      assert BoundAs(t.cells[i], t.exprs, t.locs, t.bs);
      LowerMoreLocs(t.cells[i].1, t.exprs, t.locs, locs1);
    }
    forall k: Interp, mu: Env, st: Store | Provided(t1, mu, st) ensures SomeStart(t1, mu, st, k) {
      CellsMoreLocs(t, locs1, mu, st);
      assert SomeStart(t, mu, st, k);
      var env: Env :| Reach(t.s.root, t.p.node, map[], env, k) && Fits(t, env, mu, st, k);
      assert Fits(t1, env, mu, st, k);
    }
    forall k: Interp, env: Env | Reach(t1.s.root, t1.p.node, map[], env, k) ensures SomeCall(t1, env, k) {
      assert SomeCall(t, env, k);
      var mu: Env, st: Store :| Provided(t, mu, st) && Fits(t, env, mu, st, k);
      CellsMoreLocs(t, locs1, mu, st);
      assert Fits(t1, env, mu, st, k);
    }
  }

  // ----- one more cell -----

  /** State, position and type after unpacking. */
  function AfterUnpack(s: Position.State, p: Position.Pos, ty: Ty): (Position.State, Position.Pos, Ty)
    requires At(s, p)
  {
    if ty.Exists? then (UnpackState(s, p, ty.bty, ty.p), PushForallPos(s, p), Refine(ty.bty, FreeVar(s.gen)))
       else (s, p, ty)
  }

  lemma UnpackedWf(s: Position.State, p: Position.Pos, ty: Ty, bs: Bindings)
    requires Wf(s, p) && WfTy(ty, ScopeOf(s, p), s.kvars) && RefFree(ty) && EnvOk(bs, ScopeOf(s, p), s.kvars)
    ensures var (s1, q, u) := AfterUnpack(s, p, ty);
            && Wf(s1, q) && Extends(ScopeOf(s, p), ScopeOf(s1, q)) && s1.kvars == s.kvars
            && WfTy(u, ScopeOf(s1, q), s1.kvars) && RefFree(u) && EnvOk(bs, ScopeOf(s1, q), s1.kvars) && Opened(u, ty)
  {
    if ty.Exists? {
      UnpackWf(s, p, ty.bty, ty.p);
      var (s1, q, u) := AfterUnpack(s, p, ty);
      WfBaseExtends(ty.bty, ScopeOf(s, p), ScopeOf(s1, q), s.kvars, s.kvars);
      WfBindingsExtends(bs, ScopeOf(s, p), ScopeOf(s1, q), s.kvars, s.kvars);
    }
  }

  lemma UnpackedUnobliged(s: Position.State, p: Position.Pos, ty: Ty)
    requires At(s, p) && Unobliged(s)
    ensures Unobliged(AfterUnpack(s, p, ty).0)
  {
    if ty.Exists? {
      UnobligedForAll(s.(gen := s.gen + 1), p, s.gen, SortOfBase(ty.bty), SubstPred(ty.p, FreeVar(s.gen)));
    }
  }

  lemma DescribesMore(bs: Bindings, g: Scope, kvars: seq<seq<Sort>>, env: Env, env1: Env, st: Store, k: Interp,
                      tcx: Variances)
    requires WfBindings(bs, g, kvars) && Agree(g, env, env1) && Describes(bs, st, env, k, tcx)
    ensures Describes(bs, st, env1, k, tcx)
  {
    forall l | l in bs ensures l in st && In(st[l], BindingTy(bs[l]), env1, k, tcx, st) {
      InAgree(st[l], BindingTy(bs[l]), g, kvars, env, env1, k, tcx, st);
    }
  }

  /** In a larger memory that differs at most at locations that are not bound. */
  lemma DescribesStore(bs: Bindings, st0: Store, st1: Store, env: Env, k: Interp, tcx: Variances)
    requires RefFreeBindings(bs) && Describes(bs, st0, env, k, tcx)
    requires forall l :: l in bs ==> l in st1 && st1[l] == st0[l]
    ensures Describes(bs, st1, env, k, tcx)
  {
    forall l | l in bs ensures l in st1 && In(st1[l], BindingTy(bs[l]), env, k, tcx, st1) {
      InStore(st0[l], BindingTy(bs[l]), env, k, tcx, st0, st1);
    }
  }

  /** The stage after one more cell. */
  function WithCell(t: Stage, loc: Loc, cty: C.Ty): Stage
    requires At(t.s, t.p) && Lowerable(cty, t.exprs, t.locs)
  {
    var (s1, q, u) := AfterUnpack(t.s, t.p, LowerTy(cty, t.exprs, t.locs));
    t.(s := s1, p := q, bs := t.bs[loc := Strong(u)], cells := t.cells + [(loc, cty)])
  }

  /** A lowered type of the signature, well-formed in the scope. */
  ghost predicate LoweredOk(t: Stage, cty: C.Ty)
    requires At(t.s, t.p)
  {
    && Lowerable(cty, t.exprs, t.locs) && RefFree(LowerTy(cty, t.exprs, t.locs))
    && WfTy(LowerTy(cty, t.exprs, t.locs), ScopeOf(t.s, t.p), t.s.kvars)
  }

  /** An environment for a value of the lowered type extends to one for the unpacked type. */
  lemma UnpackedFits(t: Stage, loc: Loc, cty: C.Ty, env: Env, mu: Env, st: Store, k: Interp)
    requires Done(t) && LoweredOk(t, cty) && At(WithCell(t, loc, cty).s, WithCell(t, loc, cty).p)
    requires Reach(t.s.root, t.p.node, map[], env, k) && Fits(t, env, mu, st, k)
    requires loc in st && In(st[loc], LowerTy(cty, t.exprs, t.locs), env, k, t.tcx, st)
    ensures SomeStart(WithCell(t, loc, cty), mu, st, k)
  {
    var ty := LowerTy(cty, t.exprs, t.locs);
    if ty.Exists? {
      var env1 := IndexedReach(t, loc, ty.bty, ty.p, env, mu, st, k);
      assert Fits(WithCell(t, loc, cty), env1, mu, st, k);
    } else {
      assert Fits(WithCell(t, loc, cty), env, mu, st, k);
    }
  }

  lemma IndexedReach(t: Stage, loc: Loc, b: BaseTy, pred: Pred, env: Env, mu: Env, st: Store, k: Interp)
    returns (env1: Env)
    requires Done(t) && WfTy(Exists(b, pred), ScopeOf(t.s, t.p), t.s.kvars)
    requires At(UnpackState(t.s, t.p, b, pred), PushForallPos(t.s, t.p))
    requires Reach(t.s.root, t.p.node, map[], env, k) && Fits(t, env, mu, st, k)
    requires loc in st && In(st[loc], Exists(b, pred), env, k, t.tcx, st)
    ensures Reach(UnpackState(t.s, t.p, b, pred).root, PushForallPos(t.s, t.p).node, map[], env1, k)
    ensures Reflects(t.exprs, env1, mu) &&
            Describes(t.bs[loc := Strong(Refine(b, FreeVar(t.s.gen)))], st, env1, k, t.tcx)
  {
    BaseIndexSort(st[loc], b, env, k, t.tcx, st);
    env1 := env[t.s.gen := Index(st[loc]).value];
    ReachScope(t.s, t.p, env, k);
    UnpackReach(t.s, t.p, b, pred, env, Index(st[loc]).value, k);
    IndexedFits(t, loc, b, env, mu, st, k);
  }

  /** With the index of its value under a fresh name, the location is described by that name. */
  lemma IndexedFits(t: Stage, loc: Loc, b: BaseTy, env: Env, mu: Env, st: Store, k: Interp)
    requires t.p.nvars <= |t.s.vars|
    requires SortsReflect(t.exprs, ScopeOf(t.s, t.p), ParamSorts(t.params)) &&
             forall y :: y in t.exprs ==> L.Free(y) in ParamSorts(t.params)
    requires WfBindings(t.bs, ScopeOf(t.s, t.p), t.s.kvars) && WfBase(b, ScopeOf(t.s, t.p), t.s.kvars)
    requires t.s.gen !in ScopeOf(t.s, t.p) && Conforms(env, ScopeOf(t.s, t.p))
    requires Fits(t, env, mu, st, k) && loc in st && InBase(st[loc], b, env, k, t.tcx, st) && Index(st[loc]).Some?
    ensures var env1 := env[t.s.gen := Index(st[loc]).value];
            Reflects(t.exprs, env1, mu) && Describes(t.bs[loc := Strong(Refine(b, FreeVar(t.s.gen)))], st, env1, k,
                                                     t.tcx)
  {
    var g, env1 := ScopeOf(t.s, t.p), env[t.s.gen := Index(st[loc]).value];
    assert Agree(g, env, env1);
    ReflectsMore(t.exprs, ParamSorts(t.params), g, env, env1, mu);
    InBaseAgree(st[loc], b, g, t.s.kvars, env, env1, k, t.tcx, st);
    DescribesMore(t.bs, g, t.s.kvars, env, env1, st, k, t.tcx);
  }

  lemma CellReach(t: Stage, loc: Loc, cty: C.Ty)
    requires Done(t) && LoweredOk(t, cty) && At(WithCell(t, loc, cty).s, WithCell(t, loc, cty).p)
    ensures CellsReach(WithCell(t, loc, cty))
  {
    var t1 := WithCell(t, loc, cty);
    forall k: Interp, mu: Env, st: Store | Provided(t1, mu, st) ensures SomeStart(t1, mu, st, k) {
      assert t1.cells[|t.cells|] == (loc, cty) && CellOk(t1.cells[|t.cells|], mu, t.locs, st, t.tcx);
      forall i | 0 <= i < |t.cells|
        ensures CellOk(t.cells[i], mu, t.locs, st, t.tcx)
      {
        assert t1.cells[i] == t.cells[i];
      }
      assert SomeStart(t, mu, st, k);
      var env: Env :| Reach(t.s.root, t.p.node, map[], env, k) && Fits(t, env, mu, st, k);
      LowerTyMeaning(st[loc], cty, t.exprs, t.locs, env, mu, k, t.tcx, st);
      UnpackedFits(t, loc, cty, env, mu, st, k);
    }
  }

  /** A value of a base type with a given index; every base type has them. */
  function BaseValue(b: BaseTy, idx: Value): Val {
    if b.Adt? then Data(b.did, if idx.IntVal? then idx.n else 0, seq(|b.substs|, i => []), seq(|b.substs|, i => []))
    else if idx.IntVal? then Num(idx.n) else Truth(idx.b)
  }

  lemma BaseValueIn(b: BaseTy, idx: Value, env: Env, k: Interp, tcx: Variances, st: Store)
    requires SortOfValue(idx) == SortOfBase(b)
    ensures InBase(BaseValue(b, idx), b, env, k, tcx, st) && Index(BaseValue(b, idx)) == Some(idx)
  {
  }

  /** A value of the type the new cell is bound to, in the environment that reaches the new position. */
  lemma OpenedValue(t: Stage, loc: Loc, cty: C.Ty, env1: Env, k: Interp) returns (env: Env, v: Val)
    requires Done(t) && LoweredOk(t, cty) && At(WithCell(t, loc, cty).s, WithCell(t, loc, cty).p)
    requires Reach(WithCell(t, loc, cty).s.root, WithCell(t, loc, cty).p.node, map[], env1, k)
    ensures Reach(t.s.root, t.p.node, map[], env, k) && Agree(ScopeOf(t.s, t.p), env, env1)
    ensures InAlways(v, LowerTy(cty, t.exprs, t.locs), env, k, t.tcx)
    ensures InAlways(v, BindingTy(WithCell(t, loc, cty).bs[loc]), env1, k, t.tcx)
  {
    var ty := LowerTy(cty, t.exprs, t.locs);
    if ty.Exists? {
      env := UnpackReachInv(t.s, t.p, ty.bty, ty.p, env1, k);
      v := BaseValue(ty.bty, env1[t.s.gen]);
      OpenValue(ty.bty, ty.p, t.s.gen, env, env1, k, t.tcx);
    } else {
      env := env1;
      ReachScope(t.s, t.p, env, k);
      v := ClosedValue(ty, ScopeOf(t.s, t.p), t.s.kvars, env, k, t.tcx);
    }
  }

  ghost predicate InAlways(v: Val, ty: Ty, env: Env, k: Interp, tcx: Variances) {
    forall st: Store :: In(v, ty, env, k, tcx, st)
  }

  lemma OpenValue(b: BaseTy, pred: Pred, x: Name, env: Env, env1: Env, k: Interp, tcx: Variances)
    requires x in env1 && SortOfValue(env1[x]) == SortOfBase(b) && HoldsPred(pred, env, Some(env1[x]), k)
    ensures InAlways(BaseValue(b, env1[x]), Exists(b, pred), env, k, tcx)
    ensures InAlways(BaseValue(b, env1[x]), Refine(b, FreeVar(x)), env1, k, tcx)
  {
    var v := BaseValue(b, env1[x]);
    forall st: Store ensures In(v, Exists(b, pred), env, k, tcx, st) { BaseValueIn(b, env1[x], env, k, tcx, st); }
    forall st: Store
      ensures In(v, Refine(b, FreeVar(x)), env1, k, tcx, st)
    {
      BaseValueIn(b, env1[x], env1, k, tcx, st);
    }
  }

  /** A value of a type without a bound variable. */
  lemma ClosedValue(ty: Ty, g: Scope, kvars: seq<seq<Sort>>, env: Env, k: Interp, tcx: Variances) returns (v: Val)
    requires WfTy(ty, g, kvars) && RefFree(ty) && !ty.Exists? && Conforms(env, g)
    ensures InAlways(v, ty, env, k, tcx)
  {
    match ty
    case Refine(b, e) =>
      EvalSorted(e, g, None, env, None);
      v := BaseValue(b, Eval(e, env, None).value);
      forall st: Store ensures In(v, ty, env, k, tcx, st) { BaseValueIn(b, Eval(e, env, None).value, env, k, tcx, st); }
    case StrgRef(loc) => v := Pointer(loc);
    case Param(i) => v := Opaque(i, 0);
    case Uninit => v := Junk;
  }

  lemma CellCovered(t: Stage, loc: Loc, cty: C.Ty)
    requires Done(t) && LoweredOk(t, cty) && At(WithCell(t, loc, cty).s, WithCell(t, loc, cty).p) && loc !in t.bs
    ensures CellsCovered(WithCell(t, loc, cty))
  {
    var t1 := WithCell(t, loc, cty);
    forall k: Interp, env1: Env | Reach(t1.s.root, t1.p.node, map[], env1, k) ensures SomeCall(t1, env1, k) {
      CallFor(t, loc, cty, env1, k);
    }
  }

  lemma CallFor(t: Stage, loc: Loc, cty: C.Ty, env1: Env, k: Interp)
    requires Done(t) && LoweredOk(t, cty) && At(WithCell(t, loc, cty).s, WithCell(t, loc, cty).p) && loc !in t.bs
    requires Reach(WithCell(t, loc, cty).s.root, WithCell(t, loc, cty).p.node, map[], env1, k)
    ensures SomeCall(WithCell(t, loc, cty), env1, k)
  {
    var env, v := OpenedValue(t, loc, cty, env1, k);
    assert SomeCall(t, env, k);
    var mu: Env, st: Store :| Provided(t, mu, st) && Fits(t, env, mu, st, k);
    assert In(v, LowerTy(cty, t.exprs, t.locs), env, k, t.tcx, st);
    assert In(v, BindingTy(WithCell(t, loc, cty).bs[loc]), env1, k, t.tcx, st[loc := v]);
    CellProvided(t, loc, cty, env, mu, st, v, k);
    CellFits(t, loc, cty, env, env1, mu, st, v, k);
  }

  lemma CellProvided(t: Stage, loc: Loc, cty: C.Ty, env: Env, mu: Env, st: Store, v: Val, k: Interp)
    requires Done(t) && LoweredOk(t, cty) && loc !in t.bs
    requires Provided(t, mu, st) && Fits(t, env, mu, st, k) && In(v, LowerTy(cty, t.exprs, t.locs), env, k, t.tcx, st)
    ensures Provided(WithCell(t, loc, cty), mu, st[loc := v])
  {
    var t1 := WithCell(t, loc, cty);
    LowerTyMeaning(v, cty, t.exprs, t.locs, env, mu, k, t.tcx, st);
    forall i | 0 <= i < |t1.cells| ensures CellOk(t1.cells[i], mu, t.locs, st[loc := v], t.tcx) {
      if i < |t.cells| {
        assert t1.cells[i] == t.cells[i] && CellOk(t.cells[i], mu, t.locs, st, t.tcx);
        assert BoundAs(t.cells[i], t.exprs, t.locs, t.bs);
      }
    }
  }

  lemma CellFits(t: Stage, loc: Loc, cty: C.Ty, env: Env, env1: Env, mu: Env, st: Store, v: Val, k: Interp)
    requires Done(t) && LoweredOk(t, cty) && loc !in t.bs
    requires Agree(ScopeOf(t.s, t.p), env, env1) && Fits(t, env, mu, st, k)
    requires In(v, BindingTy(WithCell(t, loc, cty).bs[loc]), env1, k, t.tcx, st[loc := v])
    ensures Fits(WithCell(t, loc, cty), env1, mu, st[loc := v], k)
  {
    ReflectsMore(t.exprs, ParamSorts(t.params), ScopeOf(t.s, t.p), env, env1, mu);
    DescribesMore(t.bs, ScopeOf(t.s, t.p), t.s.kvars, env, env1, st, k, t.tcx);
    DescribesStore(t.bs, st, st[loc := v], env1, k, t.tcx);
  }

  lemma CellBound(t: Stage, loc: Loc, cty: C.Ty)
    requires At(t.s, t.p) && BoundOnly(t) && Lowerable(cty, t.exprs, t.locs) && loc !in t.bs
    requires Opened(AfterUnpack(t.s, t.p, LowerTy(cty, t.exprs, t.locs)).2, LowerTy(cty, t.exprs, t.locs))
    ensures BoundOnly(WithCell(t, loc, cty))
  {
    var t1 := WithCell(t, loc, cty);
    forall i | 0 <= i < |t1.cells| ensures BoundAs(t1.cells[i], t1.exprs, t1.locs, t1.bs) {
      if i < |t.cells| {
        assert t1.cells[i] == t.cells[i] && BoundAs(t.cells[i], t.exprs, t.locs, t.bs);
      }
    }
    assert CellLocs(t1.cells) == CellLocs(t.cells) + {loc} by {
      assert t1.cells[|t.cells|].0 == loc;
      forall l | l in CellLocs(t.cells) ensures l in CellLocs(t1.cells) {
        var i :| 0 <= i < |t.cells| && t.cells[i].0 == l;
        assert t1.cells[i].0 == l;
      }
      forall l | l in CellLocs(t1.cells) ensures l in CellLocs(t.cells) + {loc} {
        var i :| 0 <= i < |t1.cells| && t1.cells[i].0 == l;
        if i < |t.cells| { assert t.cells[i].0 == l; }
      }
    }
  }

  lemma CellLowers(t: Stage, cty: C.Ty)
    requires Done(t) && WellSorted(cty, ParamSorts(t.params), t.locs.Keys)
    ensures LoweredOk(t, cty)
  {
    ParamSortsFree(t.params);
    LowerTyWf(cty, ParamSorts(t.params), t.exprs, t.locs, ScopeOf(t.s, t.p), t.s.kvars);
  }

  /** Builder, scope and bindings after one more cell. */
  lemma CellWf(t: Stage, loc: Loc, cty: C.Ty)
    requires Done(t) && WellSorted(cty, ParamSorts(t.params), t.locs.Keys)
    ensures LoweredOk(t, cty)
    ensures var t1 := WithCell(t, loc, cty);
            && Wf(t1.s, t1.p) && Unobliged(t1.s)
            && SortsReflect(t1.exprs, ScopeOf(t1.s, t1.p), ParamSorts(t1.params)) &&
               EnvOk(t1.bs, ScopeOf(t1.s, t1.p), t1.s.kvars)
            && Opened(BindingTy(t1.bs[loc]), LowerTy(cty, t.exprs, t.locs))
  {
    CellLowers(t, cty);
    var ty := LowerTy(cty, t.exprs, t.locs);
    UnpackedWf(t.s, t.p, ty, t.bs);
    UnpackedUnobliged(t.s, t.p, ty);
    var (s1, q, u) := AfterUnpack(t.s, t.p, ty);
    SortsReflectMore(t.exprs, ParamSorts(t.params), ScopeOf(t.s, t.p), ScopeOf(s1, q));
    EnvMore(t.bs, loc, u, ScopeOf(s1, q), s1.kvars);
  }

  lemma EnvMore(bs: Bindings, loc: Loc, u: Ty, g: Scope, kvars: seq<seq<Sort>>)
    requires EnvOk(bs, g, kvars) && WfTy(u, g, kvars) && RefFree(u)
    ensures EnvOk(bs[loc := Strong(u)], g, kvars)
  {
  }

  lemma CellStep(t: Stage, loc: Loc, cty: C.Ty)
    requires Done(t) && WellSorted(cty, ParamSorts(t.params), t.locs.Keys) && loc !in t.bs
    ensures LoweredOk(t, cty) && Done(WithCell(t, loc, cty))
  {
    CellWf(t, loc, cty);
    CellBound(t, loc, cty);
    CellReach(t, loc, cty);
    CellCovered(t, loc, cty);
  }

  /** A location that holds anything. */
  function WithRoom(t: Stage, loc: Loc): Stage {
    t.(bs := t.bs[loc := Strong(Uninit)], room := t.room + {loc})
  }

  lemma RoomStep(t: Stage, loc: Loc)
    requires Done(t) && loc !in t.bs
    ensures Done(WithRoom(t, loc))
  {
    forall i | 0 <= i < |t.cells| ensures BoundAs(t.cells[i], t.exprs, t.locs, WithRoom(t, loc).bs) {
      assert BoundAs(t.cells[i], t.exprs, t.locs, t.bs);
    }
    RoomReach(t, loc);
    RoomCovered(t, loc);
  }

  lemma RoomReach(t: Stage, loc: Loc)
    requires At(t.s, t.p) && CellsReach(t)
    ensures CellsReach(WithRoom(t, loc))
  {
    var t1 := WithRoom(t, loc);
    forall k: Interp, mu: Env, st: Store | Provided(t1, mu, st) ensures SomeStart(t1, mu, st, k) {
      assert Provided(t, mu, st) && SomeStart(t, mu, st, k);
      var env: Env :| Reach(t.s.root, t.p.node, map[], env, k) && Fits(t, env, mu, st, k);
      assert Fits(t1, env, mu, st, k);
    }
  }

  lemma RoomCovered(t: Stage, loc: Loc)
    requires At(t.s, t.p) && CellsCovered(t) && RefFreeBindings(t.bs) && BoundOnly(t) && loc !in t.bs
    ensures CellsCovered(WithRoom(t, loc))
  {
    forall k: Interp, env: Env | Reach(t.s.root, t.p.node, map[], env, k) ensures SomeCall(WithRoom(t, loc), env, k) {
      assert SomeCall(t, env, k);
      var mu: Env, st: Store :| Provided(t, mu, st) && Fits(t, env, mu, st, k);
      RoomFits(t, loc, env, mu, st, k);
    }
  }

  lemma RoomFits(t: Stage, loc: Loc, env: Env, mu: Env, st: Store, k: Interp)
    requires RefFreeBindings(t.bs) && loc !in t.bs && BoundOnly(t) && Provided(t, mu, st) && Fits(t, env, mu, st, k)
    ensures SomeCall(WithRoom(t, loc), env, k)
  {
    var t1, st1 := WithRoom(t, loc), st[loc := Junk];
    forall i | 0 <= i < |t.cells| ensures CellOk(t.cells[i], mu, t.locs, st1, t.tcx) {
      assert CellOk(t.cells[i], mu, t.locs, st, t.tcx) && BoundAs(t.cells[i], t.exprs, t.locs, t.bs);
    }
    DescribesStore(t.bs, st, st1, env, k, t.tcx);
    assert Provided(t1, mu, st1) && Fits(t1, env, mu, st1, k);
  }
}
