/** Checking a function against its signature, from start to the solver's constraint. */
module Entry {
  import L = Logic
  import opened Logic
  import opened Tree
  import opened Types
  import opened Position
  import opened Subtyping
  import opened Environment
  import opened ConstraintBuilders
  import opened TypeEnvs
  import opened Mir
  import opened Rules
  import opened Necessity
  import opened Exactness
  import opened Acceptance
  import opened Erasure
  import opened Checkers
  import opened Lowering
  import opened Calls
  import opened Entering
  import opened Cells
  import opened Entrance
  import C = Core
  import F = Fixpoint
  import Translate
  import Closed

  // ----- what the function owes -----

  predicate EnsuresLowerable(sig: C.FnSig, exprs: map<Name, Expr>, locs: map<Name, Loc>) {
    Lowerable(sig.ret, exprs, locs) &&
    forall i :: 0 <= i < |sig.ensured| ==> sig.ensured[i].0 in locs && Lowerable(sig.ensured[i].1, exprs, locs)
  }

  function LowerEnsures(sig: C.FnSig, exprs: map<Name, Expr>, locs: map<Name, Loc>): (r: seq<(Loc, Ty)>)
    requires EnsuresLowerable(sig, exprs, locs)
    ensures |r| == |sig.ensured|
    ensures forall i :: 0 <= i < |r| ==> r[i] == (locs[sig.ensured[i].0], LowerTy(sig.ensured[i].1, exprs, locs))
  {
    seq(|sig.ensured|, i requires 0 <= i < |sig.ensured| =>
          (locs[sig.ensured[i].0], LowerTy(sig.ensured[i].1, exprs, locs)))
  }

  function DutyOf(sig: C.FnSig, exprs: map<Name, Expr>, locs: map<Name, Loc>): Duty
    requires EnsuresLowerable(sig, exprs, locs)
  {
    Duty(LowerTy(sig.ret, exprs, locs), LowerEnsures(sig, exprs, locs))
  }

  lemma DutyWf(sig: C.FnSig, exprs: map<Name, Expr>, locs: map<Name, Loc>, g: Scope, kvars: seq<seq<Sort>>)
    requires SigWf(sig) && locs.Keys == CellNames(sig.required) && SortsReflect(exprs, g, ParamSorts(sig.params))
    ensures EnsuresLowerable(sig, exprs, locs)
    ensures DutyOk(DutyOf(sig, exprs, locs), g, kvars)
  {
    ParamSortsFree(sig.params);
    LowerTyWf(sig.ret, ParamSorts(sig.params), exprs, locs, g, kvars);
    forall i | 0 <= i < |sig.ensured|
      ensures Lowerable(sig.ensured[i].1, exprs, locs) && WfTy(LowerTy(sig.ensured[i].1, exprs, locs), g, kvars)
    {
      LowerTyWf(sig.ensured[i].1, ParamSorts(sig.params), exprs, locs, g, kvars);
    }
  }

  /** A memory meets the lowered duty exactly when it is returned as the signature ensures. */
  lemma MeetsIff(sig: C.FnSig, exprs: map<Name, Expr>, locs: map<Name, Loc>, st: Store, env: Env, mu: Env, k: Interp,
                 tcx: Variances)
    requires EnsuresLowerable(sig, exprs, locs) && Reflects(exprs, env, mu)
    ensures Meets(st, PostOf(DutyOf(sig, exprs, locs), env, k, tcx)) <==> ReturnOk(sig, mu, locs, st, tcx)
  {
    if Local(0) in st {
      LowerTyMeaning(st[Local(0)], sig.ret, exprs, locs, env, mu, k, tcx, st);
    }
    var ensured := LowerEnsures(sig, exprs, locs);
    forall i | 0 <= i < |sig.ensured| && ensured[i].0 in st
      ensures In(st[ensured[i].0], ensured[i].1, env, k, tcx, st) <==>
              C.In(st[locs[sig.ensured[i].0]], sig.ensured[i].1, mu, locs, tcx)
    {
      LowerTyMeaning(st[ensured[i].0], sig.ensured[i].1, exprs, locs, env, mu, k, tcx, st);
    }
  }

  // ----- the plain types of a signature -----

  predicate RegionsKnown(sig: C.FnSig, locs: map<Name, Loc>) {
    && (forall x :: x in Regions(sig.ret) ==> x in locs)
    && forall i, x :: 0 <= i < |sig.ensured| && x in Regions(sig.ensured[i].1) ==> x in locs
  }

  function PlainSig(sig: C.FnSig, locs: map<Name, Loc>): PlainDuty
    requires RegionsKnown(sig, locs) && forall i :: 0 <= i < |sig.ensured| ==> sig.ensured[i].0 in locs
  {
    PlainDuty(Declared(sig.ret, locs), seq(|sig.ensured|, i requires 0 <= i < |sig.ensured| =>
                                             (locs[sig.ensured[i].0], Declared(sig.ensured[i].1, locs))))
  }

  lemma DutyErased(sig: C.FnSig, exprs: map<Name, Expr>, locs: map<Name, Loc>)
    requires EnsuresLowerable(sig, exprs, locs)
    ensures RegionsKnown(sig, locs) && EraseDuty(DutyOf(sig, exprs, locs)) == PlainSig(sig, locs)
  {
    LowerErased(sig.ret, exprs, locs);
    forall i | 0 <= i < |sig.ensured|
      ensures forall x :: x in Regions(sig.ensured[i].1) ==> x in locs
      ensures Erase(LowerTy(sig.ensured[i].1, exprs, locs)) == Declared(sig.ensured[i].1, locs)
    {
      LowerErased(sig.ensured[i].1, exprs, locs);
    }
  }

  /** At the entry a cell has the plain type declared for it, and the rest is uninitialized. */
  lemma EntryErased(t: Stage, sig: C.FnSig, body: Body, i: nat)
    requires Entered(t, sig, body) && i < |t.cells|
    ensures forall x :: x in Regions(t.cells[i].1) ==> x in t.locs
    ensures t.cells[i].0 in t.bs && EraseEnv(t.bs)[t.cells[i].0] == Declared(t.cells[i].1, t.locs)
    ensures forall loc :: loc in t.room ==> loc in t.bs && EraseEnv(t.bs)[loc] == PUninit
  {
    var (loc, cty) := t.cells[i];
    assert BoundAs(t.cells[i], t.exprs, t.locs, t.bs);
    LowerErased(cty, t.exprs, t.locs);
    assert Erase(t.bs[loc].sty) == Erase(LowerTy(cty, t.exprs, t.locs));
  }

  lemma EntryOpen(t: Stage, sig: C.FnSig, body: Body)
    requires Entered(t, sig, body)
    ensures OpenEnv(t.bs)
  {
    forall loc | loc in t.bs ensures t.bs[loc].Strong? && Open(t.bs[loc].sty) {
      if loc !in t.room {
        var i :| 0 <= i < |t.cells| && t.cells[i].0 == loc;
        assert BoundAs(t.cells[i], t.exprs, t.locs, t.bs);
        assert RefFree(t.bs[loc].sty);
        var ty := LowerTy(t.cells[i].1, t.exprs, t.locs);
        assert Opened(t.bs[loc].sty, ty) && !ty.Ref?;
      }
    }
  }

  /** The checker accepts whatever is well-typed without refinements, and for scalar signatures nothing else. */
  lemma AcceptedIffTyped(t: Stage, sig: C.FnSig, body: Body)
    requires SigWf(sig) && Entered(t, sig, body) && EnsuresLowerable(sig, t.exprs, t.locs)
    ensures RegionsKnown(sig, t.locs)
    ensures WellTyped(body, PlainSig(sig, t.locs), EraseEnv(t.bs), 0, {}) ==>
              Accepts(body, DutyOf(sig, t.exprs, t.locs), t.tcx, t.bs, 0, {})
    ensures DataFree(sig) && Accepts(body, DutyOf(sig, t.exprs, t.locs), t.tcx, t.bs, 0, {}) ==>
              WellTyped(body, PlainSig(sig, t.locs), EraseEnv(t.bs), 0, {})
  {
    EntryOpen(t, sig, body);
    if DataFree(sig) { EntryScalar(t, sig, body); }
    DutyErased(sig, t.exprs, t.locs);
    DutyRefFree(t, sig);
    AcceptsIffTyped(body, DutyOf(sig, t.exprs, t.locs), t.tcx, t.bs, 0, {});
  }

  lemma DutyRefFree(t: Stage, sig: C.FnSig)
    requires SigWf(sig) && Done(t) && t.params == sig.params && EnsuresLowerable(sig, t.exprs, t.locs)
    requires t.locs.Keys == CellNames(sig.required)
    ensures RefFreeDuty(DutyOf(sig, t.exprs, t.locs))
  {
    var g, kvars := ScopeOf(t.s, t.p), t.s.kvars;
    ParamSortsFree(sig.params);
    LowerTyWf(sig.ret, ParamSorts(sig.params), t.exprs, t.locs, g, kvars);
    forall i | 0 <= i < |sig.ensured| ensures RefFree(LowerTy(sig.ensured[i].1, t.exprs, t.locs)) {
      LowerTyWf(sig.ensured[i].1, ParamSorts(sig.params), t.exprs, t.locs, g, kvars);
    }
  }

  // ----- the theorem -----

  /** If the obligations hold, under some interpretation of the kvars, every call that meets the
      signature runs without failing and returns as ensured. */
  ghost predicate Correct(root: Node, sig: C.FnSig, body: Body, locs: map<Name, Loc>, tcx: Variances) {
    forall k: Interp, mu: Env, st: Store, n: nat | Holds(root, map[], k) && CallOk(sig, body, mu, locs, st, tcx) ::
      RunOk(sig, body, mu, locs, st, n, tcx)
  }

  ghost predicate AllSure(sig: C.FnSig, body: Body, locs: map<Name, Loc>, tcx: Variances) {
    forall mu: Env, st: Store, n: nat | CallOk(sig, body, mu, locs, st, tcx) :: RunSure(sig, body, mu, locs, st, n, tcx)
  }

  /** Conversely, without data types: if every such call does, the obligations hold. */
  ghost predicate Needed(root: Node, sig: C.FnSig, body: Body, locs: map<Name, Loc>, tcx: Variances) {
    DataFree(sig) && DistinctSwitches(body) && AllSure(sig, body, locs, tcx) ==>
        forall k: Interp :: Holds(root, map[], k)
  }

  lemma EntryCorrect(t: Stage, s1: Position.State, sig: C.FnSig, body: Body)
    requires Entered(t, sig, body) && EnsuresLowerable(sig, t.exprs, t.locs)
    requires PointSound(t.s, t.p, s1, t.bs, body, 0, 0, DutyOf(sig, t.exprs, t.locs), t.tcx)
    ensures Correct(s1.root, sig, body, t.locs, t.tcx)
  {
    forall k: Interp, mu: Env, st: Store, n: nat | Holds(s1.root, map[], k) && CallOk(sig, body, mu, t.locs, st, t.tcx)
      ensures RunOk(sig, body, mu, t.locs, st, n, t.tcx)
    {
      CallProvides(t, sig, body, mu, st);
      assert SomeStart(t, mu, st, k);
      var env: Env :| Reach(t.s.root, t.p.node, map[], env, k) && Fits(t, env, mu, st, k);
      SafeExec(body, Config(0, 0, st), n, PostOf(DutyOf(sig, t.exprs, t.locs), env, k, t.tcx));
      if Exec(body, Config(0, 0, st), n).Returned? {
        MeetsIff(sig, t.exprs, t.locs, Exec(body, Config(0, 0, st), n).store, env, mu, k, t.tcx);
      }
    }
  }

  lemma {:induction false} ExecSure(body: Body, c: Config, n: nat, post: Post)
    requires !Exec(body, c, n).Failed? && !Exec(body, c, n).Outside?
    requires Exec(body, c, n).Returned? ==> Meets(Exec(body, c, n).store, post)
    ensures Sure(body, c, n, post)
    decreases n
  {
    if n > 0 && Step(body, c).Next? {
      ExecSure(body, Step(body, c).config, n - 1, post);
    }
  }

  lemma EntryScalar(t: Stage, sig: C.FnSig, body: Body)
    requires Entered(t, sig, body) && DataFree(sig)
    ensures ScalarEnv(t.bs)
  {
    forall loc | loc in t.bs ensures t.bs[loc].Strong? && ScalarTy(t.bs[loc].sty) {
      if loc !in t.room {
        var i :| 0 <= i < |t.cells| && t.cells[i].0 == loc;
        CellAt(sig, ArgCount(sig, body), t.locs, t.cells, i);
        assert BoundAs(t.cells[i], t.exprs, t.locs, t.bs);
        ScalarLowered(t.cells[i].1, t.exprs, t.locs, t.bs[loc].sty);
      }
    }
  }

  lemma ScalarLowered(cty: C.Ty, exprs: map<Name, Expr>, locs: map<Name, Loc>, u: Ty)
    requires ScalarCore(cty) && Lowerable(cty, exprs, locs) && Opened(u, LowerTy(cty, exprs, locs))
    ensures ScalarTy(u)
  {
    match cty
    case Refine(b, _) => assert LowerBaseTy(b, exprs, locs).Adt? ==> b.Adt?;
    case Exists(b, _) => assert LowerBaseTy(b, exprs, locs).Adt? ==> b.Adt?;
    case MutRef(_) =>
    case Param(_) =>
  }

  /** At every environment of the entry, some call starts that runs surely. */
  lemma EntrySure(t: Stage, sig: C.FnSig, body: Body, env: Env, k: Interp)
    requires Entered(t, sig, body) && EnsuresLowerable(sig, t.exprs, t.locs) && AllSure(sig, body, t.locs, t.tcx)
    requires Reach(t.s.root, t.p.node, map[], env, k)
    ensures StartsSure(t.bs, body, 0, 0, DutyOf(sig, t.exprs, t.locs), env, k, t.tcx)
  {
    var post := PostOf(DutyOf(sig, t.exprs, t.locs), env, k, t.tcx);
    assert SomeCall(t, env, k);
    var mu: Env, st0: Store :| Provided(t, mu, st0) && Fits(t, env, mu, st0, k);
    var st := WithLocals(t, body, env, mu, st0, k);
    ProvidedCall(t, sig, body, mu, st);
    forall n: nat ensures Sure(body, Config(0, 0, st), n, post) {
      assert RunSure(sig, body, mu, t.locs, st, n, t.tcx);
      if Exec(body, Config(0, 0, st), n).Returned? {
        MeetsIff(sig, t.exprs, t.locs, Exec(body, Config(0, 0, st), n).store, env, mu, k, t.tcx);
      }
      ExecSure(body, Config(0, 0, st), n, post);
    }
    assert AlwaysSure(body, Config(0, 0, st), post);
  }

  lemma EntryNeeded(t: Stage, s1: Position.State, sig: C.FnSig, body: Body)
    requires Entered(t, sig, body) && EnsuresLowerable(sig, t.exprs, t.locs)
    requires PointNecessary(t.s, t.p, s1, t.bs, body, 0, 0, DutyOf(sig, t.exprs, t.locs), t.tcx)
    ensures Needed(s1.root, sig, body, t.locs, t.tcx)
  {
    var d := DutyOf(sig, t.exprs, t.locs);
    if DataFree(sig) && DistinctSwitches(body) && AllSure(sig, body, t.locs, t.tcx) {
      EntryScalar(t, sig, body);
      forall k: Interp ensures Holds(s1.root, map[], k) {
        forall env: Env | Reach(t.s.root, t.p.node, map[], env, k)
          ensures StartsSure(t.bs, body, 0, 0, d, env, k, t.tcx)
        {
          EntrySure(t, sig, body, env, k);
        }
        assert AllStartSure(t.s, t.p, True(), t.bs, body, 0, 0, d, k, t.tcx);
      }
    }
  }

  /** Check a body from the entry environment. */
  method CheckEntered(cursor: Cursor, env: TypeEnv, exprs: map<Name, Expr>, locs: map<Name, Loc>, sig: C.FnSig,
                      body: Body, dominatesJoinPoint: set<nat>, ghost t: Stage) returns (ok: bool)
    requires SigWf(sig) && JoinFree(body) && WellTargeted(body)
    requires Entered(t, sig, body) && Reflected(t, cursor, env, exprs, locs)
    modifies env, cursor, cursor.builder
    ensures var s := cursor.builder.State(); WfNode(s.root, map[], s.kvars, s.gen)
    ensures EnsuresLowerable(sig, exprs, locs)
    ensures ok <==> Accepts(body, DutyOf(sig, exprs, locs), cursor.builder.tcx, t.bs, 0, {})
    ensures ok ==> Correct(cursor.builder.root, sig, body, locs, cursor.builder.tcx)
    ensures ok ==> Needed(cursor.builder.root, sig, body, locs, cursor.builder.tcx)
  {
    DutyWf(sig, exprs, locs, cursor.Scope(), cursor.builder.kvars);
    var checker := new Checker(body, dominatesJoinPoint, LowerTy(sig.ret, exprs, locs), LowerEnsures(sig, exprs, locs));
    ok := checker.CheckGoto(env, cursor, 0, {});
    if ok {
      EntryCorrect(t, cursor.builder.State(), sig, body);
      EntryNeeded(t, cursor.builder.State(), sig, body);
    }
  }

  /** Check a body against a signature.  The entry `t` names the cells the signature's references point to. */
  method CheckFunction(tcx: Variances, body: Body, sig: C.FnSig, dominatesJoinPoint: set<nat>)
    returns (ok: bool, builder: ConstraintBuilder, ghost t: Stage)
    requires SigWf(sig) && JoinFree(body) && WellTargeted(body)
    ensures WfNode(builder.root, map[], builder.kvars, builder.nameGen)
    ensures Entered(t, sig, body) && t.tcx == tcx && EnsuresLowerable(sig, t.exprs, t.locs)
    ensures ok <==> Accepts(body, DutyOf(sig, t.exprs, t.locs), tcx, t.bs, 0, {})
    ensures ok ==> Correct(builder.root, sig, body, t.locs, tcx)
    ensures ok ==> Needed(builder.root, sig, body, t.locs, tcx)
  {
    builder := new ConstraintBuilder(tcx);
    var cursor := builder.AsCursor();
    var env := new TypeEnv(map[]);
    var exprs: map<Name, Expr>;
    var locs: map<Name, Loc>;
    exprs, locs, t := EnterFunction(cursor, env, sig, body);
    ok := CheckEntered(cursor, env, exprs, locs, sig, body, dominatesJoinPoint, t);
  }

  /** What the solver's answer means for callers. */
  ghost predicate Verified(constraint: F.Constraint, sig: C.FnSig, body: Body, locs: map<Name, Loc>, tcx: Variances) {
    forall k: Interp, mu: Env, st: Store, n: nat | F.Sat(constraint, map[], k) &&
      CallOk(sig, body, mu, locs, st, tcx) ::
      RunOk(sig, body, mu, locs, st, n, tcx)
  }

  /** The whole pipeline up to the solver: a closed constraint such that, if the solver finds an
      interpretation that satisfies it, every call meeting the signature is safe; and for scalars, if every
      such call is safe, every interpretation does. */
  method Verify(tcx: Variances, body: Body, sig: C.FnSig, dominatesJoinPoint: set<nat>)
    returns (ok: bool, constraint: F.Constraint, kvars: seq<seq<Sort>>, ghost t: Stage)
    requires SigWf(sig) && JoinFree(body) && WellTargeted(body)
    ensures F.Wf(constraint, map[], kvars)
    ensures Entered(t, sig, body) && t.tcx == tcx && EnsuresLowerable(sig, t.exprs, t.locs)
    ensures ok <==> Accepts(body, DutyOf(sig, t.exprs, t.locs), tcx, t.bs, 0, {})
    ensures RegionsKnown(sig, t.locs)
    ensures WellTyped(body, PlainSig(sig, t.locs), EraseEnv(t.bs), 0, {}) ==> ok
    ensures ok && DataFree(sig) ==> WellTyped(body, PlainSig(sig, t.locs), EraseEnv(t.bs), 0, {})
    ensures ok ==> Verified(constraint, sig, body, t.locs, tcx)
    ensures ok && DataFree(sig) && DistinctSwitches(body) && AllSure(sig, body, t.locs, tcx) ==>
              forall k: Interp :: F.Sat(constraint, map[], k)
  {
    var builder;
    ok, builder, t := CheckFunction(tcx, body, sig, dominatesJoinPoint);
    DutyErased(sig, t.exprs, t.locs);
    AcceptedIffTyped(t, sig, body);
    Closed.IntoFixpointClosed(builder.root, builder.kvars, builder.nameGen);
    constraint := Translate.IntoFixpoint(builder.root, builder.kvars, builder.nameGen);
    kvars := builder.kvars;
    forall k: Interp ensures F.Sat(constraint, map[], k) <==> Holds(builder.root, map[], k) {
      Translate.IntoFixpointMeaning(builder.root, builder.kvars, builder.nameGen, k);
    }
  }
}
