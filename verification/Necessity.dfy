/** The converse of soundness: what the checker demands is needed.  If at every environment that reaches
    a position some memory runs without fault, the obligations pushed there hold. */
module Necessity {
  import opened Logic
  import opened Tree
  import opened Types
  import opened Position
  import opened Subtyping
  import opened Environment
  import opened Mir
  import opened Rules

  // ----- runs that stay within the model -----

  /** For `n` steps, the run is safe and uses nothing that has no meaning here. */
  ghost predicate Sure(body: Body, c: Config, n: nat, post: Post)
    decreases n
  {
    n == 0 ||
    match Step(body, c)
    case Next(c') => Sure(body, c', n - 1, post)
    case Returned(st) => Meets(st, post)
    case Halted => true
    case Failed => false
    case Outside => false
  }

  ghost predicate AlwaysSure(body: Body, c: Config, post: Post) {
    forall n: nat :: Sure(body, c, n, post)
  }

  lemma SureStep(body: Body, c: Config, post: Post)
    requires AlwaysSure(body, c, post)
    ensures match Step(body, c)
            case Next(c') => AlwaysSure(body, c', post)
            case Returned(st) => Meets(st, post)
            case Halted => true
            case Failed => false
            case Outside => false
  {
    assert Sure(body, c, 1, post);
    if Step(body, c).Next? {
      forall n: nat ensures Sure(body, Step(body, c).config, n, post) { assert Sure(body, c, n + 1, post); }
    }
  }

  /** Such a run gets through the statements of its block. */
  lemma {:induction false} SureStatements(body: Body, bb: nat, i: nat, st: Store, post: Post)
    requires bb < |body.blocks| && i <= |body.blocks[bb].statements| && AlwaysSure(body, Config(bb, i, st), post)
    ensures RunStatements(st, body.blocks[bb].statements[i..]).Ok?
    ensures AlwaysSure(body, Config(bb, |body.blocks[bb].statements|,
                                    RunStatements(st, body.blocks[bb].statements[i..]).value), post)
    decreases |body.blocks[bb].statements| - i
  {
    var stmts := body.blocks[bb].statements;
    if i == |stmts| {
      assert stmts[i..] == [];
    } else {
      SureStep(body, Config(bb, i, st), post);
      assert stmts[i..][0] == stmts[i] && stmts[i..][1..] == stmts[i + 1..];
      SureStatements(body, bb, i + 1, RunStatement(st, stmts[i]).value, post);
    }
  }

  // ----- environments of scalars -----

  /** No data type, no existential and no weak reference. */
  predicate ScalarTy(ty: Ty) {
    ty.Uninit? || ty.StrgRef? || ty.Param? || (ty.Refine? && Scalar(ty.bty))
  }

  predicate ScalarEnv(b: Bindings) {
    forall loc :: loc in b ==> b[loc].Strong? && ScalarTy(b[loc].sty)
  }

  lemma OperandScalar(b: Bindings, op: Operand)
    requires ScalarEnv(b) && OperandTy(b, op).Some?
    ensures ScalarTy(OperandTy(b, op).value.ty) && ScalarEnv(OperandTy(b, op).value.after)
  {
  }

  lemma RvalueScalar(b: Bindings, rvalue: Rvalue)
    requires ScalarEnv(b) && RvalueTy(b, rvalue).Some?
    ensures ScalarTy(RvalueTy(b, rvalue).value.ty) && ScalarEnv(RvalueTy(b, rvalue).value.after)
  {
    match rvalue
    case Use(op) => OperandScalar(b, op);
    case MutRef(_) =>
    case Unary(_, op) => OperandScalar(b, op);
    case Binary(_, op1, op2) =>
      OperandScalar(b, op1);
      OperandScalar(OperandTy(b, op1).value.after, op2);
  }

  lemma {:induction false} StatementsScalar(b: Bindings, stmts: seq<Statement>)
    requires ScalarEnv(b) && StatementsTy(b, stmts).Some?
    ensures ScalarEnv(StatementsTy(b, stmts).value)
  {
    if stmts != [] {
      var init, last := stmts[..|stmts| - 1], stmts[|stmts| - 1];
      StatementsScalar(b, init);
      if last.Assign? { RvalueScalar(StatementsTy(b, init).value, last.rvalue); }
    }
  }

  lemma OperandTySound(b: Bindings, op: Operand, tcx: Variances)
    requires RefFreeBindings(b) && OperandTy(b, op).Some?
    ensures var t := OperandTy(b, op).value;
            OperandSound(b, t.after, op, t.ty, tcx) && RefFreeBindings(t.after)
  {
    match op
    case Copy(place) => CopySound(b, place, Walk(b, Local(place.local), place.derefs).value, tcx);
    case Move(place) => MoveSound(b, place, tcx);
    case Constant(lit) => LitSound(b, lit, tcx);
  }

  // ----- statements -----

  ghost predicate SomeRun(b: Bindings, stmts: seq<Statement>, env: Env, k: Interp, tcx: Variances) {
    exists st: Store :: Describes(b, st, env, k, tcx) && RunStatements(st, stmts).Ok?
  }

  ghost predicate AllRun(s: State, p: Pos, b: Bindings, stmts: seq<Statement>, k: Interp, tcx: Variances)
    requires At(s, p)
  {
    forall env: Env | Reach(s.root, p.node, map[], env, k) :: SomeRun(b, stmts, env, k, tcx)
  }

  /** If at every environment the statements run from some memory, what they oblige to holds. */
  ghost predicate StatementsNecessary(s0: State, p: Pos, s1: State, b: Bindings, stmts: seq<Statement>, tcx: Variances)
    requires At(s0, p)
  {
    forall k: Interp | Holds(s0.root, map[], k) && AllRun(s0, p, b, stmts, k, tcx) :: Holds(s1.root, map[], k)
  }

  lemma NoStatements(s: State, p: Pos, b: Bindings, tcx: Variances)
    requires At(s, p)
    ensures StatementsNecessary(s, p, s, b, [], tcx)
  {
  }

  /** A division that runs has a divisor other than zero. */
  lemma DivisorNotZero(b: Bindings, op1: Operand, op2: Operand, st: Store, env: Env, k: Interp, tcx: Variances)
    requires RefFreeBindings(b) && RvalueTy(b, Binary(OpDiv, op1, op2)).Some? && Describes(b, st, env, k, tcx)
    requires RunRvalue(st, Binary(OpDiv, op1, op2)).Ok?
    ensures HoldsPred(DivGoal(OperandTy(OperandTy(b, op1).value.after, op2).value.ty.e), env, None, k)
  {
    var t1 := OperandTy(b, op1).value;
    var t2 := OperandTy(t1.after, op2).value;
    OperandTySound(b, op1, tcx);
    OperandTySound(t1.after, op2, tcx);
    OperandsAt(b, t1.after, t2.after, op1, op2, t1.ty, t2.ty, tcx, st, env, k);
    ConstantEval(0, env);
  }

  lemma StatementHolds(s: State, p: Pos, b: Bindings, stmt: Statement, k: Interp, tcx: Variances)
    requires At(s, p) && RefFreeBindings(b) && StatementTy(b, stmt).Some? && Holds(s.root, map[], k)
    requires forall env: Env | Reach(s.root, p.node, map[], env, k) ::
               exists st: Store :: Describes(b, st, env, k, tcx) && RunStatement(st, stmt).Ok?
    ensures Holds(StatementState(s, p, b, stmt).root, map[], k)
  {
    if stmt.Assign? && stmt.rvalue.Binary? && stmt.rvalue.bop.OpDiv? {
      var op1, op2 := stmt.rvalue.op1, stmt.rvalue.op2;
      var goal := DivGoal(OperandTy(OperandTy(b, op1).value.after, op2).value.ty.e);
      forall env: Env | Reach(s.root, p.node, map[], env, k) ensures HoldsPred(goal, env, None, k) {
        var st: Store :| Describes(b, st, env, k, tcx) && RunStatement(st, stmt).Ok?;
        DivisorNotZero(b, op1, op2, st, env, k, tcx);
      }
      GoalStateMeaning(s, p, goal, k);
    }
  }

  lemma StatementsNecessaryStep(s0: State, s1: State, p: Pos, b0: Bindings, b1: Bindings, stmts: seq<Statement>,
                                stmt: Statement, tcx: Variances)
    requires At(s0, p) && At(s1, p) && Keeps(s0, s1, p) && RefFreeBindings(b1) && StatementTy(b1, stmt).Some?
    requires StatementsSound(s0, p, s1, b0, b1, stmts, tcx) && StatementsNecessary(s0, p, s1, b0, stmts, tcx)
    ensures StatementsNecessary(s0, p, StatementState(s1, p, b1, stmt), b0, stmts + [stmt], tcx)
  {
    forall k: Interp | Holds(s0.root, map[], k) && AllRun(s0, p, b0, stmts + [stmt], k, tcx)
      ensures Holds(StatementState(s1, p, b1, stmt).root, map[], k)
    {
      forall env: Env | Reach(s0.root, p.node, map[], env, k) ensures SomeRun(b0, stmts, env, k, tcx) {
        assert SomeRun(b0, stmts + [stmt], env, k, tcx);
        var st: Store :| Describes(b0, st, env, k, tcx) && RunStatements(st, stmts + [stmt]).Ok?;
        RunStatementsAppend(st, stmts, stmt);
      }
      assert AllRun(s0, p, b0, stmts, k, tcx);
      forall env: Env | Reach(s1.root, p.node, map[], env, k)
        ensures exists st: Store :: Describes(b1, st, env, k, tcx) && RunStatement(st, stmt).Ok?
      {
        KeepsReach(s0, s1, p, env, k);
        assert SomeRun(b0, stmts + [stmt], env, k, tcx);
        var st: Store :| Describes(b0, st, env, k, tcx) && RunStatements(st, stmts + [stmt]).Ok?;
        RunStatementsAppend(st, stmts, stmt);
        assert StatementsRun(b1, st, stmts, env, k, tcx);
        var st1 := RunStatements(st, stmts).value;
        assert Describes(b1, st1, env, k, tcx) && RunStatement(st1, stmt).Ok?;
      }
      StatementHolds(s1, p, b1, stmt, k, tcx);
    }
  }

  // ----- points of a body -----

  /** The targets of a switch stand for different values. */
  predicate Distinct(targets: seq<(nat, nat)>) {
    forall i, j :: 0 <= i < j < |targets| ==> targets[i].0 != targets[j].0
  }

  predicate DistinctSwitches(body: Body) {
    forall bb :: 0 <= bb < |body.blocks| ==>
      match body.blocks[bb].terminator
      case Some(SwitchInt(_, targets, _)) => Distinct(targets)
      case _ => true
  }

  /** Some memory that the bindings describe runs surely from the point. */
  ghost predicate StartsSure(b: Bindings, body: Body, bb: nat, i: nat, d: Duty, env: Env, k: Interp, tcx: Variances) {
    exists st: Store :: Describes(b, st, env, k, tcx) && AlwaysSure(body, Config(bb, i, st), PostOf(d, env, k, tcx))
  }

  ghost predicate AllStartSure(s: State, p: Pos, guard: Expr, b: Bindings, body: Body, bb: nat, i: nat, d: Duty,
                               k: Interp, tcx: Variances)
    requires At(s, p)
  {
    forall env: Env | Reach(s.root, p.node, map[], env, k) && IsTrue(Eval(guard, env, None)) ::
      StartsSure(b, body, bb, i, d, env, k, tcx)
  }

  /** If some memory runs surely at every environment in which the guard holds, the obligations hold. */
  ghost predicate GuardedNecessary(s0: State, p: Pos, s1: State, guard: Expr, b: Bindings, body: Body, bb: nat, i: nat,
                                   d: Duty, tcx: Variances)
    requires At(s0, p)
  {
    ScalarEnv(b) && DistinctSwitches(body) ==>
      forall k: Interp | Holds(s0.root, map[], k) && AllStartSure(s0, p, guard, b, body, bb, i, d, k, tcx) ::
        Holds(s1.root, map[], k)
  }

  ghost predicate PointNecessary(s0: State, p: Pos, s1: State, b: Bindings, body: Body, bb: nat, i: nat, d: Duty,
                                 tcx: Variances)
    requires At(s0, p)
  {
    GuardedNecessary(s0, p, s1, True(), b, body, bb, i, d, tcx)
  }

  lemma BlockNecessary(s0: State, s1: State, p: Pos, s2: State, b0: Bindings, body: Body, bb: nat, d: Duty,
                       tcx: Variances)
    requires bb < |body.blocks| && At(s0, p) && At(s1, p) && Keeps(s0, s1, p)
    requires StatementsTy(b0, body.blocks[bb].statements).Some?
    requires var stmts := body.blocks[bb].statements; var b1 := StatementsTy(b0, stmts).value;
             && StatementsSound(s0, p, s1, b0, b1, stmts, tcx) && StatementsNecessary(s0, p, s1, b0, stmts, tcx)
             && PointNecessary(s1, p, s2, b1, body, bb, |stmts|, d, tcx)
    ensures PointNecessary(s0, p, s2, b0, body, bb, 0, d, tcx)
  {
    var stmts := body.blocks[bb].statements;
    var b1 := StatementsTy(b0, stmts).value;
    if ScalarEnv(b0) && DistinctSwitches(body) {
      StatementsScalar(b0, stmts);
      forall k: Interp | Holds(s0.root, map[], k) && AllStartSure(s0, p, True(), b0, body, bb, 0, d, k, tcx)
        ensures Holds(s2.root, map[], k)
      {
        forall env: Env | Reach(s0.root, p.node, map[], env, k) ensures SomeRun(b0, stmts, env, k, tcx) {
          var st := SureBlock(s0, p, b0, body, bb, d, env, k, tcx);
        }
        assert AllRun(s0, p, b0, stmts, k, tcx);
        assert Holds(s1.root, map[], k);
        forall env: Env | Reach(s1.root, p.node, map[], env, k)
          ensures StartsSure(b1, body, bb, |stmts|, d, env, k, tcx)
        {
          KeepsReach(s0, s1, p, env, k);
          var st := SureBlock(s0, p, b0, body, bb, d, env, k, tcx);
          assert StatementsRun(b1, st, stmts, env, k, tcx);
        }
        assert AllStartSure(s1, p, True(), b1, body, bb, |stmts|, d, k, tcx);
      }
    }
  }

  lemma SureBlock(s: State, p: Pos, b: Bindings, body: Body, bb: nat, d: Duty, env: Env, k: Interp, tcx: Variances)
    returns (st: Store)
    requires bb < |body.blocks| && At(s, p) && AllStartSure(s, p, True(), b, body, bb, 0, d, k, tcx)
    requires Reach(s.root, p.node, map[], env, k)
    ensures Describes(b, st, env, k, tcx) && RunStatements(st, body.blocks[bb].statements).Ok?
    ensures AlwaysSure(body, Config(bb, |body.blocks[bb].statements|,
                                    RunStatements(st, body.blocks[bb].statements).value), PostOf(d, env, k, tcx))
  {
    assert StartsSure(b, body, bb, 0, d, env, k, tcx);
    st :| Describes(b, st, env, k, tcx) && AlwaysSure(body, Config(bb, 0, st), PostOf(d, env, k, tcx));
    SureStatements(body, bb, 0, st, PostOf(d, env, k, tcx));
    assert body.blocks[bb].statements[0..] == body.blocks[bb].statements;
  }

  // ----- terminators -----

  lemma HaltNecessary(s: State, p: Pos, b: Bindings, body: Body, bb: nat, i: nat, d: Duty, tcx: Variances)
    requires At(s, p)
    ensures PointNecessary(s, p, s, b, body, bb, i, d, tcx)
  {
  }

  lemma GotoNecessary(s0: State, p: Pos, s1: State, b: Bindings, body: Body, bb: nat, target: nat, d: Duty,
                      tcx: Variances)
    requires At(s0, p) && AtEnd(body, bb, Goto(target))
    requires PointNecessary(s0, p, s1, b, body, target, 0, d, tcx)
    ensures PointNecessary(s0, p, s1, b, body, bb, |body.blocks[bb].statements|, d, tcx)
  {
    var i := |body.blocks[bb].statements|;
    forall k: Interp | AllStartSure(s0, p, True(), b, body, bb, i, d, k, tcx)
      ensures AllStartSure(s0, p, True(), b, body, target, 0, d, k, tcx)
    {
      forall env: Env | Reach(s0.root, p.node, map[], env, k) ensures StartsSure(b, body, target, 0, d, env, k, tcx) {
        assert StartsSure(b, body, bb, i, d, env, k, tcx);
        var st: Store :| Describes(b, st, env, k, tcx) && AlwaysSure(body, Config(bb, i, st), PostOf(d, env, k, tcx));
        SureStep(body, Config(bb, i, st), PostOf(d, env, k, tcx));
      }
    }
  }

  lemma DropNecessary(s0: State, p: Pos, s1: State, b: Bindings, body: Body, bb: nat, place: Place, target: nat,
                      d: Duty, tcx: Variances)
    requires At(s0, p) && AtEnd(body, bb, Drop(place, target)) && RefFreeBindings(b) && OperandTy(b, Move(place)).Some?
    requires PointNecessary(s0, p, s1, OperandTy(b, Move(place)).value.after, body, target, 0, d, tcx)
    ensures PointNecessary(s0, p, s1, b, body, bb, |body.blocks[bb].statements|, d, tcx)
  {
    var i, t := |body.blocks[bb].statements|, OperandTy(b, Move(place)).value;
    OperandTySound(b, Move(place), tcx);
    if ScalarEnv(b) { OperandScalar(b, Move(place)); }
    forall k: Interp | AllStartSure(s0, p, True(), b, body, bb, i, d, k, tcx)
      ensures AllStartSure(s0, p, True(), t.after, body, target, 0, d, k, tcx)
    {
      forall env: Env | Reach(s0.root, p.node, map[], env, k)
        ensures StartsSure(t.after, body, target, 0, d, env, k, tcx)
      {
        assert StartsSure(b, body, bb, i, d, env, k, tcx);
        var st: Store :| Describes(b, st, env, k, tcx) && AlwaysSure(body, Config(bb, i, st), PostOf(d, env, k, tcx));
        SureStep(body, Config(bb, i, st), PostOf(d, env, k, tcx));
        assert OperandRuns(t.after, st, Move(place), t.ty, env, k, tcx);
      }
    }
  }

  // ----- returning -----

  ghost predicate MetUpTo(st: Store, d: Duty, i: nat, env: Env, k: Interp, tcx: Variances)
    requires i <= |d.ensured|
  {
    && Local(0) in st && In(st[Local(0)], d.ret, env, k, tcx, st)
    && forall j :: 0 <= j < i ==> d.ensured[j].0 in st && In(st[d.ensured[j].0], d.ensured[j].1, env, k, tcx, st)
  }

  ghost predicate SomeMet(b: Bindings, d: Duty, i: nat, env: Env, k: Interp, tcx: Variances)
    requires i <= |d.ensured|
  {
    exists st: Store :: Describes(b, st, env, k, tcx) && MetUpTo(st, d, i, env, k, tcx)
  }

  ghost predicate AllMet(s: State, p: Pos, b: Bindings, d: Duty, i: nat, k: Interp, tcx: Variances)
    requires At(s, p) && i <= |d.ensured|
  {
    forall env: Env | Reach(s.root, p.node, map[], env, k) :: SomeMet(b, d, i, env, k, tcx)
  }

  /** If everywhere some memory meets the first duties, their obligations hold. */
  ghost predicate ReturnNecessary(s0: State, p: Pos, s1: State, b: Bindings, d: Duty, i: nat, tcx: Variances)
    requires At(s0, p) && i <= |d.ensured|
  {
    ScalarEnv(b) ==> forall k: Interp | Holds(s0.root, map[], k) && AllMet(s0, p, b, d, i, k, tcx) ::
        Holds(s1.root, map[], k)
  }

  lemma ScalarUnique(b: BaseTy, v: Val, w: Val, env: Env, k: Interp, tcx: Variances, st0: Store, st1: Store)
    requires Scalar(b) && InBase(v, b, env, k, tcx, st0) && InBase(w, b, env, k, tcx, st1) && Index(v) == Index(w)
    ensures v == w
  {
    assert b.Bool? || v.Num?;
    assert b.Bool? || w.Num?;
  }

  /** One common value of a scalar type and a comparable one puts the first into the second. */
  lemma ScalarContained(t1: Ty, t2: Ty, v: Val, st: Store, env: Env, k: Interp, tcx: Variances)
    requires ScalarTy(t1) && Compatible(t1, t2, tcx) && In(v, t1, env, k, tcx, st) && In(v, t2, env, k, tcx, st)
    ensures Contained(t1, t2, env, k, tcx)
  {
    forall w: Val, st1: Store | In(w, t1, env, k, tcx, st1) ensures In(w, t2, env, k, tcx, st1) {
      if t1.Refine? {
        ScalarUnique(t1.bty, v, w, env, k, tcx, st, st1);
        if !t2.Uninit? { ScalarStore(v, t2, env, k, tcx, st, st1); }
      }
    }
  }

  lemma ScalarStore(v: Val, ty: Ty, env: Env, k: Interp, tcx: Variances, st0: Store, st1: Store)
    requires (ty.Refine? || ty.Exists?) && Scalar(ty.bty) && In(v, ty, env, k, tcx, st0)
    ensures In(v, ty, env, k, tcx, st1)
  {
    InStore(v, ty, env, k, tcx, st0, st1);
  }

  predicate NotData(ty: Ty) {
    !((ty.Refine? || ty.Exists?) && ty.bty.Adt?)
  }

  lemma ReturnFirst(s0: State, p: Pos, s1: State, b: Bindings, d: Duty, tcx: Variances)
    requires At(s0, p) && Local(0) in b && Compatible(BindingTy(b[Local(0)]), d.ret, tcx)
    requires NotData(BindingTy(b[Local(0)])) ==> Necessary(s0, p, s1, BindingTy(b[Local(0)]), d.ret, tcx)
    ensures ReturnNecessary(s0, p, s1, b, d, 0, tcx)
  {
    var ty := BindingTy(b[Local(0)]);
    if ScalarEnv(b) {
      forall k: Interp | Holds(s0.root, map[], k) && AllMet(s0, p, b, d, 0, k, tcx) ensures Holds(s1.root, map[], k) {
        forall env: Env | Reach(s0.root, p.node, map[], env, k) ensures Contained(ty, d.ret, env, k, tcx) {
          assert SomeMet(b, d, 0, env, k, tcx);
          var st: Store :| Describes(b, st, env, k, tcx) && MetUpTo(st, d, 0, env, k, tcx);
          ScalarContained(ty, d.ret, st[Local(0)], st, env, k, tcx);
        }
      }
    }
  }

  lemma ReturnNext(s0: State, s1: State, p: Pos, s2: State, b: Bindings, d: Duty, i: nat, tcx: Variances)
    requires At(s0, p) && At(s1, p) && Keeps(s0, s1, p) && i < |d.ensured| && EnsuredAccepted(b, d.ensured[i], tcx)
    requires ReturnNecessary(s0, p, s1, b, d, i, tcx)
    requires var ty := BindingTy(b[d.ensured[i].0]); NotData(ty) ==> Necessary(s1, p, s2, ty, d.ensured[i].1, tcx)
    ensures ReturnNecessary(s0, p, s2, b, d, i + 1, tcx)
  {
    var (loc, ty2) := d.ensured[i];
    var ty := BindingTy(b[loc]);
    if ScalarEnv(b) {
      forall k: Interp | Holds(s0.root, map[], k) && AllMet(s0, p, b, d, i + 1, k, tcx)
        ensures Holds(s2.root, map[], k)
      {
        forall env: Env | Reach(s0.root, p.node, map[], env, k) ensures SomeMet(b, d, i, env, k, tcx) {
          assert SomeMet(b, d, i + 1, env, k, tcx);
          var st: Store :| Describes(b, st, env, k, tcx) && MetUpTo(st, d, i + 1, env, k, tcx);
          assert MetUpTo(st, d, i, env, k, tcx);
        }
        assert AllMet(s0, p, b, d, i, k, tcx);
        forall env: Env | Reach(s1.root, p.node, map[], env, k) ensures Contained(ty, ty2, env, k, tcx) {
          KeepsReach(s0, s1, p, env, k);
          assert SomeMet(b, d, i + 1, env, k, tcx);
          var st: Store :| Describes(b, st, env, k, tcx) && MetUpTo(st, d, i + 1, env, k, tcx);
          ScalarContained(ty, ty2, st[loc], st, env, k, tcx);
        }
      }
    }
  }

  lemma ReturnLast(s0: State, p: Pos, s1: State, b: Bindings, body: Body, bb: nat, d: Duty, tcx: Variances)
    requires At(s0, p) && AtEnd(body, bb, Return) && ReturnNecessary(s0, p, s1, b, d, |d.ensured|, tcx)
    ensures PointNecessary(s0, p, s1, b, body, bb, |body.blocks[bb].statements|, d, tcx)
  {
    var i := |body.blocks[bb].statements|;
    forall k: Interp | AllStartSure(s0, p, True(), b, body, bb, i, d, k, tcx)
      ensures AllMet(s0, p, b, d, |d.ensured|, k, tcx)
    {
      forall env: Env | Reach(s0.root, p.node, map[], env, k) ensures SomeMet(b, d, |d.ensured|, env, k, tcx) {
        assert StartsSure(b, body, bb, i, d, env, k, tcx);
        var st: Store :| Describes(b, st, env, k, tcx) && AlwaysSure(body, Config(bb, i, st), PostOf(d, env, k, tcx));
        SureStep(body, Config(bb, i, st), PostOf(d, env, k, tcx));
        assert MetUpTo(st, d, |d.ensured|, env, k, tcx);
      }
    }
  }

  // ----- switches -----

  /** An obligation below a guard is needed only where the guard holds. */
  lemma UnderGuardNecessary(s: State, p: Pos, guard: Expr, s1: State, b: Bindings, body: Body, bb: nat, d: Duty,
                            tcx: Variances)
    requires At(s, p) && At(PushState(s, p, Guard(guard, [])), PushPos(s, p, Guard(guard, [])))
    requires PointNecessary(PushState(s, p, Guard(guard, [])), PushPos(s, p, Guard(guard, [])), s1, b, body, bb, 0, d,
                            tcx)
    ensures GuardedNecessary(s, p, s1, guard, b, body, bb, 0, d, tcx)
  {
    var m, s', q := Guard(guard, []), PushState(s, p, Guard(guard, [])), PushPos(s, p, Guard(guard, []));
    forall k: Interp | Holds(s.root, map[], k) && AllStartSure(s, p, guard, b, body, bb, 0, d, k, tcx)
      ensures Holds(s'.root, map[], k) && AllStartSure(s', q, True(), b, body, bb, 0, d, k, tcx)
    {
      PushMeaning(s.root, p.node, m, map[], k);
      assert forall env: Env :: Holds(m, env, k);
      forall env: Env | Reach(s'.root, q.node, map[], env, k) ensures StartsSure(b, body, bb, 0, d, env, k, tcx) {
        var env1 := PushReachInv(s.root, p.node, m, map[], env, k);
        assert env1 == env && IsTrue(Eval(guard, env, None));
      }
    }
  }

  ghost predicate AllTargetsSure(s: State, p: Pos, ty: Ty, targets: seq<(nat, nat)>, b: Bindings, body: Body, d: Duty,
                                 k: Interp, tcx: Variances)
    requires At(s, p) && Discriminates(ty, targets)
  {
    forall i :: 0 <= i < |targets| ==>
      AllStartSure(s, p, TargetGuard(ty, targets[i].0), b, body, targets[i].1, 0, d, k, tcx)
  }

  ghost predicate TargetsNecessary(s0: State, p: Pos, s1: State, ty: Ty, targets: seq<(nat, nat)>, b: Bindings,
                                   body: Body, d: Duty, tcx: Variances)
    requires At(s0, p) && Discriminates(ty, targets)
  {
    ScalarEnv(b) && DistinctSwitches(body) ==>
      forall k: Interp | Holds(s0.root, map[], k) && AllTargetsSure(s0, p, ty, targets, b, body, d, k, tcx) ::
        Holds(s1.root, map[], k)
  }

  lemma SureLater(s0: State, s1: State, p: Pos, guard: Expr, b: Bindings, body: Body, bb: nat, d: Duty, k: Interp,
                  tcx: Variances)
    requires At(s0, p) && At(s1, p) && Keeps(s0, s1, p) && AllStartSure(s0, p, guard, b, body, bb, 0, d, k, tcx)
    ensures AllStartSure(s1, p, guard, b, body, bb, 0, d, k, tcx)
  {
    forall env: Env | Reach(s1.root, p.node, map[], env, k) && IsTrue(Eval(guard, env, None))
      ensures StartsSure(b, body, bb, 0, d, env, k, tcx)
    {
      KeepsReach(s0, s1, p, env, k);
    }
  }

  lemma TargetsNecessaryStep(s0: State, s1: State, p: Pos, s2: State, ty: Ty, targets: seq<(nat, nat)>, i: nat,
                             b: Bindings, body: Body, d: Duty, tcx: Variances)
    requires Switchable(ty) && i < |targets| && At(s0, p) && At(s1, p) && Keeps(s0, s1, p)
    requires TargetsNecessary(s0, p, s1, ty, targets[..i], b, body, d, tcx)
    requires GuardedNecessary(s1, p, s2, TargetGuard(ty, targets[i].0), b, body, targets[i].1, 0, d, tcx)
    ensures TargetsNecessary(s0, p, s2, ty, targets[..i + 1], b, body, d, tcx)
  {
    var done := targets[..i + 1];
    forall k: Interp | AllTargetsSure(s0, p, ty, done, b, body, d, k, tcx)
      ensures AllTargetsSure(s0, p, ty, targets[..i], b, body, d, k, tcx)
      ensures AllStartSure(s1, p, TargetGuard(ty, targets[i].0), b, body, targets[i].1, 0, d, k, tcx)
    {
      forall j | 0 <= j < i
        ensures AllStartSure(s0, p, TargetGuard(ty, targets[..i][j].0), b, body, targets[..i][j].1, 0, d, k, tcx)
      {
        assert targets[..i][j] == done[j];
      }
      assert done[i] == targets[i];
      SureLater(s0, s1, p, TargetGuard(ty, targets[i].0), b, body, targets[i].1, d, k, tcx);
    }
  }

  lemma {:induction false} SelectUnique(v: Val, targets: seq<(nat, nat)>, otherwise: nat, i: nat)
    requires Distinct(targets) && i < |targets| && Matches(v, targets[i].0)
    ensures SelectTarget(v, targets, otherwise) == targets[i].1
  {
    if i > 0 {
      assert targets[0].0 != targets[i].0;
      assert targets[1..][i - 1] == targets[i];
      SelectUnique(v, targets[1..], otherwise, i - 1);
    }
  }

  /** The discriminant's value, and the memory in which the selected target continues. */
  ghost predicate Selects(v: Val, st: Store, b: Bindings, body: Body, targets: seq<(nat, nat)>, otherwise: nat, ty: Ty,
                          d: Duty, env: Env, k: Interp, tcx: Variances)
  {
    && In(v, ty, env, k, tcx, st) && Describes(b, st, env, k, tcx)
    && (targets != [] && v.Truth? ==> OneBit(targets))
    && AlwaysSure(body, Config(SelectTarget(v, targets, otherwise), 0, st), PostOf(d, env, k, tcx))
  }

  lemma SwitchStart(b: Bindings, body: Body, bb: nat, discr: Operand, targets: seq<(nat, nat)>, otherwise: nat, d: Duty,
                    env: Env, k: Interp, tcx: Variances) returns (v: Val, st: Store)
    requires AtEnd(body, bb, SwitchInt(discr, targets, otherwise)) && RefFreeBindings(b) && OperandTy(b, discr).Some?
    requires StartsSure(b, body, bb, |body.blocks[bb].statements|, d, env, k, tcx)
    ensures Selects(v, st, OperandTy(b, discr).value.after, body, targets, otherwise, OperandTy(b, discr).value.ty, d,
                    env, k, tcx)
  {
    var i, t := |body.blocks[bb].statements|, OperandTy(b, discr).value;
    var st0: Store :| Describes(b, st0, env, k, tcx) && AlwaysSure(body, Config(bb, i, st0), PostOf(d, env, k, tcx));
    OperandTySound(b, discr, tcx);
    SureStep(body, Config(bb, i, st0), PostOf(d, env, k, tcx));
    assert OperandRuns(t.after, st0, discr, t.ty, env, k, tcx);
    v, st := RunOperand(st0, discr).value.0, RunOperand(st0, discr).value.1;
  }

  lemma SwitchTarget(v: Val, st: Store, b: Bindings, body: Body, bb: nat, discr: Operand, targets: seq<(nat, nat)>,
                     otherwise: nat, ty: Ty, i: nat, d: Duty, env: Env, k: Interp, tcx: Variances)
    requires Selects(v, st, b, body, targets, otherwise, ty, d, env, k, tcx) && Switchable(ty) && i < |targets|
    requires Distinct(targets) && IsTrue(Eval(TargetGuard(ty, targets[i].0), env, None))
    ensures StartsSure(b, body, targets[i].1, 0, d, env, k, tcx)
  {
    SwitchableValue(v, ty, env, k, tcx, st);
    TargetGuardMeaning(ty, targets[i].0, v, env, k, tcx, st);
    SelectUnique(v, targets, otherwise, i);
  }

  lemma SwitchOtherwise(v: Val, st: Store, b: Bindings, body: Body, targets: seq<(nat, nat)>, otherwise: nat, ty: Ty,
                        d: Duty, env: Env, k: Interp, tcx: Variances)
    requires Selects(v, st, b, body, targets, otherwise, ty, d, env, k, tcx) && Discriminates(ty, targets)
    requires IsTrue(Eval(OtherwiseGuardOf(ty, targets), env, None))
    ensures StartsSure(b, body, otherwise, 0, d, env, k, tcx)
  {
    if targets != [] {
      SwitchableValue(v, ty, env, k, tcx, st);
      OtherwiseGuardMeaning(ty, targets, v, env, k, tcx, st);
      SelectTargetIs(v, targets, otherwise);
    }
  }

  ghost predicate CasesNecessary(s0: State, p: Pos, s1: State, ty: Ty, targets: seq<(nat, nat)>, otherwise: nat,
                                 b: Bindings, body: Body, d: Duty, tcx: Variances)
    requires At(s0, p) && Discriminates(ty, targets)
  {
    ScalarEnv(b) && DistinctSwitches(body) ==>
      forall k: Interp |
        Holds(s0.root, map[], k) && AllTargetsSure(s0, p, ty, targets, b, body, d, k, tcx) &&
        AllStartSure(s0, p, OtherwiseGuardOf(ty, targets), b, body, otherwise, 0, d, k, tcx) ::
          Holds(s1.root, map[], k)
  }

  lemma CasesNecessaryOf(s0: State, s1: State, p: Pos, s2: State, ty: Ty, targets: seq<(nat, nat)>, otherwise: nat,
                         b: Bindings, body: Body, d: Duty, tcx: Variances)
    requires At(s0, p) && At(s1, p) && Keeps(s0, s1, p) && Discriminates(ty, targets)
    requires TargetsNecessary(s0, p, s1, ty, targets, b, body, d, tcx)
    requires GuardedNecessary(s1, p, s2, OtherwiseGuardOf(ty, targets), b, body, otherwise, 0, d, tcx)
    ensures CasesNecessary(s0, p, s2, ty, targets, otherwise, b, body, d, tcx)
  {
    forall k: Interp | AllStartSure(s0, p, OtherwiseGuardOf(ty, targets), b, body, otherwise, 0, d, k, tcx)
      ensures AllStartSure(s1, p, OtherwiseGuardOf(ty, targets), b, body, otherwise, 0, d, k, tcx)
    {
      SureLater(s0, s1, p, OtherwiseGuardOf(ty, targets), b, body, otherwise, d, k, tcx);
    }
  }

  lemma SwitchNecessary(s0: State, p: Pos, s1: State, b: Bindings, body: Body, bb: nat, discr: Operand,
                        targets: seq<(nat, nat)>, otherwise: nat, d: Duty, tcx: Variances)
    requires AtEnd(body, bb, SwitchInt(discr, targets, otherwise)) && RefFreeBindings(b) && OperandTy(b, discr).Some?
    requires At(s0, p) && Discriminates(OperandTy(b, discr).value.ty, targets)
    requires var t := OperandTy(b, discr).value;
             CasesNecessary(s0, p, s1, t.ty, targets, otherwise, t.after, body, d, tcx)
    ensures PointNecessary(s0, p, s1, b, body, bb, |body.blocks[bb].statements|, d, tcx)
  {
    var i, t := |body.blocks[bb].statements|, OperandTy(b, discr).value;
    if ScalarEnv(b) && DistinctSwitches(body) {
      OperandScalar(b, discr);
      assert Distinct(targets);
      forall k: Interp | AllStartSure(s0, p, True(), b, body, bb, i, d, k, tcx)
        ensures AllTargetsSure(s0, p, t.ty, targets, t.after, body, d, k, tcx)
        ensures AllStartSure(s0, p, OtherwiseGuardOf(t.ty, targets), t.after, body, otherwise, 0, d, k, tcx)
      {
        SwitchSure(s0, p, b, body, bb, discr, targets, otherwise, d, k, tcx);
      }
    }
  }

  lemma SwitchSure(s: State, p: Pos, b: Bindings, body: Body, bb: nat, discr: Operand, targets: seq<(nat, nat)>,
                   otherwise: nat, d: Duty, k: Interp, tcx: Variances)
    requires AtEnd(body, bb, SwitchInt(discr, targets, otherwise)) && RefFreeBindings(b) && OperandTy(b, discr).Some?
    requires At(s, p) && Discriminates(OperandTy(b, discr).value.ty, targets) && Distinct(targets)
    requires AllStartSure(s, p, True(), b, body, bb, |body.blocks[bb].statements|, d, k, tcx)
    ensures var t := OperandTy(b, discr).value;
            && AllTargetsSure(s, p, t.ty, targets, t.after, body, d, k, tcx)
            && AllStartSure(s, p, OtherwiseGuardOf(t.ty, targets), t.after, body, otherwise, 0, d, k, tcx)
  {
    var t, n := OperandTy(b, discr).value, |body.blocks[bb].statements|;
    forall i, env: Env |
      0 <= i < |targets| && Reach(s.root, p.node, map[], env, k) &&
        IsTrue(Eval(TargetGuard(t.ty, targets[i].0), env, None))
      ensures StartsSure(t.after, body, targets[i].1, 0, d, env, k, tcx)
    {
      assert StartsSure(b, body, bb, n, d, env, k, tcx);
      var v, st := SwitchStart(b, body, bb, discr, targets, otherwise, d, env, k, tcx);
      SwitchTarget(v, st, t.after, body, bb, discr, targets, otherwise, t.ty, i, d, env, k, tcx);
    }
    forall env: Env | Reach(s.root, p.node, map[], env, k) && IsTrue(Eval(OtherwiseGuardOf(t.ty, targets), env, None))
      ensures StartsSure(t.after, body, otherwise, 0, d, env, k, tcx)
    {
      assert StartsSure(b, body, bb, n, d, env, k, tcx);
      var v, st := SwitchStart(b, body, bb, discr, targets, otherwise, d, env, k, tcx);
      SwitchOtherwise(v, st, t.after, body, targets, otherwise, t.ty, d, env, k, tcx);
    }
  }
}
