/** Why each rule of the checker is sound with respect to running the code. */
module Rules {
  import opened Logic
  import opened Tree
  import opened Types
  import opened Position
  import opened Subtyping
  import opened Environment
  import opened Mir

  ghost predicate EnvOk(b: Bindings, g: Scope, kvars: seq<seq<Sort>>) {
    WfBindings(b, g, kvars) && RefFreeBindings(b)
  }

  // ----- what the rules promise -----

  /** Running the operand gives a value of the type and memory described by `b1`. */
  ghost predicate OperandSound(b0: Bindings, b1: Bindings, op: Operand, ty: Ty, tcx: Variances) {
    forall k: Interp, env: Env, st: Store {:trigger OperandRuns(b1, st, op, ty, env, k, tcx)} |
      Describes(b0, st, env, k, tcx) :: OperandRuns(b1, st, op, ty, env, k, tcx)
  }

  ghost predicate OperandRuns(b1: Bindings, st: Store, op: Operand, ty: Ty, env: Env, k: Interp, tcx: Variances) {
    var r := RunOperand(st, op);
    r.Ok? && In(r.value.0, ty, env, k, tcx, r.value.1) && Describes(b1, r.value.1, env, k, tcx)
  }

  /** ... if the obligations of `s1` hold. */
  ghost predicate RvalueSound(s0: State, p: Pos, s1: State, b0: Bindings, b1: Bindings, rvalue: Rvalue, ty: Ty,
                              tcx: Variances)
    requires At(s0, p)
  {
    forall k: Interp, env: Env, st: Store |
      Holds(s1.root, map[], k) && Reach(s0.root, p.node, map[], env, k) && Describes(b0, st, env, k, tcx) ::
        RvalueRuns(b1, st, rvalue, ty, env, k, tcx)
  }

  ghost predicate RvalueRuns(b1: Bindings, st: Store, rvalue: Rvalue, ty: Ty, env: Env, k: Interp, tcx: Variances) {
    match RunRvalue(st, rvalue)
    case Ok(r) => In(r.0, ty, env, k, tcx, r.1) && Describes(b1, r.1, env, k, tcx)
    case Unmodelled => true
    case _ => false
  }

  ghost predicate StatementsSound(s0: State, p: Pos, s1: State, b0: Bindings, b1: Bindings, stmts: seq<Statement>,
                                  tcx: Variances)
    requires At(s0, p)
  {
    forall k: Interp, env: Env, st: Store |
      Holds(s1.root, map[], k) && Reach(s0.root, p.node, map[], env, k) && Describes(b0, st, env, k, tcx) ::
        StatementsRun(b1, st, stmts, env, k, tcx)
  }

  ghost predicate StatementsRun(b1: Bindings, st: Store, stmts: seq<Statement>, env: Env, k: Interp, tcx: Variances) {
    match RunStatements(st, stmts)
    case Ok(st1) => Describes(b1, st1, env, k, tcx)
    case Unmodelled => true
    case _ => false
  }

  ghost predicate StatementSound(s0: State, p: Pos, s1: State, b0: Bindings, b1: Bindings, stmt: Statement,
                                 tcx: Variances)
    requires At(s0, p)
  {
    forall k: Interp, env: Env, st: Store |
      Holds(s1.root, map[], k) && Reach(s0.root, p.node, map[], env, k) && Describes(b0, st, env, k, tcx) ::
        StatementRuns(b1, st, stmt, env, k, tcx)
  }

  ghost predicate StatementRuns(b1: Bindings, st: Store, stmt: Statement, env: Env, k: Interp, tcx: Variances) {
    match RunStatement(st, stmt)
    case Ok(st1) => Describes(b1, st1, env, k, tcx)
    case Unmodelled => true
    case _ => false
  }

  /** What a function owes its caller. */
  datatype Duty = Duty(ret: Ty, ensured: seq<(Loc, Ty)>)

  ghost predicate DutyOk(d: Duty, g: Scope, kvars: seq<seq<Sort>>) {
    WfTy(d.ret, g, kvars) && forall i :: 0 <= i < |d.ensured| ==> WfTy(d.ensured[i].1, g, kvars)
  }

  function PostOf(d: Duty, env: Env, k: Interp, tcx: Variances): Post {
    Post(d.ret, d.ensured, env, k, tcx)
  }

  /** If the obligations of `s1` hold, then from the given point of the body, in memory
      described by `b`, every run is safe. */
  ghost predicate PointSound(s0: State, p: Pos, s1: State, b: Bindings, body: Body, bb: nat, i: nat, d: Duty,
                             tcx: Variances)
    requires At(s0, p)
  {
    forall k: Interp, env: Env, st: Store, n: nat |
      Holds(s1.root, map[], k) && Reach(s0.root, p.node, map[], env, k) && Describes(b, st, env, k, tcx) ::
        Safe(body, Config(bb, i, st), n, PostOf(d, env, k, tcx))
  }

  /** The same where, in addition, a guard holds. */
  ghost predicate GuardedSound(s0: State, p: Pos, s1: State, guard: Expr, b: Bindings, body: Body, bb: nat, d: Duty,
                               tcx: Variances)
    requires At(s0, p)
  {
    forall k: Interp, env: Env, st: Store, n: nat |
      Holds(s1.root, map[], k) && Reach(s0.root, p.node, map[], env, k) && Describes(b, st, env, k, tcx) &&
      IsTrue(Eval(guard, env, None)) ::
        Safe(body, Config(bb, 0, st), n, PostOf(d, env, k, tcx))
  }

  // ----- operands -----

  lemma CopySound(b: Bindings, place: Place, loc: Loc, tcx: Variances)
    requires Walk(b, Local(place.local), place.derefs) == Some(loc) && loc in b
    ensures OperandSound(b, b, Copy(place), BindingTy(b[loc]), tcx)
  {
    forall k: Interp, env: Env, st: Store | Describes(b, st, env, k, tcx)
      ensures OperandRuns(b, st, Copy(place), BindingTy(b[loc]), env, k, tcx)
    {
      WalkSound(b, st, Local(place.local), place.derefs, env, k, tcx);
    }
  }

  lemma MoveSound(b: Bindings, place: Place, tcx: Variances)
    requires RefFreeBindings(b) && place.derefs == 0 && Local(place.local) in b
    ensures OperandSound(b, b[Local(place.local) := Strong(Uninit)], Move(place), BindingTy(b[Local(place.local)]), tcx)
  {
    var loc := Local(place.local);
    forall k: Interp, env: Env, st: Store | Describes(b, st, env, k, tcx)
      ensures OperandRuns(b[loc := Strong(Uninit)], st, Move(place), BindingTy(b[loc]), env, k, tcx)
    {
      StrongUpdate(b, st, loc, Junk, Uninit, env, k, tcx);
      InStore(st[loc], BindingTy(b[loc]), env, k, tcx, st, st[loc := Junk]);
    }
  }

  function LitTy(lit: Literal): Ty {
    match lit
    case IntLit(n, ity) => Refine(BaseTy.Int(ity), Expr.Constant(FromInt(n)))
    case UintLit(m, uty) => Refine(BaseTy.Uint(uty), Expr.Constant(FromInt(m)))
    case BoolLit(b) => Refine(BaseTy.Bool, Expr.Constant(FromBool(b)))
  }

  lemma LitSound(b: Bindings, lit: Literal, tcx: Variances)
    ensures OperandSound(b, b, Operand.Constant(lit), LitTy(lit), tcx)
  {
    forall k: Interp, env: Env, st: Store | Describes(b, st, env, k, tcx)
      ensures OperandRuns(b, st, Operand.Constant(lit), LitTy(lit), env, k, tcx)
    {
      match lit
      case IntLit(n, _) => ConstantEval(n, env);
      case UintLit(m, _) => ConstantEval(m, env);
      case BoolLit(_) =>
    }
  }

  lemma ConstantEval(n: int, env: Env)
    ensures Eval(Expr.Constant(FromInt(n)), env, None) == Some(IntVal(n))
  {
  }

  // ----- operators -----

  function LogicOp(op: Op): BinOp {
    match op
    case OpGt => Gt
    case OpLt => Lt
    case OpLe => Le
    case OpEq => Eq
    case OpNe => Ne
    case OpAdd => Add
    case OpSub => Sub
    case OpMul => Mul
    case OpDiv => Div
  }

  predicate IsArith(op: Op) {
    op.OpAdd? || op.OpSub? || op.OpMul? || op.OpDiv?
  }

  predicate IsEquality(op: Op) {
    op.OpEq? || op.OpNe?
  }

  predicate SameNumeric(b1: BaseTy, b2: BaseTy) {
    (b1.Int? || b1.Uint?) && b1 == b2
  }

  /** Operand types the checker accepts for an operator. */
  predicate OpAccepts(op: Op, t1: Ty, t2: Ty) {
    t1.Refine? && t2.Refine? && if IsEquality(op) then t1.bty == t2.bty else SameNumeric(t1.bty, t2.bty)
  }

  function OpTy(op: Op, t1: Ty, t2: Ty): Ty
    requires OpAccepts(op, t1, t2)
  {
    Refine(if IsArith(op) then t1.bty else BaseTy.Bool, BinaryOp(LogicOp(op), t1.e, t2.e))
  }

  /** The divisor of a division is not zero. */
  function DivGoal(e: Expr): Pred {
    Pred.Expr(BinaryOp(Ne, e, Expr.Constant(FromInt(0))))
  }

  lemma OpTyWf(op: Op, t1: Ty, t2: Ty, g: Scope, kvars: seq<seq<Sort>>)
    requires OpAccepts(op, t1, t2) && WfTy(t1, g, kvars) && WfTy(t2, g, kvars)
    ensures WfTy(OpTy(op, t1, t2), g, kvars)
    ensures op.OpDiv? ==> WfPred(DivGoal(t2.e), g, None, kvars)
  {
  }

  /** An operator on values of accepted types computes a value of the result type, or is an
      equality of data types; a division does so when its divisor's index is not zero. */
  lemma OpValue(op: Op, t1: Ty, t2: Ty, v1: Val, v2: Val, env: Env, k: Interp, tcx: Variances, st: Store)
    requires OpAccepts(op, t1, t2) && In(v1, t1, env, k, tcx, st) && In(v2, t2, env, k, tcx, st)
    requires op.OpDiv? ==> HoldsPred(DivGoal(t2.e), env, None, k)
    ensures var r := RunOp(op, v1, v2);
            r.Unmodelled? || (r.Ok? && In(r.value, OpTy(op, t1, t2), env, k, tcx, st))
  {
    var e := BinaryOp(LogicOp(op), t1.e, t2.e);
    assert Eval(e, env, None) == EvalBinOp(LogicOp(op), Index(v1), Index(v2));
    if op.OpDiv? { DivisorNonzero(t2, v2, env, k, tcx, st); }
  }

  lemma DivisorNonzero(t2: Ty, v2: Val, env: Env, k: Interp, tcx: Variances, st: Store)
    requires t2.Refine? && SameNumeric(t2.bty, t2.bty) && In(v2, t2, env, k, tcx, st) &&
             HoldsPred(DivGoal(t2.e), env, None, k)
    ensures v2.Num? && v2.n != 0
  {
    assert Eval(Expr.Constant(FromInt(0)), env, None) == Some(IntVal(0));
  }

  /** The operator does something with any two values of the base type. */
  ghost predicate NeverStuck(op: Op, b: BaseTy, env: Env, k: Interp, tcx: Variances, st: Store) {
    forall v1, v2 | InBase(v1, b, env, k, tcx, st) && InBase(v2, b, env, k, tcx, st) :: !RunOp(op, v1, v2).Stuck?
  }

  /** A value of the base type, whatever the names stand for. */
  function BaseWitness(b: BaseTy): Val {
    match b
    case Int(_) => Num(0)
    case Uint(_) => Num(0)
    case Bool => Truth(true)
    case Adt(did, substs) => Data(did, 0, seq(|substs|, _ => []), seq(|substs|, _ => []))
  }

  /** Accepted are exactly indexed operands of one base type that the operator never gets stuck on. */
  lemma OpAcceptsIff(op: Op, t1: Ty, t2: Ty, env: Env, k: Interp, tcx: Variances, st: Store)
    ensures OpAccepts(op, t1, t2) <==>
            t1.Refine? && t2.Refine? && t1.bty == t2.bty && NeverStuck(op, t1.bty, env, k, tcx, st)
  {
    if t1.Refine? && t2.Refine? && t1.bty == t2.bty {
      var v := BaseWitness(t1.bty);
      assert InBase(v, t1.bty, env, k, tcx, st);
      assert !OpAccepts(op, t1, t2) ==> RunOp(op, v, v).Stuck?;
    }
  }

  /** The values that the numbers of a base type can be: none below zero for unsigned types. */
  ghost predicate Representable(v: Val, b: BaseTy, env: Env, k: Interp, tcx: Variances, st: Store) {
    InBase(v, b, env, k, tcx, st) && (b.Uint? ==> v.Num? && v.n >= 0)
  }

  /** Accepted are exactly indexed operands whose base type the operator does not lead out of. */
  lemma Op1AcceptsIff(op: Op1, t: Ty, env: Env, k: Interp, tcx: Variances, st: Store)
    ensures Op1Accepts(op, t) <==>
            t.Refine? && forall v | Representable(v, t.bty, env, k, tcx, st) ::
              RunOp1(op, v).Ok? && Representable(RunOp1(op, v).value, t.bty, env, k, tcx, st)
  {
    if t.Refine? && !Op1Accepts(op, t) {
      var v := if t.bty.Uint? then Num(1) else BaseWitness(t.bty);
      assert Representable(v, t.bty, env, k, tcx, st);
    }
  }

  predicate Op1Accepts(op: Op1, t: Ty) {
    t.Refine? && if op.OpNot? then t.bty.Bool? else t.bty.Int?
  }

  function Op1Ty(op: Op1, t: Ty): Ty
    requires Op1Accepts(op, t)
  {
    Refine(t.bty, UnaryOp(if op.OpNot? then Not else Neg, t.e))
  }

  lemma Op1Value(op: Op1, t: Ty, v: Val, env: Env, k: Interp, tcx: Variances, st: Store)
    requires Op1Accepts(op, t) && In(v, t, env, k, tcx, st)
    ensures var r := RunOp1(op, v); r.Ok? && In(r.value, Op1Ty(op, t), env, k, tcx, st)
  {
  }

  // ----- the types the rules assign -----

  /** A type, and the bindings that moving out of places leaves behind. */
  datatype Typed = Typed(ty: Ty, after: Bindings)

  function OperandTy(b: Bindings, op: Operand): Option<Typed> {
    match op
    case Constant(lit) => Some(Typed(LitTy(lit), b))
    case Copy(place) =>
      (match Walk(b, Local(place.local), place.derefs)
       case Some(loc) => if loc in b then Some(Typed(BindingTy(b[loc]), b)) else None
       case None => None)
    case Move(place) =>
      var loc := Local(place.local);
      if place.derefs == 0 && loc in b then Some(Typed(BindingTy(b[loc]), b[loc := Strong(Uninit)])) else None
  }

  function RvalueTy(b: Bindings, rvalue: Rvalue): Option<Typed> {
    match rvalue
    case Use(op) => OperandTy(b, op)
    case MutRef(place) =>
      (match Walk(b, Local(place.local), place.derefs)
       case Some(loc) => Some(Typed(StrgRef(loc), b))
       case None => None)
    case Unary(uop, op) =>
      (match OperandTy(b, op)
       case Some(t) => if Op1Accepts(uop, t.ty) then Some(Typed(Op1Ty(uop, t.ty), t.after)) else None
       case None => None)
    case Binary(bop, op1, op2) =>
      (match OperandTy(b, op1)
       case Some(t1) =>
         (match OperandTy(t1.after, op2)
          case Some(t2) => if OpAccepts(bop, t1.ty, t2.ty) then Some(Typed(OpTy(bop, t1.ty, t2.ty), t2.after)) else None
          case None => None)
       case None => None)
  }

  /** The obligation of a division. */
  function RvalueState(s: State, p: Pos, b: Bindings, rvalue: Rvalue): State
    requires ValidPath(s.root, p.node) && RvalueTy(b, rvalue).Some?
  {
    if rvalue.Binary? && rvalue.bop.OpDiv? then
      OpState(s, p, OpDiv, OperandTy(OperandTy(b, rvalue.op1).value.after, rvalue.op2).value.ty)
    else s
  }

  function StatementTy(b: Bindings, stmt: Statement): Option<Bindings> {
    match stmt
    case Nop => Some(b)
    case Assign(place, rvalue) =>
      match RvalueTy(b, rvalue)
      case Some(t) =>
        (match Walk(t.after, Local(place.local), place.derefs)
         case Some(loc) =>
           if loc in t.after && Writable(BindingTy(t.after[loc])) then Some(t.after[loc := Strong(t.ty)]) else None
         case None => None)
      case None => None
  }

  function StatementsTy(b: Bindings, stmts: seq<Statement>): Option<Bindings> {
    if stmts == [] then Some(b)
    else
      match StatementsTy(b, stmts[..|stmts| - 1])
      case Some(b1) => StatementTy(b1, stmts[|stmts| - 1])
      case None => None
  }

  lemma {:induction false} StatementsPrefix(b: Bindings, stmts: seq<Statement>, i: nat)
    requires i <= |stmts| && StatementsTy(b, stmts[..i]).None?
    ensures StatementsTy(b, stmts).None?
    decreases |stmts| - i
  {
    if i < |stmts| {
      assert stmts[..i + 1][..i] == stmts[..i];
      StatementsPrefix(b, stmts, i + 1);
    } else {
      assert stmts[..i] == stmts;
    }
  }

  lemma StatementsNext(b0: Bindings, b1: Bindings, stmts: seq<Statement>, i: nat)
    requires i < |stmts| && StatementsTy(b0, stmts[..i]) == Some(b1)
    ensures StatementsTy(b0, stmts[..i + 1]) == StatementTy(b1, stmts[i])
    ensures StatementTy(b1, stmts[i]).None? ==> StatementsTy(b0, stmts).None?
  {
    assert stmts[..i + 1][..i] == stmts[..i];
    if StatementTy(b1, stmts[i]).None? {
      StatementsPrefix(b0, stmts, i + 1);
    }
  }

  /** What the return rule accepts. */
  ghost predicate Returnable(b: Bindings, d: Duty, tcx: Variances) {
    && Local(0) in b && Compatible(BindingTy(b[Local(0)]), d.ret, tcx)
    && forall i :: 0 <= i < |d.ensured| ==> EnsuredAccepted(b, d.ensured[i], tcx)
  }

  ghost predicate EnsuredAccepted(b: Bindings, e: (Loc, Ty), tcx: Variances) {
    e.0 in b && Compatible(BindingTy(b[e.0]), e.1, tcx)
  }

  function StatementState(s: State, p: Pos, b: Bindings, stmt: Statement): State
    requires ValidPath(s.root, p.node) && StatementTy(b, stmt).Some?
  {
    if stmt.Assign? then RvalueState(s, p, b, stmt.rvalue) else s
  }

  // ----- what checking an operand, an rvalue or a statement results in -----

  /** The type, or failure; the bindings left behind; and that this is sound. */
  ghost predicate OperandChecked(b0: Bindings, b1: Bindings, op: Operand, r: Option<Ty>, tcx: Variances) {
    match OperandTy(b0, op)
    case None => r == None
    case Some(t) => r == Some(t.ty) && b1 == t.after && OperandSound(b0, b1, op, t.ty, tcx)
  }

  /** Two operands, the second with the bindings that the first leaves behind. */
  ghost predicate OperandsChecked(b0: Bindings, b2: Bindings, op1: Operand, op2: Operand, ts: Option<(Ty, Ty)>,
                                  tcx: Variances)
  {
    match OperandTy(b0, op1)
    case None => ts == None
    case Some(t1) =>
      match OperandTy(t1.after, op2)
      case None => ts == None
      case Some(t2) =>
        && ts == Some((t1.ty, t2.ty)) && b2 == t2.after
        && OperandSound(b0, t1.after, op1, t1.ty, tcx) && OperandSound(t1.after, b2, op2, t2.ty, tcx)
  }

  ghost predicate RvalueChecked(s0: State, p: Pos, s1: State, b0: Bindings, b1: Bindings, rvalue: Rvalue, r: Option<Ty>,
                                tcx: Variances)
    requires At(s0, p)
  {
    match RvalueTy(b0, rvalue)
    case None => r == None
    case Some(t) =>
      && r == Some(t.ty) && b1 == t.after && s1 == RvalueState(s0, p, b0, rvalue)
      && RvalueSound(s0, p, s1, b0, b1, rvalue, t.ty, tcx)
  }

  ghost predicate StatementChecked(s0: State, p: Pos, s1: State, b0: Bindings, b1: Bindings, stmt: Statement, ok: bool,
                                   tcx: Variances)
    requires At(s0, p)
  {
    match StatementTy(b0, stmt)
    case None => !ok
    case Some(b) =>
      ok && b1 == b && s1 == StatementState(s0, p, b0, stmt) && StatementSound(s0, p, s1, b0, b1, stmt, tcx)
  }

  // ----- rvalues -----

  lemma UseSound(s0: State, p: Pos, b0: Bindings, b1: Bindings, op: Operand, ty: Ty, tcx: Variances)
    requires At(s0, p) && OperandSound(b0, b1, op, ty, tcx)
    ensures RvalueSound(s0, p, s0, b0, b1, Use(op), ty, tcx)
  {
    forall k: Interp, env: Env, st: Store | Describes(b0, st, env, k, tcx)
      ensures RvalueRuns(b1, st, Use(op), ty, env, k, tcx)
    {
      assert OperandRuns(b1, st, op, ty, env, k, tcx);
    }
  }

  lemma MutRefSound(s0: State, p: Pos, b: Bindings, place: Place, loc: Loc, tcx: Variances)
    requires At(s0, p) && Walk(b, Local(place.local), place.derefs) == Some(loc)
    ensures RvalueSound(s0, p, s0, b, b, MutRef(place), StrgRef(loc), tcx)
  {
    forall k: Interp, env: Env, st: Store | Describes(b, st, env, k, tcx)
      ensures RvalueRuns(b, st, MutRef(place), StrgRef(loc), env, k, tcx)
    {
      WalkSound(b, st, Local(place.local), place.derefs, env, k, tcx);
    }
  }

  lemma UnarySound(s0: State, p: Pos, b0: Bindings, b1: Bindings, uop: Op1, op: Operand, ty: Ty, tcx: Variances)
    requires At(s0, p) && OperandSound(b0, b1, op, ty, tcx) && Op1Accepts(uop, ty)
    ensures RvalueSound(s0, p, s0, b0, b1, Unary(uop, op), Op1Ty(uop, ty), tcx)
  {
    forall k: Interp, env: Env, st: Store | Describes(b0, st, env, k, tcx)
      ensures RvalueRuns(b1, st, Unary(uop, op), Op1Ty(uop, ty), env, k, tcx)
    {
      assert OperandRuns(b1, st, op, ty, env, k, tcx);
      var (v, st1) := RunOperand(st, op).value;
      Op1Value(uop, ty, v, env, k, tcx, st1);
    }
  }

  /** The state after the goal of a binary operation, if it has one. */
  function OpState(s: State, p: Pos, op: Op, t2: Ty): State
    requires ValidPath(s.root, p.node) && t2.Refine?
  {
    if op.OpDiv? then GoalState(s, p, DivGoal(t2.e)) else s
  }

  lemma BinarySound(s0: State, p: Pos, b0: Bindings, b1: Bindings, b2: Bindings, bop: Op, op1: Operand, op2: Operand,
                    t1: Ty, t2: Ty, tcx: Variances)
    requires At(s0, p) && OpAccepts(bop, t1, t2) && RefFree(t1)
    requires OperandSound(b0, b1, op1, t1, tcx) && OperandSound(b1, b2, op2, t2, tcx)
    ensures RvalueSound(s0, p, OpState(s0, p, bop, t2), b0, b2, Binary(bop, op1, op2), OpTy(bop, t1, t2), tcx)
  {
    var s1, ty, rvalue := OpState(s0, p, bop, t2), OpTy(bop, t1, t2), Binary(bop, op1, op2);
    forall k: Interp, env: Env, st: Store |
      Holds(s1.root, map[], k) && Reach(s0.root, p.node, map[], env, k) && Describes(b0, st, env, k, tcx)
      ensures RvalueRuns(b2, st, rvalue, ty, env, k, tcx)
    {
      BinaryAt(s0, p, b0, b1, b2, bop, op1, op2, t1, t2, tcx, st, env, k);
    }
  }

  lemma BinaryAt(s0: State, p: Pos, b0: Bindings, b1: Bindings, b2: Bindings, bop: Op, op1: Operand, op2: Operand,
                 t1: Ty, t2: Ty, tcx: Variances, st: Store, env: Env, k: Interp)
    requires At(s0, p) && OpAccepts(bop, t1, t2) && RefFree(t1)
    requires OperandSound(b0, b1, op1, t1, tcx) && OperandSound(b1, b2, op2, t2, tcx)
    requires Holds(OpState(s0, p, bop, t2).root, map[], k) && Reach(s0.root, p.node, map[], env, k)
    requires Describes(b0, st, env, k, tcx)
    ensures RvalueRuns(b2, st, Binary(bop, op1, op2), OpTy(bop, t1, t2), env, k, tcx)
  {
    DivisorGoal(s0, p, bop, t2, env, k);
    OperandsAt(b0, b1, b2, op1, op2, t1, t2, tcx, st, env, k);
    BinaryRuns(b1, b2, st, bop, op1, op2, t1, t2, env, k, tcx);
  }

  /** The second operand runs in the store that the first one leaves. */
  ghost predicate OperandsRun(b1: Bindings, b2: Bindings, st: Store, op1: Operand, op2: Operand, t1: Ty, t2: Ty,
                              env: Env, k: Interp, tcx: Variances)
  {
    OperandRuns(b1, st, op1, t1, env, k, tcx) && OperandRuns(b2, RunOperand(st, op1).value.1, op2, t2, env, k, tcx)
  }

  lemma OperandsAt(b0: Bindings, b1: Bindings, b2: Bindings, op1: Operand, op2: Operand, t1: Ty, t2: Ty, tcx: Variances,
                   st: Store, env: Env, k: Interp)
    requires OperandSound(b0, b1, op1, t1, tcx) && OperandSound(b1, b2, op2, t2, tcx) && Describes(b0, st, env, k, tcx)
    ensures OperandsRun(b1, b2, st, op1, op2, t1, t2, env, k, tcx)
  {
    assert OperandRuns(b1, st, op1, t1, env, k, tcx);
    assert OperandRuns(b2, RunOperand(st, op1).value.1, op2, t2, env, k, tcx);
  }

  lemma DivisorGoal(s0: State, p: Pos, bop: Op, t2: Ty, env: Env, k: Interp)
    requires At(s0, p) && t2.Refine?
    requires Holds(OpState(s0, p, bop, t2).root, map[], k) && Reach(s0.root, p.node, map[], env, k)
    ensures bop.OpDiv? ==> HoldsPred(DivGoal(t2.e), env, None, k)
  {
    if bop.OpDiv? {
      GoalStateMeaning(s0, p, DivGoal(t2.e), k);
    }
  }

  lemma BinaryRuns(b1: Bindings, b2: Bindings, st: Store, bop: Op, op1: Operand, op2: Operand, t1: Ty, t2: Ty,
                   env: Env, k: Interp, tcx: Variances)
    requires OpAccepts(bop, t1, t2) && RefFree(t1)
    requires OperandsRun(b1, b2, st, op1, op2, t1, t2, env, k, tcx)
    requires bop.OpDiv? ==> HoldsPred(DivGoal(t2.e), env, None, k)
    ensures RvalueRuns(b2, st, Binary(bop, op1, op2), OpTy(bop, t1, t2), env, k, tcx)
  {
    var (v1, st1) := RunOperand(st, op1).value;
    var (v2, st2) := RunOperand(st1, op2).value;
    InStore(v1, t1, env, k, tcx, st1, st2);
    OpValue(bop, t1, t2, v1, v2, env, k, tcx, st2);
    assert RunRvalue(st, Binary(bop, op1, op2)) ==
           match RunOp(bop, v1, v2)
           case Ok(w) => Ok((w, st2))
           case DivByZero => DivByZero
           case Stuck => Stuck
           case Unmodelled => Unmodelled;
  }

  lemma UseChecked(s0: State, p: Pos, b0: Bindings, b1: Bindings, op: Operand, r: Option<Ty>, tcx: Variances)
    requires At(s0, p) && OperandChecked(b0, b1, op, r, tcx)
    ensures RvalueChecked(s0, p, s0, b0, b1, Use(op), r, tcx)
  {
    if r.Some? {
      UseSound(s0, p, b0, b1, op, r.value, tcx);
    }
  }

  lemma MutRefChecked(s0: State, p: Pos, b: Bindings, place: Place, tcx: Variances)
    requires At(s0, p)
    ensures var loc := Walk(b, Local(place.local), place.derefs);
            RvalueChecked(s0, p, s0, b, b, MutRef(place), if loc.Some? then Some(StrgRef(loc.value)) else None, tcx)
  {
    var loc := Walk(b, Local(place.local), place.derefs);
    if loc.Some? {
      MutRefSound(s0, p, b, place, loc.value, tcx);
    }
  }

  lemma UnaryChecked(s0: State, p: Pos, b0: Bindings, b1: Bindings, uop: Op1, op: Operand, t: Option<Ty>,
                     tcx: Variances)
    requires At(s0, p) && OperandChecked(b0, b1, op, t, tcx)
    ensures RvalueChecked(s0, p, s0, b0, b1, Unary(uop, op),
                          if t.Some? && Op1Accepts(uop, t.value) then Some(Op1Ty(uop, t.value)) else None, tcx)
  {
    if t.Some? && Op1Accepts(uop, t.value) {
      UnarySound(s0, p, b0, b1, uop, op, t.value, tcx);
    }
  }

  lemma BinaryChecked(s0: State, p: Pos, b0: Bindings, b2: Bindings, bop: Op, op1: Operand, op2: Operand,
                      ts: Option<(Ty, Ty)>, tcx: Variances)
    requires At(s0, p) && OperandsChecked(b0, b2, op1, op2, ts, tcx) && (ts.Some? ==> RefFree(ts.value.0))
    ensures if ts.Some? && OpAccepts(bop, ts.value.0, ts.value.1) then
              RvalueChecked(s0, p, OpState(s0, p, bop, ts.value.1), b0, b2, Binary(bop, op1, op2),
                            Some(OpTy(bop, ts.value.0, ts.value.1)), tcx)
            else
              RvalueChecked(s0, p, s0, b0, b2, Binary(bop, op1, op2), None, tcx)
  {
    if ts.Some? && OpAccepts(bop, ts.value.0, ts.value.1) {
      BinarySound(s0, p, b0, OperandTy(b0, op1).value.after, b2, bop, op1, op2, ts.value.0, ts.value.1, tcx);
    }
  }

  // ----- statements -----

  lemma AssignSound(s0: State, p: Pos, s1: State, b0: Bindings, b1: Bindings, place: Place, rvalue: Rvalue, ty: Ty,
                    loc: Loc, tcx: Variances)
    requires At(s0, p) && RefFreeBindings(b1) && RefFree(ty)
    requires RvalueSound(s0, p, s1, b0, b1, rvalue, ty, tcx)
    requires Walk(b1, Local(place.local), place.derefs) == Some(loc)
    ensures StatementSound(s0, p, s1, b0, b1[loc := Strong(ty)], Assign(place, rvalue), tcx)
  {
    forall k: Interp, env: Env, st: Store |
      Holds(s1.root, map[], k) && Reach(s0.root, p.node, map[], env, k) && Describes(b0, st, env, k, tcx)
      ensures StatementRuns(b1[loc := Strong(ty)], st, Assign(place, rvalue), env, k, tcx)
    {
      assert RvalueRuns(b1, st, rvalue, ty, env, k, tcx);
      if RunRvalue(st, rvalue).Ok? {
        var (v, st1) := RunRvalue(st, rvalue).value;
        WalkSound(b1, st1, Local(place.local), place.derefs, env, k, tcx);
        StrongUpdate(b1, st1, loc, v, ty, env, k, tcx);
      }
    }
  }

  lemma AssignChecked(s0: State, p: Pos, s1: State, b0: Bindings, b1: Bindings, place: Place, rvalue: Rvalue, ty: Ty,
                      ok: bool, b2: Bindings, tcx: Variances)
    requires At(s0, p) && RefFreeBindings(b1) && RefFree(ty) && RvalueChecked(s0, p, s1, b0, b1, rvalue, Some(ty), tcx)
    requires var loc := Walk(b1, Local(place.local), place.derefs);
             && (ok <==> loc.Some? && loc.value in b1 && Writable(BindingTy(b1[loc.value])))
             && (ok ==> b2 == b1[loc.value := Strong(ty)])
    ensures StatementChecked(s0, p, s1, b0, b2, Assign(place, rvalue), ok, tcx)
  {
    if ok {
      AssignSound(s0, p, s1, b0, b1, place, rvalue, ty, Walk(b1, Local(place.local), place.derefs).value, tcx);
    }
  }

  lemma StatementsStep(s0: State, s1: State, p: Pos, s2: State, b0: Bindings, b1: Bindings, b2: Bindings,
                       stmts: seq<Statement>, stmt: Statement, tcx: Variances)
    requires At(s0, p) && At(s1, p) && Keeps(s0, s1, p) && Keeps(s1, s2, p)
    requires StatementsSound(s0, p, s1, b0, b1, stmts, tcx) && StatementSound(s1, p, s2, b1, b2, stmt, tcx)
    ensures StatementsSound(s0, p, s2, b0, b2, stmts + [stmt], tcx)
  {
    forall k: Interp, env: Env, st: Store |
      Holds(s2.root, map[], k) && Reach(s0.root, p.node, map[], env, k) && Describes(b0, st, env, k, tcx)
      ensures StatementsRun(b2, st, stmts + [stmt], env, k, tcx)
    {
      GrowsHolds(s1.root, s2.root, map[], k);
      KeepsReach(s0, s1, p, env, k);
      assert StatementsRun(b1, st, stmts, env, k, tcx);
      RunStatementsAppend(st, stmts, stmt);
      if RunStatements(st, stmts).Ok? {
        assert StatementRuns(b2, RunStatements(st, stmts).value, stmt, env, k, tcx);
      }
    }
  }

  /** Statements followed by a terminator make a block. */
  lemma BlockSound(s0: State, s1: State, p: Pos, q: Pos, s2: State, b0: Bindings, b1: Bindings, body: Body, bb: nat,
                   d: Duty, tcx: Variances)
    requires bb < |body.blocks| && q.node == p.node
    requires At(s0, p) && At(s1, q) && Keeps(s0, s1, p) && Keeps(s1, s2, q)
    requires StatementsSound(s0, p, s1, b0, b1, body.blocks[bb].statements, tcx)
    requires PointSound(s1, q, s2, b1, body, bb, |body.blocks[bb].statements|, d, tcx)
    ensures PointSound(s0, p, s2, b0, body, bb, 0, d, tcx)
  {
    var stmts := body.blocks[bb].statements;
    forall k: Interp, env: Env, st: Store, n: nat |
      Holds(s2.root, map[], k) && Reach(s0.root, p.node, map[], env, k) && Describes(b0, st, env, k, tcx)
      ensures Safe(body, Config(bb, 0, st), n, PostOf(d, env, k, tcx))
    {
      GrowsHolds(s1.root, s2.root, map[], k);
      KeepsReach(s0, s1, p, env, k);
      assert StatementsRun(b1, st, stmts, env, k, tcx);
      assert stmts[0..] == stmts;
      if RunStatements(st, stmts).Ok? {
        var st1 := RunStatements(st, stmts).value;
        assert EndSafe(body, bb, st1, n, PostOf(d, env, k, tcx));
      }
      BlockSafe(body, bb, 0, st, n, PostOf(d, env, k, tcx));
    }
  }

  // ----- terminators -----

  ghost predicate AtEnd(body: Body, bb: nat, t: Terminator) {
    bb < |body.blocks| && body.blocks[bb].terminator == Some(t)
  }

  lemma GotoSound(s0: State, p: Pos, s1: State, b: Bindings, body: Body, bb: nat, target: nat, d: Duty, tcx: Variances)
    requires At(s0, p) && AtEnd(body, bb, Goto(target))
    requires PointSound(s0, p, s1, b, body, target, 0, d, tcx)
    ensures PointSound(s0, p, s1, b, body, bb, |body.blocks[bb].statements|, d, tcx)
  {
  }

  lemma DropSound(s0: State, p: Pos, s1: State, b: Bindings, b1: Bindings, body: Body, bb: nat, place: Place,
                  target: nat, ty: Ty, d: Duty, tcx: Variances)
    requires At(s0, p) && AtEnd(body, bb, Drop(place, target))
    requires OperandSound(b, b1, Move(place), ty, tcx)
    requires PointSound(s0, p, s1, b1, body, target, 0, d, tcx)
    ensures PointSound(s0, p, s1, b, body, bb, |body.blocks[bb].statements|, d, tcx)
  {
    forall k: Interp, env: Env, st: Store, n: nat |
      Holds(s1.root, map[], k) && Reach(s0.root, p.node, map[], env, k) && Describes(b, st, env, k, tcx)
      ensures Safe(body, Config(bb, |body.blocks[bb].statements|, st), n, PostOf(d, env, k, tcx))
    {
      assert OperandRuns(b1, st, Move(place), ty, env, k, tcx);
    }
  }

  lemma ReturnSound(s0: State, p: Pos, s1: State, b: Bindings, body: Body, bb: nat, d: Duty, tcx: Variances)
    requires At(s0, p) && AtEnd(body, bb, Return) && Local(0) in b
    requires Entails(s0, p, s1, BindingTy(b[Local(0)]), d.ret, tcx)
    requires forall i :: 0 <= i < |d.ensured| ==>
      d.ensured[i].0 in b && Entails(s0, p, s1, BindingTy(b[d.ensured[i].0]), d.ensured[i].1, tcx)
    ensures PointSound(s0, p, s1, b, body, bb, |body.blocks[bb].statements|, d, tcx)
  {
    forall k: Interp, env: Env, st: Store, n: nat |
      Holds(s1.root, map[], k) && Reach(s0.root, p.node, map[], env, k) && Describes(b, st, env, k, tcx)
      ensures Safe(body, Config(bb, |body.blocks[bb].statements|, st), n, PostOf(d, env, k, tcx))
    {
      assert Contained(BindingTy(b[Local(0)]), d.ret, env, k, tcx);
      forall i | 0 <= i < |d.ensured|
        ensures d.ensured[i].0 in st && In(st[d.ensured[i].0], d.ensured[i].1, env, k, tcx, st)
      {
        assert Contained(BindingTy(b[d.ensured[i].0]), d.ensured[i].1, env, k, tcx);
      }
      assert Meets(st, PostOf(d, env, k, tcx));
    }
  }

  // ----- switches -----

  predicate Switchable(ty: Ty) {
    ty.Refine? && !ty.bty.Adt?
  }

  /** Without targets the discriminant is not looked at. */
  predicate Discriminates(ty: Ty, targets: seq<(nat, nat)>) {
    targets == [] || Switchable(ty)
  }

  lemma SwitchableValue(v: Val, ty: Ty, env: Env, k: Interp, tcx: Variances, st: Store)
    requires Switchable(ty) && In(v, ty, env, k, tcx, st)
    ensures if ty.bty.Bool? then v.Truth? else v.Num?
  {
  }

  /** The guard under which a target is taken. */
  function TargetGuard(ty: Ty, bits: nat): Expr
    requires Switchable(ty)
  {
    if ty.bty.Bool? then (if bits != 0 then ty.e else UnaryOp(Not, ty.e))
    else BinaryOp(Eq, ty.e, Expr.Constant(FromInt(bits)))
  }

  /** The guard under which none of them is. */
  function OtherwiseGuard(ty: Ty, targets: seq<(nat, nat)>): Expr
    requires Switchable(ty) && targets != []
  {
    var last := UnaryOp(Not, TargetGuard(ty, targets[|targets| - 1].0));
    if |targets| == 1 then last else BinaryOp(And, OtherwiseGuard(ty, targets[..|targets| - 1]), last)
  }

  lemma TargetGuardWf(ty: Ty, bits: nat, g: Scope, kvars: seq<seq<Sort>>)
    requires Switchable(ty) && WfTy(ty, g, kvars)
    ensures SortOf(TargetGuard(ty, bits), g, None) == Some(Sort.Bool)
  {
  }

  lemma {:induction false} OtherwiseGuardWf(ty: Ty, targets: seq<(nat, nat)>, g: Scope, kvars: seq<seq<Sort>>)
    requires Switchable(ty) && targets != [] && WfTy(ty, g, kvars)
    ensures SortOf(OtherwiseGuard(ty, targets), g, None) == Some(Sort.Bool)
  {
    TargetGuardWf(ty, targets[|targets| - 1].0, g, kvars);
    if |targets| > 1 {
      OtherwiseGuardWf(ty, targets[..|targets| - 1], g, kvars);
    }
  }

  /** The guard tells exactly whether the value matches, if booleans are compared with one bit. */
  lemma TargetGuardMeaning(ty: Ty, bits: nat, v: Val, env: Env, k: Interp, tcx: Variances, st: Store)
    requires Switchable(ty) && In(v, ty, env, k, tcx, st) && (ty.bty.Bool? ==> bits <= 1)
    ensures Eval(TargetGuard(ty, bits), env, None) == Some(BoolVal(Matches(v, bits)))
  {
    assert Eval(Expr.Constant(FromInt(bits)), env, None) == Some(IntVal(bits));
  }

  lemma {:induction false} OtherwiseGuardMeaning(ty: Ty, targets: seq<(nat, nat)>, v: Val, env: Env, k: Interp,
                                                 tcx: Variances, st: Store)
    requires Switchable(ty) && In(v, ty, env, k, tcx, st) && (ty.bty.Bool? ==> OneBit(targets)) && targets != []
    ensures Eval(OtherwiseGuard(ty, targets), env, None) ==
            Some(BoolVal(forall i :: 0 <= i < |targets| ==> !Matches(v, targets[i].0)))
  {
    var init, last := targets[..|targets| - 1], targets[|targets| - 1];
    TargetGuardMeaning(ty, last.0, v, env, k, tcx, st);
    if |targets| > 1 {
      OtherwiseGuardMeaning(ty, init, v, env, k, tcx, st);
      assert (forall i :: 0 <= i < |targets| ==> !Matches(v, targets[i].0)) <==>
             (forall i :: 0 <= i < |init| ==> !Matches(v, init[i].0)) && !Matches(v, last.0);
    }
  }

  lemma {:induction false} SelectTargetIs(v: Val, targets: seq<(nat, nat)>, otherwise: nat)
    ensures var next := SelectTarget(v, targets, otherwise);
            || (exists i :: 0 <= i < |targets| && Matches(v, targets[i].0) && next == targets[i].1)
            || ((forall i :: 0 <= i < |targets| ==> !Matches(v, targets[i].0)) && next == otherwise)
  {
    if targets == [] {
    } else if Matches(v, targets[0].0) {
    } else {
      var rest, next := targets[1..], SelectTarget(v, targets, otherwise);
      SelectTargetIs(v, rest, otherwise);
      if exists i :: 0 <= i < |rest| && Matches(v, rest[i].0) && next == rest[i].1 {
        var i :| 0 <= i < |rest| && Matches(v, rest[i].0) && next == rest[i].1;
        assert targets[i + 1] == rest[i];
      } else {
        forall i | 0 <= i < |targets| ensures !Matches(v, targets[i].0) {
          if i > 0 { assert targets[i] == rest[i - 1]; }
        }
      }
    }
  }

  /** Checking a target below its guard. */
  lemma UnderGuard(s0: State, s1: State, p: Pos, guard: Expr, s2: State, b: Bindings, body: Body, bb: nat, d: Duty,
                   tcx: Variances)
    requires At(s0, p) && At(s1, p) && Keeps(s0, s1, p)
    requires At(PushState(s1, p, Guard(guard, [])), PushPos(s1, p, Guard(guard, [])))
    requires PointSound(PushState(s1, p, Guard(guard, [])), PushPos(s1, p, Guard(guard, [])), s2, b, body, bb, 0, d,
                        tcx)
    ensures GuardedSound(s0, p, s2, guard, b, body, bb, d, tcx)
  {
    forall k: Interp, env: Env, st: Store, n: nat |
      Holds(s2.root, map[], k) && Reach(s0.root, p.node, map[], env, k) && Describes(b, st, env, k, tcx) &&
      IsTrue(Eval(guard, env, None))
      ensures Safe(body, Config(bb, 0, st), n, PostOf(d, env, k, tcx))
    {
      KeepsReach(s0, s1, p, env, k);
      assert Enter(Guard(guard, []), env, env, k);
      PushReach(s1.root, p.node, Guard(guard, []), map[], env, env, k);
    }
  }

  lemma GuardedLater(s0: State, p: Pos, s1: State, s2: State, guard: Expr, b: Bindings, body: Body, bb: nat, d: Duty,
                     tcx: Variances)
    requires At(s0, p) && Grows(s1.root, s2.root)
    requires GuardedSound(s0, p, s1, guard, b, body, bb, d, tcx)
    ensures GuardedSound(s0, p, s2, guard, b, body, bb, d, tcx)
  {
    forall k: Interp, env: Env, st: Store, n: nat |
      Holds(s2.root, map[], k) && Reach(s0.root, p.node, map[], env, k) && Describes(b, st, env, k, tcx) &&
      IsTrue(Eval(guard, env, None))
      ensures Safe(body, Config(bb, 0, st), n, PostOf(d, env, k, tcx))
    {
      GrowsHolds(s1.root, s2.root, map[], k);
    }
  }

  lemma UnguardedIsGuarded(s0: State, s1: State, p: Pos, s2: State, b: Bindings, body: Body, bb: nat, d: Duty,
                           tcx: Variances)
    requires At(s0, p) && At(s1, p) && Keeps(s0, s1, p)
    requires PointSound(s1, p, s2, b, body, bb, 0, d, tcx)
    ensures GuardedSound(s0, p, s2, True(), b, body, bb, d, tcx)
  {
    forall k: Interp, env: Env, st: Store, n: nat |
      Holds(s2.root, map[], k) && Reach(s0.root, p.node, map[], env, k) && Describes(b, st, env, k, tcx)
      ensures Safe(body, Config(bb, 0, st), n, PostOf(d, env, k, tcx))
    {
      KeepsReach(s0, s1, p, env, k);
    }
  }

  function OtherwiseGuardOf(ty: Ty, targets: seq<(nat, nat)>): Expr
    requires Discriminates(ty, targets)
  {
    if targets == [] then True() else OtherwiseGuard(ty, targets)
  }

  /** All targets of the switch are safe under their guards. */
  ghost predicate TargetsSound(s0: State, p: Pos, s1: State, ty: Ty, targets: seq<(nat, nat)>, b: Bindings, body: Body,
                               d: Duty, tcx: Variances)
    requires At(s0, p) && Discriminates(ty, targets)
  {
    forall i :: 0 <= i < |targets| ==>
      GuardedSound(s0, p, s1, TargetGuard(ty, targets[i].0), b, body, targets[i].1, d, tcx)
  }

  lemma TargetsLater(s0: State, p: Pos, s1: State, s2: State, ty: Ty, targets: seq<(nat, nat)>, b: Bindings, body: Body,
                     d: Duty, tcx: Variances)
    requires At(s0, p) && Discriminates(ty, targets) && Grows(s1.root, s2.root)
    requires TargetsSound(s0, p, s1, ty, targets, b, body, d, tcx)
    ensures TargetsSound(s0, p, s2, ty, targets, b, body, d, tcx)
  {
    forall i | 0 <= i < |targets|
      ensures GuardedSound(s0, p, s2, TargetGuard(ty, targets[i].0), b, body, targets[i].1, d, tcx)
    {
      GuardedLater(s0, p, s1, s2, TargetGuard(ty, targets[i].0), b, body, targets[i].1, d, tcx);
    }
  }

  lemma SwitchSound(s0: State, p: Pos, s1: State, b0: Bindings, b1: Bindings, body: Body, bb: nat, discr: Operand,
                    targets: seq<(nat, nat)>, otherwise: nat, ty: Ty, d: Duty, tcx: Variances)
    requires At(s0, p) && Discriminates(ty, targets) && AtEnd(body, bb, SwitchInt(discr, targets, otherwise))
    requires OperandSound(b0, b1, discr, ty, tcx)
    requires TargetsSound(s0, p, s1, ty, targets, b1, body, d, tcx)
    requires GuardedSound(s0, p, s1, OtherwiseGuardOf(ty, targets), b1, body, otherwise, d, tcx)
    ensures PointSound(s0, p, s1, b0, body, bb, |body.blocks[bb].statements|, d, tcx)
  {
    forall k: Interp, env: Env, st: Store, n: nat |
      Holds(s1.root, map[], k) && Reach(s0.root, p.node, map[], env, k) && Describes(b0, st, env, k, tcx)
      ensures Safe(body, Config(bb, |body.blocks[bb].statements|, st), n, PostOf(d, env, k, tcx))
    {
      assert OperandRuns(b1, st, discr, ty, env, k, tcx);
      if n > 0 {
        var (v, st1) := RunOperand(st, discr).value;
        if targets != [] { SwitchableValue(v, ty, env, k, tcx, st1); }
        if targets == [] || v.Num? || OneBit(targets) {
          SelectedSafe(s0, p, s1, b1, body, targets, otherwise, ty, d, tcx, v, st1, env, k, n - 1);
        }
      }
    }
  }

  /** The block selected by the value is safe. */
  lemma SelectedSafe(s0: State, p: Pos, s1: State, b: Bindings, body: Body, targets: seq<(nat, nat)>, otherwise: nat,
                     ty: Ty, d: Duty, tcx: Variances, v: Val, st: Store, env: Env, k: Interp, n: nat)
    requires At(s0, p) && Discriminates(ty, targets)
    requires TargetsSound(s0, p, s1, ty, targets, b, body, d, tcx)
    requires GuardedSound(s0, p, s1, OtherwiseGuardOf(ty, targets), b, body, otherwise, d, tcx)
    requires Holds(s1.root, map[], k) && Reach(s0.root, p.node, map[], env, k) && Describes(b, st, env, k, tcx)
    requires In(v, ty, env, k, tcx, st) && (targets != [] && ty.bty.Bool? ==> OneBit(targets))
    ensures Safe(body, Config(SelectTarget(v, targets, otherwise), 0, st), n, PostOf(d, env, k, tcx))
  {
    var next := SelectTarget(v, targets, otherwise);
    SelectTargetIs(v, targets, otherwise);
    if exists i :: 0 <= i < |targets| && Matches(v, targets[i].0) && next == targets[i].1 {
      var i :| 0 <= i < |targets| && Matches(v, targets[i].0) && next == targets[i].1;
      TargetGuardMeaning(ty, targets[i].0, v, env, k, tcx, st);
      assert GuardedSound(s0, p, s1, TargetGuard(ty, targets[i].0), b, body, targets[i].1, d, tcx);
    } else if targets != [] {
      OtherwiseGuardMeaning(ty, targets, v, env, k, tcx, st);
    }
  }

  // ----- gluing -----

  /** A block without a terminator ends the run. */
  lemma HaltSound(s0: State, p: Pos, s1: State, b: Bindings, body: Body, bb: nat, d: Duty, tcx: Variances)
    requires At(s0, p) && bb < |body.blocks| && body.blocks[bb].terminator.None?
    ensures PointSound(s0, p, s1, b, body, bb, |body.blocks[bb].statements|, d, tcx)
  {
  }

  /** A new mark on the stack of scopes does not change what reaches the node. */
  lemma SameReach(s0: State, p0: Pos, s1: State, p1: Pos, s2: State, b: Bindings, body: Body, bb: nat, d: Duty,
                  tcx: Variances)
    requires At(s0, p0) && At(s1, p1) && s1.root == s0.root && p1.node == p0.node
    requires PointSound(s1, p1, s2, b, body, bb, 0, d, tcx)
    ensures PointSound(s0, p0, s2, b, body, bb, 0, d, tcx)
  {
  }

  lemma ScopedWork(s0: State, s1: State, s2: State, p0: Pos, p1: Pos)
    requires Worked(s0, s1, p0) && Worked(s1, s2, p1) && Deeper(p0, p1)
    ensures Worked(s0, s2, p0)
  {
    KeepsTrans(s0, s1, s2, p0, p1);
    KeepsTrans(s1, s1, s2, p0, p1) by { KeepsRefl(s1, p0); }
    KeepsWf(s1, s2, p0, p1);
  }

  lemma GuardedEarlier(s0: State, s1: State, p: Pos, s2: State, guard: Expr, b: Bindings, body: Body, bb: nat, d: Duty,
                       tcx: Variances)
    requires At(s0, p) && At(s1, p) && Keeps(s0, s1, p)
    requires GuardedSound(s1, p, s2, guard, b, body, bb, d, tcx)
    ensures GuardedSound(s0, p, s2, guard, b, body, bb, d, tcx)
  {
    forall k: Interp, env: Env, st: Store, n: nat |
      Holds(s2.root, map[], k) && Reach(s0.root, p.node, map[], env, k) && Describes(b, st, env, k, tcx) &&
      IsTrue(Eval(guard, env, None))
      ensures Safe(body, Config(bb, 0, st), n, PostOf(d, env, k, tcx))
    {
      KeepsReach(s0, s1, p, env, k);
    }
  }

  /** One more target of a switch. */
  lemma TargetsStep(s0: State, s1: State, p: Pos, s2: State, ty: Ty, targets: seq<(nat, nat)>, i: nat, b: Bindings,
                    body: Body, d: Duty, tcx: Variances)
    requires Switchable(ty) && i < |targets| && At(s0, p) && At(s1, p) && Keeps(s0, s1, p) && Keeps(s1, s2, p)
    requires TargetsSound(s0, p, s1, ty, targets[..i], b, body, d, tcx)
    requires GuardedSound(s1, p, s2, TargetGuard(ty, targets[i].0), b, body, targets[i].1, d, tcx)
    ensures TargetsSound(s0, p, s2, ty, targets[..i + 1], b, body, d, tcx)
  {
    TargetsLater(s0, p, s1, s2, ty, targets[..i], b, body, d, tcx);
    GuardedEarlier(s0, s1, p, s2, TargetGuard(ty, targets[i].0), b, body, targets[i].1, d, tcx);
    var done := targets[..i + 1];
    forall j | 0 <= j < |done|
      ensures GuardedSound(s0, p, s2, TargetGuard(ty, done[j].0), b, body, done[j].1, d, tcx)
    {
      if j < i { assert targets[..i][j] == done[j]; }
    }
  }
}
