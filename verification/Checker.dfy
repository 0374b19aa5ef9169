/** The checker: symbolic execution of a body, emitting obligations through a cursor. */
module Checkers {
  import opened Logic
  import opened Tree
  import opened Types
  import opened Position
  import opened Subtyping
  import opened Environment
  import opened ConstraintBuilders
  import opened TypeEnvs
  import opened Mir
  import opened Rules
  import opened Exactness
  import opened Visit
  import opened Acceptance

  class Checker {
    const body: Body
    const dominatesJoinPoint: set<nat>
    const retTy: Ty
    const ensured: seq<(Loc, Ty)>
    var visited: set<nat>

    constructor (body: Body, dominatesJoinPoint: set<nat>, retTy: Ty, ensured: seq<(Loc, Ty)>)
      ensures this.body == body && this.retTy == retTy && this.ensured == ensured && visited == {}
    {
      this.body, this.dominatesJoinPoint, this.retTy, this.ensured := body, dominatesJoinPoint, retTy, ensured;
      visited := {};
    }

    function Owed(): Duty {
      Duty(retTy, ensured)
    }

    /** The cursor, the environment and the duty fit together. */
    ghost predicate Ready(env: TypeEnv, cursor: Cursor)
      reads env, cursor, cursor.builder
    {
      && cursor.WellFormed()
      && EnvOk(env.bindings, cursor.Scope(), cursor.builder.kvars)
      && DutyOk(Owed(), cursor.Scope(), cursor.builder.kvars)
    }

    // ----- operands and rvalues -----

    method CheckOperand(env: TypeEnv, op: Operand, ghost g: Scope, ghost kvars: seq<seq<Sort>>, ghost tcx: Variances)
      returns (r: Option<Ty>)
      requires EnvOk(env.bindings, g, kvars)
      modifies env
      ensures EnvOk(env.bindings, g, kvars)
      ensures r.Some? ==> WfTy(r.value, g, kvars) && RefFree(r.value)
      ensures OperandChecked(old(env.bindings), env.bindings, op, r, tcx)
    {
      match op {
        case Copy(place) =>
          var loc := env.WalkPlace(place.local, place.derefs);
          if loc.None? {
            return None;
          }
          WalkBound(env.bindings, Local(place.local), place.derefs);
          CopySound(env.bindings, place, loc.value, tcx);
          r := Some(BindingTy(env.bindings[loc.value]));
        case Move(place) =>
          ghost var b0 := env.bindings;
          r := env.MovePlace(place.local, place.derefs);
          if r.Some? {
            MoveSound(b0, place, tcx);
          }
        case Constant(lit) =>
          LitSound(env.bindings, lit, tcx);
          r := Some(LitTy(lit));
      }
    }

    method CheckRvalue(env: TypeEnv, cursor: Cursor, rvalue: Rvalue) returns (r: Option<Ty>)
      requires cursor.WellFormed() && EnvOk(env.bindings, cursor.Scope(), cursor.builder.kvars)
      modifies env, cursor, cursor.builder
      ensures cursor.WellFormed() && cursor.Pos() == old(cursor.Pos())
      ensures Worked(old(cursor.builder.State()), cursor.builder.State(), cursor.Pos())
      ensures EnvOk(env.bindings, cursor.Scope(), cursor.builder.kvars)
      ensures r.Some? ==> WfTy(r.value, cursor.Scope(), cursor.builder.kvars) && RefFree(r.value)
      ensures RvalueChecked(old(cursor.builder.State()), cursor.Pos(), cursor.builder.State(), old(env.bindings),
                            env.bindings, rvalue, r, cursor.builder.tcx)
    {
      ghost var s0, b0, p, tcx := cursor.builder.State(), env.bindings, cursor.Pos(), cursor.builder.tcx;
      WorkedRefl(s0, p);
      match rvalue {
        case Use(op) =>
          r := CheckOperand(env, op, cursor.Scope(), cursor.builder.kvars, tcx);
          UseChecked(s0, p, b0, env.bindings, op, r, tcx);
        case MutRef(place) =>
          var loc := env.WalkPlace(place.local, place.derefs);
          MutRefChecked(s0, p, b0, place, tcx);
          r := if loc.None? then None else Some(StrgRef(loc.value));
        case Unary(uop, op) =>
          var t := CheckOperand(env, op, cursor.Scope(), cursor.builder.kvars, tcx);
          r := CheckUnaryOp(uop, t);
          UnaryChecked(s0, p, b0, env.bindings, uop, op, t, tcx);
        case Binary(bop, op1, op2) =>
          r := CheckBinaryOp(env, cursor, bop, op1, op2);
      }
    }

    /** Negation of booleans and of signed integers. */
    method CheckUnaryOp(uop: Op1, t: Option<Ty>) returns (r: Option<Ty>)
      ensures r == if t.Some? && Op1Accepts(uop, t.value) then Some(Op1Ty(uop, t.value)) else None
    {
      if t.None? || !t.value.Refine? {
        return None;
      }
      match uop {
        case OpNot => r := if t.value.bty.Bool? then Some(Refine(BaseTy.Bool, UnaryOp(Not, t.value.e))) else None;
        case OpNeg => r := if t.value.bty.Int? then Some(Refine(t.value.bty, UnaryOp(Neg, t.value.e))) else None;
      }
    }

    method CheckBinaryOp(env: TypeEnv, cursor: Cursor, bop: Op, op1: Operand, op2: Operand) returns (r: Option<Ty>)
      requires cursor.WellFormed() && EnvOk(env.bindings, cursor.Scope(), cursor.builder.kvars)
      modifies env, cursor, cursor.builder
      ensures cursor.WellFormed() && cursor.Pos() == old(cursor.Pos())
      ensures Worked(old(cursor.builder.State()), cursor.builder.State(), cursor.Pos())
      ensures EnvOk(env.bindings, cursor.Scope(), cursor.builder.kvars)
      ensures r.Some? ==> WfTy(r.value, cursor.Scope(), cursor.builder.kvars) && RefFree(r.value)
      ensures RvalueChecked(old(cursor.builder.State()), cursor.Pos(), cursor.builder.State(), old(env.bindings),
                            env.bindings, Binary(bop, op1, op2), r, cursor.builder.tcx)
    {
      ghost var s0, p, b0, tcx := cursor.builder.State(), cursor.Pos(), env.bindings, cursor.builder.tcx;
      WorkedRefl(s0, p);
      var ts := CheckOperands(env, op1, op2, cursor.Scope(), cursor.builder.kvars, tcx);
      BinaryChecked(s0, p, b0, env.bindings, bop, op1, op2, ts, tcx);
      if ts.None? || !OpAccepts(bop, ts.value.0, ts.value.1) {
        return None;
      }
      var ty := CheckArith(cursor, bop, ts.value.0, ts.value.1);
      r := Some(ty);
    }

    /** The operands from left to right. */
    method CheckOperands(env: TypeEnv, op1: Operand, op2: Operand, ghost g: Scope, ghost kvars: seq<seq<Sort>>,
                         ghost tcx: Variances)
      returns (ts: Option<(Ty, Ty)>)
      requires EnvOk(env.bindings, g, kvars)
      modifies env
      ensures EnvOk(env.bindings, g, kvars)
      ensures ts.Some? ==> WfTy(ts.value.0, g, kvars) && RefFree(ts.value.0) && WfTy(ts.value.1, g, kvars) &&
                           RefFree(ts.value.1)
      ensures OperandsChecked(old(env.bindings), env.bindings, op1, op2, ts, tcx)
    {
      var t1 := CheckOperand(env, op1, g, kvars, tcx);
      if t1.None? {
        return None;
      }
      var t2 := CheckOperand(env, op2, g, kvars, tcx);
      ts := if t2.None? then None else Some((t1.value, t2.value));
    }

    /** The result type of accepted operands; a division demands that its divisor is not zero. */
    method CheckArith(cursor: Cursor, bop: Op, t1: Ty, t2: Ty) returns (ty: Ty)
      requires cursor.WellFormed() && OpAccepts(bop, t1, t2) && RefFree(t1)
      requires WfTy(t1, cursor.Scope(), cursor.builder.kvars) && WfTy(t2, cursor.Scope(), cursor.builder.kvars)
      modifies cursor, cursor.builder
      ensures cursor.WellFormed() && cursor.Pos() == old(cursor.Pos())
      ensures Worked(old(cursor.builder.State()), cursor.builder.State(), cursor.Pos())
      ensures cursor.builder.State() == OpState(old(cursor.builder.State()), cursor.Pos(), bop, t2)
      ensures ty == OpTy(bop, t1, t2) && WfTy(ty, cursor.Scope(), cursor.builder.kvars) && RefFree(ty)
    {
      ghost var s0, p := cursor.builder.State(), cursor.Pos();
      WorkedRefl(s0, p);
      OpTyWf(bop, t1, t2, cursor.Scope(), cursor.builder.kvars);
      if bop.OpDiv? {
        GoalStateWf(s0, p, DivGoal(t2.e));
        cursor.PushHead(Pred.Expr(BinaryOp(Ne, t2.e, Expr.Constant(FromInt(0)))));
      }
      ty := Refine(if IsArith(bop) then t1.bty else BaseTy.Bool, BinaryOp(LogicOp(bop), t1.e, t2.e));
    }

    method CheckStatement(env: TypeEnv, cursor: Cursor, stmt: Statement) returns (ok: bool)
      requires cursor.WellFormed() && EnvOk(env.bindings, cursor.Scope(), cursor.builder.kvars)
      modifies env, cursor, cursor.builder
      ensures cursor.WellFormed() && cursor.Pos() == old(cursor.Pos())
      ensures Worked(old(cursor.builder.State()), cursor.builder.State(), cursor.Pos())
      ensures ok ==> EnvOk(env.bindings, cursor.Scope(), cursor.builder.kvars)
      ensures StatementChecked(old(cursor.builder.State()), cursor.Pos(), cursor.builder.State(), old(env.bindings),
                               env.bindings, stmt, ok, cursor.builder.tcx)
    {
      ghost var s0, b0, p, tcx := cursor.builder.State(), env.bindings, cursor.Pos(), cursor.builder.tcx;
      WorkedRefl(s0, p);
      match stmt {
        case Nop =>
          ok := true;
        case Assign(place, rvalue) =>
          var ty := CheckRvalue(env, cursor, rvalue);
          if ty.None? {
            return false;
          }
          ghost var s1, b1 := cursor.builder.State(), env.bindings;
          ok := env.WritePlace(cursor, place.local, place.derefs, ty.value);
          AssignChecked(s0, p, s1, b0, b1, place, rvalue, ty.value, ok, env.bindings, tcx);
          if !ok {
            WorkedTrans(s0, s1, cursor.builder.State(), p);
          }
      }
    }

    // ----- blocks -----

    method CheckBasicBlock(env: TypeEnv, cursor: Cursor, bb: nat, ghost path: set<nat>) returns (ok: bool)
      requires JoinFree(body) && WellTargeted(body) && Enterable(body, visited, bb)
      requires Ready(env, cursor)
      requires path <= visited
      modifies this`visited, env, cursor, cursor.builder
      ensures old(visited) <= visited && bb in visited && DescendsFrom(body, bb, visited - old(visited)) &&
              Closed(body, visited)
      ensures Worked(old(cursor.builder.State()), cursor.builder.State(), old(cursor.Pos()))
      ensures ok <==> Accepts(body, Owed(), cursor.builder.tcx, old(env.bindings), bb, path)
      ensures ok ==> PointExact(old(cursor.builder.State()), old(cursor.Pos()), cursor.builder.State(),
                                old(env.bindings), body, bb, 0, Owed(), cursor.builder.tcx)
      decreases Blocks(|body.blocks|) - visited, 1
    {
      ghost var s0, p0, v0 := cursor.builder.State(), cursor.Pos(), visited;
      SuccessorsAhead(body, visited, bb);
      visited := visited + {bb};
      WorkedRefl(s0, p0);
      if bb in dominatesJoinPoint {
        cursor.PushScope();
        KeepsWf(s0, cursor.builder.State(), p0, cursor.Pos());
      }
      ghost var s1, p1, b0 := cursor.builder.State(), cursor.Pos(), env.bindings;
      ok := CheckInside(env, cursor, bb, path);
      ScopedWork(s0, s1, cursor.builder.State(), p0, p1);
      if ok {
        SameReachExact(s0, p0, s1, p1, cursor.builder.State(), b0, body, bb, Owed(), cursor.builder.tcx);
      }
      FromBelow(body, bb, v0, visited);
    }

    /** The statements of a block, then its terminator. */
    method CheckInside(env: TypeEnv, cursor: Cursor, bb: nat, ghost path: set<nat>) returns (ok: bool)
      requires JoinFree(body) && WellTargeted(body) && Visiting(body, visited, bb)
      requires Closed(body, visited) && Ahead(body, visited, bb, 0)
      requires Ready(env, cursor)
      requires path <= visited && bb !in path
      modifies this`visited, env, cursor, cursor.builder
      ensures old(visited) <= visited && DescendsBelow(body, bb, visited - old(visited)) && Closed(body, visited)
      ensures Worked(old(cursor.builder.State()), cursor.builder.State(), old(cursor.Pos()))
      ensures ok <==> Accepts(body, Owed(), cursor.builder.tcx, old(env.bindings), bb, path)
      ensures ok ==> PointExact(old(cursor.builder.State()), old(cursor.Pos()), cursor.builder.State(),
                                old(env.bindings), body, bb, 0, Owed(), cursor.builder.tcx)
      decreases Blocks(|body.blocks|) - visited, 10
    {
      ghost var s0, p, b0 := cursor.builder.State(), cursor.Pos(), env.bindings;
      ok := CheckStatements(env, cursor, body.blocks[bb].statements);
      if !ok {
        return;
      }
      ghost var s1, b1 := cursor.builder.State(), env.bindings;
      ok := CheckEnd(env, cursor, bb, path);
      WorkedTrans(s0, s1, cursor.builder.State(), p);
      if ok {
        BlockExact(s0, s1, p, cursor.builder.State(), b0, b1, body, bb, Owed(), cursor.builder.tcx);
      }
    }

    method CheckEnd(env: TypeEnv, cursor: Cursor, bb: nat, ghost path: set<nat>) returns (ok: bool)
      requires JoinFree(body) && WellTargeted(body) && Visiting(body, visited, bb)
      requires Closed(body, visited) && Ahead(body, visited, bb, 0)
      requires Ready(env, cursor)
      requires path <= visited && bb !in path
      modifies this`visited, env, cursor, cursor.builder
      ensures old(visited) <= visited && DescendsBelow(body, bb, visited - old(visited)) && Closed(body, visited)
      ensures Worked(old(cursor.builder.State()), cursor.builder.State(), old(cursor.Pos()))
      ensures ok <==> AcceptsEnd(body, Owed(), cursor.builder.tcx, old(env.bindings), bb, path)
      ensures ok ==> PointExact(old(cursor.builder.State()), old(cursor.Pos()), cursor.builder.State(),
                                old(env.bindings), body, bb, |body.blocks[bb].statements|, Owed(), cursor.builder.tcx)
      decreases Blocks(|body.blocks|) - visited, 9
    {
      if body.blocks[bb].terminator.None? {
        WorkedRefl(cursor.builder.State(), cursor.Pos());
        HaltExact(cursor.builder.State(), cursor.Pos(), env.bindings, body, bb, Owed(), cursor.builder.tcx);
        ok := true;
      } else {
        ok := CheckTerminator(env, cursor, bb, body.blocks[bb].terminator.value, path);
      }
    }

    method CheckStatements(env: TypeEnv, cursor: Cursor, stmts: seq<Statement>) returns (ok: bool)
      requires cursor.WellFormed() && EnvOk(env.bindings, cursor.Scope(), cursor.builder.kvars)
      modifies env, cursor, cursor.builder
      ensures cursor.WellFormed() && cursor.Pos() == old(cursor.Pos())
      ensures Worked(old(cursor.builder.State()), cursor.builder.State(), cursor.Pos())
      ensures ok ==> EnvOk(env.bindings, cursor.Scope(), cursor.builder.kvars)
      ensures ok <==> StatementsTy(old(env.bindings), stmts).Some?
      ensures ok ==> env.bindings == StatementsTy(old(env.bindings), stmts).value
      ensures ok ==> StatementsExact(old(cursor.builder.State()), cursor.Pos(), cursor.builder.State(),
                                     old(env.bindings), env.bindings, stmts, cursor.builder.tcx)
    {
      ghost var s0, b0, p, tcx := cursor.builder.State(), env.bindings, cursor.Pos(), cursor.builder.tcx;
      WorkedRefl(s0, p);
      NoStatementsExact(s0, p, b0, tcx);
      var i := 0;
      while i < |stmts|
        invariant 0 <= i <= |stmts|
        invariant cursor.WellFormed() && cursor.Pos() == p && Worked(s0, cursor.builder.State(), p)
        invariant EnvOk(env.bindings, cursor.Scope(), cursor.builder.kvars)
        invariant StatementsTy(b0, stmts[..i]) == Some(env.bindings)
        invariant StatementsExact(s0, p, cursor.builder.State(), b0, env.bindings, stmts[..i], tcx)
      {
        ghost var s1, b1 := cursor.builder.State(), env.bindings;
        StatementsNext(b0, b1, stmts, i);
        ok := CheckStatement(env, cursor, stmts[i]);
        WorkedTrans(s0, s1, cursor.builder.State(), p);
        if !ok {
          return;
        }
        StatementsExactStep(s0, s1, p, b0, b1, stmts, i, tcx);
        i := i + 1;
      }
      assert stmts[..i] == stmts;
      ok := true;
    }

    method CheckTerminator(env: TypeEnv, cursor: Cursor, bb: nat, t: Terminator, ghost path: set<nat>)
      returns (ok: bool)
      requires JoinFree(body) && WellTargeted(body) && Visiting(body, visited, bb) && AtEnd(body, bb, t)
      requires Closed(body, visited) && Ahead(body, visited, bb, 0)
      requires Ready(env, cursor)
      requires path <= visited && bb !in path
      modifies this`visited, env, cursor, cursor.builder
      ensures old(visited) <= visited && DescendsBelow(body, bb, visited - old(visited)) && Closed(body, visited)
      ensures Worked(old(cursor.builder.State()), cursor.builder.State(), old(cursor.Pos()))
      ensures ok <==> AcceptsEnd(body, Owed(), cursor.builder.tcx, old(env.bindings), bb, path)
      ensures ok ==> PointExact(old(cursor.builder.State()), old(cursor.Pos()), cursor.builder.State(),
                                old(env.bindings), body, bb, |body.blocks[bb].statements|, Owed(), cursor.builder.tcx)
      decreases Blocks(|body.blocks|) - visited, 8
    {
      ghost var s0, p0, b0, tcx := cursor.builder.State(), cursor.Pos(), env.bindings, cursor.builder.tcx;
      WorkedRefl(s0, p0);
      AcceptsOther(body, Owed(), tcx, b0, bb, path);
      match t {
        case Return =>
          ok := CheckReturn(env, cursor, bb);
        case Goto(target) =>
          ok := CheckJump(env, cursor, bb, target, path + {bb});
          if ok {
            GotoExact(s0, p0, cursor.builder.State(), b0, body, bb, target, Owed(), tcx);
          }
        case Drop(place, target) =>
          ok := CheckDrop(env, cursor, bb, place, target, path);
        case SwitchInt(discr, targets, otherwise) =>
          ok := CheckSwitchInt(env, cursor, bb, discr, targets, otherwise, path);
        case Call(_) =>
          ok := false;
      }
    }

    /** A dropped place is moved out of. */
    method CheckDrop(env: TypeEnv, cursor: Cursor, bb: nat, place: Place, target: nat, ghost path: set<nat>)
      returns (ok: bool)
      requires JoinFree(body) && WellTargeted(body) && Visiting(body, visited, bb) &&
               AtEnd(body, bb, Drop(place, target))
      requires Closed(body, visited) && Ahead(body, visited, bb, 0)
      requires Ready(env, cursor)
      requires path <= visited && bb !in path
      modifies this`visited, env, cursor, cursor.builder
      ensures old(visited) <= visited && DescendsBelow(body, bb, visited - old(visited)) && Closed(body, visited)
      ensures Worked(old(cursor.builder.State()), cursor.builder.State(), old(cursor.Pos()))
      ensures ok <==> AcceptsEnd(body, Owed(), cursor.builder.tcx, old(env.bindings), bb, path)
      ensures ok ==> PointExact(old(cursor.builder.State()), old(cursor.Pos()), cursor.builder.State(),
                                old(env.bindings), body, bb, |body.blocks[bb].statements|, Owed(), cursor.builder.tcx)
      decreases Blocks(|body.blocks|) - visited, 7
    {
      ghost var s0, p0, b0, tcx := cursor.builder.State(), cursor.Pos(), env.bindings, cursor.builder.tcx;
      WorkedRefl(s0, p0);
      AcceptsOther(body, Owed(), tcx, b0, bb, path);
      var ty := env.MovePlace(place.local, place.derefs);
      if ty.None? {
        return false;
      }
      ok := CheckJump(env, cursor, bb, target, path + {bb});
      if ok {
        DropExact(s0, p0, cursor.builder.State(), b0, body, bb, place, target, Owed(), tcx);
      }
    }

    /** Follow the only edge out of a block. */
    method CheckJump(env: TypeEnv, cursor: Cursor, bb: nat, target: nat, ghost path: set<nat>) returns (ok: bool)
      requires JoinFree(body) && WellTargeted(body) && Visiting(body, visited, bb) &&
               Successors(body.blocks[bb]) == [target]
      requires Closed(body, visited) && Ahead(body, visited, bb, 0)
      requires Ready(env, cursor)
      requires path <= visited
      modifies this`visited, env, cursor, cursor.builder
      ensures old(visited) <= visited && DescendsBelow(body, bb, visited - old(visited)) && Closed(body, visited)
      ensures Worked(old(cursor.builder.State()), cursor.builder.State(), old(cursor.Pos()))
      ensures ok <==> Accepts(body, Owed(), cursor.builder.tcx, old(env.bindings), target, path)
      ensures ok ==> PointExact(old(cursor.builder.State()), old(cursor.Pos()), cursor.builder.State(),
                                old(env.bindings), body, target, 0, Owed(), cursor.builder.tcx)
      decreases Blocks(|body.blocks|) - visited, 5
    {
      ghost var v0 := visited;
      EdgeEnterable(body, visited, bb, 0);
      ok := CheckGoto(env, cursor, target, path);
      NextAhead(body, v0, bb, 0, visited - v0);
    }

    method CheckReturn(env: TypeEnv, cursor: Cursor, bb: nat) returns (ok: bool)
      requires AtEnd(body, bb, Return) && Ready(env, cursor)
      modifies cursor.builder
      ensures Worked(old(cursor.builder.State()), cursor.builder.State(), cursor.Pos())
      ensures ok <==> Returnable(env.bindings, Owed(), cursor.builder.tcx)
      ensures ok ==> PointExact(old(cursor.builder.State()), cursor.Pos(), cursor.builder.State(), env.bindings,
                                body, bb, |body.blocks[bb].statements|, Owed(), cursor.builder.tcx)
    {
      ghost var s0, p, b, tcx := cursor.builder.State(), cursor.Pos(), env.bindings, cursor.builder.tcx;
      WorkedRefl(s0, p);
      var actual := env.LookupLoc(Local(0));
      if actual.None? {
        return false;
      }
      ok := cursor.Subtyping(actual.value, retTy);
      if !ok {
        return;
      }
      ReturnExactFirst(s0, p, cursor.builder.State(), b, Owed(), tcx);
      ok := CheckEnsured(env, cursor, s0);
      if ok {
        ReturnExactLast(s0, p, cursor.builder.State(), b, body, bb, Owed(), tcx);
      }
    }

    /** The loop over the ensured cells, after the result. */
    method CheckEnsured(env: TypeEnv, cursor: Cursor, ghost s0: Position.State) returns (ok: bool)
      requires Ready(env, cursor) && At(s0, cursor.Pos()) && Worked(s0, cursor.builder.State(), cursor.Pos())
      requires ReturnExact(s0, cursor.Pos(), cursor.builder.State(), env.bindings, Owed(), 0, cursor.builder.tcx)
      modifies cursor.builder
      ensures Worked(s0, cursor.builder.State(), cursor.Pos())
      ensures !ok ==> !Returnable(env.bindings, Owed(), cursor.builder.tcx)
      ensures ok ==> ReturnExact(s0, cursor.Pos(), cursor.builder.State(), env.bindings, Owed(), |ensured|,
                                 cursor.builder.tcx)
    {
      ghost var p, b, tcx := cursor.Pos(), env.bindings, cursor.builder.tcx;
      var i := 0;
      while i < |ensured|
        invariant 0 <= i <= |ensured|
        invariant Ready(env, cursor) && Worked(s0, cursor.builder.State(), p)
        invariant ReturnExact(s0, p, cursor.builder.State(), b, Owed(), i, tcx)
      {
        ghost var s1 := cursor.builder.State();
        var ty := env.LookupLoc(ensured[i].0);
        assert EnsuredAccepted(b, ensured[i], tcx) <==> ty.Some? && Compatible(ty.value, ensured[i].1, tcx);
        if ty.None? {
          return false;
        }
        ok := cursor.Subtyping(ty.value, ensured[i].1);
        WorkedTrans(s0, s1, cursor.builder.State(), p);
        if !ok {
          return;
        }
        ReturnExactNext(s0, s1, p, cursor.builder.State(), b, Owed(), i, tcx);
        i := i + 1;
      }
      ok := true;
    }

    method CheckSwitchInt(env: TypeEnv, cursor: Cursor, bb: nat, discr: Operand, targets: seq<(nat, nat)>,
                          otherwise: nat, ghost path: set<nat>) returns (ok: bool)
      requires JoinFree(body) && WellTargeted(body) && Visiting(body, visited, bb) &&
               AtEnd(body, bb, SwitchInt(discr, targets, otherwise))
      requires Closed(body, visited) && Ahead(body, visited, bb, 0)
      requires Ready(env, cursor)
      requires path <= visited && bb !in path
      modifies this`visited, env, cursor, cursor.builder
      ensures old(visited) <= visited && DescendsBelow(body, bb, visited - old(visited)) && Closed(body, visited)
      ensures Worked(old(cursor.builder.State()), cursor.builder.State(), old(cursor.Pos()))
      ensures ok <==> AcceptsEnd(body, Owed(), cursor.builder.tcx, old(env.bindings), bb, path)
      ensures ok ==> PointExact(old(cursor.builder.State()), old(cursor.Pos()), cursor.builder.State(),
                                old(env.bindings), body, bb, |body.blocks[bb].statements|, Owed(), cursor.builder.tcx)
      decreases Blocks(|body.blocks|) - visited, 7
    {
      ghost var s0, p, b0, tcx := cursor.builder.State(), cursor.Pos(), env.bindings, cursor.builder.tcx;
      WorkedRefl(s0, p);
      AcceptsSwitch(body, Owed(), tcx, b0, bb, path, discr, targets, otherwise);
      var r := CheckOperand(env, discr, cursor.Scope(), cursor.builder.kvars, tcx);
      if r.None? || !Discriminates(r.value, targets) {
        return false;
      }
      ok := CheckCases(env, cursor, bb, targets, otherwise, r.value, path + {bb});
      if ok {
        SwitchExact(s0, p, cursor.builder.State(), b0, body, bb, discr, targets, otherwise, Owed(), tcx);
      }
    }

    /** The targets, then the remaining case. */
    method CheckCases(env: TypeEnv, cursor: Cursor, bb: nat, targets: seq<(nat, nat)>, otherwise: nat, ty: Ty,
                      ghost path: set<nat>)
      returns (ok: bool)
      requires JoinFree(body) && WellTargeted(body) && Visiting(body, visited, bb)
      requires Successors(body.blocks[bb]) == SwitchSuccessors(targets) + [otherwise]
      requires Closed(body, visited) && Ahead(body, visited, bb, 0)
      requires Ready(env, cursor) && Discriminates(ty, targets) && WfTy(ty, cursor.Scope(), cursor.builder.kvars)
      requires path <= visited
      modifies this`visited, env, cursor.builder
      ensures old(visited) <= visited && DescendsBelow(body, bb, visited - old(visited)) && Closed(body, visited)
      ensures Worked(old(cursor.builder.State()), cursor.builder.State(), cursor.Pos())
      ensures ok <==> AcceptsTargets(body, Owed(), cursor.builder.tcx, old(env.bindings), targets, path) &&
                      Accepts(body, Owed(), cursor.builder.tcx, old(env.bindings), otherwise, path)
      ensures ok ==> CasesExact(old(cursor.builder.State()), cursor.Pos(), cursor.builder.State(), ty, targets,
                                otherwise, old(env.bindings), body, Owed(), cursor.builder.tcx)
      decreases Blocks(|body.blocks|) - visited, 6
    {
      ghost var s0, p, b, v0, tcx := cursor.builder.State(), cursor.Pos(), env.bindings, visited, cursor.builder.tcx;
      ok := CheckTargets(env, cursor, bb, targets, ty, path);
      if !ok {
        return;
      }
      ghost var s1 := cursor.builder.State();
      ok := CheckLast(env, cursor, bb, targets, otherwise, ty, path, v0);
      WorkedTrans(s0, s1, cursor.builder.State(), p);
      if ok {
        CasesExactOf(s0, s1, p, cursor.builder.State(), ty, targets, otherwise, b, body, Owed(), tcx);
      }
    }

    /** The loop over the targets of a switch, each explored through a snapshot of the cursor. */
    method CheckTargets(env: TypeEnv, cursor: Cursor, bb: nat, targets: seq<(nat, nat)>, ty: Ty, ghost path: set<nat>)
      returns (ok: bool)
      requires JoinFree(body) && WellTargeted(body) && Visiting(body, visited, bb)
      requires SwitchSuccessors(targets) <= Successors(body.blocks[bb])
      requires Closed(body, visited) && Ahead(body, visited, bb, 0)
      requires Ready(env, cursor) && Discriminates(ty, targets) && WfTy(ty, cursor.Scope(), cursor.builder.kvars)
      requires path <= visited
      modifies this`visited, cursor.builder
      ensures old(visited) <= visited && DescendsBelow(body, bb, visited - old(visited)) && Closed(body, visited)
      ensures Worked(old(cursor.builder.State()), cursor.builder.State(), cursor.Pos()) && Ready(env, cursor)
      ensures ok <==> AcceptsTargets(body, Owed(), cursor.builder.tcx, env.bindings, targets, path)
      ensures ok ==> Ahead(body, visited, bb, |targets|)
      ensures ok ==> TargetsExact(old(cursor.builder.State()), cursor.Pos(), cursor.builder.State(), ty, targets,
                                  env.bindings, body, Owed(), cursor.builder.tcx)
      decreases Blocks(|body.blocks|) - visited, 5
    {
      ghost var s0, p, b, v0, tcx := cursor.builder.State(), cursor.Pos(), env.bindings, visited, cursor.builder.tcx;
      WorkedRefl(s0, p);
      NoTargetsExact(s0, p, ty, b, body, Owed(), tcx);
      var i := 0;
      while i < |targets|
        invariant 0 <= i <= |targets|
        invariant Ready(env, cursor) && Worked(s0, cursor.builder.State(), p)
        invariant v0 <= visited && Closed(body, visited) && Ahead(body, visited, bb, i)
        invariant DescendsBelow(body, bb, visited - v0)
        invariant AcceptsTargets(body, Owed(), tcx, b, targets[..i], path)
        invariant TargetsExact(s0, p, cursor.builder.State(), ty, targets[..i], b, body, Owed(), tcx)
      {
        ghost var s1 := cursor.builder.State();
        ok := CheckTarget(env, cursor, bb, targets, i, ty, path, v0);
        WorkedTrans(s0, s1, cursor.builder.State(), p);
        AcceptsNext(body, Owed(), tcx, b, targets, i, path);
        if !ok {
          return;
        }
        TargetsExactStep(s0, s1, p, cursor.builder.State(), ty, targets, i, b, body, Owed(), tcx);
        i := i + 1;
      }
      assert targets[..i] == targets;
      ok := true;
    }

    /** One target, below its guard, with a copy of the environment. */
    method CheckTarget(env: TypeEnv, cursor: Cursor, bb: nat, targets: seq<(nat, nat)>, i: nat, ty: Ty,
                       ghost path: set<nat>, ghost v0: set<nat>) returns (ok: bool)
      requires JoinFree(body) && WellTargeted(body) && Visiting(body, visited, bb)
      requires i < |targets| && SwitchSuccessors(targets) <= Successors(body.blocks[bb])
      requires v0 <= visited && Closed(body, visited) && Ahead(body, visited, bb, i) &&
               DescendsBelow(body, bb, visited - v0)
      requires Ready(env, cursor) && Switchable(ty) && WfTy(ty, cursor.Scope(), cursor.builder.kvars)
      requires path <= visited
      modifies this`visited, cursor.builder
      ensures old(visited) <= visited && Closed(body, visited) && Ahead(body, visited, bb, i + 1) &&
              DescendsBelow(body, bb, visited - v0)
      ensures Ready(env, cursor) && Worked(old(cursor.builder.State()), cursor.builder.State(), cursor.Pos())
      ensures ok <==> Accepts(body, Owed(), cursor.builder.tcx, env.bindings, targets[i].1, path)
      ensures ok ==> GuardedExact(old(cursor.builder.State()), cursor.Pos(), cursor.builder.State(),
                                  TargetGuard(ty, targets[i].0), env.bindings, body, targets[i].1, Owed(),
                                  cursor.builder.tcx)
      decreases Blocks(|body.blocks|) - visited, 4
    {
      ghost var v1 := visited;
      assert Successors(body.blocks[bb])[i] == SwitchSuccessors(targets)[i] == targets[i].1;
      EdgeEnterable(body, visited, bb, i);
      TargetGuardWf(ty, targets[i].0, cursor.Scope(), cursor.builder.kvars);
      ok := CheckGuarded(env, cursor, TargetGuard(ty, targets[i].0), targets[i].1, path);
      NextVisited(body, v0, v1, visited, bb, i);
    }

    /** The remaining case, by the last edge out of the block. */
    method CheckLast(env: TypeEnv, cursor: Cursor, bb: nat, targets: seq<(nat, nat)>, otherwise: nat, ty: Ty,
                     ghost path: set<nat>, ghost v0: set<nat>) returns (ok: bool)
      requires JoinFree(body) && WellTargeted(body) && Visiting(body, visited, bb)
      requires Successors(body.blocks[bb]) == SwitchSuccessors(targets) + [otherwise]
      requires v0 <= visited && Closed(body, visited) && Ahead(body, visited, bb, |targets|) &&
               DescendsBelow(body, bb, visited - v0)
      requires Ready(env, cursor) && Discriminates(ty, targets) && WfTy(ty, cursor.Scope(), cursor.builder.kvars)
      requires path <= visited
      modifies this`visited, env, cursor.builder
      ensures old(visited) <= visited && DescendsBelow(body, bb, visited - v0) && Closed(body, visited)
      ensures Worked(old(cursor.builder.State()), cursor.builder.State(), cursor.Pos())
      ensures ok <==> Accepts(body, Owed(), cursor.builder.tcx, old(env.bindings), otherwise, path)
      ensures ok ==> GuardedExact(old(cursor.builder.State()), cursor.Pos(), cursor.builder.State(),
                                  OtherwiseGuardOf(ty, targets), old(env.bindings), body, otherwise, Owed(),
                                  cursor.builder.tcx)
      decreases Blocks(|body.blocks|) - visited, 5
    {
      ghost var v1 := visited;
      assert Successors(body.blocks[bb])[|targets|] == otherwise;
      EdgeEnterable(body, visited, bb, |targets|);
      ok := CheckOtherwise(env, cursor, targets, otherwise, ty, path);
      NextVisited(body, v0, v1, visited, bb, |targets|);
    }

    /** Without targets there is nothing to guard. */
    method CheckOtherwise(env: TypeEnv, cursor: Cursor, targets: seq<(nat, nat)>, otherwise: nat, ty: Ty,
                          ghost path: set<nat>) returns (ok: bool)
      requires JoinFree(body) && WellTargeted(body) && Enterable(body, visited, otherwise)
      requires Ready(env, cursor) && Discriminates(ty, targets) && WfTy(ty, cursor.Scope(), cursor.builder.kvars)
      requires path <= visited
      modifies this`visited, env, cursor.builder
      ensures old(visited) <= visited && otherwise in visited &&
              DescendsFrom(body, otherwise, visited - old(visited)) && Closed(body, visited)
      ensures Worked(old(cursor.builder.State()), cursor.builder.State(), cursor.Pos())
      ensures ok <==> Accepts(body, Owed(), cursor.builder.tcx, old(env.bindings), otherwise, path)
      ensures ok ==> GuardedExact(old(cursor.builder.State()), cursor.Pos(), cursor.builder.State(),
                                  OtherwiseGuardOf(ty, targets), old(env.bindings), body, otherwise, Owed(),
                                  cursor.builder.tcx)
      decreases Blocks(|body.blocks|) - visited, 4
    {
      if targets != [] {
        OtherwiseGuardWf(ty, targets, cursor.Scope(), cursor.builder.kvars);
        ok := CheckGuarded(env, cursor, OtherwiseGuard(ty, targets), otherwise, path);
      } else {
        ghost var s0, p, b := cursor.builder.State(), cursor.Pos(), env.bindings;
        KeepsRefl(s0, p);
        var c := cursor.Snapshot();
        ok := CheckGoto(env, c, otherwise, path);
        if ok {
          UnguardedExact(s0, p, cursor.builder.State(), b, body, otherwise, Owed(), cursor.builder.tcx);
        }
      }
    }

    method CheckGuarded(env: TypeEnv, cursor: Cursor, guard: Expr, target: nat, ghost path: set<nat>) returns (ok: bool)
      requires JoinFree(body) && WellTargeted(body) && Enterable(body, visited, target)
      requires Ready(env, cursor) && SortOf(guard, cursor.Scope(), None) == Some(Sort.Bool)
      requires path <= visited
      modifies this`visited, cursor.builder
      ensures old(visited) <= visited && target in visited && DescendsFrom(body, target, visited - old(visited)) &&
              Closed(body, visited)
      ensures Ready(env, cursor) && Worked(old(cursor.builder.State()), cursor.builder.State(), cursor.Pos())
      ensures ok <==> Accepts(body, Owed(), cursor.builder.tcx, env.bindings, target, path)
      ensures ok ==> GuardedExact(old(cursor.builder.State()), cursor.Pos(), cursor.builder.State(), guard,
                                  env.bindings, body, target, Owed(), cursor.builder.tcx)
      decreases Blocks(|body.blocks|) - visited, 3
    {
      ghost var s0, p := cursor.builder.State(), cursor.Pos();
      var c := GuardedCursor(cursor, guard);
      var e := env.Clone();
      ok := CheckGoto(e, c, target, path);
      GuardedWork(s0, p, guard, cursor.builder.State());
      if ok {
        UnderGuardExact(s0, p, guard, cursor.builder.State(), env.bindings, body, target, Owed(), cursor.builder.tcx);
      }
    }

    /** A snapshot below a guard. */
    method GuardedCursor(cursor: Cursor, guard: Expr) returns (c: Cursor)
      requires cursor.WellFormed() && SortOf(guard, cursor.Scope(), None) == Some(Sort.Bool)
      modifies cursor.builder
      ensures fresh(c) && c.builder == cursor.builder && c.WellFormed() && c.Scope() == old(cursor.Scope())
      ensures cursor.Pos() == old(cursor.Pos()) && cursor.builder.kvars == old(cursor.builder.kvars)
      ensures var s0, m := old(cursor.builder.State()), Guard(guard, []);
              && c.builder.State() == PushState(s0, cursor.Pos(), m) && c.Pos() == PushPos(s0, cursor.Pos(), m)
              && At(c.builder.State(), c.Pos())
    {
      ghost var s0, p := cursor.builder.State(), cursor.Pos();
      PushWfState(s0, p, Guard(guard, []));
      PushAt(s0, p, Guard(guard, []));
      c := cursor.Snapshot();
      c.PushGuard(guard);
    }

    /** Without join points a jump continues with the target. */
    method CheckGoto(env: TypeEnv, cursor: Cursor, target: nat, ghost path: set<nat>) returns (ok: bool)
      requires JoinFree(body) && WellTargeted(body) && Enterable(body, visited, target)
      requires Ready(env, cursor)
      requires path <= visited
      modifies this`visited, env, cursor, cursor.builder
      ensures old(visited) <= visited && target in visited && DescendsFrom(body, target, visited - old(visited)) &&
              Closed(body, visited)
      ensures Worked(old(cursor.builder.State()), cursor.builder.State(), old(cursor.Pos()))
      ensures ok <==> Accepts(body, Owed(), cursor.builder.tcx, old(env.bindings), target, path)
      ensures ok ==> PointExact(old(cursor.builder.State()), old(cursor.Pos()), cursor.builder.State(),
                                old(env.bindings), body, target, 0, Owed(), cursor.builder.tcx)
      decreases Blocks(|body.blocks|) - visited, 2
    {
      ok := CheckBasicBlock(env, cursor, target, path);
    }
  }
}
