/** The plain types below the refinements, a type checker for them, and why refinements neither change the
    types of a program nor make the checker reject it. */
module Erasure {
  import opened Logic
  import opened Types
  import opened Environment
  import opened Subtyping
  import opened Mir
  import opened Rules
  import opened Visit
  import opened Acceptance
  import opened Necessity
  import opened Lowering
  import opened Joins
  import opened Obligations
  import TypeEnvs
  import C = Core

  /** Types as the compiler knows them; a reference to a named location is exact. */
  datatype Plain =
    | PInt(ity: IntTy)
    | PUint(uty: UintTy)
    | PBool
    | PData(did: nat, args: seq<Plain>)
    | PPointer(loc: Loc)
    | PShared(of: Plain)
    | PParam(param: nat)
    | PUninit

  type PlainEnv = map<Loc, Plain>

  function Erase(ty: Ty): Plain
    decreases ty
  {
    match ty
    case Refine(b, _) => EraseBase(b)
    case Exists(b, _) => EraseBase(b)
    case Uninit => PUninit
    case StrgRef(loc) => PPointer(loc)
    case Ref(t) => PShared(Erase(t))
    case Param(i) => PParam(i)
  }

  function EraseBase(b: BaseTy): Plain
    decreases b
  {
    match b
    case Int(i) => PInt(i)
    case Uint(u) => PUint(u)
    case Bool => PBool
    case Adt(did, substs) => PData(did, seq(|substs|, i requires 0 <= i < |substs| => Erase(substs[i])))
  }

  function EraseEnv(b: Bindings): PlainEnv {
    map loc | loc in b :: Erase(BindingTy(b[loc]))
  }

  // ----- signatures -----

  /** The plain type the programmer wrote. */
  function Declared(ty: C.Ty, locs: map<Name, Loc>): Plain
    requires forall x :: x in Regions(ty) ==> x in locs
    decreases ty
  {
    match ty
    case Refine(b, _) => DeclaredBase(b, locs)
    case Exists(b, _) => DeclaredBase(b, locs)
    case MutRef(x) => PPointer(locs[x])
    case Param(i) => PParam(i)
  }

  function DeclaredBase(b: C.BaseTy, locs: map<Name, Loc>): Plain
    requires forall x :: x in RegionsBase(b) ==> x in locs
    decreases b
  {
    match b
    case Int(i) => PInt(i)
    case Uint(u) => PUint(u)
    case Bool => PBool
    case Adt(did, substs) => PData(did, seq(|substs|, i requires 0 <= i < |substs| => Declared(substs[i], locs)))
  }

  function Regions(ty: C.Ty): set<Name>
    decreases ty
  {
    match ty
    case Refine(b, _) => RegionsBase(b)
    case Exists(b, _) => RegionsBase(b)
    case MutRef(x) => {x}
    case Param(_) => {}
  }

  function RegionsBase(b: C.BaseTy): set<Name>
    decreases b
  {
    if b.Adt? then set i, x | 0 <= i < |b.substs| && x in Regions(b.substs[i]) :: x else {}
  }

  lemma {:induction false} LowerableRegions(ty: C.Ty, exprs: map<Name, Expr>, locs: map<Name, Loc>)
    requires Lowerable(ty, exprs, locs)
    ensures forall x :: x in Regions(ty) ==> x in locs
    decreases ty
  {
    if ty.Refine? || ty.Exists? {
      LowerableBaseRegions(ty.bty, exprs, locs);
    }
  }

  lemma {:induction false} LowerableBaseRegions(b: C.BaseTy, exprs: map<Name, Expr>, locs: map<Name, Loc>)
    requires LowerableBase(b, exprs, locs)
    ensures forall x :: x in RegionsBase(b) ==> x in locs
    decreases b
  {
    if b.Adt? {
      forall i | 0 <= i < |b.substs| ensures forall x :: x in Regions(b.substs[i]) ==> x in locs {
        LowerableRegions(b.substs[i], exprs, locs);
      }
    }
  }

  /** Lowering keeps the plain type. */
  lemma {:induction false} LowerErased(ty: C.Ty, exprs: map<Name, Expr>, locs: map<Name, Loc>)
    requires Lowerable(ty, exprs, locs)
    ensures forall x :: x in Regions(ty) ==> x in locs
    ensures Erase(LowerTy(ty, exprs, locs)) == Declared(ty, locs)
    decreases ty
  {
    LowerableRegions(ty, exprs, locs);
    if ty.Refine? || ty.Exists? {
      LowerBaseErased(ty.bty, exprs, locs);
    }
  }

  lemma {:induction false} LowerBaseErased(b: C.BaseTy, exprs: map<Name, Expr>, locs: map<Name, Loc>)
    requires LowerableBase(b, exprs, locs)
    ensures forall x :: x in RegionsBase(b) ==> x in locs
    ensures EraseBase(LowerBaseTy(b, exprs, locs)) == DeclaredBase(b, locs)
    decreases b
  {
    LowerableBaseRegions(b, exprs, locs);
    if b.Adt? {
      forall i | 0 <= i < |b.substs| ensures Erase(LowerTy(b.substs[i], exprs, locs)) == Declared(b.substs[i], locs) {
        LowerErased(b.substs[i], exprs, locs);
      }
    }
  }

  // ----- a type checker for plain types -----

  function PlainLit(lit: Literal): Plain {
    match lit
    case IntLit(_, ity) => PInt(ity)
    case UintLit(_, uty) => PUint(uty)
    case BoolLit(_) => PBool
  }

  /** Arithmetic and comparison of integers of one type, and equality of any scalars of one type. */
  function PlainOp(op: Op, r1: Plain, r2: Plain): Option<Plain> {
    match (r1, r2)
    case (PInt(a), PInt(b)) => if a == b then Some(PlainResult(op, r1)) else None
    case (PUint(a), PUint(b)) => if a == b then Some(PlainResult(op, r1)) else None
    case (PBool, PBool) => if op == OpEq || op == OpNe then Some(PBool) else None
    case _ => None
  }

  function PlainResult(op: Op, r: Plain): Plain {
    match op
    case OpAdd => r
    case OpSub => r
    case OpMul => r
    case OpDiv => r
    case OpGt => PBool
    case OpLt => PBool
    case OpLe => PBool
    case OpEq => PBool
    case OpNe => PBool
  }

  /** `!` on booleans, `-` on signed integers. */
  function PlainOp1(op: Op1, r: Plain): Option<Plain> {
    match (op, r)
    case (OpNot, PBool) => Some(PBool)
    case (OpNeg, PInt(_)) => Some(r)
    case _ => None
  }

  /** Following pointers. */
  function Follow(g: PlainEnv, loc: Loc, n: nat): Option<Loc>
    decreases n
  {
    if loc !in g then None
    else if n == 0 then Some(loc)
    else if g[loc].PPointer? then Follow(g, g[loc].loc, n - 1)
    else None
  }

  function PlainOperand(g: PlainEnv, op: Operand): Option<(Plain, PlainEnv)> {
    match op
    case Constant(lit) => Some((PlainLit(lit), g))
    case Copy(place) =>
      (match Follow(g, Local(place.local), place.derefs)
       case Some(loc) => if loc in g then Some((g[loc], g)) else None
       case None => None)
    case Move(place) =>
      var loc := Local(place.local);
      if place.derefs == 0 && loc in g then Some((g[loc], g[loc := PUninit])) else None
  }

  function PlainRvalue(g: PlainEnv, rvalue: Rvalue): Option<(Plain, PlainEnv)> {
    match rvalue
    case Use(op) => PlainOperand(g, op)
    case MutRef(place) =>
      (match Follow(g, Local(place.local), place.derefs)
       case Some(loc) => Some((PPointer(loc), g))
       case None => None)
    case Unary(uop, op) =>
      (match PlainOperand(g, op)
       case Some((r, g1)) =>
         (match PlainOp1(uop, r)
          case Some(r1) => Some((r1, g1))
          case None => None)
       case None => None)
    case Binary(bop, op1, op2) =>
      (match PlainOperand(g, op1)
       case Some((r1, g1)) =>
         (match PlainOperand(g1, op2)
          case Some((r2, g2)) =>
            (match PlainOp(bop, r1, r2)
             case Some(r) => Some((r, g2))
             case None => None)
          case None => None)
       case None => None)
  }

  function PlainStatement(g: PlainEnv, stmt: Statement): Option<PlainEnv> {
    match stmt
    case Nop => Some(g)
    case Assign(place, rvalue) =>
      match PlainRvalue(g, rvalue)
      case Some((r, g1)) =>
        (match Follow(g1, Local(place.local), place.derefs)
         case Some(loc) => Some(g1[loc := r])
         case None => None)
      case None => None
  }

  function PlainStatements(g: PlainEnv, stmts: seq<Statement>): Option<PlainEnv> {
    if stmts == [] then Some(g)
    else
      match PlainStatements(g, stmts[..|stmts| - 1])
      case Some(g1) => PlainStatement(g1, stmts[|stmts| - 1])
      case None => None
  }

  /** A value of the first type may be left where the second is expected. */
  predicate PlainFits(r1: Plain, r2: Plain) {
    r2.PUninit? || r1 == r2
  }

  datatype PlainDuty = PlainDuty(ret: Plain, ensured: seq<(Loc, Plain)>)

  ghost predicate PlainReturn(g: PlainEnv, d: PlainDuty) {
    && Local(0) in g && PlainFits(g[Local(0)], d.ret)
    && forall i :: 0 <= i < |d.ensured| ==> d.ensured[i].0 in g && PlainFits(g[d.ensured[i].0], d.ensured[i].1)
  }

  /** The body is well-typed from the start of a block on; no block is met twice. */
  ghost predicate WellTyped(body: Body, d: PlainDuty, g: PlainEnv, bb: nat, path: set<nat>)
    decreases Blocks(|body.blocks|) - path, 1
  {
    && bb < |body.blocks| && bb !in path
    && PlainStatements(g, body.blocks[bb].statements).Some?
    && WellTypedEnd(body, d, PlainStatements(g, body.blocks[bb].statements).value, bb, path)
  }

  ghost predicate WellTypedEnd(body: Body, d: PlainDuty, g: PlainEnv, bb: nat, path: set<nat>)
    requires bb < |body.blocks| && bb !in path
    decreases Blocks(|body.blocks|) - path, 0
  {
    match body.blocks[bb].terminator
    case None => true
    case Some(Return) => PlainReturn(g, d)
    case Some(Goto(target)) => WellTyped(body, d, g, target, path + {bb})
    case Some(Drop(place, target)) =>
      && PlainOperand(g, Move(place)).Some?
      && WellTyped(body, d, PlainOperand(g, Move(place)).value.1, target, path + {bb})
    case Some(Call(_)) => false
    case Some(SwitchInt(discr, targets, otherwise)) =>
      PlainOperand(g, discr).Some? &&
      var (r, g1) := PlainOperand(g, discr).value;
      && (targets == [] || IsScalar(r))
      && (forall i | 0 <= i < |targets| :: WellTyped(body, d, g1, targets[i].1, path + {bb}))
      && WellTyped(body, d, g1, otherwise, path + {bb})
  }

  predicate IsScalar(r: Plain) {
    r.PInt? || r.PUint? || r.PBool?
  }

  // ----- refinements make no difference -----

  /** A type as it is after unpacking. */
  predicate Open(ty: Ty) {
    ty.Uninit? || ty.StrgRef? || ty.Param? || (ty.Refine? && RefFreeBase(ty.bty))
  }

  predicate OpenEnv(b: Bindings) {
    forall loc :: loc in b ==> b[loc].Strong? && Open(b[loc].sty)
  }

  lemma ScalarOpen(b: Bindings)
    requires ScalarEnv(b)
    ensures OpenEnv(b)
  {
    forall loc | loc in b ensures Open(b[loc].sty) {
      if b[loc].sty.Refine? { assert RefFreeBase(b[loc].sty.bty); }
    }
  }

  /** Scalars, or operands that are well-typed without refinements. */
  lemma OpErased(op: Op, t1: Ty, t2: Ty)
    requires Open(t1) && Open(t2) && ((ScalarTy(t1) && ScalarTy(t2)) || PlainOp(op, Erase(t1), Erase(t2)).Some?)
    ensures OpAccepts(op, t1, t2) <==> PlainOp(op, Erase(t1), Erase(t2)).Some?
    ensures OpAccepts(op, t1, t2) ==>
              Erase(OpTy(op, t1, t2)) == PlainOp(op, Erase(t1), Erase(t2)).value && Open(OpTy(op, t1, t2))
  {
  }

  lemma Op1Erased(op: Op1, t: Ty)
    requires Open(t) && (ScalarTy(t) || PlainOp1(op, Erase(t)).Some?)
    ensures Op1Accepts(op, t) <==> PlainOp1(op, Erase(t)).Some?
    ensures Op1Accepts(op, t) ==> Erase(Op1Ty(op, t)) == PlainOp1(op, Erase(t)).value && Open(Op1Ty(op, t))
  {
  }

  lemma KindErased(ty: Ty)
    ensures ty.Refine? || ty.Exists? <==> IsScalar(Erase(ty)) || Erase(ty).PData?
  {
    if ty.Refine? || ty.Exists? { assert IsScalar(EraseBase(ty.bty)) || EraseBase(ty.bty).PData?; }
  }

  lemma PointerErased(ty: Ty)
    ensures Erase(ty).PPointer? <==> ty.StrgRef?
    ensures ty.StrgRef? ==> Erase(ty).loc == ty.loc
  {
    if ty.Refine? || ty.Exists? { assert !EraseBase(ty.bty).PPointer?; }
  }

  lemma {:induction false} WalkErased(b: Bindings, loc: Loc, n: nat)
    ensures Follow(EraseEnv(b), loc, n) == Walk(b, loc, n)
    decreases n
  {
    if n > 0 && loc in b {
      PointerErased(BindingTy(b[loc]));
      if BindingTy(b[loc]).StrgRef? { WalkErased(b, BindingTy(b[loc]).loc, n - 1); }
    }
  }

  lemma InsertErased(b: Bindings, loc: Loc, ty: Ty)
    ensures EraseEnv(b[loc := Strong(ty)]) == EraseEnv(b)[loc := Erase(ty)]
  {
  }

  /** The rules and the plain checker agree on an operand. */
  ghost predicate OperandAgrees(b: Bindings, op: Operand) {
    match OperandTy(b, op)
    case Some(t) => PlainOperand(EraseEnv(b), op) == Some((Erase(t.ty), EraseEnv(t.after)))
    case None => PlainOperand(EraseEnv(b), op) == None
  }

  ghost predicate RvalueAgrees(b: Bindings, rvalue: Rvalue) {
    match RvalueTy(b, rvalue)
    case Some(t) => PlainRvalue(EraseEnv(b), rvalue) == Some((Erase(t.ty), EraseEnv(t.after)))
    case None => PlainRvalue(EraseEnv(b), rvalue) == None
  }

  ghost predicate StatementAgrees(b: Bindings, stmt: Statement) {
    match StatementTy(b, stmt)
    case Some(b1) => PlainStatement(EraseEnv(b), stmt) == Some(EraseEnv(b1))
    case None => PlainStatement(EraseEnv(b), stmt) == None
  }

  ghost predicate StatementsAgree(b: Bindings, stmts: seq<Statement>) {
    match StatementsTy(b, stmts)
    case Some(b1) => PlainStatements(EraseEnv(b), stmts) == Some(EraseEnv(b1))
    case None => PlainStatements(EraseEnv(b), stmts) == None
  }

  lemma OperandErased(b: Bindings, op: Operand)
    ensures OperandAgrees(b, op)
    ensures OpenEnv(b) && OperandTy(b, op).Some? ==>
              Open(OperandTy(b, op).value.ty) && OpenEnv(OperandTy(b, op).value.after)
  {
    match op
    case Constant(_) =>
    case Copy(place) => WalkErased(b, Local(place.local), place.derefs);
    case Move(place) => InsertErased(b, Local(place.local), Uninit);
  }

  lemma RvalueErased(b: Bindings, rvalue: Rvalue)
    requires OpenEnv(b) && (ScalarEnv(b) || PlainRvalue(EraseEnv(b), rvalue).Some?)
    ensures RvalueAgrees(b, rvalue)
    ensures RvalueTy(b, rvalue).Some? ==> Open(RvalueTy(b, rvalue).value.ty) && OpenEnv(RvalueTy(b, rvalue).value.after)
  {
    match rvalue
    case Use(op) => OperandErased(b, op);
    case MutRef(place) => WalkErased(b, Local(place.local), place.derefs);
    case Unary(uop, op) =>
      OperandErased(b, op);
      if OperandTy(b, op).Some? {
        if ScalarEnv(b) { OperandScalar(b, op); }
        Op1Erased(uop, OperandTy(b, op).value.ty);
      }
    case Binary(bop, op1, op2) => BinaryErased(b, bop, op1, op2);
  }

  lemma BinaryErased(b: Bindings, bop: Op, op1: Operand, op2: Operand)
    requires OpenEnv(b) && (ScalarEnv(b) || PlainRvalue(EraseEnv(b), Binary(bop, op1, op2)).Some?)
    ensures var rvalue := Binary(bop, op1, op2);
            && RvalueAgrees(b, rvalue)
            && (RvalueTy(b, rvalue).Some? ==>
                  Open(RvalueTy(b, rvalue).value.ty) && OpenEnv(RvalueTy(b, rvalue).value.after))
  {
    OperandErased(b, op1);
    if OperandTy(b, op1).Some? {
      var t1 := OperandTy(b, op1).value;
      OperandErased(t1.after, op2);
      if OperandTy(t1.after, op2).Some? {
        if ScalarEnv(b) {
          OperandScalar(b, op1);
          OperandScalar(t1.after, op2);
        }
        OpErased(bop, t1.ty, OperandTy(t1.after, op2).value.ty);
      }
    }
  }

  lemma StatementErased(b: Bindings, stmt: Statement)
    requires OpenEnv(b) && (ScalarEnv(b) || PlainStatement(EraseEnv(b), stmt).Some?)
    ensures StatementAgrees(b, stmt)
    ensures StatementTy(b, stmt).Some? ==> OpenEnv(StatementTy(b, stmt).value)
  {
    if stmt.Assign? {
      RvalueErased(b, stmt.rvalue);
      if RvalueTy(b, stmt.rvalue).Some? {
        var t := RvalueTy(b, stmt.rvalue).value;
        WalkErased(t.after, Local(stmt.place.local), stmt.place.derefs);
        if Walk(t.after, Local(stmt.place.local), stmt.place.derefs).Some? {
          TypeEnvs.WalkBound(t.after, Local(stmt.place.local), stmt.place.derefs);
          InsertErased(t.after, Walk(t.after, Local(stmt.place.local), stmt.place.derefs).value, t.ty);
        }
      }
    }
  }

  lemma {:induction false} StatementsErased(b: Bindings, stmts: seq<Statement>)
    requires OpenEnv(b) && (ScalarEnv(b) || PlainStatements(EraseEnv(b), stmts).Some?)
    ensures StatementsAgree(b, stmts)
    ensures StatementsTy(b, stmts).Some? ==> OpenEnv(StatementsTy(b, stmts).value)
  {
    if stmts != [] {
      var init := stmts[..|stmts| - 1];
      StatementsErased(b, init);
      if StatementsTy(b, init).Some? {
        if ScalarEnv(b) { StatementsScalar(b, init); }
        StatementErased(StatementsTy(b, init).value, stmts[|stmts| - 1]);
      }
    }
  }

  function EraseDuty(d: Duty): PlainDuty {
    PlainDuty(Erase(d.ret), seq(|d.ensured|, i requires 0 <= i < |d.ensured| =>
                                  (d.ensured[i].0, Erase(d.ensured[i].1))))
  }

  ghost predicate RefFreeDuty(d: Duty) {
    RefFree(d.ret) && forall i :: 0 <= i < |d.ensured| ==> RefFree(d.ensured[i].1)
  }

  lemma CompatibleErased(t1: Ty, t2: Ty, tcx: Variances)
    requires Open(t1) && RefFree(t2) && (ScalarTy(t1) || PlainFits(Erase(t1), Erase(t2)))
    ensures Compatible(t1, t2, tcx) <==> PlainFits(Erase(t1), Erase(t2))
  {
    if Erase(t1) == Erase(t2) { SamePlainCompatible(t1, t2, tcx); }
    if t2.Refine? || t2.Exists? { assert !EraseBase(t2.bty).PUninit?; }
  }

  lemma ReturnErased(b: Bindings, d: Duty, tcx: Variances)
    requires OpenEnv(b) && RefFreeDuty(d) && (ScalarEnv(b) || PlainReturn(EraseEnv(b), EraseDuty(d)))
    ensures Returnable(b, d, tcx) <==> PlainReturn(EraseEnv(b), EraseDuty(d))
  {
    var g, e := EraseEnv(b), EraseDuty(d);
    if Local(0) in b { CompatibleErased(BindingTy(b[Local(0)]), d.ret, tcx); }
    forall i | 0 <= i < |d.ensured|
      ensures EnsuredAccepted(b, d.ensured[i], tcx) <==>
              e.ensured[i].0 in g && PlainFits(g[e.ensured[i].0], e.ensured[i].1)
    {
      assert e.ensured[i] == (d.ensured[i].0, Erase(d.ensured[i].1));
      if d.ensured[i].0 in b { CompatibleErased(BindingTy(b[d.ensured[i].0]), d.ensured[i].1, tcx); }
    }
  }

  /** Whatever is well-typed without refinements is accepted, and of scalar code nothing else.  (Data types are not
      compared for equality in well-typed code, because the checker asks for equal refinements then.) */
  lemma {:induction false} AcceptsIffTyped(body: Body, d: Duty, tcx: Variances, b: Bindings, bb: nat, path: set<nat>)
    requires OpenEnv(b) && RefFreeDuty(d)
    ensures WellTyped(body, EraseDuty(d), EraseEnv(b), bb, path) ==> Accepts(body, d, tcx, b, bb, path)
    ensures ScalarEnv(b) && Accepts(body, d, tcx, b, bb, path) ==> WellTyped(body, EraseDuty(d), EraseEnv(b), bb, path)
    decreases Blocks(|body.blocks|) - path, 1
  {
    if bb < |body.blocks| && bb !in path {
      var stmts := body.blocks[bb].statements;
      if ScalarEnv(b) || PlainStatements(EraseEnv(b), stmts).Some? {
        StatementsErased(b, stmts);
        if StatementsTy(b, stmts).Some? {
          if ScalarEnv(b) { StatementsScalar(b, stmts); }
          EndIffTyped(body, d, tcx, StatementsTy(b, stmts).value, bb, path);
        }
      }
    }
  }

  lemma {:induction false} EndIffTyped(body: Body, d: Duty, tcx: Variances, b: Bindings, bb: nat, path: set<nat>)
    requires OpenEnv(b) && RefFreeDuty(d) && bb < |body.blocks| && bb !in path
    ensures WellTypedEnd(body, EraseDuty(d), EraseEnv(b), bb, path) ==> AcceptsEnd(body, d, tcx, b, bb, path)
    ensures ScalarEnv(b) && AcceptsEnd(body, d, tcx, b, bb, path) ==>
              WellTypedEnd(body, EraseDuty(d), EraseEnv(b), bb, path)
    decreases Blocks(|body.blocks|) - path, 0
  {
    match body.blocks[bb].terminator
    case None =>
    case Some(Return) =>
      if ScalarEnv(b) || PlainReturn(EraseEnv(b), EraseDuty(d)) { ReturnErased(b, d, tcx); }
    case Some(Goto(target)) => AcceptsIffTyped(body, d, tcx, b, target, path + {bb});
    case Some(Drop(place, target)) =>
      OperandErased(b, Move(place));
      if OperandTy(b, Move(place)).Some? {
        if ScalarEnv(b) { OperandScalar(b, Move(place)); }
        AcceptsIffTyped(body, d, tcx, OperandTy(b, Move(place)).value.after, target, path + {bb});
      }
    case Some(Call(_)) =>
    case Some(SwitchInt(discr, targets, otherwise)) =>
      OperandErased(b, discr);
      if OperandTy(b, discr).Some? {
        var t := OperandTy(b, discr).value;
        if ScalarEnv(b) { OperandScalar(b, discr); }
        SwitchErased(t.ty, targets);
        forall i | 0 <= i < |targets|
          ensures WellTyped(body, EraseDuty(d), EraseEnv(t.after), targets[i].1, path + {bb}) ==>
                    Accepts(body, d, tcx, t.after, targets[i].1, path + {bb})
          ensures ScalarEnv(b) && Accepts(body, d, tcx, t.after, targets[i].1, path + {bb}) ==>
                    WellTyped(body, EraseDuty(d), EraseEnv(t.after), targets[i].1, path + {bb})
        {
          AcceptsIffTyped(body, d, tcx, t.after, targets[i].1, path + {bb});
        }
        AcceptsIffTyped(body, d, tcx, t.after, otherwise, path + {bb});
      }
  }

  lemma SwitchErased(ty: Ty, targets: seq<(nat, nat)>)
    requires Open(ty)
    ensures Discriminates(ty, targets) <==> targets == [] || IsScalar(Erase(ty))
  {
  }

  // ----- jumps and joins -----

  /** Every shared location of the environment fits the target. */
  ghost predicate PlainJump(g: PlainEnv, target: PlainEnv) {
    forall loc :: loc in g && loc in target ==> PlainFits(g[loc], target[loc])
  }

  /** A jump between environments of scalars completes exactly when the plain types fit. */
  lemma JumpErased(b: Bindings, target: Bindings, tcx: Variances)
    requires ScalarEnv(b) && RefFreeBindings(target)
    ensures TypeEnvs.NoReferenceWeakened(Weakened(b, target), target)
    ensures TypeEnvs.Transforms(Weakened(b, target), target, tcx) <==> PlainJump(EraseEnv(b), EraseEnv(target))
  {
    var w := Weakened(b, target);
    ScalarOpen(b);
    forall loc | loc in b && loc in target
      ensures TypeEnvs.TransformsAt(w, target, loc, tcx) <==> PlainFits(EraseEnv(b)[loc], EraseEnv(target)[loc])
    {
      CompatibleErased(b[loc].sty, target[loc].sty, tcx);
      CompatibleErased(Uninit, target[loc].sty, tcx);
      if !target[loc].sty.Uninit? { NotUninit(target[loc].sty); }
    }
  }

  lemma NotUninit(ty: Ty)
    requires !ty.Uninit?
    ensures !Erase(ty).PUninit?
  {
    if ty.Refine? || ty.Exists? { assert !EraseBase(ty.bty).PUninit?; }
  }

  /** A chain of references as long as the bound's, to a location that fits what the bound is about. */
  predicate PlainWeakenable(g: PlainEnv, loc: Loc, bound: Ty)
    decreases bound
  {
    loc in g &&
    if bound.Exists? then g[loc] == Erase(bound)
    else bound.Ref? && g[loc].PPointer? && PlainWeakenable(g, g[loc].loc, bound.ty)
  }

  /** References into scalars can be weakened exactly along such chains. */
  lemma {:induction false} WeakenableErased(b: Bindings, loc: Loc, bound: Ty, tcx: Variances)
    requires ScalarEnv(b) && RefFreeCore(bound)
    ensures TypeEnvs.Weakenable(b, loc, bound, tcx) <==> PlainWeakenable(EraseEnv(b), loc, bound)
    decreases bound
  {
    if loc in b {
      ScalarOpen(b);
      PointerErased(b[loc].sty);
      if bound.Exists? {
        CompatibleErased(b[loc].sty, bound, tcx);
        NotUninit(bound);
      } else if bound.Ref? && b[loc].sty.StrgRef? {
        WeakenableErased(b, b[loc].sty.loc, bound.ty, tcx);
      }
    }
  }

  /** Below its references the type has none. */
  predicate RefFreeCore(ty: Ty)
    decreases ty
  {
    if ty.Ref? then RefFreeCore(ty.ty) else RefFree(ty)
  }

  /** After unpacking an assignment is accepted whenever its operands are and its place leads somewhere, whatever
      it overwrites. */
  lemma AssignAccepted(b: Bindings, place: Place, rvalue: Rvalue)
    requires RvalueTy(b, rvalue).Some?
    requires forall loc :: loc in RvalueTy(b, rvalue).value.after ==>
               var ty := BindingTy(RvalueTy(b, rvalue).value.after[loc]); !ty.Exists? && !ty.Ref?
    ensures StatementTy(b, Assign(place, rvalue)).Some? <==>
            Follow(EraseEnv(RvalueTy(b, rvalue).value.after), Local(place.local), place.derefs).Some?
  {
    var after := RvalueTy(b, rvalue).value.after;
    WalkErased(after, Local(place.local), place.derefs);
    if Walk(after, Local(place.local), place.derefs).Some? {
      TypeEnvs.WalkBound(after, Local(place.local), place.derefs);
    }
  }

  // ----- what subtyping and joins accept -----

  /** Types that are the same without refinements can be compared. */
  lemma {:induction false} SamePlainCompatible(t1: Ty, t2: Ty, tcx: Variances)
    requires Erase(t1) == Erase(t2) && RefFree(t1) && RefFree(t2)
    ensures Compatible(t1, t2, tcx)
    decreases TySize(t1) + TySize(t2), 1
  {
    PointerErased(t1);
    PointerErased(t2);
    if (t1.Refine? || t1.Exists?) && (t2.Refine? || t2.Exists?) {
      SamePlainBase(t1.bty, t2.bty, tcx);
    }
  }

  lemma {:induction false} SamePlainBase(b1: BaseTy, b2: BaseTy, tcx: Variances)
    requires EraseBase(b1) == EraseBase(b2) && RefFreeBase(b1) && RefFreeBase(b2)
    ensures CompatibleBase(b1, b2, tcx)
    decreases BaseSize(b1) + BaseSize(b2), 0
  {
    if b1.Adt? && b2.Adt? {
      assert |EraseBase(b1).args| == |EraseBase(b2).args|;
      forall i | 0 <= i < |b1.substs| && i < |tcx(b1.did)|
        ensures CompatibleArg(tcx(b1.did)[i], b1.substs[i], b2.substs[i], tcx)
      {
        SizeOfMember(b1.substs, i);
        SizeOfMember(b2.substs, i);
        assert EraseBase(b1).args[i] == EraseBase(b2).args[i];
        SamePlainCompatible(b1.substs[i], b2.substs[i], tcx);
        SamePlainCompatible(b2.substs[i], b1.substs[i], tcx);
      }
    }
  }

  /** All type parameters, at any depth, are covariant. */
  predicate AllCovariant(ty: Ty, tcx: Variances)
    decreases ty
  {
    ty.Refine? || ty.Exists? ==> AllCovariantBase(ty.bty, tcx)
  }

  predicate AllCovariantBase(b: BaseTy, tcx: Variances)
    decreases b
  {
    if b.Adt? then
      && |b.substs| == |tcx(b.did)|
      && forall i | 0 <= i < |b.substs| :: tcx(b.did)[i].Covariant? && AllCovariant(b.substs[i], tcx)
    else true
  }

  /** Then types that are the same without refinements have a join. */
  lemma {:induction false} SamePlainJoinable(t1: Ty, t2: Ty, tcx: Variances)
    requires Erase(t1) == Erase(t2) && RefFree(t1) && RefFree(t2) && AllCovariant(t1, tcx)
    ensures Joinable(t1, t2, tcx)
    decreases t1
  {
    KindErased(t1);
    KindErased(t2);
    if t1.Refine? || t1.Exists? {
      SamePlainJoinableBase(t1.bty, t2.bty, tcx);
    }
  }

  lemma {:induction false} SamePlainJoinableBase(b1: BaseTy, b2: BaseTy, tcx: Variances)
    requires EraseBase(b1) == EraseBase(b2) && RefFreeBase(b1) && RefFreeBase(b2) && AllCovariantBase(b1, tcx)
    ensures JoinableBase(b1, b2, tcx)
    decreases b1
  {
    if b1.Adt? && b2.Adt? {
      assert |EraseBase(b1).args| == |EraseBase(b2).args|;
      forall i | 0 <= i < |b1.substs| ensures Joinable(b1.substs[i], b2.substs[i], tcx) {
        assert EraseBase(b1).args[i] == EraseBase(b2).args[i];
        SamePlainJoinable(b1.substs[i], b2.substs[i], tcx);
      }
    }
  }

  /** Scalars join exactly when they are the same without refinements or one is uninitialized. */
  lemma JoinableErased(t1: Ty, t2: Ty, tcx: Variances)
    requires ScalarType(t1) && ScalarType(t2) && !t1.Ref? && !t2.Ref?
    ensures Joinable(t1, t2, tcx) <==> t1.Uninit? || t2.Uninit? || Erase(t1) == Erase(t2)
  {
  }
}
