/** The intermediate representation the checker runs over, and what running it does to memory. */
module Mir {
  import opened Logic
  import opened Types
  import opened Environment

  datatype Place = Place(local: nat, derefs: nat)

  datatype Literal = IntLit(n: int, ity: IntTy) | UintLit(m: nat, uty: UintTy) | BoolLit(b: bool)

  datatype Operand = Copy(place: Place) | Move(place: Place) | Constant(lit: Literal)

  datatype Op = OpGt | OpLt | OpLe | OpEq | OpNe | OpAdd | OpSub | OpMul | OpDiv

  datatype Op1 = OpNot | OpNeg

  datatype Rvalue =
    | Use(op: Operand)
    | MutRef(place: Place)
    | Binary(bop: Op, op1: Operand, op2: Operand)
    | Unary(uop: Op1, op: Operand)

  datatype Statement = Assign(place: Place, rvalue: Rvalue) | Nop

  datatype Terminator =
    | Return
    | Goto(target: nat)
    | SwitchInt(discr: Operand, targets: seq<(nat, nat)>, otherwise: nat)
    | Drop(place: Place, target: nat)
    | Call(destination: Option<nat>)

  datatype Block = Block(statements: seq<Statement>, terminator: Option<Terminator>)

  datatype Body = Body(blocks: seq<Block>, argCount: nat, nlocals: nat)

  // ----- control flow -----

  /** Successors of a block, with multiplicity. */
  function Successors(block: Block): seq<nat> {
    match block.terminator
    case Some(Goto(t)) => [t]
    case Some(Drop(_, t)) => [t]
    case Some(Call(Some(t))) => [t]
    case Some(SwitchInt(_, targets, otherwise)) => SwitchSuccessors(targets) + [otherwise]
    case _ => []
  }

  function SwitchSuccessors(targets: seq<(nat, nat)>): (r: seq<nat>)
    ensures |r| == |targets| && forall i :: 0 <= i < |targets| ==> r[i] == targets[i].1
  {
    if targets == [] then [] else [targets[0].1] + SwitchSuccessors(targets[1..])
  }

  /** The `i`-th edge out of block `b` enters `t`. */
  predicate Edge(body: Body, b: nat, i: nat, t: nat) {
    b < |body.blocks| && i < |Successors(body.blocks[b])| && Successors(body.blocks[b])[i] == t
  }

  /** More than one edge enters the block, where the start block counts the entry of the function. */
  ghost predicate IsJoinPoint(body: Body, t: nat) {
    || (t == 0 && exists b: nat, i: nat :: Edge(body, b, i, t))
    || (exists b1: nat, i1: nat, b2: nat, i2: nat :: TwoEdges(body, b1, i1, b2, i2, t))
  }

  predicate TwoEdges(body: Body, b1: nat, i1: nat, b2: nat, i2: nat, t: nat) {
    Edge(body, b1, i1, t) && Edge(body, b2, i2, t) && (b1, i1) != (b2, i2)
  }

  ghost predicate JoinFree(body: Body) {
    forall t | 0 <= t < |body.blocks| :: !IsJoinPoint(body, t)
  }

  /** There is a start block and every edge leads to a block. */
  ghost predicate WellTargeted(body: Body) {
    |body.blocks| > 0 && forall b: nat, i: nat, t: nat :: Edge(body, b, i, t) ==> t < |body.blocks|
  }

  // ----- running -----

  /** Besides succeeding, a step can divide by zero, get stuck on ill-typed code, or use an
      operation whose meaning is not part of the model. */
  datatype Outcome<+T> = Ok(value: T) | DivByZero | Stuck | Unmodelled

  function LitVal(lit: Literal): Val {
    match lit
    case IntLit(n, _) => Num(n)
    case UintLit(m, _) => Num(m)
    case BoolLit(b) => Truth(b)
  }

  function ReadPlace(st: Store, place: Place): Outcome<Val> {
    match WalkStore(st, Local(place.local), place.derefs)
    case Some(loc) => if loc in st then Ok(st[loc]) else Stuck
    case None => Stuck
  }

  function RunOperand(st: Store, op: Operand): Outcome<(Val, Store)> {
    match op
    case Constant(lit) => Ok((LitVal(lit), st))
    case Copy(place) =>
      (match ReadPlace(st, place)
       case Ok(v) => Ok((v, st))
       case _ => Stuck)
    case Move(place) =>
      if place.derefs != 0 || Local(place.local) !in st then Stuck
      else Ok((st[Local(place.local)], st[Local(place.local) := Junk]))
  }

  function RunOp(op: Op, v1: Val, v2: Val): Outcome<Val> {
    match (v1, v2)
    case (Num(a), Num(b)) =>
      (match op
       case OpGt => Ok(Truth(a > b))
       case OpLt => Ok(Truth(a < b))
       case OpLe => Ok(Truth(a <= b))
       case OpEq => Ok(Truth(a == b))
       case OpNe => Ok(Truth(a != b))
       case OpAdd => Ok(Num(a + b))
       case OpSub => Ok(Num(a - b))
       case OpMul => Ok(Num(a * b))
       case OpDiv => if b == 0 then DivByZero else Ok(Num(Quotient(a, b))))
    case (Truth(a), Truth(b)) =>
      (match op
       case OpEq => Ok(Truth(a == b))
       case OpNe => Ok(Truth(a != b))
       case _ => Stuck)
    case (Data(_, _, _, _), Data(_, _, _, _)) => if op.OpEq? || op.OpNe? then Unmodelled else Stuck
    case _ => Stuck
  }

  function RunOp1(op: Op1, v: Val): Outcome<Val> {
    match (op, v)
    case (OpNot, Truth(b)) => Ok(Truth(!b))
    case (OpNeg, Num(n)) => Ok(Num(-n))
    case _ => Stuck
  }

  function RunRvalue(st: Store, rvalue: Rvalue): Outcome<(Val, Store)> {
    match rvalue
    case Use(op) => RunOperand(st, op)
    case MutRef(place) =>
      (match WalkStore(st, Local(place.local), place.derefs)
       case Some(loc) => Ok((Pointer(loc), st))
       case None => Stuck)
    case Unary(uop, op) =>
      (match RunOperand(st, op)
       case Ok((v, st1)) =>
         (match RunOp1(uop, v)
          case Ok(w) => Ok((w, st1))
          case _ => Stuck)
       case _ => Stuck)
    case Binary(bop, op1, op2) =>
      (match RunOperand(st, op1)
       case Ok((v1, st1)) =>
         (match RunOperand(st1, op2)
          case Ok((v2, st2)) =>
            (match RunOp(bop, v1, v2)
             case Ok(w) => Ok((w, st2))
             case DivByZero => DivByZero
             case Stuck => Stuck
             case Unmodelled => Unmodelled)
          case _ => Stuck)
       case _ => Stuck)
  }

  function RunStatement(st: Store, stmt: Statement): Outcome<Store> {
    match stmt
    case Nop => Ok(st)
    case Assign(place, rvalue) =>
      (match RunRvalue(st, rvalue)
       case Ok((v, st1)) =>
         (match WalkStore(st1, Local(place.local), place.derefs)
          case Some(loc) => Ok(st1[loc := v])
          case None => Stuck)
       case DivByZero => DivByZero
       case Stuck => Stuck
       case Unmodelled => Unmodelled)
  }

  /** Does the switched value match the bits of a target?  A boolean is one bit wide. */
  predicate Matches(v: Val, bits: nat) {
    match v
    case Num(n) => n == bits
    case Truth(b) => (if b then 1 else 0) == bits
    case _ => false
  }

  function SelectTarget(v: Val, targets: seq<(nat, nat)>, otherwise: nat): nat {
    if targets == [] then otherwise
    else if Matches(v, targets[0].0) then targets[0].1
    else SelectTarget(v, targets[1..], otherwise)
  }

  predicate OneBit(targets: seq<(nat, nat)>) {
    forall i :: 0 <= i < |targets| ==> targets[i].0 <= 1
  }

  datatype Config = Config(block: nat, index: nat, store: Store)

  datatype Result = Next(config: Config) | Returned(store: Store) | Halted | Failed | Outside

  /** One step: a statement, or the terminator when the statements are used up. */
  function Step(body: Body, c: Config): Result {
    if c.block >= |body.blocks| then Failed
    else
      var block := body.blocks[c.block];
      if c.index < |block.statements| then
        match RunStatement(c.store, block.statements[c.index])
        case Ok(st) => Next(Config(c.block, c.index + 1, st))
        case Unmodelled => Outside
        case _ => Failed
      else if block.terminator.None? then Halted
      else StepTerminator(c.store, block.terminator.value)
  }

  function StepTerminator(st: Store, t: Terminator): Result {
    match t
    case Return => Returned(st)
    case Goto(target) => Next(Config(target, 0, st))
    case Drop(place, target) =>
      (match RunOperand(st, Move(place))
       case Ok((_, st1)) => Next(Config(target, 0, st1))
       case _ => Failed)
    case SwitchInt(discr, targets, otherwise) =>
      (match RunOperand(st, discr)
       case Ok((v, st1)) =>
         if targets == [] || v.Num? || (v.Truth? && OneBit(targets)) then
            Next(Config(SelectTarget(v, targets, otherwise), 0, st1))
         else if v.Truth? then Outside
         else Failed
       case _ => Failed)
    case Call(_) => Outside
  }

  /** What is asked of the memory when the function returns. */
  datatype Post = Post(ret: Ty, ensured: seq<(Loc, Ty)>, env: Env, k: Interp, tcx: Variances)

  ghost predicate Meets(st: Store, post: Post) {
    && Local(0) in st && In(st[Local(0)], post.ret, post.env, post.k, post.tcx, st)
    && forall i :: 0 <= i < |post.ensured| ==>
         post.ensured[i].0 in st && In(st[post.ensured[i].0], post.ensured[i].1, post.env, post.k, post.tcx, st)
  }

  /** For `n` steps, the run neither divides by zero nor gets stuck, and if it returns, it
      returns to a memory that meets the postcondition. */
  ghost predicate Safe(body: Body, c: Config, n: nat, post: Post)
    decreases n
  {
    n == 0 ||
    match Step(body, c)
    case Next(c') => Safe(body, c', n - 1, post)
    case Returned(st) => Meets(st, post)
    case Halted => true
    case Failed => false
    case Outside => true
  }

  /** The outcome of at most `n` steps: still running, or how the run ended. */
  function Exec(body: Body, c: Config, n: nat): Result
    decreases n
  {
    if n == 0 then Next(c)
    else
      match Step(body, c)
      case Next(c') => Exec(body, c', n - 1)
      case r => r
  }

  lemma {:induction false} SafeExec(body: Body, c: Config, n: nat, post: Post)
    requires Safe(body, c, n, post)
    ensures !Exec(body, c, n).Failed?
    ensures Exec(body, c, n).Returned? ==> Meets(Exec(body, c, n).store, post)
    decreases n
  {
    if n > 0 && Step(body, c).Next? {
      SafeExec(body, Step(body, c).config, n - 1, post);
    }
  }

  /** All statements from `i` on. */
  function RunStatements(st: Store, stmts: seq<Statement>): Outcome<Store>
    decreases stmts
  {
    if stmts == [] then Ok(st)
    else
      match RunStatement(st, stmts[0])
      case Ok(st1) => RunStatements(st1, stmts[1..])
      case DivByZero => DivByZero
      case Stuck => Stuck
      case Unmodelled => Unmodelled
  }

  lemma {:induction false} RunStatementsAppend(st: Store, stmts: seq<Statement>, stmt: Statement)
    ensures RunStatements(st, stmts + [stmt]) ==
            (match RunStatements(st, stmts)
             case Ok(st1) => RunStatement(st1, stmt)
             case DivByZero => DivByZero
             case Stuck => Stuck
             case Unmodelled => Unmodelled)
    decreases stmts
  {
    if stmts == [] {
      assert ([] + [stmt])[1..] == [];
    } else {
      assert (stmts + [stmt])[1..] == stmts[1..] + [stmt];
      match RunStatement(st, stmts[0]) {
        case Ok(st1) => RunStatementsAppend(st1, stmts[1..], stmt);
        case _ =>
      }
    }
  }

  /** The terminator of block `b` is safe in memory `st`, for up to `n` steps. */
  ghost predicate EndSafe(body: Body, b: nat, st: Store, n: nat, post: Post)
    requires b < |body.blocks|
  {
    forall m: nat | m <= n :: Safe(body, Config(b, |body.blocks[b].statements|, st), m, post)
  }

  /** The statements of a block, from `i` on, run to a memory in which the terminator is safe. */
  ghost predicate RunsToEnd(body: Body, b: nat, i: nat, st: Store, n: nat, post: Post)
    requires b < |body.blocks| && i <= |body.blocks[b].statements|
  {
    match RunStatements(st, body.blocks[b].statements[i..])
    case Ok(st1) => EndSafe(body, b, st1, n, post)
    case Unmodelled => true
    case _ => false
  }

  /** A block is safe if its statements run and its terminator is safe afterwards. */
  lemma {:induction false} BlockSafe(body: Body, b: nat, i: nat, st: Store, n: nat, post: Post)
    requires b < |body.blocks| && i <= |body.blocks[b].statements|
    requires RunsToEnd(body, b, i, st, n, post)
    ensures Safe(body, Config(b, i, st), n, post)
    decreases n
  {
    var stmts := body.blocks[b].statements;
    if n == 0 {
    } else if i < |stmts| {
      assert stmts[i..][0] == stmts[i] && stmts[i..][1..] == stmts[i + 1..];
      if RunStatement(st, stmts[i]).Ok? {
        var st1 := RunStatement(st, stmts[i]).value;
        assert RunStatements(st, stmts[i..]) == RunStatements(st1, stmts[i + 1..]);
        assert RunsToEnd(body, b, i + 1, st1, n - 1, post);
        BlockSafe(body, b, i + 1, st1, n - 1, post);
      }
    } else {
      assert stmts[i..] == [];
      assert RunStatements(st, stmts[i..]) == Ok(st);
      assert EndSafe(body, b, st, n, post);
    }
  }
}
