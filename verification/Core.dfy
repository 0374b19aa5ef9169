/** Function signatures as the programmer writes them, what they mean, and their sort checker. */
module Core {
  import L = Logic
  import opened Logic
  import T = Types

  datatype BinOp = Iff | Imp | Or | And | Eq | Gt | Ge | Lt | Le | Add | Sub

  datatype Lit = IntLit(n: int) | BoolLit(b: bool)

  datatype Expr =
    | Var(v: L.Var)
    | Literal(lit: Lit)
    | BinaryOp(op: BinOp, e1: Expr, e2: Expr)

  datatype Ty =
    | Refine(bty: BaseTy, e: Expr)
    | Exists(bty: BaseTy, pred: Expr)
    | MutRef(loc: Name)
    | Param(param: nat)

  datatype BaseTy =
    | Int(ity: T.IntTy)
    | Uint(uty: T.UintTy)
    | Bool
    | Adt(did: nat, substs: seq<Ty>)

  datatype Param = Param(name: Name, sort: Sort, pred: Expr)

  datatype FnSig = FnSig(params: seq<Param>, required: seq<(Name, Ty)>, args: seq<Ty>, ret: Ty,
                         ensured: seq<(Name, Ty)>)

  function SortOfBase(b: BaseTy): Sort {
    if b.Bool? then Sort.Bool else Sort.Int
  }

  // ----- meaning -----

  function LitValue(lit: Lit): Value {
    match lit
    case IntLit(n) => IntVal(n)
    case BoolLit(b) => BoolVal(b)
  }

  function LowerBinOp(op: BinOp): L.BinOp {
    match op
    case Iff => L.Iff
    case Imp => L.Imp
    case Or => L.Or
    case And => L.And
    case Eq => L.Eq
    case Gt => L.Gt
    case Ge => L.Ge
    case Lt => L.Lt
    case Le => L.Le
    case Add => L.Add
    case Sub => L.Sub
  }

  /** The meaning of the operators, written out for the source language. */
  function ApplyOp(op: BinOp, v1: Value, v2: Value): Option<Value> {
    match (v1, v2)
    case (BoolVal(a), BoolVal(b)) =>
      (match op
       case Iff => Some(BoolVal(a == b))
       case Imp => Some(BoolVal(!a || b))
       case Or => Some(BoolVal(a || b))
       case And => Some(BoolVal(a && b))
       case Eq => Some(BoolVal(a == b))
       case _ => None)
    case (IntVal(a), IntVal(b)) =>
      (match op
       case Eq => Some(BoolVal(a == b))
       case Gt => Some(BoolVal(b < a))
       case Ge => Some(BoolVal(b <= a))
       case Lt => Some(BoolVal(a < b))
       case Le => Some(BoolVal(a <= b))
       case Add => Some(IntVal(a + b))
       case Sub => Some(IntVal(a - b))
       case _ => None)
    case _ => None
  }

  function Eval(e: Expr, mu: Env, nu: Option<Value>): Option<Value> {
    match e
    case Var(Bound) => nu
    case Var(Free(x)) => Lookup(mu, x)
    case Literal(lit) => Some(LitValue(lit))
    case BinaryOp(op, e1, e2) =>
      (match (Eval(e1, mu, nu), Eval(e2, mu, nu))
       case (Some(v1), Some(v2)) => ApplyOp(op, v1, v2)
       case _ => None)
  }

  /** Values of a type, given values for the parameters and cells for the references. */
  ghost predicate In(v: T.Val, ty: Ty, mu: Env, cells: map<Name, T.Loc>, tcx: T.Variances)
    decreases ty
  {
    match ty
    case Refine(b, e) => InBase(v, b, mu, cells, tcx) && T.Index(v).Some? && Eval(e, mu, None) == T.Index(v)
    case Exists(b, e) => InBase(v, b, mu, cells, tcx) && T.Index(v).Some? && IsTrue(Eval(e, mu, T.Index(v)))
    case MutRef(x) => x in cells && v == T.Pointer(cells[x])
    case Param(i) => v.Opaque? && v.param == i
  }

  ghost predicate InBase(v: T.Val, b: BaseTy, mu: Env, cells: map<Name, T.Loc>, tcx: T.Variances)
    decreases b
  {
    match b
    case Int(_) => v.Num?
    case Uint(_) => v.Num?
    case Bool => v.Truth?
    case Adt(did, substs) =>
      && v.Data? && v.did == did && |v.gives| == |substs| == |v.refuses|
      && (forall i | 0 <= i < |substs| && i < |tcx(did)| && (tcx(did)[i].Covariant? || tcx(did)[i].Invariant?) ::
            forall x | x in v.gives[i] :: In(x, substs[i], mu, cells, tcx))
      && (forall i | 0 <= i < |substs| && i < |tcx(did)| && (tcx(did)[i].Contravariant? || tcx(did)[i].Invariant?) ::
            forall x | x in v.refuses[i] :: !In(x, substs[i], mu, cells, tcx))
  }

  // ----- the sort checker -----

  /** A sort, a reported mismatch, or the panic on a variable that is not in scope. */
  datatype Checked = Sorted(sort: Sort) | Mismatch | Unbound

  type SortEnv = map<L.Var, Sort>

  function SynthExpr(env: SortEnv, e: Expr): Checked {
    match e
    case Var(x) => if x in env then Sorted(env[x]) else Unbound
    case Literal(lit) => Sorted(if lit.IntLit? then Sort.Int else Sort.Bool)
    case BinaryOp(op, e1, e2) =>
      var r1, r2 := SynthExpr(env, e1), SynthExpr(env, e2);
      match op
      case Iff | Imp => Both(Expect(r1, Sort.Bool), Expect(r2, Sort.Bool), Sort.Bool)
      case Eq => if r1.Sorted? then Both(r1, Expect(r2, r1.sort), Sort.Bool) else r1
      case Lt | Le | Gt | Ge => Both(Expect(r1, Sort.Int), Expect(r2, Sort.Int), Sort.Bool)
      case Add | Sub => Both(Expect(r1, Sort.Int), Expect(r2, Sort.Int), Sort.Int)
      case Or | And => Both(Expect(r1, Sort.Bool), Expect(r2, Sort.Bool), Sort.Bool)
  }

  /** The sort, if it is the expected one. */
  function Expect(r: Checked, expected: Sort): Checked {
    if r.Sorted? && r.sort != expected then Mismatch else r
  }

  /** The first operand that is not accepted decides; otherwise the result. */
  function Both(r1: Checked, r2: Checked, result: Sort): Checked {
    if !r1.Sorted? then r1 else if !r2.Sorted? then r2 else Sorted(result)
  }

  function CheckExpr(env: SortEnv, e: Expr, expected: Sort): Checked {
    Expect(SynthExpr(env, e), expected)
  }
}
