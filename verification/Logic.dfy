/** The refinement logic: sorts, constants, expressions with one bound variable, and
    predicates that are either expressions or applications of unknown predicates (kvars).
    Expressions evaluate to `None` when they are stuck (unbound variable, wrong sort). */
module Logic {

  datatype Option<+T> = None | Some(value: T)

  /** Names come from one generator that hands out consecutive indices. */
  type Name = nat
  type KVid = nat

  datatype Sort = Int | Bool

  datatype Sign = Positive | Negative

  datatype Constant = IntConst(sign: Sign, magnitude: nat) | BoolConst(value: bool)

  datatype BinOp =
    | Iff | Imp | Or | And
    | Eq | Ne | Gt | Ge | Lt | Le
    | Add | Sub | Mul | Div

  datatype UnOp = Not | Neg

  datatype Var = Bound | Free(name: Name)

  datatype Expr =
    | Var(v: Var)
    | Constant(c: Constant)
    | BinaryOp(bop: BinOp, e1: Expr, e2: Expr)
    | UnaryOp(uop: UnOp, e: Expr)

  datatype Pred = KVar(kvid: KVid, args: seq<Expr>) | Expr(expr: Expr)

  datatype Value = IntVal(n: int) | BoolVal(b: bool)

  /** Values of the names in scope. */
  type Env = map<Name, Value>

  /** Sorts of the names in scope. */
  type Scope = map<Name, Sort>

  /** An interpretation of the unknown predicates. */
  type Interp = (KVid, seq<Value>) -> bool

  // ----- constants -----

  function FromInt(n: int): Constant {
    if n < 0 then IntConst(Negative, -n) else IntConst(Positive, n)
  }

  function FromBool(b: bool): Constant {
    BoolConst(b)
  }

  function ConstantValue(c: Constant): Value {
    match c
    case IntConst(Positive, m) => IntVal(m)
    case IntConst(Negative, m) => IntVal(-(m as int))
    case BoolConst(b) => BoolVal(b)
  }

  function True(): Expr {
    Constant(BoolConst(true))
  }

  // ----- evaluation -----

  function SortOfValue(v: Value): Sort {
    if v.IntVal? then Sort.Int else Sort.Bool
  }

  /** Division truncates toward zero and is total, as a logical function must be. */
  function Quotient(a: int, b: int): int {
    if b == 0 then 0
    else
      var q := (if a < 0 then -a else a) / (if b < 0 then -b else b);
      if (a < 0) == (b < 0) then q else -q
  }

  function EvalBoolOp(op: BinOp, a: bool, b: bool): Option<Value> {
    match op
    case Iff => Some(BoolVal(a <==> b))
    case Imp => Some(BoolVal(a ==> b))
    case Or => Some(BoolVal(a || b))
    case And => Some(BoolVal(a && b))
    case Eq => Some(BoolVal(a == b))
    case Ne => Some(BoolVal(a != b))
    case _ => None
  }

  function EvalIntOp(op: BinOp, a: int, b: int): Option<Value> {
    match op
    case Eq => Some(BoolVal(a == b))
    case Ne => Some(BoolVal(a != b))
    case Gt => Some(BoolVal(a > b))
    case Ge => Some(BoolVal(a >= b))
    case Lt => Some(BoolVal(a < b))
    case Le => Some(BoolVal(a <= b))
    case Add => Some(IntVal(a + b))
    case Sub => Some(IntVal(a - b))
    case Mul => Some(IntVal(a * b))
    case Div => Some(IntVal(Quotient(a, b)))
    case _ => None
  }

  function EvalBinOp(op: BinOp, v1: Option<Value>, v2: Option<Value>): Option<Value> {
    match (v1, v2)
    case (Some(IntVal(a)), Some(IntVal(b))) => EvalIntOp(op, a, b)
    case (Some(BoolVal(a)), Some(BoolVal(b))) => EvalBoolOp(op, a, b)
    case _ => None
  }

  function EvalUnOp(op: UnOp, v: Option<Value>): Option<Value> {
    match (op, v)
    case (Not, Some(BoolVal(b))) => Some(BoolVal(!b))
    case (Neg, Some(IntVal(n))) => Some(IntVal(-n))
    case _ => None
  }

  function Lookup(env: Env, x: Name): Option<Value> {
    if x in env then Some(env[x]) else None
  }

  /** Evaluation under values for the free names and, possibly, for the bound variable. */
  function Eval(e: Expr, env: Env, nu: Option<Value>): Option<Value> {
    match e
    case Var(Bound) => nu
    case Var(Free(x)) => Lookup(env, x)
    case Constant(c) => Some(ConstantValue(c))
    case BinaryOp(op, e1, e2) => EvalBinOp(op, Eval(e1, env, nu), Eval(e2, env, nu))
    case UnaryOp(op, e1) => EvalUnOp(op, Eval(e1, env, nu))
  }

  function EvalAll(es: seq<Expr>, env: Env, nu: Option<Value>): (r: Option<seq<Value>>)
    ensures r.Some? ==> |r.value| == |es|
  {
    if es == [] then Some([])
    else
      match (Eval(es[0], env, nu), EvalAll(es[1..], env, nu))
      case (Some(v), Some(vs)) => Some([v] + vs)
      case _ => None
  }

  predicate IsTrue(v: Option<Value>) {
    v == Some(BoolVal(true))
  }

  /** A kvar whose arguments are stuck holds nowhere. */
  predicate HoldsPred(p: Pred, env: Env, nu: Option<Value>, k: Interp) {
    match p
    case KVar(kvid, args) =>
      var vs := EvalAll(args, env, nu);
      vs.Some? && k(kvid, vs.value)
    case Expr(e) => IsTrue(Eval(e, env, nu))
  }

  // ----- shape tests used by the checker -----

  predicate ExprIsTrue(e: Expr) {
    e == Constant(BoolConst(true))
  }

  predicate PredIsTrue(p: Pred) {
    p.Expr? && ExprIsTrue(p.expr)
  }

  predicate HasBound(e: Expr) {
    match e
    case Var(v) => v.Bound?
    case Constant(_) => false
    case BinaryOp(_, e1, e2) => HasBound(e1) || HasBound(e2)
    case UnaryOp(_, e1) => HasBound(e1)
  }

  function FreeNames(e: Expr): set<Name> {
    match e
    case Var(Bound) => {}
    case Var(Free(x)) => {x}
    case Constant(_) => {}
    case BinaryOp(_, e1, e2) => FreeNames(e1) + FreeNames(e2)
    case UnaryOp(_, e1) => FreeNames(e1)
  }

  // ----- substitution of the bound variable -----

  function Subst(e: Expr, to: Expr): Expr {
    match e
    case Var(Bound) => to
    case Var(Free(x)) => Var(Free(x))
    case Constant(c) => Constant(c)
    case BinaryOp(op, e1, e2) => BinaryOp(op, Subst(e1, to), Subst(e2, to))
    case UnaryOp(op, e1) => UnaryOp(op, Subst(e1, to))
  }

  function SubstAll(es: seq<Expr>, to: Expr): (r: seq<Expr>)
    ensures |r| == |es|
    ensures forall i :: 0 <= i < |es| ==> r[i] == Subst(es[i], to)
  {
    if es == [] then [] else [Subst(es[0], to)] + SubstAll(es[1..], to)
  }

  function SubstPred(p: Pred, to: Expr): Pred {
    match p
    case KVar(kvid, args) => KVar(kvid, SubstAll(args, to))
    case Expr(e) => Pred.Expr(Subst(e, to))
  }

  /** Substituting is the same as giving the bound variable the value of the replacement. */
  lemma {:induction false} SubstEval(e: Expr, to: Expr, env: Env, nu: Option<Value>)
    ensures Eval(Subst(e, to), env, nu) == Eval(e, env, Eval(to, env, nu))
  {
    match e
    case Var(_) =>
    case Constant(_) =>
    case BinaryOp(_, e1, e2) =>
      SubstEval(e1, to, env, nu);
      SubstEval(e2, to, env, nu);
    case UnaryOp(_, e1) =>
      SubstEval(e1, to, env, nu);
  }

  lemma {:induction false} SubstEvalAll(es: seq<Expr>, to: Expr, env: Env, nu: Option<Value>)
    ensures EvalAll(SubstAll(es, to), env, nu) == EvalAll(es, env, Eval(to, env, nu))
  {
    if es == [] {
    } else {
      SubstEval(es[0], to, env, nu);
      SubstEvalAll(es[1..], to, env, nu);
      assert SubstAll(es, to)[1..] == SubstAll(es[1..], to);
    }
  }

  lemma SubstHolds(p: Pred, to: Expr, env: Env, nu: Option<Value>, k: Interp)
    ensures HoldsPred(SubstPred(p, to), env, nu, k) <==> HoldsPred(p, env, Eval(to, env, nu), k)
  {
    match p
    case KVar(_, args) => SubstEvalAll(args, to, env, nu);
    case Expr(e) => SubstEval(e, to, env, nu);
  }

  function Size(e: Expr): nat {
    match e
    case Var(_) => 1
    case Constant(_) => 1
    case BinaryOp(_, e1, e2) => 1 + Size(e1) + Size(e2)
    case UnaryOp(_, e1) => 1 + Size(e1)
  }

  lemma {:induction false} SubstNoBound(e: Expr, to: Expr)
    requires !HasBound(e)
    ensures Subst(e, to) == e
  {
    match e
    case Var(_) =>
    case Constant(_) =>
    case BinaryOp(_, e1, e2) =>
      SubstNoBound(e1, to);
      SubstNoBound(e2, to);
    case UnaryOp(_, e1) =>
      SubstNoBound(e1, to);
  }

  lemma {:induction false} SubstSize(e: Expr, to: Expr)
    ensures Size(Subst(e, to)) >= Size(e)
    ensures HasBound(e) ==> Size(Subst(e, to)) >= Size(e) - 1 + Size(to)
    ensures HasBound(e) && HasBound(to) ==> HasBound(Subst(e, to))
  {
    match e
    case Var(_) =>
    case Constant(_) =>
    case BinaryOp(_, e1, e2) =>
      SubstSize(e1, to);
      SubstSize(e2, to);
    case UnaryOp(_, e1) =>
      SubstSize(e1, to);
  }

  lemma {:induction false} SubstHasBound(e: Expr, to: Expr)
    requires !HasBound(to)
    ensures !HasBound(Subst(e, to))
  {
    match e
    case Var(_) =>
    case Constant(_) =>
    case BinaryOp(_, e1, e2) =>
      SubstHasBound(e1, to);
      SubstHasBound(e2, to);
    case UnaryOp(_, e1) =>
      SubstHasBound(e1, to);
  }

  /** Subtyping substitutes the index twice.  That is harmless exactly when there is nothing
      to replace, nothing left to replace, or the index is the bound variable itself. */
  lemma SubstTwice(e: Expr, to: Expr)
    ensures Subst(Subst(e, to), to) == Subst(e, to)
       <==> !HasBound(e) || !HasBound(to) || to == Var(Bound)
  {
    if !HasBound(e) {
      SubstNoBound(e, to);
    } else if !HasBound(to) {
      SubstHasBound(e, to);
      SubstNoBound(Subst(e, to), to);
    } else if to == Var(Bound) {
      SubstBoundByItself(e);
    } else {
      SubstSize(e, to);
      SubstSize(Subst(e, to), to);
    }
  }

  lemma {:induction false} SubstBoundByItself(e: Expr)
    ensures Subst(e, Var(Bound)) == e
  {
    match e
    case Var(_) =>
    case Constant(_) =>
    case BinaryOp(_, e1, e2) =>
      SubstBoundByItself(e1);
      SubstBoundByItself(e2);
    case UnaryOp(_, e1) =>
      SubstBoundByItself(e1);
  }

  lemma SubstPredTwice(p: Pred, to: Expr)
    requires !HasBound(to)
    ensures SubstPred(SubstPred(p, to), to) == SubstPred(p, to)
  {
    match p
    case KVar(_, args) =>
      forall i | 0 <= i < |args| ensures Subst(Subst(args[i], to), to) == Subst(args[i], to) {
        SubstTwice(args[i], to);
      }
      assert SubstAll(SubstAll(args, to), to) == SubstAll(args, to);
    case Expr(e) => SubstTwice(e, to);
  }

  // ----- sorts -----

  function SortOfConstant(c: Constant): Sort {
    if c.IntConst? then Sort.Int else Sort.Bool
  }

  function SortOfBinOp(op: BinOp, s1: Sort, s2: Sort): Option<Sort> {
    match op
    case Iff | Imp | Or | And => if s1.Bool? && s2.Bool? then Some(Sort.Bool) else None
    case Eq | Ne => if s1 == s2 then Some(Sort.Bool) else None
    case Gt | Ge | Lt | Le => if s1.Int? && s2.Int? then Some(Sort.Bool) else None
    case Add | Sub | Mul | Div => if s1.Int? && s2.Int? then Some(Sort.Int) else None
  }

  function SortOfUnOp(op: UnOp, s: Sort): Option<Sort> {
    match op
    case Not => if s.Bool? then Some(Sort.Bool) else None
    case Neg => if s.Int? then Some(Sort.Int) else None
  }

  function SortOf(e: Expr, g: Scope, nu: Option<Sort>): Option<Sort> {
    match e
    case Var(Bound) => nu
    case Var(Free(x)) => if x in g then Some(g[x]) else None
    case Constant(c) => Some(SortOfConstant(c))
    case BinaryOp(op, e1, e2) =>
      (match (SortOf(e1, g, nu), SortOf(e2, g, nu))
       case (Some(s1), Some(s2)) => SortOfBinOp(op, s1, s2)
       case _ => None)
    case UnaryOp(op, e1) =>
      (match SortOf(e1, g, nu)
       case Some(s) => SortOfUnOp(op, s)
       case None => None)
  }

  /** The environment gives every name in scope a value of its sort. */
  ghost predicate Conforms(env: Env, g: Scope) {
    forall x :: x in g ==> x in env && SortOfValue(env[x]) == g[x]
  }

  predicate NuConforms(nu: Option<Value>, s: Option<Sort>) {
    s.Some? ==> nu.Some? && SortOfValue(nu.value) == s.value
  }

  /** A well-sorted expression evaluates, to a value of its sort. */
  lemma {:induction false} EvalSorted(e: Expr, g: Scope, s: Option<Sort>, env: Env, nu: Option<Value>)
    requires SortOf(e, g, s).Some? && Conforms(env, g) && NuConforms(nu, s)
    ensures Eval(e, env, nu).Some? && SortOfValue(Eval(e, env, nu).value) == SortOf(e, g, s).value
  {
    match e
    case Var(_) =>
    case Constant(_) =>
    case BinaryOp(_, e1, e2) =>
      EvalSorted(e1, g, s, env, nu);
      EvalSorted(e2, g, s, env, nu);
    case UnaryOp(_, e1) =>
      EvalSorted(e1, g, s, env, nu);
  }

  /** Well-sortedness of a predicate: a kvar takes as many arguments as it declares sorts. */
  predicate WfPred(p: Pred, g: Scope, nu: Option<Sort>, kvars: seq<seq<Sort>>) {
    match p
    case KVar(kvid, args) =>
      kvid < |kvars| && |args| == |kvars[kvid]| &&
      forall i :: 0 <= i < |args| ==> SortOf(args[i], g, nu) == Some(kvars[kvid][i])
    case Expr(e) => SortOf(e, g, nu) == Some(Sort.Bool)
  }

  lemma {:induction false} EvalAllSorted(es: seq<Expr>, g: Scope, s: Option<Sort>, env: Env, nu: Option<Value>)
    requires forall i :: 0 <= i < |es| ==> SortOf(es[i], g, s).Some?
    requires Conforms(env, g) && NuConforms(nu, s)
    ensures EvalAll(es, env, nu).Some?
    ensures forall i :: 0 <= i < |es| ==> Eval(es[i], env, nu) == Some(EvalAll(es, env, nu).value[i])
  {
    if es == [] {
    } else {
      EvalSorted(es[0], g, s, env, nu);
      EvalAllSorted(es[1..], g, s, env, nu);
    }
  }

  lemma {:induction false} SortSubst(e: Expr, to: Expr, g: Scope, nu: Option<Sort>)
    requires SortOf(e, g, SortOf(to, g, nu)).Some?
    ensures SortOf(Subst(e, to), g, nu) == SortOf(e, g, SortOf(to, g, nu))
  {
    match e
    case Var(_) =>
    case Constant(_) =>
    case BinaryOp(_, e1, e2) =>
      SortSubst(e1, to, g, nu);
      SortSubst(e2, to, g, nu);
    case UnaryOp(_, e1) =>
      SortSubst(e1, to, g, nu);
  }

  lemma WfSubst(p: Pred, to: Expr, g: Scope, nu: Option<Sort>, kvars: seq<seq<Sort>>)
    requires WfPred(p, g, SortOf(to, g, nu), kvars)
    ensures WfPred(SubstPred(p, to), g, nu, kvars)
  {
    match p
    case KVar(_, args) =>
      forall i | 0 <= i < |args| ensures SortOf(Subst(args[i], to), g, nu) == SortOf(args[i], g, SortOf(to, g, nu)) {
        SortSubst(args[i], to, g, nu);
      }
    case Expr(e) => SortSubst(e, to, g, nu);
  }

  /** An expression that is well-sorted without a bound variable does not mention it. */
  lemma {:induction false} SortedHasNoBound(e: Expr, g: Scope)
    requires SortOf(e, g, None).Some?
    ensures !HasBound(e)
  {
    match e
    case Var(_) =>
    case Constant(_) =>
    case BinaryOp(_, e1, e2) =>
      SortedHasNoBound(e1, g);
      SortedHasNoBound(e2, g);
    case UnaryOp(_, e1) =>
      SortedHasNoBound(e1, g);
  }

  // ----- growing the scope -----

  /** `g1` keeps every binding of `g0`. */
  ghost predicate Extends(g0: Scope, g1: Scope) {
    forall x :: x in g0 ==> x in g1 && g1[x] == g0[x]
  }

  /** The names in scope were generated before `gen`. */
  ghost predicate Below(g: Scope, gen: nat) {
    forall x :: x in g ==> x < gen
  }

  /** The environments agree on every name in scope. */
  ghost predicate Agree(g: Scope, env0: Env, env1: Env) {
    forall x :: x in g ==> x in env0 && x in env1 && env0[x] == env1[x]
  }

  lemma {:induction false} SortExtends(e: Expr, g0: Scope, g1: Scope, nu: Option<Sort>)
    requires Extends(g0, g1) && SortOf(e, g0, nu).Some?
    ensures SortOf(e, g1, nu) == SortOf(e, g0, nu)
  {
    match e
    case Var(_) =>
    case Constant(_) =>
    case BinaryOp(_, e1, e2) =>
      SortExtends(e1, g0, g1, nu);
      SortExtends(e2, g0, g1, nu);
    case UnaryOp(_, e1) =>
      SortExtends(e1, g0, g1, nu);
  }

  /** Giving the bound variable a sort does not disturb an expression that does without. */
  lemma {:induction false} SortIgnoresNu(e: Expr, g: Scope, nu: Option<Sort>)
    requires SortOf(e, g, None).Some?
    ensures SortOf(e, g, nu) == SortOf(e, g, None)
  {
    match e
    case Var(_) =>
    case Constant(_) =>
    case BinaryOp(_, e1, e2) =>
      SortIgnoresNu(e1, g, nu);
      SortIgnoresNu(e2, g, nu);
    case UnaryOp(_, e1) =>
      SortIgnoresNu(e1, g, nu);
  }

  lemma {:induction false} EvalAgree(e: Expr, g: Scope, s: Option<Sort>, env0: Env, env1: Env, nu: Option<Value>)
    requires SortOf(e, g, s).Some? && Agree(g, env0, env1)
    ensures Eval(e, env0, nu) == Eval(e, env1, nu)
  {
    match e
    case Var(_) =>
    case Constant(_) =>
    case BinaryOp(_, e1, e2) =>
      EvalAgree(e1, g, s, env0, env1, nu);
      EvalAgree(e2, g, s, env0, env1, nu);
    case UnaryOp(_, e1) =>
      EvalAgree(e1, g, s, env0, env1, nu);
  }

  lemma {:induction false} EvalAllAgree(es: seq<Expr>, g: Scope, s: Option<Sort>, env0: Env, env1: Env,
                                        nu: Option<Value>)
    requires forall i :: 0 <= i < |es| ==> SortOf(es[i], g, s).Some?
    requires Agree(g, env0, env1)
    ensures EvalAll(es, env0, nu) == EvalAll(es, env1, nu)
  {
    if es == [] {
    } else {
      EvalAgree(es[0], g, s, env0, env1, nu);
      EvalAllAgree(es[1..], g, s, env0, env1, nu);
    }
  }

  lemma PredAgree(p: Pred, g: Scope, s: Option<Sort>, kvars: seq<seq<Sort>>, env0: Env, env1: Env,
                  nu: Option<Value>, k: Interp)
    requires WfPred(p, g, s, kvars) && Agree(g, env0, env1)
    ensures HoldsPred(p, env0, nu, k) <==> HoldsPred(p, env1, nu, k)
  {
    match p
    case KVar(_, args) => EvalAllAgree(args, g, s, env0, env1, nu);
    case Expr(e) => EvalAgree(e, g, s, env0, env1, nu);
  }

  lemma WfPredExtends(p: Pred, g0: Scope, g1: Scope, nu: Option<Sort>, kvars0: seq<seq<Sort>>, kvars1: seq<seq<Sort>>)
    requires WfPred(p, g0, nu, kvars0) && Extends(g0, g1) && kvars0 <= kvars1
    ensures WfPred(p, g1, nu, kvars1)
  {
    match p
    case KVar(_, args) =>
      forall i | 0 <= i < |args| ensures SortOf(args[i], g1, nu) == SortOf(args[i], g0, nu) {
        SortExtends(args[i], g0, g1, nu);
      }
    case Expr(e) => SortExtends(e, g0, g1, nu);
  }
}
