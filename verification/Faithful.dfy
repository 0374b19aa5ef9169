/** Faithful printing is also necessary: with a variable of its own at every leaf, an expression that
    is not printed faithfully changes its value in some environment. */
module FaithfulPrinting {
  import opened Logic
  import opened Printer
  import F = Fixpoint

  function Names(e: F.Expr): set<Name> {
    match e
    case Var(x) => {x}
    case Constant(_) => {}
    case BinaryOp(_, e1, e2) => Names(e1) + Names(e2)
    case UnaryOp(_, e1) => Names(e1)
  }

  /** Every leaf is a variable of its own. */
  predicate Linear(e: F.Expr) {
    match e
    case Var(_) => true
    case Constant(_) => false
    case BinaryOp(_, e1, e2) => Linear(e1) && Linear(e2) && Names(e1) !! Names(e2)
    case UnaryOp(_, e1) => Linear(e1)
  }

  lemma {:induction false} EvalLocal(e: F.Expr, env0: Env, env1: Env)
    requires forall x :: x in Names(e) ==> x in env0 && x in env1 && env0[x] == env1[x]
    ensures F.Eval(e, env0) == F.Eval(e, env1)
  {
    match e
    case Var(_) =>
    case Constant(_) =>
    case BinaryOp(_, e1, e2) =>
      EvalLocal(e1, env0, env1);
      EvalLocal(e2, env0, env1);
    case UnaryOp(_, e1) =>
      EvalLocal(e1, env0, env1);
  }

  lemma {:induction false} GraftNames(left: F.Expr, op: BinOp, t: F.Expr)
    ensures Names(Graft(left, op, t)) == Names(left) + Names(t)
  {
    if t.BinaryOp? && Precedence(t.bop) == Precedence(op) {
      GraftNames(left, op, t.e1);
    }
  }

  lemma {:induction false} LeftmostNames(e: F.Expr)
    ensures Names(Leftmost(e)) == Names(e)
  {
    match e
    case Var(_) =>
    case Constant(_) =>
    case UnaryOp(_, e1) => LeftmostNames(e1);
    case BinaryOp(op, e1, e2) =>
      LeftmostNames(e1);
      LeftmostNames(e2);
      GraftNames(Leftmost(e1), op, Leftmost(e2));
  }

  /** An expression and its left-associated form in environments for separate operands, put together. */
  lemma Merged(e: F.Expr, env: Env, other: Env)
    requires env.Keys == Names(e) && env.Keys !! other.Keys
    ensures F.Eval(e, env + other) == F.Eval(e, env) && F.Eval(Leftmost(e), env + other) == F.Eval(Leftmost(e), env)
    ensures F.Eval(e, other + env) == F.Eval(e, env) && F.Eval(Leftmost(e), other + env) == F.Eval(Leftmost(e), env)
  {
    LeftmostNames(e);
    EvalLocal(e, env + other, env);
    EvalLocal(e, other + env, env);
    EvalLocal(Leftmost(e), env + other, env);
    EvalLocal(Leftmost(e), other + env, env);
  }

  // ----- neutral operands -----

  /** The right operand that leaves the left one alone, for every operator of a level. */
  function Neutral(l: nat): Value {
    if l == 7 then IntVal(1) else if l == 6 then IntVal(0) else BoolVal(l != 3)
  }

  predicate IsAssociative(l: nat) {
    l != 2 && l != 5 && l != ATOM
  }

  lemma NeutralRight(op: BinOp, v: Value)
    requires Associative(op) && SortOfBinOp(op, SortOfValue(v), SortOfValue(v)).Some?
    ensures EvalBinOp(op, Some(v), Some(Neutral(Precedence(op)))) == Some(v)
  {
  }

  /** A left-associated chain whose first operand has the value `w` and whose others are neutral. */
  predicate Spine(t: F.Expr, l: nat, env: Env, w: Value) {
    if t.BinaryOp? && Precedence(t.bop) == l then Spine(t.e1, l, env, w) && F.Eval(t.e2, env) == Some(Neutral(l))
    else F.Eval(t, env) == Some(w)
  }

  predicate OfLevel(l: nat, w: Value) {
    if l >= 6 then w.IntVal? else w.BoolVal?
  }

  lemma {:induction false} SpineValue(t: F.Expr, l: nat, env: Env, w: Value)
    requires Spine(t, l, env, w) && IsAssociative(l) && OfLevel(l, w)
    ensures F.Eval(t, env) == Some(w)
  {
    if t.BinaryOp? && Precedence(t.bop) == l {
      SpineValue(t.e1, l, env, w);
      NeutralRight(t.bop, w);
    }
  }

  lemma {:induction false} SpineLocal(t: F.Expr, l: nat, env0: Env, env1: Env, w: Value)
    requires Spine(t, l, env0, w) && forall x :: x in Names(t) ==> x in env0 && x in env1 && env0[x] == env1[x]
    ensures Spine(t, l, env1, w)
  {
    EvalLocal(t, env0, env1);
    if t.BinaryOp? && Precedence(t.bop) == l {
      SpineLocal(t.e1, l, env0, env1, w);
      EvalLocal(t.e2, env0, env1);
    }
  }

  /** Grafting a chain that is neutral throughout. */
  lemma {:induction false} GraftSpine(left: F.Expr, op: BinOp, t: F.Expr, env: Env, w: Value)
    requires Spine(left, Precedence(op), env, w) && Spine(t, Precedence(op), env, Neutral(Precedence(op)))
    ensures Spine(Graft(left, op, t), Precedence(op), env, w)
  {
    if t.BinaryOp? && Precedence(t.bop) == Precedence(op) {
      GraftSpine(left, op, t.e1, env, w);
    }
  }

  /** Grafting a chain of which only the first operand matters. */
  lemma {:induction false} GraftHead(left: F.Expr, op: BinOp, t: F.Expr, env: Env, v: Value)
    requires Associative(op) && Spine(t, Precedence(op), env, v) && OfLevel(Precedence(op), v)
    ensures F.Eval(Graft(left, op, t), env) == EvalBinOp(op, F.Eval(left, env), Some(v))
  {
    if t.BinaryOp? && Precedence(t.bop) == Precedence(op) {
      GraftHead(left, op, t.e1, env, v);
      var r := EvalBinOp(op, F.Eval(left, env), Some(v));
      if r.Some? { NeutralRight(t.bop, r.value); }
    }
  }

  // ----- every value is attained -----

  /** Both forms have the value; as part of a longer chain, only the first operand contributes it. */
  predicate Calm(e: F.Expr, env: Env, w: Value) {
    && env.Keys == Names(e)
    && F.Eval(e, env) == Some(w) && F.Eval(Leftmost(e), env) == Some(w)
    && (IsAssociative(Level(e)) ==> Spine(Leftmost(e), Level(e), env, w))
  }

  lemma CalmAt(e: F.Expr, env: Env, w: Value, l: nat)
    requires Calm(e, env, w) && IsAssociative(l)
    ensures Spine(Leftmost(e), l, env, w)
  {
    LeftmostLevel(e);
  }

  lemma CalmMerged(e: F.Expr, env: Env, other: Env, w: Value, l: nat)
    requires Calm(e, env, w) && env.Keys !! other.Keys && IsAssociative(l)
    ensures Spine(Leftmost(e), l, env + other, w) && Spine(Leftmost(e), l, other + env, w)
  {
    CalmAt(e, env, w, l);
    LeftmostNames(e);
    SpineLocal(Leftmost(e), l, env, env + other, w);
    SpineLocal(Leftmost(e), l, env, other + env, w);
  }

  /** Operands for which an operator that is not associative has the value. */
  function Operands(op: BinOp, s: Sort, b: bool): (r: (Value, Value))
    requires !Associative(op) && SortOfBinOp(op, s, s).Some?
    ensures SortOfValue(r.0) == s && SortOfValue(r.1) == s
    ensures EvalBinOp(op, Some(r.0), Some(r.1)) == Some(BoolVal(b))
  {
    match op
    case Imp => (BoolVal(true), BoolVal(b))
    case Eq => if s.Int? then (IntVal(0), IntVal(if b then 0 else 1)) else (BoolVal(true), BoolVal(b))
    case Ne => if s.Int? then (IntVal(0), IntVal(if b then 1 else 0)) else (BoolVal(false), BoolVal(b))
    case Gt => (IntVal(if b then 1 else 0), IntVal(0))
    case Lt => (IntVal(0), IntVal(if b then 1 else 0))
    case Ge => (IntVal(0), IntVal(if b then 0 else 1))
    case Le => (IntVal(if b then 0 else 1), IntVal(0))
  }

  /** Every value of the sort is attained calmly. */
  lemma {:induction false} Attain(e: F.Expr, g: Scope, w: Value) returns (env: Env)
    requires Linear(e) && F.SortOf(e, g) == Some(SortOfValue(w))
    ensures Calm(e, env, w)
  {
    match e
    case Var(x) =>
      env := map[x := w];
    case UnaryOp(op, e1) =>
      env := Attain(e1, g, if w.IntVal? then IntVal(-w.n) else BoolVal(!w.b));
    case BinaryOp(op, e1, e2) =>
      if Associative(op) {
        var env1 := Attain(e1, g, w);
        var env2 := Attain(e2, g, Neutral(Precedence(op)));
        env := env1 + env2;
        Merged(e1, env1, env2);
        Merged(e2, env2, env1);
        NeutralRight(op, w);
        CalmMerged(e1, env1, env2, w, Precedence(op));
        CalmMerged(e2, env2, env1, Neutral(Precedence(op)), Precedence(op));
        GraftSpine(Leftmost(e1), op, Leftmost(e2), env, w);
        SpineValue(Leftmost(e), Precedence(op), env, w);
      } else {
        var (v1, v2) := Operands(op, F.SortOf(e1, g).value, w.b);
        var env1 := Attain(e1, g, v1);
        var env2 := Attain(e2, g, v2);
        env := env1 + env2;
        Merged(e1, env1, env2);
        Merged(e2, env2, env1);
      }
  }

  // ----- operators tell their operands apart -----

  lemma QuotientSelf(n: int)
    requires n != 0
    ensures Quotient(n, n) == 1
  {
  }

  lemma QuotientBoth(m: int, n: int)
    requires m != 0 && n != 0 && Quotient(m, n) == 1 && Quotient(n, m) == 1
    ensures m == n
  {
    var a, b := if m < 0 then -m else m, if n < 0 then -n else n;
    assert a / b == 1 && b / a == 1;
    assert a == b * (a / b) + a % b && b == a * (b / a) + b % a;
  }

  /** A left operand that makes a difference between two right ones. */
  lemma SeparatesRight(op: BinOp, s: Sort, v: Value, u: Option<Value>) returns (w: Value)
    requires SortOfBinOp(op, s, SortOfValue(v)).Some? && u != Some(v)
    ensures SortOfValue(w) == s && EvalBinOp(op, Some(w), Some(v)) != EvalBinOp(op, Some(w), u)
  {
    match op
    case Iff | Imp | And => w := BoolVal(true);
    case Or => w := BoolVal(false);
    case Eq | Ne => w := v;
    case Gt | Le => w := if u.Some? && u.value.IntVal? && u.value.n > v.n then u.value else v;
    case Lt | Ge => w := if u.Some? && u.value.IntVal? && u.value.n < v.n then u.value else v;
    case Add | Sub => w := IntVal(0);
    case Mul => w := IntVal(1);
    case Div =>
      w := v;
      if u.Some? && u.value.IntVal? {
        if v.n != 0 { QuotientSelf(v.n); }
        if u.value.n != 0 { QuotientSelf(u.value.n); }
        if v.n == 0 || (u.value.n != 0 && Quotient(v.n, u.value.n) == 1) {
          w := u.value;
          if v.n != 0 && Quotient(u.value.n, v.n) == 1 { QuotientBoth(v.n, u.value.n); }
        }
      }
  }

  lemma SeparatesLeft(op: BinOp, s: Sort, v: Value, u: Option<Value>) returns (w: Value)
    requires SortOfBinOp(op, SortOfValue(v), s).Some? && u != Some(v)
    ensures SortOfValue(w) == s && EvalBinOp(op, Some(v), Some(w)) != EvalBinOp(op, u, Some(w))
  {
    match op
    case Iff | And => w := BoolVal(true);
    case Imp | Or => w := BoolVal(false);
    case Eq | Ne => w := v;
    case Gt | Le => w := if u.Some? && u.value.IntVal? && u.value.n < v.n then u.value else v;
    case Lt | Ge => w := if u.Some? && u.value.IntVal? && u.value.n > v.n then u.value else v;
    case Add | Sub => w := IntVal(0);
    case Mul | Div => w := IntVal(1);
  }

  // ----- an operator that does not reassociate -----

  ghost predicate Within(env: Env, env': Env) {
    forall x :: x in env ==> x in env' && env'[x] == env[x]
  }

  ghost predicate ChangesAt(op: BinOp, e: F.Expr, a: int, left: F.Expr, env: Env) {
    F.Eval(left, env) == Some(IntVal(a)) ==>
      F.Eval(Graft(left, op, Leftmost(e)), env) != EvalBinOp(op, Some(IntVal(a)), F.Eval(e, env))
  }

  /** To the right of `a`, in an environment that extends this one, grafting changes the value. */
  ghost predicate Changes(op: BinOp, e: F.Expr, a: int, env: Env) {
    && env.Keys == Names(e) && F.Eval(e, env).Some? && F.Eval(e, env).value.IntVal?
    && forall left: F.Expr, env': Env | Within(env, env') :: ChangesAt(op, e, a, left, env')
  }

  lemma {:induction false} GraftChanges(op: BinOp, e: F.Expr, g: Scope, o: BinOp) returns (a: int, env: Env)
    requires Associative(op) && Linear(e) && F.SortOf(e, g).Some?
    requires o in ChainOps(e, Precedence(op)) && !Reassociates(op, o)
    ensures Changes(op, e, a, env)
  {
    var l, f, r := Precedence(op), e.e1, e.e2;
    if !Reassociates(op, e.bop) {
      var b, c;
      a, b, c := Differs(op, e.bop);
      var env1 := Attain(f, g, IntVal(b));
      var env2 := Attain(r, g, IntVal(c));
      env := env1 + env2;
      TopChanges(op, e, a, b, c, env1, env2);
    } else if o in ChainOps(f, l) {
      var env1;
      a, env1 := GraftChanges(op, f, g, o);
      var env2 := Attain(r, g, IntVal(1));
      env := env1 + env2;
      LeftChanges(e, a, env1, env2);
    } else {
      var env1 := Attain(f, g, IntVal(1));
      var env2;
      a, env2 := GraftChanges(op, r, g, o);
      env := env1 + env2;
      RightChanges(e, a, env1, env2);
    }
  }

  lemma CalmWithin(e: F.Expr, env: Env, env': Env, w: Value, l: nat)
    requires Calm(e, env, w) && Within(env, env') && IsAssociative(l)
    ensures Spine(Leftmost(e), l, env', w) && F.Eval(e, env') == Some(w)
  {
    CalmAt(e, env, w, l);
    LeftmostNames(e);
    SpineLocal(Leftmost(e), l, env, env', w);
    EvalLocal(e, env, env');
  }

  lemma TopChanges(op: BinOp, e: F.Expr, a: int, b: int, c: int, env1: Env, env2: Env)
    requires Associative(op) && e.BinaryOp? && Precedence(e.bop) == Precedence(op) >= 6
    requires Names(e.e1) !! Names(e.e2) && Calm(e.e1, env1, IntVal(b)) && Calm(e.e2, env2, IntVal(c))
    requires EvalBinOp(e.bop, EvalBinOp(op, Some(IntVal(a)), Some(IntVal(b))), Some(IntVal(c))) !=
             EvalBinOp(op, Some(IntVal(a)), EvalBinOp(e.bop, Some(IntVal(b)), Some(IntVal(c))))
    ensures Changes(op, e, a, env1 + env2)
  {
    var l, env := Precedence(op), env1 + env2;
    CalmWithin(e.e1, env1, env, IntVal(b), l);
    CalmWithin(e.e2, env2, env, IntVal(c), l);
    forall left: F.Expr, env': Env | Within(env, env') ensures ChangesAt(op, e, a, left, env') {
      CalmWithin(e.e1, env1, env', IntVal(b), l);
      CalmWithin(e.e2, env2, env', IntVal(c), l);
      GraftTwice(left, op, Leftmost(e.e1), e.bop, Leftmost(e.e2));
      GraftHead(left, op, Leftmost(e.e1), env', IntVal(b));
      GraftHead(Graft(left, op, Leftmost(e.e1)), e.bop, Leftmost(e.e2), env', IntVal(c));
    }
  }

  lemma LeftChanges(e: F.Expr, a: int, env1: Env, env2: Env)
    requires e.BinaryOp? && e.bop == Mul && Names(e.e1) !! Names(e.e2)
    requires Changes(Mul, e.e1, a, env1) && Calm(e.e2, env2, IntVal(1))
    ensures Changes(Mul, e, a, env1 + env2)
  {
    var env := env1 + env2;
    EvalLocal(e.e1, env1, env);
    CalmWithin(e.e2, env2, env, IntVal(1), 7);
    forall left: F.Expr, env': Env | Within(env, env') ensures ChangesAt(Mul, e, a, left, env') {
      EvalLocal(e.e1, env1, env');
      CalmWithin(e.e2, env2, env', IntVal(1), 7);
      assert Within(env1, env') && ChangesAt(Mul, e.e1, a, left, env');
      GraftTwice(left, Mul, Leftmost(e.e1), Mul, Leftmost(e.e2));
      GraftHead(Graft(left, Mul, Leftmost(e.e1)), Mul, Leftmost(e.e2), env', IntVal(1));
    }
  }

  lemma RightChanges(e: F.Expr, a: int, env1: Env, env2: Env)
    requires e.BinaryOp? && e.bop == Mul && Names(e.e1) !! Names(e.e2)
    requires Calm(e.e1, env1, IntVal(1)) && Changes(Mul, e.e2, a, env2)
    ensures Changes(Mul, e, a, env1 + env2)
  {
    var env := env1 + env2;
    CalmWithin(e.e1, env1, env, IntVal(1), 7);
    EvalLocal(e.e2, env2, env);
    forall left: F.Expr, env': Env | Within(env, env') ensures ChangesAt(Mul, e, a, left, env') {
      CalmWithin(e.e1, env1, env', IntVal(1), 7);
      EvalLocal(e.e2, env2, env');
      var left' := Graft(left, Mul, Leftmost(e.e1));
      GraftTwice(left, Mul, Leftmost(e.e1), Mul, Leftmost(e.e2));
      GraftHead(left, Mul, Leftmost(e.e1), env', IntVal(1));
      assert Within(env2, env') && ChangesAt(Mul, e.e2, a, left', env');
    }
  }

  // ----- the theorem -----

  /** The environment gives a value to every name, and the left-associated form has another one. */
  predicate Unfaithful(e: F.Expr, env: Env) {
    env.Keys == Names(e) && F.Eval(e, env).Some? && F.Eval(Leftmost(e), env) != F.Eval(e, env)
  }

  /** Where the operators do reassociate, the left-associated form applies the operator to those of its operands. */
  lemma LeftmostBinary(e: F.Expr, env: Env)
    requires e.BinaryOp? && forall o | o in ChainOps(e.e2, Precedence(e.bop)) :: Associative(e.bop) ==>
               Reassociates(e.bop, o)
    ensures F.Eval(Leftmost(e), env) == EvalBinOp(e.bop, F.Eval(Leftmost(e.e1), env), F.Eval(Leftmost(e.e2), env))
  {
    if Associative(e.bop) {
      LeftmostOps(e.e2, Precedence(e.bop));
      GraftValue(Leftmost(e.e1), e.bop, Leftmost(e.e2), env);
    }
  }

  lemma WitnessGraft(e: F.Expr, a: int, env1: Env, env2: Env)
    requires e.BinaryOp? && Associative(e.bop) && Precedence(e.bop) >= 6 && Names(e.e1) !! Names(e.e2)
    requires Calm(e.e1, env1, IntVal(a)) && Changes(e.bop, e.e2, a, env2)
    ensures Unfaithful(e, env1 + env2) && F.Eval(e, env1 + env2).value.IntVal?
  {
    var env := env1 + env2;
    Merged(e.e1, env1, env2);
    EvalLocal(e.e2, env2, env);
    assert Within(env2, env) && ChangesAt(e.bop, e.e2, a, Leftmost(e.e1), env);
  }

  /** The operands in environments of their own. */
  lemma WitnessOperands(e: F.Expr, env1: Env, env2: Env)
    requires e.BinaryOp? && env1.Keys == Names(e.e1) && env2.Keys == Names(e.e2) && env1.Keys !! env2.Keys
    requires forall o | o in ChainOps(e.e2, Precedence(e.bop)) :: Associative(e.bop) ==> Reassociates(e.bop, o)
    requires var v := EvalBinOp(e.bop, F.Eval(e.e1, env1), F.Eval(e.e2, env2));
             v.Some? && v != EvalBinOp(e.bop, F.Eval(Leftmost(e.e1), env1), F.Eval(Leftmost(e.e2), env2))
    ensures Unfaithful(e, env1 + env2)
    ensures F.Eval(e, env1 + env2) == EvalBinOp(e.bop, F.Eval(e.e1, env1), F.Eval(e.e2, env2))
  {
    Merged(e.e1, env1, env2);
    Merged(e.e2, env2, env1);
    LeftmostBinary(e, env1 + env2);
  }

  lemma OpSorted(op: BinOp, v1: Value, v2: Value)
    requires SortOfBinOp(op, SortOfValue(v1), SortOfValue(v2)).Some?
    ensures EvalBinOp(op, Some(v1), Some(v2)).Some?
    ensures SortOfValue(EvalBinOp(op, Some(v1), Some(v2)).value) ==
            SortOfBinOp(op, SortOfValue(v1), SortOfValue(v2)).value
  {
  }

  /** The value is of the right sort and changes. */
  ghost predicate Counterexample(e: F.Expr, g: Scope, env: Env) {
    Unfaithful(e, env) && F.SortOf(e, g) == Some(SortOfValue(F.Eval(e, env).value))
  }

  lemma WitnessLeft(e: F.Expr, g: Scope, env1: Env) returns (env: Env)
    requires e.BinaryOp? && Linear(e) && F.SortOf(e, g).Some? && Counterexample(e.e1, g, env1)
    requires forall o | o in ChainOps(e.e2, Precedence(e.bop)) :: Associative(e.bop) ==> Reassociates(e.bop, o)
    ensures Counterexample(e, g, env)
  {
    var v := F.Eval(e.e1, env1).value;
    var w := SeparatesLeft(e.bop, F.SortOf(e.e2, g).value, v, F.Eval(Leftmost(e.e1), env1));
    var env2 := Attain(e.e2, g, w);
    OpSorted(e.bop, v, w);
    WitnessOperands(e, env1, env2);
    env := env1 + env2;
  }

  lemma WitnessRight(e: F.Expr, g: Scope, env2: Env) returns (env: Env)
    requires e.BinaryOp? && Linear(e) && F.SortOf(e, g).Some? && Counterexample(e.e2, g, env2)
    requires forall o | o in ChainOps(e.e2, Precedence(e.bop)) :: Associative(e.bop) ==> Reassociates(e.bop, o)
    ensures Counterexample(e, g, env)
  {
    var v := F.Eval(e.e2, env2).value;
    var w := SeparatesRight(e.bop, F.SortOf(e.e1, g).value, v, F.Eval(Leftmost(e.e2), env2));
    var env1 := Attain(e.e1, g, w);
    OpSorted(e.bop, w, v);
    WitnessOperands(e, env1, env2);
    env := env1 + env2;
  }

  /** An expression that is not printed faithfully changes its value in some environment. */
  lemma {:induction false} Witness(e: F.Expr, g: Scope) returns (env: Env)
    requires Linear(e) && F.SortOf(e, g).Some? && !Faithful(e)
    ensures Counterexample(e, g, env)
  {
    match e
    case UnaryOp(_, e1) =>
      env := Witness(e1, g);
    case BinaryOp(op, e1, e2) =>
      if o :| o in ChainOps(e2, Precedence(op)) && Associative(op) && !Reassociates(op, o) {
        var a, env2 := GraftChanges(op, e2, g, o);
        var env1 := Attain(e1, g, IntVal(a));
        WitnessGraft(e, a, env1, env2);
        env := env1 + env2;
      } else if !Faithful(e1) {
        var env1 := Witness(e1, g);
        env := WitnessLeft(e, g, env1);
      } else {
        var env2 := Witness(e2, g);
        env := WitnessRight(e, g, env2);
      }
  }

  /** With a variable of its own at every leaf, a well-sorted expression keeps its value through
      printing and reading, in all environments, exactly when it is printed faithfully. */
  lemma FaithfulIff(e: F.Expr, g: Scope)
    requires Linear(e) && F.SortOf(e, g).Some?
    ensures Read(Print(e)).Some?
    ensures Faithful(e) <==> forall env: Env :: F.Eval(Read(Print(e)).value, env) == F.Eval(e, env)
  {
    ReadPrint(e);
    if Faithful(e) {
      forall env: Env ensures F.Eval(Read(Print(e)).value, env) == F.Eval(e, env) { LeftmostValue(e, env); }
    } else {
      var env := Witness(e, g);
      assert F.Eval(Read(Print(e)).value, env) != F.Eval(e, env);
    }
  }
}
