/** How expressions are printed for the solver, and what a reader with left-associative binary
    operators on seven levels of precedence makes of the printed tokens. */
module Printer {
  import opened Logic
  import F = Fixpoint

  /** Subtraction and negation are written with the same token. */
  datatype Token = TVar(name: Name) | TNum(n: nat) | TBool(b: bool) | TOp(op: BinOp) | TTilde | TOpen | TClose

  // ----- precedence -----

  /** From 1, binding least, to 7. */
  function Precedence(op: BinOp): (l: nat)
    ensures 1 <= l <= 7
  {
    match op
    case Iff => 1
    case Imp => 2
    case Or => 3
    case And => 4
    case Eq | Ne | Gt | Ge | Lt | Le => 5
    case Add | Sub => 6
    case Mul | Div => 7
  }

  predicate Associative(op: BinOp) {
    Precedence(op) != 2 && Precedence(op) != 5
  }

  const ATOM := 8

  function Level(e: F.Expr): (l: nat)
    ensures 1 <= l <= ATOM
  {
    if e.BinaryOp? then Precedence(e.bop) else ATOM
  }

  // ----- printing -----

  predicate ShouldParenthesize(op: BinOp, child: F.Expr) {
    child.BinaryOp? &&
    (Precedence(child.bop) < Precedence(op) || (Precedence(child.bop) == Precedence(op) && !Associative(op)))
  }

  function PrintConstant(c: Constant): seq<Token> {
    match c
    case IntConst(Positive, n) => [TNum(n)]
    case IntConst(Negative, n) => [TOp(Sub), TNum(n)]
    case BoolConst(b) => [TBool(b)]
  }

  function PrintUnOp(op: UnOp): Token {
    if op.Not? then TTilde else TOp(Sub)
  }

  function Print(e: F.Expr): seq<Token> {
    match e
    case Var(x) => [TVar(x)]
    case Constant(c) => PrintConstant(c)
    case BinaryOp(op, e1, e2) =>
      Enclosed(Print(e1), ShouldParenthesize(op, e1)) + [TOp(op)] + Enclosed(Print(e2), ShouldParenthesize(op, e2))
    case UnaryOp(op, e1) =>
      [PrintUnOp(op)] + Enclosed(Print(e1), !e1.Constant? && !e1.Var?)
  }

  function Enclosed(ts: seq<Token>, parens: bool): seq<Token> {
    if parens then [TOpen] + ts + [TClose] else ts
  }

  // ----- reading -----

  type Parsed = Option<(F.Expr, seq<Token>)>

  /** The grammar: the binary operators of each level, from the ones that bind least. */
  predicate AtLevel(op: BinOp, l: nat) {
    match l
    case 1 => op.Iff?
    case 2 => op.Imp?
    case 3 => op.Or?
    case 4 => op.And?
    case 5 => op.Eq? || op.Ne? || op.Lt? || op.Le? || op.Gt? || op.Ge?
    case 6 => op.Add? || op.Sub?
    case 7 => op.Mul? || op.Div?
    case _ => false
  }

  /** An expression of operators of level `l` and above, and the remaining tokens. */
  function Parse(l: nat, ts: seq<Token>): (r: Parsed)
    ensures r.Some? ==> |r.value.1| < |ts|
    decreases |ts|, if l < ATOM then ATOM + 1 - l else 1
  {
    if l >= ATOM then ParseAtom(ts)
    else
      match Parse(l + 1, ts)
      case Some((e, rest)) => ParseTail(l, e, rest)
      case None => None
  }

  /** Operators of level `l` apply from left to right. */
  function ParseTail(l: nat, left: F.Expr, ts: seq<Token>): (r: Parsed)
    ensures r.Some? ==> |r.value.1| <= |ts|
    decreases |ts|, 0
  {
    if StartsWith(ts, l) then
      match Parse(l + 1, ts[1..])
      case Some((e, rest)) => ParseTail(l, F.BinaryOp(ts[0].op, left, e), rest)
      case None => None
    else Some((left, ts))
  }

  /** Parentheses are printed around operands of a lower level, and of the same level for implication and
      comparisons; nowhere else. */
  lemma ParenthesesIff(op: BinOp, o: BinOp, x: F.Expr, y: F.Expr, l: nat, m: nat)
    requires AtLevel(op, l) && AtLevel(o, m)
    ensures ShouldParenthesize(op, F.BinaryOp(o, x, y)) <==> m < l || (m == l && (op.Imp? || AtLevel(op, 5)))
  {
    PrecedenceIsLevel(op, l);
    PrecedenceIsLevel(o, m);
  }

  predicate StartsWith(ts: seq<Token>, l: nat) {
    ts != [] && ts[0].TOp? && AtLevel(ts[0].op, l)
  }

  /** The printer's table agrees with the grammar. */
  lemma PrecedenceIsLevel(op: BinOp, l: nat)
    ensures AtLevel(op, l) <==> Precedence(op) == l
  {
  }

  function ParseAtom(ts: seq<Token>): (r: Parsed)
    ensures r.Some? ==> |r.value.1| < |ts|
    decreases |ts|, 0
  {
    if ts == [] then None
    else
      match ts[0]
      case TVar(x) => Some((F.Var(x), ts[1..]))
      case TNum(n) => Some((F.Constant(IntConst(Positive, n)), ts[1..]))
      case TBool(b) => Some((F.Constant(BoolConst(b)), ts[1..]))
      case TTilde => Negated(Not, ParseAtom(ts[1..]))
      case TOp(op) => if op.Sub? then Negated(Neg, ParseAtom(ts[1..])) else None
      case TOpen =>
        (match Parse(1, ts[1..])
         case Some((e, rest)) => if rest != [] && rest[0].TClose? then Some((e, rest[1..])) else None
         case None => None)
      case TClose => None
  }

  function Negated(op: UnOp, r: Parsed): Parsed {
    match r
    case Some((e, rest)) => Some((F.UnaryOp(op, e), rest))
    case None => None
  }

  function Read(ts: seq<Token>): Option<F.Expr> {
    match Parse(1, ts)
    case Some((e, rest)) => if rest == [] then Some(e) else None
    case None => None
  }

  // ----- what is read back -----

  /** `left op t`, where the operators of the same level in `t` apply after `op`. */
  function Graft(left: F.Expr, op: BinOp, t: F.Expr): F.Expr {
    if t.BinaryOp? && Precedence(t.bop) == Precedence(op) then F.BinaryOp(t.bop, Graft(left, op, t.e1), t.e2)
    else F.BinaryOp(op, left, t)
  }

  /** The expression with its chains of equal precedence associated to the left, and its negative
      constants written as negations. */
  function Leftmost(e: F.Expr): F.Expr {
    match e
    case Var(_) => e
    case Constant(IntConst(Negative, n)) => F.UnaryOp(Neg, F.Constant(IntConst(Positive, n)))
    case Constant(_) => e
    case UnaryOp(op, e1) => F.UnaryOp(op, Leftmost(e1))
    case BinaryOp(op, e1, e2) =>
      if Associative(op) then Graft(Leftmost(e1), op, Leftmost(e2)) else F.BinaryOp(op, Leftmost(e1), Leftmost(e2))
  }

  lemma GraftAt(left: F.Expr, op: BinOp, t: F.Expr)
    ensures Graft(left, op, t) ==
            if t.BinaryOp? && Precedence(t.bop) == Precedence(op) then F.BinaryOp(t.bop, Graft(left, op, t.e1), t.e2)
            else F.BinaryOp(op, left, t)
  {
  }

  lemma {:induction false} GraftTwice(left: F.Expr, op: BinOp, x: F.Expr, o: BinOp, y: F.Expr)
    requires Precedence(op) == Precedence(o)
    ensures Graft(left, op, Graft(x, o, y)) == Graft(Graft(left, op, x), o, y)
  {
    GraftAt(x, o, y);
    GraftAt(left, op, Graft(x, o, y));
    GraftAt(Graft(left, op, x), o, y);
    if y.BinaryOp? && Precedence(y.bop) == Precedence(o) {
      GraftTwice(left, op, x, o, y.e1);
    }
  }

  lemma {:induction false} GraftLevel(left: F.Expr, op: BinOp, t: F.Expr)
    ensures Level(Graft(left, op, t)) == Precedence(op)
  {
    if t.BinaryOp? && Precedence(t.bop) == Precedence(op) {
      GraftLevel(left, op, t.e1);
    }
  }

  lemma LeftmostLevel(e: F.Expr)
    ensures Level(Leftmost(e)) == Level(e)
  {
    if e.BinaryOp? {
      GraftLevel(Leftmost(e.e1), e.bop, Leftmost(e.e2));
    }
  }

  /** No operator above level `l` comes next. */
  predicate NoneAbove(rest: seq<Token>, l: nat) {
    rest != [] && rest[0].TOp? ==> Precedence(rest[0].op) <= l
  }

  function ShownLevel(e: F.Expr, parens: bool): nat {
    if parens then ATOM else Level(e)
  }

  /** Reading a printed expression at a level not above its own continues with its left-associated form. */
  lemma {:induction false} ParsePrint(e: F.Expr, parens: bool, l: nat, rest: seq<Token>)
    requires 1 <= l <= ShownLevel(e, parens) && NoneAbove(rest, l)
    ensures Parse(l, Enclosed(Print(e), parens) + rest) ==
            if l < ATOM then ParseTail(l, Leftmost(e), rest) else Some((Leftmost(e), rest))
    decreases e, parens, ATOM - l, 0
  {
    if l < ShownLevel(e, parens) {
      ParsePrint(e, parens, l + 1, rest);
      ParseDown(l, Enclosed(Print(e), parens) + rest, Leftmost(e), rest);
    } else if parens {
      ParsePrint(e, false, 1, [TClose] + rest);
      ParseEnclosed(Print(e), rest, Leftmost(e));
    } else {
      match e
      case Var(_) =>
      case Constant(c) => AtomConstant(c, rest);
      case UnaryOp(op, e1) =>
        var parens1 := !e1.Constant? && !e1.Var?;
        ParsePrint(e1, parens1, ATOM, rest);
        ParseUnary(op, Enclosed(Print(e1), parens1), rest, Leftmost(e1));
      case BinaryOp(op, e1, e2) =>
        PrintBinary(e, rest);
        ParsePrint(e1, ShouldParenthesize(op, e1), l, RightPart(e, rest));
        TailPrint(Leftmost(e1), op, e2, ShouldParenthesize(op, e2), rest);
    }
  }

  /** An operand of the level above, when no operator of that level follows. */
  lemma ParseDown(l: nat, ts: seq<Token>, e: F.Expr, rest: seq<Token>)
    requires l < ATOM && NoneAbove(rest, l)
    requires Parse(l + 1, ts) == if l + 1 < ATOM then ParseTail(l + 1, e, rest) else Some((e, rest))
    ensures Parse(l, ts) == ParseTail(l, e, rest)
  {
    if rest != [] && rest[0].TOp? { PrecedenceIsLevel(rest[0].op, l + 1); }
  }

  lemma ParseEnclosed(ts: seq<Token>, rest: seq<Token>, e: F.Expr)
    requires Parse(1, ts + ([TClose] + rest)) == Some((e, [TClose] + rest))
    ensures Parse(ATOM, Enclosed(ts, true) + rest) == Some((e, rest))
  {
    var all := Enclosed(ts, true) + rest;
    assert all[1..] == ts + ([TClose] + rest);
    assert ([TClose] + rest)[1..] == rest;
  }

  lemma ParseUnary(op: UnOp, ts: seq<Token>, rest: seq<Token>, e: F.Expr)
    requires Parse(ATOM, ts + rest) == Some((e, rest))
    ensures Parse(ATOM, ([PrintUnOp(op)] + ts) + rest) == Some((F.UnaryOp(op, e), rest))
  {
    var all := ([PrintUnOp(op)] + ts) + rest;
    assert all[1..] == ts + rest;
  }

  lemma ParseNext(left: F.Expr, op: BinOp, ts: seq<Token>, rest: seq<Token>, e: F.Expr)
    requires Parse(Precedence(op) + 1, ts + rest) == Some((e, rest))
    ensures ParseTail(Precedence(op), left, ([TOp(op)] + ts) + rest) ==
            ParseTail(Precedence(op), F.BinaryOp(op, left, e), rest)
  {
    var all := ([TOp(op)] + ts) + rest;
    assert all[1..] == ts + rest;
  }

  /** The operator and the right operand of a printed binary operation. */
  function RightPart(e: F.Expr, rest: seq<Token>): seq<Token>
    requires e.BinaryOp?
  {
    [TOp(e.bop)] + Enclosed(Print(e.e2), ShouldParenthesize(e.bop, e.e2)) + rest
  }

  lemma PrintBinary(e: F.Expr, rest: seq<Token>)
    requires e.BinaryOp?
    ensures Print(e) + rest == Enclosed(Print(e.e1), ShouldParenthesize(e.bop, e.e1)) + RightPart(e, rest)
  {
    var a, c := Enclosed(Print(e.e1), ShouldParenthesize(e.bop, e.e1)),
      Enclosed(Print(e.e2), ShouldParenthesize(e.bop, e.e2));
    Regroup(a, [TOp(e.bop)], c, rest);
  }

  lemma Regroup(a: seq<Token>, b: seq<Token>, c: seq<Token>, d: seq<Token>)
    ensures (a + b + c) + d == a + (b + c + d)
    ensures (b + c) + d == b + (c + d)
  {
  }

  lemma AtomConstant(c: Constant, rest: seq<Token>)
    ensures ParseAtom(PrintConstant(c) + rest) == Some((Leftmost(F.Constant(c)), rest))
  {
    var ts := PrintConstant(c) + rest;
    if c.IntConst? && c.sign.Negative? {
      assert ts[1..] == [TNum(c.magnitude)] + rest;
      assert ts[1..][1..] == rest;
    } else {
      assert ts[1..] == rest;
    }
  }

  lemma TailSplit(op: BinOp, e: F.Expr, rest: seq<Token>)
    requires e.BinaryOp?
    ensures [TOp(op)] + Print(e) + rest ==
            [TOp(op)] + Enclosed(Print(e.e1), ShouldParenthesize(e.bop, e.e1)) + RightPart(e, rest)
  {
    PrintBinary(e, rest);
    Regroup([], [TOp(op)], Print(e), rest);
    Regroup([], [TOp(op)], Enclosed(Print(e.e1), ShouldParenthesize(e.bop, e.e1)), RightPart(e, rest));
  }

  /** After an operator, its printed right operand is grafted onto what has been read. */
  lemma {:induction false} TailPrint(left: F.Expr, op: BinOp, e: F.Expr, parens: bool, rest: seq<Token>)
    requires parens == ShouldParenthesize(op, e) && NoneAbove(rest, Precedence(op))
    ensures ParseTail(Precedence(op), left, [TOp(op)] + Enclosed(Print(e), parens) + rest) ==
            ParseTail(Precedence(op), if Associative(op) then Graft(left, op, Leftmost(e))
                      else F.BinaryOp(op, left, Leftmost(e)), rest)
    decreases e, parens, ATOM, 1
  {
    var l := Precedence(op);
    LeftmostLevel(e);
    if l < ShownLevel(e, parens) {
      ParsePrint(e, parens, l + 1, rest);
      ParseNext(left, op, Enclosed(Print(e), parens), rest, Leftmost(e));
      GraftAt(left, op, Leftmost(e));
    } else {
      var o, x, y := e.bop, e.e1, e.e2;
      var px := ShouldParenthesize(o, x);
      TailSplit(op, e, rest);
      TailPrint(left, op, x, px, RightPart(e, rest));
      TailPrint(Graft(left, op, Leftmost(x)), o, y, ShouldParenthesize(o, y), rest);
      GraftTwice(left, op, Leftmost(x), o, Leftmost(y));
    }
  }

  /** Whatever is printed, the grammar reads back with its chains associated to the left. */
  lemma ReadPrint(e: F.Expr)
    ensures Read(Print(e)) == Some(Leftmost(e))
  {
    assert Print(e) + [] == Print(e);
    ParsePrint(e, false, 1, []);
  }

  // ----- when the value is the same -----

  /** `a op (b o c)` may be written without parentheses. */
  predicate Reassociates(op: BinOp, o: BinOp) {
    op != Sub && op != Div && !(op == Mul && o == Div)
  }

  function Both(o: BinOp, op: BinOp, v1: Option<Value>, v2: Option<Value>, v3: Option<Value>): Option<Value> {
    EvalBinOp(o, EvalBinOp(op, v1, v2), v3)
  }

  /** For operators of one level that are printed without parentheses, this is exactly when
      applying them from left to right makes no difference, whatever the operands. */
  lemma ReassociatesIff(op: BinOp, o: BinOp)
    requires Precedence(op) == Precedence(o) && Associative(op)
    ensures Reassociates(op, o) <==>
            forall v1, v2, v3 :: Both(o, op, v1, v2, v3) == EvalBinOp(op, v1, EvalBinOp(o, v2, v3))
  {
    if Reassociates(op, o) {
      forall v1, v2, v3 ensures Both(o, op, v1, v2, v3) == EvalBinOp(op, v1, EvalBinOp(o, v2, v3)) {
        ReassociatesAt(op, o, v1, v2, v3);
      }
    } else {
      var a, b, c := Differs(op, o);
      assert Both(o, op, Some(IntVal(a)), Some(IntVal(b)), Some(IntVal(c))) !=
             EvalBinOp(op, Some(IntVal(a)), EvalBinOp(o, Some(IntVal(b)), Some(IntVal(c))));
    }
  }

  /** Operands on which the order of the operators matters. */
  lemma Differs(op: BinOp, o: BinOp) returns (a: int, b: int, c: int)
    requires Precedence(op) == Precedence(o) && Associative(op) && !Reassociates(op, o)
    ensures EvalBinOp(o, EvalBinOp(op, Some(IntVal(a)), Some(IntVal(b))), Some(IntVal(c))) !=
            EvalBinOp(op, Some(IntVal(a)), EvalBinOp(o, Some(IntVal(b)), Some(IntVal(c))))
  {
    if op == Sub {
      a, b, c := 1, 1, 1;
    } else if op == Mul {
      a, b, c := 2, 1, 2;
      assert Quotient(1, 2) == 0 && Quotient(2, 2) == 1;
    } else if o == Mul {
      a, b, c := 8, 2, 2;
      assert Quotient(8, 2) == 4 && Quotient(8, 4) == 2;
    } else {
      a, b, c := 8, 2, 2;
      assert Quotient(8, 2) == 4 && Quotient(4, 2) == 2 && Quotient(2, 2) == 1 && Quotient(8, 1) == 8;
    }
  }

  lemma ReassociatesAt(op: BinOp, o: BinOp, v1: Option<Value>, v2: Option<Value>, v3: Option<Value>)
    requires Precedence(op) == Precedence(o) && Associative(op) && Reassociates(op, o)
    ensures EvalBinOp(o, EvalBinOp(op, v1, v2), v3) == EvalBinOp(op, v1, EvalBinOp(o, v2, v3))
  {
    if op == Mul && v1.Some? && v2.Some? && v3.Some? && v1.value.IntVal? && v2.value.IntVal? && v3.value.IntVal? {
      assert (v1.value.n * v2.value.n) * v3.value.n == v1.value.n * (v2.value.n * v3.value.n);
    }
  }

  /** The operators of level `l` in the unparenthesised chain at the top of an expression. */
  function ChainOps(e: F.Expr, l: nat): set<BinOp> {
    if e.BinaryOp? && Precedence(e.bop) == l then ChainOps(e.e1, l) + {e.bop} + ChainOps(e.e2, l) else {}
  }

  /** Below no operator is there an unparenthesised right operand with which it does not reassociate. */
  predicate Faithful(e: F.Expr) {
    match e
    case BinaryOp(op, e1, e2) =>
      && Faithful(e1) && Faithful(e2)
      && (Associative(op) ==> forall o | o in ChainOps(e2, Precedence(op)) :: Reassociates(op, o))
    case UnaryOp(_, e1) => Faithful(e1)
    case _ => true
  }

  lemma {:induction false} GraftOps(left: F.Expr, op: BinOp, t: F.Expr)
    ensures ChainOps(Graft(left, op, t), Precedence(op)) ==
            ChainOps(left, Precedence(op)) + {op} + ChainOps(t, Precedence(op))
  {
    if t.BinaryOp? && Precedence(t.bop) == Precedence(op) {
      GraftOps(left, op, t.e1);
    }
  }

  lemma {:induction false} LeftmostOps(e: F.Expr, l: nat)
    requires l != 2 && l != 5
    ensures ChainOps(Leftmost(e), l) == ChainOps(e, l)
  {
    LeftmostLevel(e);
    if e.BinaryOp? && Precedence(e.bop) == l {
      LeftmostOps(e.e1, l);
      LeftmostOps(e.e2, l);
      GraftOps(Leftmost(e.e1), e.bop, Leftmost(e.e2));
    }
  }

  lemma {:induction false} GraftValue(left: F.Expr, op: BinOp, t: F.Expr, env: Env)
    requires Associative(op) && forall o | o in ChainOps(t, Precedence(op)) :: Reassociates(op, o)
    ensures F.Eval(Graft(left, op, t), env) == EvalBinOp(op, F.Eval(left, env), F.Eval(t, env))
  {
    if t.BinaryOp? && Precedence(t.bop) == Precedence(op) {
      GraftValue(left, op, t.e1, env);
      ReassociatesAt(op, t.bop, F.Eval(left, env), F.Eval(t.e1, env), F.Eval(t.e2, env));
    }
  }

  lemma {:induction false} LeftmostValue(e: F.Expr, env: Env)
    requires Faithful(e)
    ensures F.Eval(Leftmost(e), env) == F.Eval(e, env)
  {
    match e
    case Var(_) =>
    case Constant(_) =>
    case UnaryOp(_, e1) => LeftmostValue(e1, env);
    case BinaryOp(op, e1, e2) =>
      LeftmostValue(e1, env);
      LeftmostValue(e2, env);
      if Associative(op) {
        LeftmostOps(e2, Precedence(op));
        GraftValue(Leftmost(e1), op, Leftmost(e2), env);
      }
  }

  /** Printing and reading back keeps the value of every faithfully printed expression. */
  lemma RoundTrip(e: F.Expr, env: Env)
    requires Faithful(e)
    ensures Read(Print(e)).Some? && F.Eval(Read(Print(e)).value, env) == F.Eval(e, env)
  {
    ReadPrint(e);
    LeftmostValue(e, env);
  }

  /** A division further down the chain of a product's right operand is enough to change the
      value: 2 * (3 / 2 * 1) is printed as 2 * 3 / 2 * 1. */
  lemma InnerDivision()
    ensures var n := (m: nat) => F.Constant(IntConst(Positive, m));
            var e := F.BinaryOp(Mul, n(2), F.BinaryOp(Mul, F.BinaryOp(Div, n(3), n(2)), n(1)));
            && F.Eval(e, map[]) == Some(IntVal(2))
            && Read(Print(e)).Some? && F.Eval(Read(Print(e)).value, map[]) == Some(IntVal(3))
  {
    var n := (m: nat) => F.Constant(IntConst(Positive, m));
    var e := F.BinaryOp(Mul, n(2), F.BinaryOp(Mul, F.BinaryOp(Div, n(3), n(2)), n(1)));
    ReadPrint(e);
    var inner := F.BinaryOp(Div, n(3), n(2));
    assert Leftmost(inner) == inner;
    assert Leftmost(F.BinaryOp(Mul, inner, n(1))) == F.BinaryOp(Mul, inner, n(1));
    var read := F.BinaryOp(Mul, F.BinaryOp(Div, F.BinaryOp(Mul, n(2), n(3)), n(2)), n(1));
    assert Graft(n(2), Mul, inner) == F.BinaryOp(Div, F.BinaryOp(Mul, n(2), n(3)), n(2));
    assert Leftmost(e) == read;
    assert Quotient(3, 2) == 1 && Quotient(6, 2) == 3;
    assert F.Eval(F.BinaryOp(Mul, n(2), n(3)), map[]) == Some(IntVal(6));
    assert F.Eval(F.BinaryOp(Div, F.BinaryOp(Mul, n(2), n(3)), n(2)), map[]) == Some(IntVal(3));
    assert F.Eval(inner, map[]) == Some(IntVal(1));
    assert F.Eval(F.BinaryOp(Mul, inner, n(1)), map[]) == Some(IntVal(1));
  }
}
