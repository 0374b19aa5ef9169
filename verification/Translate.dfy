/** Translation of an obligation tree to the solver's language.  The solver's kvars take names
    only, so every other argument is hoisted into a fresh binder equal to it, and subtrees
    without goals are dropped. */
module Translate {
  import opened Logic
  import opened Tree
  import F = Fixpoint

  /** A hoisted argument: its name, its sort and the equation that defines it. */
  datatype Hoisted = Hoisted(name: Name, sort: Sort, def: F.Expr)

  function ExprToFixpoint(e: Expr): F.Expr
    requires !HasBound(e)
  {
    match e
    case Var(Free(x)) => F.Expr.Var(x)
    case Constant(c) => F.Expr.Constant(c)
    case BinaryOp(op, e1, e2) => F.Expr.BinaryOp(op, ExprToFixpoint(e1), ExprToFixpoint(e2))
    case UnaryOp(op, e1) => F.Expr.UnaryOp(op, ExprToFixpoint(e1))
  }

  predicate BoundFree(p: Pred) {
    match p
    case KVar(_, args) => forall i :: 0 <= i < |args| ==> !HasBound(args[i])
    case Expr(e) => !HasBound(e)
  }

  /** Arguments left to right, paired with the declared sorts and cut at the shorter list;
      `gen` is the next fresh name. */
  function HoistArgs(args: seq<Expr>, sorts: seq<Sort>, gen: nat): (r: (seq<Hoisted>, seq<Name>, nat))
    requires forall i :: 0 <= i < |args| ==> !HasBound(args[i])
    ensures r.2 == gen + |r.0|
  {
    if args == [] || sorts == [] then ([], [], gen)
    else if IsFreeVar(args[0]) then
      var (hs, xs, gen') := HoistArgs(args[1..], sorts[1..], gen);
      (hs, [args[0].v.name] + xs, gen')
    else
      var def := F.Expr.BinaryOp(Eq, F.Expr.Var(gen), ExprToFixpoint(args[0]));
      var (hs, xs, gen') := HoistArgs(args[1..], sorts[1..], gen + 1);
      ([Hoisted(gen, sorts[0], def)] + hs, [gen] + xs, gen')
  }

  function PredToFixpoint(p: Pred, kvars: seq<seq<Sort>>, gen: nat): (r: (seq<Hoisted>, F.Pred, nat))
    requires BoundFree(p) && (p.KVar? ==> p.kvid < |kvars|)
    ensures r.2 >= gen
  {
    match p
    case Expr(e) => ([], F.Pred.Expr(ExprToFixpoint(e)), gen)
    case KVar(kvid, args) =>
      var (hs, xs, gen') := HoistArgs(args, kvars[kvid], gen);
      (hs, F.Pred.KVar(kvid, xs), gen')
  }

  /** Wrap the constraint in the hoisted binders, the first one outermost. */
  function Stitch(hs: seq<Hoisted>, c: F.Constraint): F.Constraint {
    if hs == [] then c
    else F.Constraint.ForAll(hs[0].name, hs[0].sort, F.Pred.Expr(hs[0].def), Stitch(hs[1..], c))
  }

  /** What the translation asks of a tree: it would panic otherwise. */
  ghost predicate Translatable(n: Node, kvars: seq<seq<Sort>>) {
    && (match n
        case Conj(_) => true
        case ForAll(_, _, p, _) => BoundFree(p) && (p.KVar? ==> p.kvid < |kvars|)
        case Guard(e, _) => !HasBound(e)
        case Head(p) => BoundFree(p) && (p.KVar? ==> p.kvid < |kvars|))
    && (!n.Head? ==> forall i :: 0 <= i < |n.children| ==> Translatable(n.children[i], kvars))
  }

  function NodeToFixpoint(n: Node, kvars: seq<seq<Sort>>, gen: nat): (r: (Option<F.Constraint>, nat))
    requires Translatable(n, kvars)
    ensures r.1 >= gen
    decreases n, 1
  {
    match n
    case Conj(children) => ChildrenToFixpoint(children, kvars, gen)
    case ForAll(x, s, p, children) =>
      var (hs, p', gen1) := PredToFixpoint(p, kvars, gen);
      var (c, gen2) := ChildrenToFixpoint(children, kvars, gen1);
      (if c.None? then None else Some(Stitch(hs, F.Constraint.ForAll(x, s, p', c.value))), gen2)
    case Guard(e, children) =>
      var (c, gen1) := ChildrenToFixpoint(children, kvars, gen);
      (if c.None? then None else Some(F.Constraint.Guard(ExprToFixpoint(e), c.value)), gen1)
    case Head(p) =>
      var (hs, p', gen1) := PredToFixpoint(p, kvars, gen);
      (Some(Stitch(hs, F.Constraint.Pred(p'))), gen1)
  }

  /** The translations of the nodes that have one. */
  function AllToFixpoint(ns: seq<Node>, kvars: seq<seq<Sort>>, gen: nat): (r: (seq<F.Constraint>, nat))
    requires forall i :: 0 <= i < |ns| ==> Translatable(ns[i], kvars)
    ensures r.1 >= gen
    decreases ns, 0
  {
    if ns == [] then ([], gen)
    else
      var (c, gen1) := NodeToFixpoint(ns[0], kvars, gen);
      var (cs, gen2) := AllToFixpoint(ns[1..], kvars, gen1);
      (if c.None? then cs else [c.value] + cs, gen2)
  }

  function ChildrenToFixpoint(ns: seq<Node>, kvars: seq<seq<Sort>>, gen: nat): (r: (Option<F.Constraint>, nat))
    requires forall i :: 0 <= i < |ns| ==> Translatable(ns[i], kvars)
    ensures r.1 >= gen
    decreases ns, 1
  {
    var (cs, gen1) := AllToFixpoint(ns, kvars, gen);
    (if |cs| == 0 then None else if |cs| == 1 then Some(cs[0]) else Some(F.Constraint.Conj(cs)), gen1)
  }

  function IntoFixpoint(root: Node, kvars: seq<seq<Sort>>, gen: nat): F.Constraint
    requires Translatable(root, kvars)
  {
    var c := NodeToFixpoint(root, kvars, gen).0;
    if c.None? then F.TrueConstraint() else c.value
  }

  // ----- expressions -----

  lemma {:induction false} ExprMeaning(e: Expr, env: Env)
    requires !HasBound(e)
    ensures F.Eval(ExprToFixpoint(e), env) == Eval(e, env, None)
  {
    match e
    case Var(_) =>
    case Constant(_) =>
    case BinaryOp(_, e1, e2) =>
      ExprMeaning(e1, env);
      ExprMeaning(e2, env);
    case UnaryOp(_, e1) =>
      ExprMeaning(e1, env);
  }

  lemma {:induction false} ExprSort(e: Expr, g: Scope)
    requires !HasBound(e)
    ensures F.SortOf(ExprToFixpoint(e), g) == SortOf(e, g, None)
  {
    match e
    case Var(_) =>
    case Constant(_) =>
    case BinaryOp(_, e1, e2) =>
      ExprSort(e1, g);
      ExprSort(e2, g);
    case UnaryOp(_, e1) =>
      ExprSort(e1, g);
  }

  /** A well-formed tree never hits the translation's panics. */
  lemma {:induction false} WfTranslatable(n: Node, g: Scope, kvars: seq<seq<Sort>>, gen: nat)
    requires WfNode(n, g, kvars, gen)
    ensures Translatable(n, kvars)
  {
    match n {
      case ForAll(x, s, p, _) => WfBoundFree(p, g[x := s], kvars);
      case Guard(e, _) => SortedHasNoBound(e, g);
      case Head(p) => WfBoundFree(p, g, kvars);
      case Conj(_) =>
    }
    if !n.Head? {
      forall i | 0 <= i < |n.children| ensures Translatable(n.children[i], kvars) {
        WfTranslatable(n.children[i], Inner(n, g), kvars, gen);
      }
    }
  }

  lemma WfBoundFree(p: Pred, g: Scope, kvars: seq<seq<Sort>>)
    requires WfPred(p, g, None, kvars)
    ensures BoundFree(p)
  {
    match p
    case KVar(_, args) =>
      forall i | 0 <= i < |args| ensures !HasBound(args[i]) { SortedHasNoBound(args[i], g); }
    case Expr(e) => SortedHasNoBound(e, g);
  }

  // ----- hoisting -----

  /** Well-sorted arguments, none of which but variables mentions the names outside `g`. */
  ghost predicate Args(args: seq<Expr>, sorts: seq<Sort>, g: Scope, names: Scope) {
    && |args| == |sorts|
    && (forall i :: 0 <= i < |args| ==> !HasBound(args[i]))
    && (forall i :: 0 <= i < |args| ==>
        SortOf(args[i], if IsFreeVar(args[i]) then names else g, None) == Some(sorts[i]))
  }

  /** The environment extended with the values of the hoisted arguments. */
  function WithHoisted(args: seq<Expr>, env: Env, gen: nat): Env
    decreases args
  {
    if args == [] then env
    else if IsFreeVar(args[0]) then WithHoisted(args[1..], env, gen)
    else
      var v := Eval(args[0], env, None);
      if v.None? then env else WithHoisted(args[1..], env[gen := v.value], gen + 1)
  }

  lemma {:induction false} WithHoistedAgree(args: seq<Expr>, env: Env, gen: nat, x: Name)
    requires x < gen
    ensures x in WithHoisted(args, env, gen) <==> x in env
    ensures x in env ==> WithHoisted(args, env, gen)[x] == env[x]
    decreases args
  {
    if args == [] {
    } else if IsFreeVar(args[0]) {
      WithHoistedAgree(args[1..], env, gen, x);
    } else {
      var v := Eval(args[0], env, None);
      if v.Some? {
        WithHoistedAgree(args[1..], env[gen := v.value], gen + 1, x);
      }
    }
  }

  lemma EquationMeaning(e: Expr, g: Scope, x: Name, v: Value, w: Value, env: Env)
    requires !HasBound(e) && SortOf(e, g, None) == Some(SortOfValue(v)) && Conforms(env, g) && x !in g
    requires Eval(e, env, None) == Some(w)
    ensures IsTrue(F.Eval(F.Expr.BinaryOp(Eq, F.Expr.Var(x), ExprToFixpoint(e)), env[x := v])) <==> v == w
  {
    EvalSorted(e, g, None, env, None);
    ExprMeaning(e, env[x := v]);
    EvalAgree(e, g, None, env, env[x := v], None);
  }

  /** The hoisted binders have exactly one choice: the values of the arguments. */
  lemma {:induction false} StitchMeaning(args: seq<Expr>, sorts: seq<Sort>, g: Scope, names: Scope, gen: nat,
                                         c: F.Constraint, env: Env, k: Interp)
    requires Args(args, sorts, g, names) && Conforms(env, g) && Below(g, gen)
    ensures F.Sat(Stitch(HoistArgs(args, sorts, gen).0, c), env, k) <==> F.Sat(c, WithHoisted(args, env, gen), k)
    decreases args
  {
    if args == [] {
    } else if IsFreeVar(args[0]) {
      StitchMeaning(args[1..], sorts[1..], g, names, gen, c, env, k);
    } else {
      var e := args[0];
      EvalSorted(e, g, None, env, None);
      var w := Eval(e, env, None).value;
      var (hs, _, _) := HoistArgs(args[1..], sorts[1..], gen + 1);
      var all := HoistArgs(args, sorts, gen).0;
      assert all[1..] == hs;
      var env' := env[gen := w];
      StitchMeaning(args[1..], sorts[1..], g, names, gen + 1, c, env', k);
      forall v: Value | SortOfValue(v) == sorts[0]
        ensures F.SatPred(F.Pred.Expr(all[0].def), env[gen := v], k) <==> v == w
      {
        EquationMeaning(e, g, gen, v, w, env);
      }
    }
  }

  /** With the hoisted values, the names passed to the kvar have the values of the arguments. */
  lemma {:induction false} HoistedNames(args: seq<Expr>, sorts: seq<Sort>, g: Scope, names: Scope, gen: nat, env: Env,
                                        env': Env)
    requires Args(args, sorts, g, names) && Conforms(env, g) && Below(g, gen)
    requires forall x :: x >= gen && x in WithHoisted(args, env, gen) ==>
               x in env' && env'[x] == WithHoisted(args, env, gen)[x]
    ensures |HoistArgs(args, sorts, gen).1| == |args|
    ensures forall i :: 0 <= i < |args| ==>
      var x := HoistArgs(args, sorts, gen).1[i];
      Lookup(env', x) == if IsFreeVar(args[i]) then Lookup(env', args[i].v.name) else Eval(args[i], env, None)
    decreases args
  {
    if args == [] {
    } else if IsFreeVar(args[0]) {
      HoistedNames(args[1..], sorts[1..], g, names, gen, env, env');
    } else {
      var e := args[0];
      EvalSorted(e, g, None, env, None);
      var w := Eval(e, env, None).value;
      forall i | 1 <= i < |args|
        ensures !IsFreeVar(args[i]) ==> Eval(args[i], env, None) == Eval(args[i], env[gen := w], None)
      {
        if !IsFreeVar(args[i]) {
          EvalAgree(args[i], g, None, env, env[gen := w], None);
        }
      }
      HoistedNames(args[1..], sorts[1..], g, names, gen + 1, env[gen := w], env');
      WithHoistedAgree(args[1..], env[gen := w], gen + 1, gen);
      var xs := HoistArgs(args, sorts, gen).1;
      assert xs[0] == gen;
      assert xs[1..] == HoistArgs(args[1..], sorts[1..], gen + 1).1;
      forall i | 0 <= i < |args| ensures
        Lookup(env', xs[i]) == if IsFreeVar(args[i]) then Lookup(env', args[i].v.name) else Eval(args[i], env, None)
      {
        if i > 0 { assert xs[i] == xs[1..][i - 1]; }
      }
    }
  }

  lemma {:induction false} LookupMatches(xs: seq<Name>, args: seq<Expr>, env': Env, env: Env)
    requires |xs| == |args|
    requires forall i :: 0 <= i < |args| ==> Lookup(env', xs[i]) == Eval(args[i], env, None)
    ensures F.LookupAll(xs, env') == EvalAll(args, env, None)
  {
    if xs == [] {
    } else {
      LookupMatches(xs[1..], args[1..], env', env);
    }
  }

  lemma {:induction false} SortWithout(e: Expr, g: Scope, x: Name, s: Sort)
    requires x !in FreeNames(e)
    ensures SortOf(e, g[x := s], None) == SortOf(e, g, None)
  {
    match e
    case Var(_) =>
    case Constant(_) =>
    case BinaryOp(_, e1, e2) =>
      SortWithout(e1, g, x, s);
      SortWithout(e2, g, x, s);
    case UnaryOp(_, e1) =>
      SortWithout(e1, g, x, s);
  }

  /** A translated predicate, below its hoisted binders and the binder it belongs to, means
      what the predicate means in the original environment. */
  lemma PredMeaning(p: Pred, g: Scope, names: Scope, kvars: seq<seq<Sort>>, gen: nat, env: Env, local: Env, k: Interp)
    requires WfPred(p, names, None, kvars) && BoundFree(p) && Below(names, gen) && Below(g, gen) && Conforms(env, g)
    requires p.KVar? ==> Args(p.args, kvars[p.kvid], g, names)
    requires Conforms(env + local, names)
    requires forall x :: x in local ==> x < gen
    requires p.KVar? ==> forall i :: 0 <= i < |p.args| && !IsFreeVar(p.args[i]) ==>
               Eval(p.args[i], env, None) == Eval(p.args[i], env + local, None)
    ensures var (hs, p', _) := PredToFixpoint(p, kvars, gen);
            F.SatPred(p', HoistedEnv(p, env, gen) + local, k) <==>
            HoldsPred(p, env + local, None, k)
  {
    match p
    case Expr(e) => ExprMeaning(e, env + local);
    case KVar(kvid, args) =>
      var sorts := kvars[kvid];
      var envH := WithHoisted(args, env, gen);
      var env' := envH + local;
      HoistedNames(args, sorts, g, names, gen, env, env');
      var xs := HoistArgs(args, sorts, gen).1;
      forall i | 0 <= i < |args| ensures Lookup(env', xs[i]) == Eval(args[i], env + local, None) {
        if IsFreeVar(args[i]) {
          WithHoistedAgree(args, env, gen, args[i].v.name);
        }
      }
      LookupMatches(xs, args, env', env + local);
  }

  // ----- the theorem -----

  lemma {:induction false} NodeMeaning(n: Node, g: Scope, kvars: seq<seq<Sort>>, gen0: nat, gen: nat, env: Env,
                                       k: Interp)
    requires WfNode(n, g, kvars, gen0) && gen0 <= gen && Below(g, gen) && Conforms(env, g) && Translatable(n, kvars)
    ensures var c := NodeToFixpoint(n, kvars, gen).0;
            if c.Some? then F.Sat(c.value, env, k) <==> Holds(n, env, k) else Holds(n, env, k)
    decreases n, 1
  {
    match n
    case Conj(children) =>
      ChildrenMeaning(children, g, kvars, gen0, gen, env, k);
    case Guard(e, children) =>
      ExprMeaning(e, env);
      ChildrenMeaning(children, g, kvars, gen0, gen, env, k);
    case Head(p) =>
      HeadMeaning(p, g, kvars, gen, env, k);
    case ForAll(x, s, p, children) =>
      var gen1 := PredToFixpoint(p, kvars, gen).2;
      var g1 := g[x := s];
      forall env1: Env | Conforms(env1, g1)
        ensures var c := ChildrenToFixpoint(children, kvars, gen1).0;
                if c.Some? then F.Sat(c.value, env1, k) <==>
                     HoldsAll(children, env1, k) else HoldsAll(children, env1, k)
      {
        ChildrenMeaning(children, g1, kvars, gen0, gen1, env1, k);
      }
      var c := ChildrenToFixpoint(children, kvars, gen1).0;
      if c.Some? {
        ForAllMeaning(n, c.value, g, kvars, gen0, gen, env, k);
      }
  }

  lemma HeadMeaning(p: Pred, g: Scope, kvars: seq<seq<Sort>>, gen: nat, env: Env, k: Interp)
    requires WfPred(p, g, None, kvars) && BoundFree(p) && Below(g, gen) && Conforms(env, g)
    ensures var (hs, p', _) := PredToFixpoint(p, kvars, gen);
            F.Sat(Stitch(hs, F.Constraint.Pred(p')), env, k) <==> HoldsPred(p, env, None, k)
  {
    assert env + map[] == env;
    if p.KVar? {
      PredMeaning(p, g, g, kvars, gen, env, map[], k);
      assert WithHoisted(p.args, env, gen) + map[] == WithHoisted(p.args, env, gen);
      StitchMeaning(p.args, kvars[p.kvid], g, g, gen, F.Constraint.Pred(PredToFixpoint(p, kvars, gen).1), env, k);
    } else {
      ExprMeaning(p.expr, env);
    }
  }

  lemma ForAllMeaning(n: Node, c: F.Constraint, g: Scope, kvars: seq<seq<Sort>>, gen0: nat, gen: nat, env: Env,
                      k: Interp)
    requires n.ForAll? && WfNode(n, g, kvars, gen0) && gen0 <= gen && Below(g, gen) && Conforms(env, g) &&
             BoundFree(n.pred)
    requires forall env1: Env | Conforms(env1, g[n.name := n.sort]) :: F.Sat(c, env1, k) <==>
               HoldsAll(n.children, env1, k)
    ensures var (hs, p', _) := PredToFixpoint(n.pred, kvars, gen);
            F.Sat(Stitch(hs, F.Constraint.ForAll(n.name, n.sort, p', c)), env, k) <==> Holds(n, env, k)
  {
    var x, s, p := n.name, n.sort, n.pred;
    var p' := PredToFixpoint(p, kvars, gen).1;
    var envH := HoistedEnv(p, env, gen);
    HoistMeaning(n, g, kvars, gen0, gen, F.Constraint.ForAll(x, s, p', c), env, k);
    forall v: Value | SortOfValue(v) == s
      ensures F.SatPred(p', envH[x := v], k) <==> HoldsPred(p, env[x := v], None, k)
      ensures F.Sat(c, envH[x := v], k) <==> HoldsAll(n.children, env[x := v], k)
    {
      BinderMeaning(n, g, kvars, gen0, gen, env, v, k);
      assert Conforms(envH[x := v], g[x := s]);
      AllAgree(n.children, g[x := s], kvars, gen0, envH[x := v], env[x := v], k);
    }
    BinderQuantifier(n, env, k);
  }

  /** The environment below the hoisted binders of a predicate. */
  function HoistedEnv(p: Pred, env: Env, gen: nat): Env {
    if p.KVar? then WithHoisted(p.args, env, gen) else env
  }

  lemma HoistMeaning(n: Node, g: Scope, kvars: seq<seq<Sort>>, gen0: nat, gen: nat, d: F.Constraint, env: Env,
                     k: Interp)
    requires n.ForAll? && WfNode(n, g, kvars, gen0) && gen0 <= gen && Below(g, gen) && Conforms(env, g) &&
             BoundFree(n.pred)
    ensures F.Sat(Stitch(PredToFixpoint(n.pred, kvars, gen).0, d), env, k) <==>
              F.Sat(d, HoistedEnv(n.pred, env, gen), k)
    ensures Agree(g, env, HoistedEnv(n.pred, env, gen))
  {
    var x, s, p := n.name, n.sort, n.pred;
    if p.KVar? {
      forall y | y in g
        ensures y in env && y in WithHoisted(p.args, env, gen) && WithHoisted(p.args, env, gen)[y] == env[y]
      {
        WithHoistedAgree(p.args, env, gen, y);
      }
      forall i | 0 <= i < |p.args|
        ensures SortOf(p.args[i], if IsFreeVar(p.args[i]) then g[x := s] else g, None) == Some(kvars[p.kvid][i])
      {
        if !IsFreeVar(p.args[i]) { SortWithout(p.args[i], g, x, s); }
      }
      StitchMeaning(p.args, kvars[p.kvid], g, g[x := s], gen, d, env, k);
    }
  }

  lemma BinderMeaning(n: Node, g: Scope, kvars: seq<seq<Sort>>, gen0: nat, gen: nat, env: Env, v: Value, k: Interp)
    requires n.ForAll? && WfNode(n, g, kvars, gen0) && gen0 <= gen && Below(g, gen) && Conforms(env, g) &&
             BoundFree(n.pred)
    requires SortOfValue(v) == n.sort
    ensures var (hs, p', _) := PredToFixpoint(n.pred, kvars, gen);
            F.SatPred(p', HoistedEnv(n.pred, env, gen)[n.name := v], k) <==>
            HoldsPred(n.pred, env[n.name := v], None, k)
  {
    var x, s, p := n.name, n.sort, n.pred;
    var local := map[x := v];
    assert env + local == env[x := v];
    if p.KVar? {
      forall i | 0 <= i < |p.args|
        ensures SortOf(p.args[i], if IsFreeVar(p.args[i]) then g[x := s] else g, None) == Some(kvars[p.kvid][i])
        ensures !IsFreeVar(p.args[i]) ==> Eval(p.args[i], env, None) == Eval(p.args[i], env + local, None)
      {
        if !IsFreeVar(p.args[i]) {
          SortWithout(p.args[i], g, x, s);
          EvalWithout(p.args[i], env, x, v);
        }
      }
    }
    PredMeaning(p, g, g[x := s], kvars, gen, env, local, k);
    assert HoistedEnv(p, env, gen) + local == HoistedEnv(p, env, gen)[x := v];
  }

  lemma {:induction false} EvalWithout(e: Expr, env: Env, x: Name, v: Value)
    requires x !in FreeNames(e)
    ensures Eval(e, env[x := v], None) == Eval(e, env, None)
  {
    match e
    case Var(_) =>
    case Constant(_) =>
    case BinaryOp(_, e1, e2) =>
      EvalWithout(e1, env, x, v);
      EvalWithout(e2, env, x, v);
    case UnaryOp(_, e1) =>
      EvalWithout(e1, env, x, v);
  }

  lemma AllAgree(ns: seq<Node>, g: Scope, kvars: seq<seq<Sort>>, gen: nat, env0: Env, env1: Env, k: Interp)
    requires forall i :: 0 <= i < |ns| ==> WfNode(ns[i], g, kvars, gen)
    requires Agree(g, env0, env1)
    ensures HoldsAll(ns, env0, k) <==> HoldsAll(ns, env1, k)
  {
    if HoldsAll(ns, env0, k) {
      forall i | 0 <= i < |ns| ensures Holds(ns[i], env1, k) { HoldsAgree(ns[i], g, kvars, gen, env0, env1, k); }
    }
    if HoldsAll(ns, env1, k) {
      forall i | 0 <= i < |ns| ensures Holds(ns[i], env0, k) { HoldsAgree(ns[i], g, kvars, gen, env1, env0, k); }
    }
  }

  /** A binder quantifies over the values of its sort. */
  lemma BinderQuantifier(n: Node, env: Env, k: Interp)
    requires n.ForAll?
    ensures Holds(n, env, k) <==>
            forall v: Value | SortOfValue(v) == n.sort ::
              HoldsPred(n.pred, env[n.name := v], None, k) ==> HoldsAll(n.children, env[n.name := v], k)
  {
    if Holds(n, env, k) {
      forall v: Value | SortOfValue(v) == n.sort && HoldsPred(n.pred, env[n.name := v], None, k)
        ensures HoldsAll(n.children, env[n.name := v], k)
      {
        assert Enter(n, env, env[n.name := v], k);
      }
    }
  }

  lemma {:induction false} ChildrenMeaning(ns: seq<Node>, g: Scope, kvars: seq<seq<Sort>>, gen0: nat, gen: nat,
                                           env: Env, k: Interp)
    requires forall i :: 0 <= i < |ns| ==> WfNode(ns[i], g, kvars, gen0) && Translatable(ns[i], kvars)
    requires gen0 <= gen && Below(g, gen) && Conforms(env, g)
    ensures var c := ChildrenToFixpoint(ns, kvars, gen).0;
            if c.Some? then F.Sat(c.value, env, k) <==> HoldsAll(ns, env, k) else HoldsAll(ns, env, k)
    decreases ns, 1
  {
    AllMeaning(ns, g, kvars, gen0, gen, env, k);
    var cs := AllToFixpoint(ns, kvars, gen).0;
    if |cs| == 1 {
      assert cs == [cs[0]];
    }
  }

  lemma {:induction false} AllMeaning(ns: seq<Node>, g: Scope, kvars: seq<seq<Sort>>, gen0: nat, gen: nat, env: Env,
                                      k: Interp)
    requires forall i :: 0 <= i < |ns| ==> WfNode(ns[i], g, kvars, gen0) && Translatable(ns[i], kvars)
    requires gen0 <= gen && Below(g, gen) && Conforms(env, g)
    ensures (forall d | d in AllToFixpoint(ns, kvars, gen).0 :: F.Sat(d, env, k)) <==> HoldsAll(ns, env, k)
    decreases ns, 0
  {
    if ns == [] {
    } else {
      NodeMeaning(ns[0], g, kvars, gen0, gen, env, k);
      var (c, gen1) := NodeToFixpoint(ns[0], kvars, gen);
      AllMeaning(ns[1..], g, kvars, gen0, gen1, env, k);
      var (cs, _) := AllToFixpoint(ns[1..], kvars, gen1);
      assert HoldsAll(ns, env, k) <==> Holds(ns[0], env, k) && HoldsAll(ns[1..], env, k) by {
        assert ns == [ns[0]] + ns[1..];
        if Holds(ns[0], env, k) && HoldsAll(ns[1..], env, k) {
          forall i | 0 <= i < |ns| ensures Holds(ns[i], env, k) {
            if i > 0 { assert ns[i] == ns[1..][i - 1]; }
          }
        }
        if HoldsAll(ns, env, k) {
          forall i | 0 <= i < |ns[1..]| ensures Holds(ns[1..][i], env, k) { assert ns[1..][i] == ns[i + 1]; }
        }
      }
    }
  }

  /** The translation preserves meaning, under every interpretation of the kvars. */
  lemma IntoFixpointMeaning(root: Node, kvars: seq<seq<Sort>>, gen: nat, k: Interp)
    requires WfNode(root, map[], kvars, gen)
    ensures Translatable(root, kvars)
    ensures F.Sat(IntoFixpoint(root, kvars, gen), map[], k) <==> Holds(root, map[], k)
  {
    WfTranslatable(root, map[], kvars, gen);
    NodeMeaning(root, map[], kvars, gen, gen, map[], k);
  }
}
