/** Hoisting moves the arguments of a binder's predicate outside the binder.  This is exactly when
    that keeps the meaning. */
module Hoisting {
  import opened Logic
  import opened Tree
  import opened Translate
  import F = Fixpoint

  /** The binder with these children means the same before and after the translation. */
  ghost predicate SameMeaning(n: Node, kvars: seq<seq<Sort>>, gen: nat, env: Env, k: Interp) {
    Translatable(n, kvars) &&
    var c := NodeToFixpoint(n, kvars, gen).0;
    (c.Some? ==> F.Sat(c.value, env, k)) <==> Holds(n, env, k)
  }

  ghost predicate WfChildren(ns: seq<Node>, g: Scope, kvars: seq<seq<Sort>>, gen: nat) {
    forall i :: 0 <= i < |ns| ==> WfNode(ns[i], g, kvars, gen)
  }

  /** It does, whatever well-formed children it has, in every environment of the scope and under
      every interpretation. */
  ghost predicate KeepsMeaning(x: Name, s: Sort, p: Pred, g: Scope, kvars: seq<seq<Sort>>, gen0: nat, gen: nat) {
    forall children, env, k | WfChildren(children, g[x := s], kvars, gen0) && Conforms(env, g) ::
      SameMeaning(ForAll(x, s, p, children), kvars, gen, env, k)
  }

  /** The translation of a new binder keeps its meaning exactly when the binder does not occur in
      its own predicate inside an argument that has to be hoisted. */
  lemma KeepsMeaningIff(x: Name, s: Sort, p: Pred, g: Scope, kvars: seq<seq<Sort>>, gen0: nat, gen: nat)
    requires WfPred(p, g[x := s], None, kvars) && x !in g && x < gen0 <= gen && Below(g, gen)
    ensures KeepsMeaning(x, s, p, g, kvars, gen0, gen) <==> OwnBinderFree(x, p)
  {
    if OwnBinderFree(x, p) {
      forall children, env, k | WfChildren(children, g[x := s], kvars, gen0) && Conforms(env, g)
        ensures SameMeaning(ForAll(x, s, p, children), kvars, gen, env, k)
      {
        var n := ForAll(x, s, p, children);
        assert WfNode(n, g, kvars, gen0);
        WfTranslatable(n, g, kvars, gen0);
        NodeMeaning(n, g, kvars, gen0, gen, env, k);
      }
    } else {
      var env, k := AnyEnv(g), (kvid: KVid, vs: seq<Value>) => true;
      OwnBinderLost(x, s, p, g, kvars, gen, env, k);
      assert WfChildren([Absurd()], g[x := s], kvars, gen0);
      assert !SameMeaning(ForAll(x, s, p, [Absurd()]), kvars, gen, env, k);
    }
  }

  /** Some environment whose names are those of the scope. */
  function AnyEnv(g: Scope): (env: Env)
    ensures Conforms(env, g) && env.Keys == g.Keys
  {
    map x | x in g :: if g[x].Int? then IntVal(0) else BoolVal(false)
  }

  function Absurd(): Node {
    Head(Pred.Expr(Constant(FromBool(false))))
  }

  lemma {:induction false} Stuck(e: Expr, env: Env, x: Name)
    requires x in FreeNames(e) && x !in env
    ensures Eval(e, env, None) == None
  {
    match e
    case Var(_) =>
    case Constant(_) =>
    case BinaryOp(_, e1, e2) =>
      if x in FreeNames(e1) { Stuck(e1, env, x); } else { Stuck(e2, env, x); }
    case UnaryOp(_, e1) =>
      Stuck(e1, env, x);
  }

  /** A hoisted argument that mentions an unbound name equals nothing, so what is below it holds. */
  lemma {:induction false} StuckStitch(args: seq<Expr>, sorts: seq<Sort>, i: nat, x: Name, gen: nat,
                                       c: F.Constraint, env: Env, k: Interp)
    requires i < |args| == |sorts| && x < gen && x !in env
    requires forall j :: 0 <= j < |args| ==> !HasBound(args[j])
    requires !IsFreeVar(args[i]) && x in FreeNames(args[i])
    ensures F.Sat(Stitch(HoistArgs(args, sorts, gen).0, c), env, k)
    decreases args
  {
    var hs := HoistArgs(args, sorts, gen).0;
    if IsFreeVar(args[0]) {
      StuckStitch(args[1..], sorts[1..], i - 1, x, gen, c, env, k);
    } else {
      var rest := HoistArgs(args[1..], sorts[1..], gen + 1).0;
      assert hs[1..] == rest;
      forall v: Value | SortOfValue(v) == sorts[0]
        ensures F.SatPred(F.Pred.Expr(hs[0].def), env[gen := v], k) ==> F.Sat(Stitch(rest, c), env[gen := v], k)
      {
        if i == 0 {
          Stuck(args[0], env[gen := v], x);
          ExprMeaning(args[0], env[gen := v]);
        } else {
          StuckStitch(args[1..], sorts[1..], i - 1, x, gen + 1, c, env[gen := v], k);
        }
      }
    }
  }

  /** For every other binder the meaning is lost: above an absurd goal it does not hold, although
      its translation does. */
  lemma OwnBinderLost(x: Name, s: Sort, p: Pred, g: Scope, kvars: seq<seq<Sort>>, gen: nat, env: Env, k: Interp)
    requires WfPred(p, g[x := s], None, kvars) && x < gen && !OwnBinderFree(x, p)
    requires Conforms(env, g) && x !in env && forall kvid, vs :: k(kvid, vs)
    ensures var n := ForAll(x, s, p, [Absurd()]);
            && Translatable(n, kvars) && !Holds(n, env, k)
            && NodeToFixpoint(n, kvars, gen).0.Some? && F.Sat(NodeToFixpoint(n, kvars, gen).0.value, env, k)
  {
    var n := ForAll(x, s, p, [Absurd()]);
    WfBoundFree(p, g[x := s], kvars);
    AbsurdFails(n, g, kvars, env, k);
    AbsurdKept(kvars, PredToFixpoint(p, kvars, gen).2);
    var (hs, p', gen1) := PredToFixpoint(p, kvars, gen);
    var i :| 0 <= i < |p.args| && !IsFreeVar(p.args[i]) && x in FreeNames(p.args[i]);
    var c := ChildrenToFixpoint([Absurd()], kvars, gen1).0.value;
    StuckStitch(p.args, kvars[p.kvid], i, x, gen, F.Constraint.ForAll(x, s, p', c), env, k);
  }

  lemma AbsurdFails(n: Node, g: Scope, kvars: seq<seq<Sort>>, env: Env, k: Interp)
    requires n.ForAll? && n.pred.KVar? && n.children == [Absurd()]
    requires WfPred(n.pred, g[n.name := n.sort], None, kvars) && Conforms(env, g)
    requires forall kvid, vs :: k(kvid, vs)
    ensures !Holds(n, env, k)
  {
    var g1 := g[n.name := n.sort];
    var env1 := env[n.name := AnyEnv(g1)[n.name]];
    EvalAllSorted(n.pred.args, g1, None, env1, None);
    assert Enter(n, env, env1, k);
    assert !Holds(n.children[0], env1, k);
  }

  lemma AbsurdKept(kvars: seq<seq<Sort>>, gen: nat)
    ensures ChildrenToFixpoint([Absurd()], kvars, gen).0.Some?
  {
    var ns := [Absurd()];
    assert ns[0] == Absurd() && ns[1..] == [];
    var (c, gen1) := NodeToFixpoint(ns[0], kvars, gen);
    assert c.Some?;
    assert AllToFixpoint(ns, kvars, gen).0 == [c.value] + AllToFixpoint(ns[1..], kvars, gen1).0;
  }

  /** The smallest instance: `forall a0. k0(a0 + 1) => false`. */
  lemma SuccessorLost(k: Interp)
    requires forall kvid, vs :: k(kvid, vs)
    ensures var root := ForAll(0, Sort.Int, KVar(0, [BinaryOp(Add, Var(Free(0)), Constant(FromInt(1)))]), [Absurd()]);
            Translatable(root, [[Sort.Int]]) && !Holds(root, map[], k) &&
            F.Sat(IntoFixpoint(root, [[Sort.Int]], 1), map[], k)
  {
    var arg := BinaryOp(Add, Var(Free(0)), Constant(FromInt(1)));
    var p := KVar(0, [arg]);
    assert !OwnBinderFree(0, p) by { assert !(IsFreeVar(p.args[0]) || 0 !in FreeNames(p.args[0])); }
    OwnBinderLost(0, Sort.Int, p, map[], [[Sort.Int]], 1, map[], k);
  }
}
