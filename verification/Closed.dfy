/** Trees of well-sorted obligations translate to closed, well-sorted constraints. */
module Closed {
  import opened Logic
  import opened Tree
  import opened Translate
  import F = Fixpoint

  /** The scope extended with the hoisted names. */
  function HoistScope(args: seq<Expr>, sorts: seq<Sort>, g: Scope, gen: nat): Scope
    decreases args
  {
    if args == [] || sorts == [] then g
    else if IsFreeVar(args[0]) then HoistScope(args[1..], sorts[1..], g, gen)
    else HoistScope(args[1..], sorts[1..], g[gen := sorts[0]], gen + 1)
  }

  lemma {:induction false} HoistScopeKeeps(args: seq<Expr>, sorts: seq<Sort>, g: Scope, gen: nat, x: Name)
    requires x < gen
    ensures x in HoistScope(args, sorts, g, gen) <==> x in g
    ensures x in g ==> HoistScope(args, sorts, g, gen)[x] == g[x]
    decreases args
  {
    if args == [] || sorts == [] {
    } else if IsFreeVar(args[0]) {
      HoistScopeKeeps(args[1..], sorts[1..], g, gen, x);
    } else {
      HoistScopeKeeps(args[1..], sorts[1..], g[gen := sorts[0]], gen + 1, x);
    }
  }

  /** Adding names the expression does not mention changes no sort, in either direction. */
  lemma {:induction false} SortSame(e: Expr, g0: Scope, g1: Scope)
    requires forall x :: x in FreeNames(e) ==> (x in g0 <==> x in g1) && (x in g0 ==> g0[x] == g1[x])
    ensures SortOf(e, g0, None) == SortOf(e, g1, None)
  {
    match e
    case Var(_) =>
    case Constant(_) =>
    case BinaryOp(_, e1, e2) =>
      SortSame(e1, g0, g1);
      SortSame(e2, g0, g1);
    case UnaryOp(_, e1) =>
      SortSame(e1, g0, g1);
  }

  ghost predicate NamesBelow(args: seq<Expr>, gen: nat) {
    forall i, x :: 0 <= i < |args| && x in FreeNames(args[i]) ==> x < gen
  }

  /** The non-variable arguments have their declared sorts. */
  ghost predicate HoistedSorted(args: seq<Expr>, sorts: seq<Sort>, g: Scope)
    requires |args| == |sorts|
  {
    forall i :: 0 <= i < |args| && !IsFreeVar(args[i]) ==> SortOf(args[i], g, None) == Some(sorts[i])
  }

  /** Hoisted binders are closed exactly when the arguments they name are. */
  lemma {:induction false} StitchWf(args: seq<Expr>, sorts: seq<Sort>, g: Scope, gen: nat, c: F.Constraint,
                                    kvars: seq<seq<Sort>>)
    requires |args| == |sorts| && NamesBelow(args, gen) && Below(g, gen)
    requires forall i :: 0 <= i < |args| ==> !HasBound(args[i])
    ensures F.Wf(Stitch(HoistArgs(args, sorts, gen).0, c), g, kvars) <==>
            HoistedSorted(args, sorts, g) && F.Wf(c, HoistScope(args, sorts, g, gen), kvars)
    decreases args
  {
    if args == [] {
    } else {
      NamesBelowTail(args, gen);
      if IsFreeVar(args[0]) {
        StitchWf(args[1..], sorts[1..], g, gen, c, kvars);
        HoistedSortedTail(args, sorts, g, g);
      } else {
        var g', rest := g[gen := sorts[0]], HoistArgs(args[1..], sorts[1..], gen + 1).0;
        StitchWf(args[1..], sorts[1..], g', gen + 1, c, kvars);
        forall i | 0 <= i < |args| ensures SortOf(args[i], g', None) == SortOf(args[i], g, None) {
          SortSame(args[i], g, g');
        }
        HoistedSortedTail(args, sorts, g, g');
        StitchFirst(args[0], sorts[0], g, gen, rest, c, kvars);
      }
    }
  }

  lemma NamesBelowTail(args: seq<Expr>, gen: nat)
    requires args != [] && NamesBelow(args, gen)
    ensures NamesBelow(args[1..], gen) && NamesBelow(args[1..], gen + 1)
  {
    forall i, x | 0 <= i < |args[1..]| && x in FreeNames(args[1..][i]) ensures x < gen {
      assert args[1..][i] == args[i + 1];
    }
  }

  /** One hoisted binder. */
  lemma StitchFirst(e: Expr, s: Sort, g: Scope, gen: nat, rest: seq<Hoisted>, c: F.Constraint, kvars: seq<seq<Sort>>)
    requires !HasBound(e) && SortOf(e, g[gen := s], None) == SortOf(e, g, None)
    ensures var def := F.Expr.BinaryOp(Eq, F.Expr.Var(gen), ExprToFixpoint(e));
            F.Wf(Stitch([Hoisted(gen, s, def)] + rest, c), g, kvars) <==>
            SortOf(e, g, None) == Some(s) && F.Wf(Stitch(rest, c), g[gen := s], kvars)
  {
    var g', def := g[gen := s], F.Expr.BinaryOp(Eq, F.Expr.Var(gen), ExprToFixpoint(e));
    var hs := [Hoisted(gen, s, def)] + rest;
    ExprSort(e, g');
    assert hs[1..] == rest;
    assert F.SortOf(F.Expr.Var(gen), g') == Some(s);
    assert F.SortOf(def, g') == Some(Sort.Bool) <==> SortOf(e, g, None) == Some(s);
  }

  lemma HoistedSortedTail(args: seq<Expr>, sorts: seq<Sort>, g: Scope, g': Scope)
    requires |args| == |sorts| > 0
    requires forall i :: 0 <= i < |args| ==> SortOf(args[i], g', None) == SortOf(args[i], g, None)
    ensures HoistedSorted(args, sorts, g) <==>
            (IsFreeVar(args[0]) || SortOf(args[0], g, None) == Some(sorts[0])) &&
              HoistedSorted(args[1..], sorts[1..], g')
  {
    if HoistedSorted(args, sorts, g) {
      forall i | 0 <= i < |args[1..]| && !IsFreeVar(args[1..][i])
        ensures SortOf(args[1..][i], g', None) == Some(sorts[1..][i])
      {
        assert args[1..][i] == args[i + 1];
      }
    }
    if (IsFreeVar(args[0]) || SortOf(args[0], g, None) == Some(sorts[0])) && HoistedSorted(args[1..], sorts[1..], g') {
      forall i | 0 <= i < |args| && !IsFreeVar(args[i]) ensures SortOf(args[i], g, None) == Some(sorts[i]) {
        if i > 0 { assert args[i] == args[1..][i - 1]; }
      }
    }
  }

  /** Below the hoisted binders, the names passed to the kvar have its declared sorts. */
  lemma {:induction false} HoistedNameSorts(args: seq<Expr>, sorts: seq<Sort>, g: Scope, gen: nat, names: Scope)
    requires |args| == |sorts|
    requires forall i :: 0 <= i < |args| ==> !HasBound(args[i])
    requires forall i :: 0 <= i < |args| && IsFreeVar(args[i]) ==>
               args[i].v.name in names && names[args[i].v.name] == sorts[i]
    requires forall x :: x in HoistScope(args, sorts, g, gen) && x >= gen ==>
               x in names && names[x] == HoistScope(args, sorts, g, gen)[x]
    ensures var xs := HoistArgs(args, sorts, gen).1;
            |xs| == |args| && forall i :: 0 <= i < |args| ==> xs[i] in names && names[xs[i]] == sorts[i]
    decreases args
  {
    if args == [] {
    } else if IsFreeVar(args[0]) {
      HoistedNameSorts(args[1..], sorts[1..], g, gen, names);
    } else {
      HoistedNameSorts(args[1..], sorts[1..], g[gen := sorts[0]], gen + 1, names);
      HoistScopeKeeps(args[1..], sorts[1..], g[gen := sorts[0]], gen + 1, gen);
    }
  }

  lemma {:induction false} SortedNamesBelow(e: Expr, g: Scope, gen: nat)
    requires SortOf(e, g, None).Some? && Below(g, gen)
    ensures forall x :: x in FreeNames(e) ==> x < gen
  {
    match e
    case Var(_) =>
    case Constant(_) =>
    case BinaryOp(_, e1, e2) =>
      SortedNamesBelow(e1, g, gen);
      SortedNamesBelow(e2, g, gen);
    case UnaryOp(_, e1) =>
      SortedNamesBelow(e1, g, gen);
  }

  lemma {:induction false} MentionsUnbound(e: Expr, g: Scope, x: Name)
    requires x in FreeNames(e) && x !in g
    ensures SortOf(e, g, None) == None
  {
    match e
    case Var(_) =>
    case Constant(_) =>
    case BinaryOp(_, e1, e2) =>
      if x in FreeNames(e1) { MentionsUnbound(e1, g, x); } else { MentionsUnbound(e2, g, x); }
    case UnaryOp(_, e1) =>
      MentionsUnbound(e1, g, x);
  }

  lemma PredClosed(p: Pred, g: Scope, kvars: seq<seq<Sort>>, gen: nat)
    requires WfPred(p, g, None, kvars) && BoundFree(p) && Below(g, gen)
    ensures p.KVar? ==> NamesBelow(p.args, gen)
    ensures var (hs, p', _) := PredToFixpoint(p, kvars, gen);
            F.WfPred(p', if p.KVar? then HoistScope(p.args, kvars[p.kvid], g, gen) else g, kvars)
  {
    match p
    case Expr(e) => ExprSort(e, g);
    case KVar(kvid, args) =>
      forall i, x | 0 <= i < |args| && x in FreeNames(args[i]) ensures x < gen { SortedNamesBelow(args[i], g, gen); }
      var names := HoistScope(args, kvars[kvid], g, gen);
      forall i | 0 <= i < |args| && IsFreeVar(args[i])
        ensures args[i].v.name in names && names[args[i].v.name] == kvars[kvid][i]
      {
        HoistScopeKeeps(args, kvars[kvid], g, gen, args[i].v.name);
      }
      HoistedNameSorts(args, kvars[kvid], g, gen, names);
  }

  ghost predicate AllWf(cs: seq<F.Constraint>, g: Scope, kvars: seq<seq<Sort>>) {
    forall d | d in cs :: F.Wf(d, g, kvars)
  }

  /** A larger scope serves as well. */
  lemma {:induction false} WfMore(c: F.Constraint, g0: Scope, g1: Scope, kvars: seq<seq<Sort>>)
    requires F.Wf(c, g0, kvars) && Extends(g0, g1)
    ensures F.Wf(c, g1, kvars)
  {
    match c
    case Pred(p) => WfPredMore(p, g0, g1, kvars);
    case Conj(cs) =>
      forall d | d in cs ensures F.Wf(d, g1, kvars) { WfMore(d, g0, g1, kvars); }
    case Guard(e, d) =>
      FSortMore(e, g0, g1);
      WfMore(d, g0, g1, kvars);
    case ForAll(x, s, p, d) =>
      WfPredMore(p, g0[x := s], g1[x := s], kvars);
      WfMore(d, g0[x := s], g1[x := s], kvars);
  }

  lemma {:induction false} WfPredMore(p: F.Pred, g0: Scope, g1: Scope, kvars: seq<seq<Sort>>)
    requires F.WfPred(p, g0, kvars) && Extends(g0, g1)
    ensures F.WfPred(p, g1, kvars)
  {
    match p
    case And(ps) =>
      forall q | q in ps ensures F.WfPred(q, g1, kvars) { WfPredMore(q, g0, g1, kvars); }
    case KVar(_, _) =>
    case Expr(e) => FSortMore(e, g0, g1);
  }

  lemma {:induction false} FSortMore(e: F.Expr, g0: Scope, g1: Scope)
    requires Extends(g0, g1) && F.SortOf(e, g0).Some?
    ensures F.SortOf(e, g1) == F.SortOf(e, g0)
  {
    match e
    case Var(_) =>
    case Constant(_) =>
    case BinaryOp(_, e1, e2) =>
      FSortMore(e1, g0, g1);
      FSortMore(e2, g0, g1);
    case UnaryOp(_, e1) =>
      FSortMore(e1, g0, g1);
  }

  /** For a new binder above goals, the translation is closed exactly when the binder does not
      occur in its own predicate inside an argument that has to be hoisted. */
  lemma ForAllClosed(n: Node, c: F.Constraint, g: Scope, kvars: seq<seq<Sort>>, gen: nat)
    requires n.ForAll? && n.name !in g && n.name < gen && Below(g, gen)
    requires WfPred(n.pred, g[n.name := n.sort], None, kvars) && BoundFree(n.pred)
    requires F.Wf(c, g[n.name := n.sort], kvars)
    ensures var (hs, p', _) := PredToFixpoint(n.pred, kvars, gen);
            F.Wf(Stitch(hs, F.Constraint.ForAll(n.name, n.sort, p', c)), g, kvars) <==> OwnBinderFree(n.name, n.pred)
  {
    var x, s, p := n.name, n.sort, n.pred;
    ForAllBodyClosed(n, c, g, kvars, gen);
    if p.KVar? {
      var sorts := kvars[p.kvid];
      PredClosed(p, g[x := s], kvars, gen);
      var (hs, p', _) := PredToFixpoint(p, kvars, gen);
      StitchWf(p.args, sorts, g, gen, F.Constraint.ForAll(x, s, p', c), kvars);
      forall i | 0 <= i < |p.args| && !IsFreeVar(p.args[i])
        ensures SortOf(p.args[i], g, None) == Some(sorts[i]) <==> x !in FreeNames(p.args[i])
      {
        if x in FreeNames(p.args[i]) {
          MentionsUnbound(p.args[i], g, x);
        } else {
          SortWithout(p.args[i], g, x, s);
        }
      }
    }
  }

  lemma ForAllBodyClosed(n: Node, c: F.Constraint, g: Scope, kvars: seq<seq<Sort>>, gen: nat)
    requires n.ForAll? && n.name < gen && Below(g, gen)
    requires WfPred(n.pred, g[n.name := n.sort], None, kvars) && BoundFree(n.pred)
    requires F.Wf(c, g[n.name := n.sort], kvars)
    ensures var (hs, p', _) := PredToFixpoint(n.pred, kvars, gen);
            F.Wf(F.Constraint.ForAll(n.name, n.sort, p', c),
                 if n.pred.KVar? then HoistScope(n.pred.args, kvars[n.pred.kvid], g, gen) else g, kvars)
  {
    var x, s, p := n.name, n.sort, n.pred;
    var g1 := g[x := s];
    PredClosed(p, g1, kvars, gen);
    if p.KVar? {
      var sorts := kvars[p.kvid];
      var gh, g1h := HoistScope(p.args, sorts, g, gen), HoistScope(p.args, sorts, g1, gen);
      HoistScopeSwap(p.args, sorts, g, gen, x, s);
      forall y | y in g1 ensures y in gh[x := s] && gh[x := s][y] == g1[y] {
        HoistScopeKeeps(p.args, sorts, g, gen, y);
      }
      WfMore(c, g1, gh[x := s], kvars);
    }
  }

  lemma {:induction false} HoistScopeSwap(args: seq<Expr>, sorts: seq<Sort>, g: Scope, gen: nat, x: Name, s: Sort)
    requires x < gen
    ensures HoistScope(args, sorts, g[x := s], gen) == HoistScope(args, sorts, g, gen)[x := s]
    decreases args
  {
    if args == [] || sorts == [] {
    } else if IsFreeVar(args[0]) {
      HoistScopeSwap(args[1..], sorts[1..], g, gen, x, s);
    } else {
      HoistScopeSwap(args[1..], sorts[1..], g[gen := sorts[0]], gen + 1, x, s);
      assert g[x := s][gen := sorts[0]] == g[gen := sorts[0]][x := s];
    }
  }

  lemma {:induction false} NodeClosed(n: Node, g: Scope, kvars: seq<seq<Sort>>, gen0: nat, gen: nat)
    requires WfNode(n, g, kvars, gen0) && gen0 <= gen && Below(g, gen) && Translatable(n, kvars)
    ensures var c := NodeToFixpoint(n, kvars, gen).0; c.Some? ==> F.Wf(c.value, g, kvars)
    decreases n, 1
  {
    match n
    case Conj(children) =>
      AllClosed(children, g, kvars, gen0, gen);
    case Guard(e, children) =>
      ExprSort(e, g);
      AllClosed(children, g, kvars, gen0, gen);
    case Head(p) =>
      PredClosed(p, g, kvars, gen);
      if p.KVar? {
        StitchWf(p.args, kvars[p.kvid], g, gen, F.Constraint.Pred(PredToFixpoint(p, kvars, gen).1), kvars);
      }
    case ForAll(x, s, p, children) =>
      var gen1 := PredToFixpoint(p, kvars, gen).2;
      var g1 := g[x := s];
      AllClosed(children, g1, kvars, gen0, gen1);
      var c := ChildrenToFixpoint(children, kvars, gen1).0;
      if c.Some? {
        ForAllBodyClosed(n, c.value, g, kvars, gen);
        if p.KVar? {
          PredClosed(p, g1, kvars, gen);
          StitchWf(p.args, kvars[p.kvid], g, gen, F.Constraint.ForAll(x, s, PredToFixpoint(p, kvars, gen).1, c.value),
                   kvars);
          forall i | 0 <= i < |p.args| && !IsFreeVar(p.args[i])
            ensures SortOf(p.args[i], g, None) == Some(kvars[p.kvid][i])
          {
            SortWithout(p.args[i], g, x, s);
          }
        }
      }
  }

  lemma {:induction false} AllClosed(ns: seq<Node>, g: Scope, kvars: seq<seq<Sort>>, gen0: nat, gen: nat)
    requires forall i :: 0 <= i < |ns| ==> WfNode(ns[i], g, kvars, gen0) && Translatable(ns[i], kvars)
    requires gen0 <= gen && Below(g, gen)
    ensures AllWf(AllToFixpoint(ns, kvars, gen).0, g, kvars)
    decreases ns, 0
  {
    if ns == [] {
    } else {
      NodeClosed(ns[0], g, kvars, gen0, gen);
      AllClosed(ns[1..], g, kvars, gen0, NodeToFixpoint(ns[0], kvars, gen).1);
    }
  }

  /** The solver is handed a closed constraint in which every name has one sort. */
  lemma IntoFixpointClosed(root: Node, kvars: seq<seq<Sort>>, gen: nat)
    requires WfNode(root, map[], kvars, gen)
    ensures Translatable(root, kvars) && F.Wf(IntoFixpoint(root, kvars, gen), map[], kvars)
  {
    WfTranslatable(root, map[], kvars, gen);
    NodeClosed(root, map[], kvars, gen, gen);
  }
}
