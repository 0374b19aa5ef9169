/** Values behind the cursor: the state of a constraint builder, positions in it, and how
    positions survive what happens through other cursors. */
module Position {
  import opened Logic
  import opened Tree
  import opened Types

  /** The state of a builder: the tree, the sorts of the kvars, the shared stacks of scopes and
      of variables, and the next fresh name. */
  datatype State = State(root: Node, kvars: seq<seq<Sort>>, scopes: seq<nat>, vars: seq<Binder>, gen: nat)

  /** A cursor's own fields. */
  datatype Pos = Pos(node: Path, nscopes: nat, nvars: nat)

  ghost predicate NonDecreasing(s: seq<nat>) {
    forall i, j :: 0 <= i < j < |s| ==> s[i] <= s[j]
  }

  /** The first `nvars` variables are the binders on the way to the node; the first `nscopes`
      marks are non-decreasing and within them. */
  ghost predicate At(s: State, p: Pos) {
    && ValidPath(s.root, p.node)
    && p.nvars <= |s.vars|
    && s.vars[..p.nvars] == Binders(s.root, p.node)
    && p.nscopes <= |s.scopes|
    && NonDecreasing(s.scopes[..p.nscopes])
    && (forall i :: 0 <= i < p.nscopes ==> s.scopes[i] <= p.nvars)
    && (forall i :: 0 <= i < |s.scopes| ==> s.scopes[i] <= |s.vars|)
  }

  function ScopeOf(s: State, p: Pos): Scope
    requires p.nvars <= |s.vars|
  {
    ToScope(map[], s.vars[..p.nvars])
  }

  /** A well-formed builder: all obligations are well-sorted and all names were generated. */
  ghost predicate Wf(s: State, p: Pos) {
    && At(s, p)
    && WfNode(s.root, map[], s.kvars, s.gen)
    && Below(ScopeOf(s, p), s.gen)
    && DistinctNames(s.vars[..p.nvars])
  }

  predicate DistinctNames(vars: seq<Binder>) {
    forall i, j :: 0 <= i < j < |vars| ==> vars[i].0 != vars[j].0
  }

  lemma {:induction false} ToScopeNames(g: Scope, bs: seq<Binder>)
    ensures forall x :: x in ToScope(g, bs) <==> x in g || exists i :: 0 <= i < |bs| && bs[i].0 == x
    decreases bs
  {
    if bs == [] {
    } else {
      var g1 := g[bs[0].0 := bs[0].1];
      ToScopeNames(g1, bs[1..]);
      forall x | x in ToScope(g, bs) ensures x in g || exists i :: 0 <= i < |bs| && bs[i].0 == x {
        if x !in g1 {
          var i :| 0 <= i < |bs[1..]| && bs[1..][i].0 == x;
          assert bs[i + 1].0 == x;
        } else if x !in g {
          assert bs[0].0 == x;
        }
      }
      forall x, i | 0 <= i < |bs| && bs[i].0 == x ensures x in ToScope(g, bs) {
        if i > 0 { assert bs[1..][i - 1].0 == x; }
      }
    }
  }

  /** With distinct names, every binder is in scope at its sort. */
  lemma {:induction false} ToScopeSorts(g: Scope, bs: seq<Binder>, i: nat)
    requires DistinctNames(bs) && i < |bs|
    ensures bs[i].0 in ToScope(g, bs) && ToScope(g, bs)[bs[i].0] == bs[i].1
    decreases bs
  {
    var g1 := g[bs[0].0 := bs[0].1];
    if i == 0 {
      ToScopeKeeps(g1, bs[1..], bs[0].0);
    } else {
      ToScopeSorts(g1, bs[1..], i - 1);
    }
  }

  lemma {:induction false} ToScopeKeeps(g: Scope, bs: seq<Binder>, x: Name)
    requires x in g && forall i :: 0 <= i < |bs| ==> bs[i].0 != x
    ensures x in ToScope(g, bs) && ToScope(g, bs)[x] == g[x]
    decreases bs
  {
    if bs != [] {
      ToScopeKeeps(g[bs[0].0 := bs[0].1], bs[1..], x);
    }
  }

  /** What a position can rely on while another cursor, taken from it, works: the tree only
      grows and its own part of the shared stacks is left alone. */
  ghost predicate Keeps(s0: State, s1: State, p: Pos) {
    && Grows(s0.root, s1.root)
    && s0.kvars <= s1.kvars
    && s0.gen <= s1.gen
    && p.nvars <= |s0.vars| <= |s1.vars|
    && s1.vars[..p.nvars] == s0.vars[..p.nvars]
    && p.nscopes <= |s0.scopes| <= |s1.scopes|
    && s1.scopes[..p.nscopes] == s0.scopes[..p.nscopes]
  }

  /** The builder before and after a cursor that stays in place and declares no kvars: still
      well-formed, only grown, same names in scope. */
  ghost predicate Worked(s0: State, s1: State, p: Pos) {
    Wf(s1, p) && Keeps(s0, s1, p) && s1.kvars == s0.kvars && ScopeOf(s1, p) == ScopeOf(s0, p)
  }

  lemma WorkedRefl(s: State, p: Pos)
    requires Wf(s, p)
    ensures Worked(s, s, p)
  {
    KeepsRefl(s, p);
  }

  lemma WorkedTrans(s0: State, s1: State, s2: State, p: Pos)
    requires Worked(s0, s1, p) && Worked(s1, s2, p)
    ensures Worked(s0, s2, p)
  {
    KeepsTrans(s0, s1, s2, p, p);
  }

  /** `q` is `p` or further down, with the stacks of `p` as prefixes of its own. */
  ghost predicate Deeper(p: Pos, q: Pos) {
    p.nvars <= q.nvars && p.nscopes <= q.nscopes
  }

  lemma KeepsRefl(s: State, p: Pos)
    requires p.nvars <= |s.vars| && p.nscopes <= |s.scopes|
    ensures Keeps(s, s, p)
  {
    GrowsRefl(s.root);
  }

  lemma KeepsTrans(s0: State, s1: State, s2: State, p: Pos, q: Pos)
    requires Keeps(s0, s1, p) && Keeps(s1, s2, q) && Deeper(p, q)
    ensures Keeps(s0, s2, p)
  {
    GrowsTrans(s0.root, s1.root, s2.root);
    assert s2.vars[..p.nvars] == s2.vars[..q.nvars][..p.nvars];
    assert s1.vars[..p.nvars] == s1.vars[..q.nvars][..p.nvars];
    assert s2.scopes[..p.nscopes] == s2.scopes[..q.nscopes][..p.nscopes];
    assert s1.scopes[..p.nscopes] == s1.scopes[..q.nscopes][..p.nscopes];
  }

  /** A snapshot's work leaves the position it was taken from valid, with the same names in scope. */
  lemma KeepsAt(s0: State, s1: State, p: Pos)
    requires At(s0, p) && Keeps(s0, s1, p)
    requires forall i :: 0 <= i < |s1.scopes| ==> s1.scopes[i] <= |s1.vars|
    ensures At(s1, p) && ScopeOf(s1, p) == ScopeOf(s0, p)
  {
    GrowsPath(s0.root, s1.root, p.node);
    GrowsBinders(s0.root, s1.root, p.node);
    forall i | 0 <= i < p.nscopes ensures s1.scopes[i] == s0.scopes[i] {
      assert s1.scopes[..p.nscopes][i] == s0.scopes[..p.nscopes][i];
    }
  }

  lemma KeepsWf(s0: State, s1: State, p: Pos, q: Pos)
    requires Wf(s0, p) && Keeps(s0, s1, p) && Wf(s1, q)
    ensures Wf(s1, p) && ScopeOf(s1, p) == ScopeOf(s0, p)
  {
    KeepsAt(s0, s1, p);
  }

  /** The environments at a position are those of the tree it was created in. */
  lemma KeepsReach(s0: State, s1: State, p: Pos, env: Env, k: Interp)
    requires At(s0, p) && Keeps(s0, s1, p)
    ensures ValidPath(s1.root, p.node)
    ensures Reach(s1.root, p.node, map[], env, k) <==> Reach(s0.root, p.node, map[], env, k)
  {
    GrowsReach(s0.root, s1.root, p.node, map[], env, k);
  }

  /** Reaching a position gives the names in scope values of their sorts. */
  lemma ReachScope(s: State, p: Pos, env: Env, k: Interp)
    requires At(s, p) && Reach(s.root, p.node, map[], env, k)
    ensures Conforms(env, ScopeOf(s, p))
  {
    ReachConforms(s.root, p.node, map[], map[], env, k);
    ScopeOfBinders(s.root, p.node, map[]);
  }

  // ----- pushing a node -----

  /** The state after pushing `m` at the position. */
  function PushState(s: State, p: Pos, m: Node): State
    requires ValidPath(s.root, p.node)
  {
    s.(root := Push(s.root, p.node, m))
  }

  /** Where the cursor stands after the push: on the new node, unless that is a head. */
  function PushPos(s: State, p: Pos, m: Node): Pos
    requires ValidPath(s.root, p.node)
  {
    if m.Head? then p else p.(node := p.node + [|ChildrenAt(s.root, p.node)|])
  }

  lemma PushKeeps(s: State, p: Pos, m: Node)
    requires At(s, p)
    ensures Keeps(s, PushState(s, p, m), p)
  {
    PushGrows(s.root, p.node, m);
  }

  /** Pushing a head or a guard keeps the variables in step with the path. */
  lemma PushAt(s: State, p: Pos, m: Node)
    requires At(s, p) && !m.ForAll?
    ensures At(PushState(s, p, m), PushPos(s, p, m))
    ensures ScopeOf(PushState(s, p, m), PushPos(s, p, m)) == ScopeOf(s, p)
  {
    PushGrows(s.root, p.node, m);
    if m.Head? {
      GrowsPath(s.root, Push(s.root, p.node, m), p.node);
      GrowsBinders(s.root, Push(s.root, p.node, m), p.node);
    } else {
      PushPath(s.root, p.node, m);
      PushBinders(s.root, p.node, m);
    }
  }

  /** The shared stack after writing entry `n`: overwritten or appended. */
  function Write<T>(stack: seq<T>, n: nat, x: T): (r: seq<T>)
    requires n <= |stack|
    ensures |r| >= |stack| && n < |r| && r[..n + 1] == stack[..n] + [x]
  {
    if n < |stack| then stack[n := x] else stack + [x]
  }

  function PushForallState(s: State, p: Pos, x: Name, sort: Sort, pred: Pred): State
    requires ValidPath(s.root, p.node) && p.nvars <= |s.vars|
  {
    s.(root := Push(s.root, p.node, ForAll(x, sort, pred, [])), vars := Write(s.vars, p.nvars, (x, sort)))
  }

  function PushForallPos(s: State, p: Pos): Pos
    requires ValidPath(s.root, p.node)
  {
    p.(node := p.node + [|ChildrenAt(s.root, p.node)|], nvars := p.nvars + 1)
  }

  lemma PushForallAt(s: State, p: Pos, x: Name, sort: Sort, pred: Pred)
    requires At(s, p)
    ensures At(PushForallState(s, p, x, sort, pred), PushForallPos(s, p))
    ensures ScopeOf(PushForallState(s, p, x, sort, pred), PushForallPos(s, p)) == ScopeOf(s, p)[x := sort]
    ensures Keeps(s, PushForallState(s, p, x, sort, pred), p)
  {
    var m := ForAll(x, sort, pred, []);
    PushGrows(s.root, p.node, m);
    PushPath(s.root, p.node, m);
    PushBinders(s.root, p.node, m);
    ToScopeAppend(map[], s.vars[..p.nvars], (x, sort));
    var vars := Write(s.vars, p.nvars, (x, sort));
    assert vars[..p.nvars] == vars[..p.nvars + 1][..p.nvars] == s.vars[..p.nvars];
  }

  /** Well-formed nodes keep the builder well-formed. */
  lemma PushWfState(s: State, p: Pos, m: Node)
    requires Wf(s, p) && !m.ForAll? && WfNode(m, ScopeOf(s, p), s.kvars, s.gen)
    ensures Wf(PushState(s, p, m), PushPos(s, p, m))
    ensures Wf(PushState(s, p, m), p)
    ensures Keeps(s, PushState(s, p, m), p)
  {
    ScopeOfBinders(s.root, p.node, map[]);
    PushWf(s.root, p.node, m, map[], s.kvars, s.gen);
    PushAt(s, p, m);
    PushKeeps(s, p, m);
    KeepsAt(s, PushState(s, p, m), p);
  }

  lemma PushForallWf(s: State, p: Pos, x: Name, sort: Sort, pred: Pred)
    requires Wf(s, p) && x < s.gen && x !in ScopeOf(s, p)
    requires WfPred(pred, ScopeOf(s, p)[x := sort], None, s.kvars) && OwnBinderFree(x, pred)
    ensures Wf(PushForallState(s, p, x, sort, pred), PushForallPos(s, p))
    ensures Wf(PushForallState(s, p, x, sort, pred), p)
    ensures Keeps(s, PushForallState(s, p, x, sort, pred), p)
  {
    ScopeOfBinders(s.root, p.node, map[]);
    PushWf(s.root, p.node, ForAll(x, sort, pred, []), map[], s.kvars, s.gen);
    PushForallAt(s, p, x, sort, pred);
    KeepsAt(s, PushForallState(s, p, x, sort, pred), p);
    ToScopeNames(map[], s.vars[..p.nvars]);
    assert Write(s.vars, p.nvars, (x, sort))[..p.nvars + 1] == s.vars[..p.nvars] + [(x, sort)];
  }

  lemma WfLater(s0: State, s1: State, p: Pos)
    requires Wf(s0, p) && s1.root == s0.root && s1.vars == s0.vars && s1.scopes == s0.scopes
    requires s0.kvars <= s1.kvars && s0.gen <= s1.gen
    ensures Wf(s1, p) && Keeps(s0, s1, p)
  {
    WfNodeLater(s0.root, map[], s0.kvars, s1.kvars, s0.gen, s1.gen);
    GrowsRefl(s0.root);
  }

  /** The predicate of the new binder is fit to be bound. */
  ghost predicate Bindable(s: State, p: Pos, sort: Sort, pred: Pred)
    requires p.nvars <= |s.vars|
  {
    WfPred(pred, ScopeOf(s, p)[s.gen := sort], None, s.kvars) && OwnBinderFree(s.gen, pred)
  }

  /** Drawing a name and binding it. */
  lemma BindFreshWf(s: State, p: Pos, sort: Sort, pred: Pred)
    requires Wf(s, p) && Bindable(s, p, sort, pred)
    ensures var s1, q := PushForallState(s.(gen := s.gen + 1), p, s.gen, sort, pred), PushForallPos(s, p);
            Wf(s1, q) && ScopeOf(s1, q) == ScopeOf(s, p)[s.gen := sort] && Extends(ScopeOf(s, p), ScopeOf(s1, q))
  {
    var s' := s.(gen := s.gen + 1);
    assert s.gen !in ScopeOf(s, p);
    WfLater(s, s', p);
    PushForallWf(s', p, s.gen, sort, pred);
    PushForallAt(s', p, s.gen, sort, pred);
  }

  lemma BindFreshKeeps(s: State, p: Pos, sort: Sort, pred: Pred)
    requires Wf(s, p) && Bindable(s, p, sort, pred)
    ensures var s1 := PushForallState(s.(gen := s.gen + 1), p, s.gen, sort, pred); Wf(s1, p) && Keeps(s, s1, p)
  {
    var s' := s.(gen := s.gen + 1);
    assert s.gen !in ScopeOf(s, p);
    WfLater(s, s', p);
    PushForallWf(s', p, s.gen, sort, pred);
    KeepsTrans(s, s', PushForallState(s', p, s.gen, sort, pred), p, p);
  }

  // ----- what the tree says at a position -----

  /** The obligations in `s1` imply that `t1` is contained in `t2` wherever the position of
      `s0` is reached. */
  ghost predicate Entails(s0: State, p: Pos, s1: State, t1: Ty, t2: Ty, tcx: Variances)
    requires At(s0, p)
  {
    forall k: Interp, env: Env | Holds(s1.root, map[], k) && Reach(s0.root, p.node, map[], env, k) ::
      Contained(t1, t2, env, k, tcx)
  }

  /** Conversely, the containments, where the position is reached, are all that `s1` adds. */
  ghost predicate Necessary(s0: State, p: Pos, s1: State, t1: Ty, t2: Ty, tcx: Variances)
    requires At(s0, p)
  {
    forall k: Interp |
      Holds(s0.root, map[], k) &&
      forall env: Env | Reach(s0.root, p.node, map[], env, k) :: Contained(t1, t2, env, k, tcx) ::
        Holds(s1.root, map[], k)
  }

  // ----- the arguments of a fresh kvar -----

  function KvarArgs(vars: seq<Binder>): (r: seq<Expr>)
    ensures |r| == |vars| + 1 && r[0] == Var(Bound)
    ensures forall i :: 0 <= i < |vars| ==> r[i + 1] == Var(Free(vars[i].0))
  {
    if vars == [] then [Var(Bound)] else KvarArgs(vars[..|vars| - 1]) + [Var(Free(vars[|vars| - 1].0))]
  }

  function KvarSorts(sort: Sort, vars: seq<Binder>): (r: seq<Sort>)
    ensures |r| == |vars| + 1 && r[0] == sort
    ensures forall i :: 0 <= i < |vars| ==> r[i + 1] == vars[i].1
  {
    if vars == [] then [sort] else KvarSorts(sort, vars[..|vars| - 1]) + [vars[|vars| - 1].1]
  }

  /** The state after declaring a kvar over the first `scope` variables. */
  function KvarState(s: State, sort: Sort, scope: nat): State
    requires scope <= |s.vars|
  {
    s.(kvars := s.kvars + [KvarSorts(sort, s.vars[..scope])])
  }

  /** A kvar over variables of the cursor's own is well-sorted at the cursor. */
  lemma KvarWf(s: State, p: Pos, sort: Sort, scope: nat)
    requires Wf(s, p) && scope <= p.nvars
    ensures Wf(KvarState(s, sort, scope), p)
    ensures ScopeOf(KvarState(s, sort, scope), p) == ScopeOf(s, p)
    ensures var pred := KVar(|s.kvars|, KvarArgs(s.vars[..scope]));
            WfPred(pred, ScopeOf(s, p), Some(sort), KvarState(s, sort, scope).kvars) && NuVariable(pred)
  {
    var s1 := KvarState(s, sort, scope);
    WfLater(s, s1, p);
    var own := s.vars[..p.nvars];
    var args := KvarArgs(s.vars[..scope]);
    forall i | 0 <= i < |args|
      ensures SortOf(args[i], ScopeOf(s, p), Some(sort)) == Some(KvarSorts(sort, s.vars[..scope])[i])
    {
      if i > 0 {
        assert args[(i - 1) + 1] == Var(Free(s.vars[..scope][i - 1].0));
        assert s.vars[..scope][i - 1] == own[i - 1];
        ToScopeSorts(map[], own, i - 1);
      }
    }
    forall i | 0 <= i < |args| ensures args[i] == Var(Bound) || !HasBound(args[i]) {
      if i > 0 { assert args[(i - 1) + 1] == Var(Free(s.vars[..scope][i - 1].0)); }
    }
  }
}
