/** The tree of obligations a cursor grows.  A position in it is a path of child indices. */
module Tree {
  import opened Logic

  datatype Node =
    | Conj(children: seq<Node>)
    | ForAll(name: Name, sort: Sort, pred: Pred, children: seq<Node>)
    | Guard(expr: Expr, children: seq<Node>)
    | Head(goal: Pred)

  type Path = seq<nat>

  /** What a node lets through: the environments its children are read in. */
  ghost predicate Enter(n: Node, env0: Env, env1: Env, k: Interp) {
    match n
    case Conj(_) => env1 == env0
    case ForAll(x, s, p, _) =>
      x in env1 && env1 == env0[x := env1[x]] && SortOfValue(env1[x]) == s && HoldsPred(p, env1, None, k)
    case Guard(e, _) => env1 == env0 && IsTrue(Eval(e, env0, None))
    case Head(_) => false
  }

  /** The meaning of a tree: binders quantify over every value of their sort that satisfies
      their predicate, guards are hypotheses, heads are goals. */
  ghost predicate Holds(n: Node, env: Env, k: Interp) {
    if n.Head? then HoldsPred(n.goal, env, None, k)
    else
      forall env1: Env | Enter(n, env, env1, k) :: HoldsAll(n.children, env1, k)
  }

  ghost predicate HoldsAll(ns: seq<Node>, env: Env, k: Interp) {
    forall i :: 0 <= i < |ns| ==> Holds(ns[i], env, k)
  }

  // ----- positions -----

  /** The path leads to a node that can have children. */
  predicate ValidPath(n: Node, path: Path) {
    !n.Head? &&
    (path == [] || (path[0] < |n.children| && ValidPath(n.children[path[0]], path[1..])))
  }

  /** `env` is one of the environments in which the children at `path` are read. */
  ghost predicate Reach(n: Node, path: Path, env0: Env, env: Env, k: Interp)
    requires ValidPath(n, path)
    decreases path
  {
    if path == [] then Enter(n, env0, env, k)
    else
      exists env1: Env :: Enter(n, env0, env1, k) && Reach(n.children[path[0]], path[1..], env1, env, k)
  }

  function ChildrenAt(n: Node, path: Path): seq<Node>
    requires ValidPath(n, path)
    decreases path
  {
    if path == [] then n.children else ChildrenAt(n.children[path[0]], path[1..])
  }

  function WithChildren(n: Node, children: seq<Node>): Node
    requires !n.Head?
  {
    match n
    case Conj(_) => Conj(children)
    case ForAll(x, s, p, _) => ForAll(x, s, p, children)
    case Guard(e, _) => Guard(e, children)
  }

  /** Append `m` to the children of the node at `path`. */
  function Push(n: Node, path: Path, m: Node): Node
    requires ValidPath(n, path)
    decreases path
  {
    if path == [] then WithChildren(n, n.children + [m])
    else
      var i := path[0];
      WithChildren(n, n.children[i := Push(n.children[i], path[1..], m)])
  }

  /** A push through a position below `path` grows one child there and leaves the others in place,
      so a later push at `path` becomes a sibling after them. */
  lemma {:induction false} PushBelow(n: Node, path: Path, rest: Path, m: Node)
    requires ValidPath(n, path + rest) && rest != []
    ensures ValidPath(n, path) && rest[0] < |ChildrenAt(n, path)| && ValidPath(ChildrenAt(n, path)[rest[0]], rest[1..])
    ensures ValidPath(Push(n, path + rest, m), path)
    ensures ChildrenAt(Push(n, path + rest, m), path) ==
            ChildrenAt(n, path)[rest[0] := Push(ChildrenAt(n, path)[rest[0]], rest[1..], m)]
    decreases path
  {
    if path == [] {
      assert path + rest == rest;
    } else {
      assert (path + rest)[1..] == path[1..] + rest;
      PushBelow(n.children[path[0]], path[1..], rest, m);
    }
  }

  lemma {:induction false} PushHere(n: Node, path: Path, m: Node)
    requires ValidPath(n, path)
    ensures ValidPath(Push(n, path, m), path) && ChildrenAt(Push(n, path, m), path) == ChildrenAt(n, path) + [m]
    decreases path
  {
    if path != [] {
      PushHere(n.children[path[0]], path[1..], m);
    }
  }

  /** A push through a snapshot, then one through its parent. */
  lemma SnapshotThenParent(n: Node, path: Path, rest: Path, m: Node, m': Node)
    requires ValidPath(n, path + rest) && rest != []
    ensures ValidPath(n, path) && ValidPath(Push(n, path + rest, m), path)
    ensures var n' := Push(Push(n, path + rest, m), path, m');
            && ValidPath(n', path) && rest[0] < |ChildrenAt(n, path)| &&
               ValidPath(ChildrenAt(n, path)[rest[0]], rest[1..])
            && ChildrenAt(n', path) == ChildrenAt(n,
                                                  path)[rest[0] := Push(ChildrenAt(n, path)[rest[0]], rest[1..], m)] +
                                                    [m']
  {
    PushBelow(n, path, rest, m);
    PushHere(Push(n, path + rest, m), path, m');
  }

  /** The node holds wherever the position is reached. */
  ghost predicate Under(n: Node, path: Path, m: Node, env0: Env, k: Interp)
    requires ValidPath(n, path)
  {
    forall env: Env | Reach(n, path, env0, env, k) :: Holds(m, env, k)
  }

  /** The growth law: after a push, the tree means what it meant before and, under the
      binders and guards on the way to the position, the new node. */
  lemma {:induction false} PushMeaning(n: Node, path: Path, m: Node, env0: Env, k: Interp)
    requires ValidPath(n, path)
    ensures Holds(Push(n, path, m), env0, k) <==>
            Holds(n, env0, k) && Under(n, path, m, env0, k)
    decreases path
  {
    var n' := Push(n, path, m);
    if path == [] {
      forall env1: Env ensures HoldsAll(n'.children, env1, k) <==> HoldsAll(n.children, env1, k) && Holds(m, env1, k) {
        PushMeaningHere(n.children, m, env1, k);
      }
      PushMeaningHead(n, path, m, env0, k);
    } else {
      var i := path[0];
      var child := n.children[i];
      forall env1: Env
        ensures HoldsAll(Push(n, path, m).children, env1, k) <==>
                HoldsAll(n.children, env1, k) && Under(n.children[path[0]], path[1..], m, env1, k)
      {
        PushMeaning(child, path[1..], m, env1, k);
        ReplaceMeaning(n.children, i, Push(child, path[1..], m), env1, k);
      }
      PushMeaningStep(n, path, m, env0, k);
    }
  }

  lemma PushMeaningHere(ns: seq<Node>, m: Node, env: Env, k: Interp)
    ensures HoldsAll(ns + [m], env, k) <==> HoldsAll(ns, env, k) && Holds(m, env, k)
  {
    var ms := ns + [m];
    assert ms[|ns|] == m;
    if HoldsAll(ms, env, k) {
      forall i | 0 <= i < |ns| ensures Holds(ns[i], env, k) { assert ms[i] == ns[i]; }
    }
  }

  lemma ReplaceMeaning(ns: seq<Node>, i: nat, m: Node, env: Env, k: Interp)
    requires i < |ns|
    requires Holds(m, env, k) ==> Holds(ns[i], env, k)
    ensures HoldsAll(ns[i := m], env, k) <==> HoldsAll(ns, env, k) && Holds(m, env, k)
  {
    var ms := ns[i := m];
    assert ms[i] == m;
    if HoldsAll(ms, env, k) {
      forall j | 0 <= j < |ns| ensures Holds(ns[j], env, k) {
        if j != i { assert ms[j] == ns[j]; }
      }
    }
  }

  lemma PushMeaningHead(n: Node, path: Path, m: Node, env0: Env, k: Interp)
    requires path == [] && ValidPath(n, path)
    requires forall env1: Env ::
      HoldsAll(n.children + [m], env1, k) <==> HoldsAll(n.children, env1, k) && Holds(m, env1, k)
    ensures Holds(Push(n, path, m), env0, k) <==>
            Holds(n, env0, k) && Under(n, path, m, env0, k)
  {
    var n' := Push(n, path, m);
    if Holds(n', env0, k) {
      forall env: Env | Enter(n, env0, env, k) ensures HoldsAll(n.children, env, k) && Holds(m, env, k) {
        assert Enter(n', env0, env, k);
      }
      assert Holds(n, env0, k);
    } else {
      var env: Env :| Enter(n', env0, env, k) && !HoldsAll(n'.children, env, k);
      assert Enter(n, env0, env, k);
      assert Reach(n, path, env0, env, k);
      assert !HoldsAll(n.children, env, k) || !Holds(m, env, k);
    }
  }

  lemma PushMeaningStep(n: Node, path: Path, m: Node, env0: Env, k: Interp)
    requires path != [] && ValidPath(n, path)
    requires forall env1: Env ::
      HoldsAll(Push(n, path, m).children, env1, k) <==>
      HoldsAll(n.children, env1, k) && Under(n.children[path[0]], path[1..], m, env1, k)
    ensures Holds(Push(n, path, m), env0, k) <==>
            Holds(n, env0, k) && Under(n, path, m, env0, k)
  {
    var n' := Push(n, path, m);
    if Holds(n', env0, k) {
      forall env1: Env | Enter(n, env0, env1, k) ensures HoldsAll(n'.children, env1, k) {
        assert Enter(n', env0, env1, k);
      }
      assert Holds(n, env0, k);
    } else {
      var env1: Env :| Enter(n', env0, env1, k) && !HoldsAll(n'.children, env1, k);
      assert Enter(n, env0, env1, k);
      if HoldsAll(n.children, env1, k) {
        var env: Env :| Reach(n.children[path[0]], path[1..], env1, env, k) && !Holds(m, env, k);
        assert Reach(n, path, env0, env, k);
      }
    }
  }

  // ----- a tree that has grown -----

  /** `n'` is `n` with nodes appended to some of its children lists. */
  ghost predicate Grows(n: Node, n': Node) {
    if n.Head? then n' == n
    else
      && !n'.Head?
      && WithChildren(n', []) == WithChildren(n, [])
      && |n.children| <= |n'.children|
      && forall i :: 0 <= i < |n.children| ==> Grows(n.children[i], n'.children[i])
  }

  lemma {:induction false} GrowsRefl(n: Node)
    ensures Grows(n, n)
  {
    if !n.Head? {
      forall i | 0 <= i < |n.children| ensures Grows(n.children[i], n.children[i]) {
        GrowsRefl(n.children[i]);
      }
    }
  }

  lemma {:induction false} GrowsTrans(n0: Node, n1: Node, n2: Node)
    requires Grows(n0, n1) && Grows(n1, n2)
    ensures Grows(n0, n2)
  {
    if !n0.Head? {
      forall i | 0 <= i < |n0.children| ensures Grows(n0.children[i], n2.children[i]) {
        GrowsTrans(n0.children[i], n1.children[i], n2.children[i]);
      }
    }
  }

  lemma {:induction false} PushGrows(n: Node, path: Path, m: Node)
    requires ValidPath(n, path)
    ensures Grows(n, Push(n, path, m))
    decreases path
  {
    var n' := Push(n, path, m);
    forall i | 0 <= i < |n.children| ensures Grows(n.children[i], n'.children[i]) {
      if path != [] && i == path[0] {
        PushGrows(n.children[i], path[1..], m);
      } else {
        GrowsRefl(n.children[i]);
      }
    }
  }

  /** Growth keeps every position, together with the environments that reach it. */
  lemma {:induction false} GrowsReach(n: Node, n': Node, path: Path, env0: Env, env: Env, k: Interp)
    requires Grows(n, n') && ValidPath(n, path)
    ensures ValidPath(n', path)
    ensures Reach(n', path, env0, env, k) <==> Reach(n, path, env0, env, k)
    decreases path
  {
    if path == [] {
      assert Enter(n', env0, env, k) <==> Enter(n, env0, env, k);
    } else {
      assert forall env1: Env :: Enter(n', env0, env1, k) <==> Enter(n, env0, env1, k);
      var i := path[0];
      GrowsReach(n.children[i], n'.children[i], path[1..], env0, env, k);
      forall env1: Env
        ensures Reach(n'.children[i], path[1..], env1, env, k) <==> Reach(n.children[i], path[1..], env1, env, k)
      {
        GrowsReach(n.children[i], n'.children[i], path[1..], env1, env, k);
      }
    }
  }

  lemma GrowsPath(n: Node, n': Node, path: Path)
    requires Grows(n, n') && ValidPath(n, path)
    ensures ValidPath(n', path)
    decreases path
  {
    if path != [] {
      GrowsPath(n.children[path[0]], n'.children[path[0]], path[1..]);
    }
  }

  /** Growth only strengthens. */
  lemma {:induction false} GrowsHolds(n: Node, n': Node, env: Env, k: Interp)
    requires Grows(n, n') && Holds(n', env, k)
    ensures Holds(n, env, k)
  {
    if !n.Head? {
      forall env1: Env | Enter(n, env, env1, k) ensures HoldsAll(n.children, env1, k) {
        assert Enter(n', env, env1, k);
        assert HoldsAll(n'.children, env1, k);
        forall i | 0 <= i < |n.children| ensures Holds(n.children[i], env1, k) {
          GrowsHolds(n.children[i], n'.children[i], env1, k);
        }
      }
    }
  }

  // ----- the position of a node that was just pushed -----

  lemma {:induction false} PushPath(n: Node, path: Path, m: Node)
    requires ValidPath(n, path) && !m.Head?
    ensures ValidPath(Push(n, path, m), path + [|ChildrenAt(n, path)|])
    decreases path
  {
    var j := |ChildrenAt(n, path)|;
    var n' := Push(n, path, m);
    if path == [] {
      assert ValidPath(m, []);
      assert (path + [j])[1..] == [];
    } else {
      PushPath(n.children[path[0]], path[1..], m);
      assert (path + [j])[1..] == path[1..] + [j];
    }
  }

  lemma {:induction false} PushReach(n: Node, path: Path, m: Node, env0: Env, env1: Env, env: Env, k: Interp)
    requires ValidPath(n, path) && !m.Head?
    requires Reach(n, path, env0, env1, k) && Enter(m, env1, env, k)
    ensures ValidPath(Push(n, path, m), path + [|ChildrenAt(n, path)|])
    ensures Reach(Push(n, path, m), path + [|ChildrenAt(n, path)|], env0, env, k)
    decreases path
  {
    PushPath(n, path, m);
    var j := |ChildrenAt(n, path)|;
    var n' := Push(n, path, m);
    if path == [] {
      assert (path + [j])[1..] == [];
      assert Enter(n', env0, env1, k);
      assert Reach(n'.children[j], [], env1, env, k);
    } else {
      assert (path + [j])[1..] == path[1..] + [j];
      var i := path[0];
      var env2: Env :| Enter(n, env0, env2, k) && Reach(n.children[i], path[1..], env2, env1, k);
      PushReach(n.children[i], path[1..], m, env2, env1, env, k);
      assert Enter(n', env0, env2, k);
      assert Reach(n'.children[i], path[1..] + [j], env2, env, k);
    }
  }

  lemma {:induction false} PushReachInv(n: Node, path: Path, m: Node, env0: Env, env: Env, k: Interp)
    returns (env1: Env)
    requires ValidPath(n, path) && !m.Head?
    requires ValidPath(Push(n, path, m), path + [|ChildrenAt(n, path)|])
    requires Reach(Push(n, path, m), path + [|ChildrenAt(n, path)|], env0, env, k)
    ensures Reach(n, path, env0, env1, k) && Enter(m, env1, env, k)
    decreases path
  {
    var j := |ChildrenAt(n, path)|;
    var n' := Push(n, path, m);
    if path == [] {
      assert (path + [j])[1..] == [];
      env1 :| Enter(n', env0, env1, k) && Reach(n'.children[j], [], env1, env, k);
      assert Enter(n, env0, env1, k);
    } else {
      assert (path + [j])[1..] == path[1..] + [j];
      var i := path[0];
      var env2: Env :| Enter(n', env0, env2, k) && Reach(n'.children[i], path[1..] + [j], env2, env, k);
      assert Enter(n, env0, env2, k);
      PushPath(n.children[i], path[1..], m);
      env1 := PushReachInv(n.children[i], path[1..], m, env2, env, k);
    }
  }

  // ----- names in scope at a position -----

  type Binder = (Name, Sort)

  function Inner(n: Node, g: Scope): Scope {
    if n.ForAll? then g[n.name := n.sort] else g
  }

  /** Names and sorts bound on the way to the children at `path`. */
  function ScopeAt(n: Node, path: Path, g: Scope): Scope
    requires ValidPath(n, path)
    decreases path
  {
    if path == [] then Inner(n, g) else ScopeAt(n.children[path[0]], path[1..], Inner(n, g))
  }

  /** The same, as the list of binders in path order. */
  function Binders(n: Node, path: Path): seq<Binder>
    requires ValidPath(n, path)
    decreases path
  {
    (if n.ForAll? then [(n.name, n.sort)] else []) +
    (if path == [] then [] else Binders(n.children[path[0]], path[1..]))
  }

  function ToScope(g: Scope, bs: seq<Binder>): Scope
    decreases bs
  {
    if bs == [] then g else ToScope(g[bs[0].0 := bs[0].1], bs[1..])
  }

  lemma {:induction false} ScopeOfBinders(n: Node, path: Path, g: Scope)
    requires ValidPath(n, path)
    ensures ScopeAt(n, path, g) == ToScope(g, Binders(n, path))
    decreases path
  {
    if path != [] {
      ScopeOfBinders(n.children[path[0]], path[1..], Inner(n, g));
      if n.ForAll? {
        assert Binders(n, path)[1..] == Binders(n.children[path[0]], path[1..]);
      } else {
        assert Binders(n, path) == Binders(n.children[path[0]], path[1..]);
      }
    }
  }

  lemma {:induction false} ToScopeAppend(g: Scope, bs: seq<Binder>, b: Binder)
    ensures ToScope(g, bs + [b]) == ToScope(g, bs)[b.0 := b.1]
    decreases bs
  {
    if bs == [] {
    } else {
      ToScopeAppend(g[bs[0].0 := bs[0].1], bs[1..], b);
      assert (bs + [b])[1..] == bs[1..] + [b];
    }
  }

  lemma {:induction false} PushBinders(n: Node, path: Path, m: Node)
    requires ValidPath(n, path) && !m.Head?
    requires ValidPath(Push(n, path, m), path + [|ChildrenAt(n, path)|])
    ensures Binders(Push(n, path, m), path + [|ChildrenAt(n, path)|]) ==
            Binders(n, path) + (if m.ForAll? then [(m.name, m.sort)] else [])
    decreases path
  {
    var j := |ChildrenAt(n, path)|;
    if path == [] {
      assert (path + [j])[1..] == [];
    } else {
      assert (path + [j])[1..] == path[1..] + [j];
      PushPath(n.children[path[0]], path[1..], m);
      PushBinders(n.children[path[0]], path[1..], m);
    }
  }

  lemma {:induction false} GrowsBinders(n: Node, n': Node, path: Path)
    requires Grows(n, n') && ValidPath(n, path) && ValidPath(n', path)
    ensures Binders(n', path) == Binders(n, path)
    decreases path
  {
    if path != [] {
      GrowsBinders(n.children[path[0]], n'.children[path[0]], path[1..]);
    }
  }

  /** Every environment that reaches a position gives the names in scope values of their sorts. */
  lemma {:induction false} ReachConforms(n: Node, path: Path, g: Scope, env0: Env, env: Env, k: Interp)
    requires ValidPath(n, path) && Conforms(env0, g) && Reach(n, path, env0, env, k)
    ensures Conforms(env, ScopeAt(n, path, g))
    decreases path
  {
    if path != [] {
      var env1: Env :| Enter(n, env0, env1, k) && Reach(n.children[path[0]], path[1..], env1, env, k);
      ReachConforms(n.children[path[0]], path[1..], Inner(n, g), env1, env, k);
    }
  }

  // ----- well-formed trees -----

  /** A binder does not occur in its own predicate inside a kvar argument other than a variable. */
  predicate OwnBinderFree(x: Name, p: Pred) {
    p.KVar? ==> forall i :: 0 <= i < |p.args| ==> IsFreeVar(p.args[i]) || x !in FreeNames(p.args[i])
  }

  predicate IsFreeVar(e: Expr) {
    e.Var? && e.v.Free?
  }

  /** Well-sorted in a scope, without bound variables, binders drawn below `gen`. */
  ghost predicate WfNode(n: Node, g: Scope, kvars: seq<seq<Sort>>, gen: nat) {
    && (match n
        case Conj(_) => true
        case ForAll(x, s, p, _) => x < gen && WfPred(p, g[x := s], None, kvars) && OwnBinderFree(x, p)
        case Guard(e, _) => SortOf(e, g, None) == Some(Sort.Bool)
        case Head(p) => WfPred(p, g, None, kvars))
    && (!n.Head? ==> forall i :: 0 <= i < |n.children| ==> WfNode(n.children[i], Inner(n, g), kvars, gen))
  }

  lemma {:induction false} WfNodeLater(n: Node, g: Scope, kvars0: seq<seq<Sort>>, kvars1: seq<seq<Sort>>, gen0: nat,
                                       gen1: nat)
    requires WfNode(n, g, kvars0, gen0) && kvars0 <= kvars1 && gen0 <= gen1
    ensures WfNode(n, g, kvars1, gen1)
  {
    match n {
      case ForAll(x, s, p, _) => WfPredExtends(p, g[x := s], g[x := s], None, kvars0, kvars1);
      case Head(p) => WfPredExtends(p, g, g, None, kvars0, kvars1);
      case _ =>
    }
    if !n.Head? {
      forall i | 0 <= i < |n.children| ensures WfNode(n.children[i], Inner(n, g), kvars1, gen1) {
        WfNodeLater(n.children[i], Inner(n, g), kvars0, kvars1, gen0, gen1);
      }
    }
  }

  lemma {:induction false} PushWf(n: Node, path: Path, m: Node, g: Scope, kvars: seq<seq<Sort>>, gen: nat)
    requires ValidPath(n, path) && WfNode(n, g, kvars, gen) && WfNode(m, ScopeAt(n, path, g), kvars, gen)
    ensures WfNode(Push(n, path, m), g, kvars, gen)
    decreases path
  {
    if path != [] {
      PushWf(n.children[path[0]], path[1..], m, Inner(n, g), kvars, gen);
    }
  }

  /** A well-formed tree only looks at the names in scope. */
  lemma {:induction false} HoldsAgree(n: Node, g: Scope, kvars: seq<seq<Sort>>, gen: nat, env0: Env, env1: Env,
                                      k: Interp)
    requires WfNode(n, g, kvars, gen) && Agree(g, env0, env1) && Holds(n, env0, k)
    ensures Holds(n, env1, k)
  {
    if n.Head? {
      PredAgree(n.goal, g, None, kvars, env0, env1, None, k);
    } else {
      forall env1': Env | Enter(n, env1, env1', k) ensures HoldsAll(n.children, env1', k) {
        var env0' := if n.ForAll? then env0[n.name := env1'[n.name]] else env0;
        assert Agree(Inner(n, g), env0', env1');
        match n {
          case ForAll(x, s, p, _) => PredAgree(p, g[x := s], None, kvars, env0', env1', None, k);
          case Guard(e, _) => EvalAgree(e, g, None, env0', env1', None);
          case Conj(_) =>
        }
        assert Enter(n, env0, env0', k);
        assert HoldsAll(n.children, env0', k);
        forall i | 0 <= i < |n.children| ensures Holds(n.children[i], env1', k) {
          HoldsAgree(n.children[i], Inner(n, g), kvars, gen, env0', env1', k);
        }
      }
    }
  }
}
