/** The constraint builder and the cursors that grow its tree.  Several cursors share one
    builder; the fields of each tell how much of the shared stacks is its own. */
module ConstraintBuilders {
  import opened Logic
  import opened Tree
  import opened Types
  import opened Position
  import opened Subtyping
  import opened Obligations

  class ConstraintBuilder {
    const tcx: Variances
    var root: Node
    var kvars: seq<seq<Sort>>
    var scopes: seq<nat>
    var vars: seq<Binder>
    var nameGen: nat

    constructor (tcx: Variances)
      ensures this.tcx == tcx
      ensures State() == Position.State(Conj([]), [], [], [], 0)
    {
      this.tcx := tcx;
      root, kvars, scopes, vars, nameGen := Conj([]), [], [], [], 0;
    }

    function State(): Position.State
      reads this
    {
      Position.State(root, kvars, scopes, vars, nameGen)
    }

    method AsCursor() returns (c: Cursor)
      ensures fresh(c) && c.builder == this && c.Pos() == Position.Pos([], 0, 0)
    {
      c := new Cursor(this, [], 0, 0);
    }
  }

  class Cursor {
    const builder: ConstraintBuilder
    var node: Path
    var nscopes: nat
    var nvars: nat

    constructor (builder: ConstraintBuilder, node: Path, nscopes: nat, nvars: nat)
      ensures this.builder == builder && Pos() == Position.Pos(node, nscopes, nvars)
    {
      this.builder, this.node, this.nscopes, this.nvars := builder, node, nscopes, nvars;
    }

    function Pos(): Position.Pos
      reads this
    {
      Position.Pos(node, nscopes, nvars)
    }

    /** The variables below `nvars` are the binders on the path to the node. */
    ghost predicate Valid()
      reads this, builder
    {
      At(builder.State(), Pos())
    }

    /** Moreover every obligation is well-sorted where it stands. */
    ghost predicate WellFormed()
      reads this, builder
    {
      Wf(builder.State(), Pos())
    }

    function Scope(): Logic.Scope
      requires nvars <= |builder.vars|
      reads this, builder
    {
      ScopeOf(builder.State(), Pos())
    }

    method Snapshot() returns (c: Cursor)
      ensures fresh(c) && c.builder == builder && c.Pos() == Pos()
    {
      c := new Cursor(builder, node, nscopes, nvars);
    }

    method PushScope()
      requires Valid()
      modifies this, builder
      ensures Valid() && Pos() == old(Pos()).(nscopes := old(nscopes) + 1)
      ensures builder.State() == old(builder.State()).(scopes := Write(old(builder.scopes), old(nscopes), nvars))
      ensures old(WellFormed()) ==> WellFormed()
      ensures Keeps(old(builder.State()), builder.State(), old(Pos()))
    {
      ghost var s0 := builder.State();
      ghost var scopes0, n0 := builder.scopes, nscopes;
      if nscopes < |builder.scopes| {
        builder.scopes := builder.scopes[nscopes := nvars];
      } else {
        builder.scopes := builder.scopes + [nvars];
      }
      nscopes := nscopes + 1;
      assert builder.scopes[..n0 + 1] == scopes0[..n0] + [nvars];
      assert builder.scopes[..n0] == scopes0[..n0];
      GrowsRefl(builder.root);
    }

    method PushForall(x: Name, sort: Sort, pred: Pred)
      requires Valid()
      modifies this, builder
      ensures Valid()
      ensures builder.State() == PushForallState(old(builder.State()), old(Pos()), x, sort, pred)
      ensures Pos() == PushForallPos(old(builder.State()), old(Pos()))
      ensures Scope() == old(Scope())[x := sort]
      ensures Keeps(old(builder.State()), builder.State(), old(Pos()))
      ensures old(WellFormed()) && x < builder.nameGen && x !in old(Scope()) &&
              WfPred(pred, Scope(), None, builder.kvars) && OwnBinderFree(x, pred)
              ==> WellFormed()
    {
      PushForallAt(builder.State(), Pos(), x, sort, pred);
      if WellFormed() && x < builder.nameGen && x !in Scope() &&
         WfPred(pred, Scope()[x := sort], None, builder.kvars) && OwnBinderFree(x, pred) {
        PushForallWf(builder.State(), Pos(), x, sort, pred);
      }
      PushNode(ForAll(x, sort, pred, []));
      PushVar(x, sort);
    }

    method PushGuard(e: Expr)
      requires Valid()
      modifies this, builder
      ensures Valid()
      ensures builder.State() == PushState(old(builder.State()), old(Pos()), Guard(e, []))
      ensures Pos() == PushPos(old(builder.State()), old(Pos()), Guard(e, []))
      ensures Scope() == old(Scope())
      ensures Keeps(old(builder.State()), builder.State(), old(Pos()))
      ensures old(WellFormed()) && SortOf(e, Scope(), None) == Some(Sort.Bool) ==> WellFormed()
    {
      PushAt(builder.State(), Pos(), Guard(e, []));
      PushKeeps(builder.State(), Pos(), Guard(e, []));
      if WellFormed() && SortOf(e, Scope(), None) == Some(Sort.Bool) {
        PushWfState(builder.State(), Pos(), Guard(e, []));
      }
      PushNode(Guard(e, []));
    }

    /** A goal that is literally true is not worth a node. */
    method PushHead(goal: Pred)
      requires Valid()
      modifies this, builder
      ensures Valid()
      ensures builder.State() == GoalState(old(builder.State()), old(Pos()), goal) && Pos() == old(Pos())
      ensures Scope() == old(Scope())
      ensures Keeps(old(builder.State()), builder.State(), old(Pos()))
      ensures old(WellFormed()) && WfPred(goal, Scope(), None, builder.kvars) ==> WellFormed()
    {
      KeepsRefl(builder.State(), Pos());
      if !PredIsTrue(goal) {
        PushAt(builder.State(), Pos(), Head(goal));
        PushKeeps(builder.State(), Pos(), Head(goal));
        if WellFormed() && WfPred(goal, Scope(), None, builder.kvars) {
          PushWfState(builder.State(), Pos(), Head(goal));
        }
        PushNode(Head(goal));
      }
    }

    /** Append the node and step onto it, unless it is a head. */
    method PushNode(m: Node)
      requires ValidPath(builder.root, node)
      modifies this`node, builder`root
      ensures builder.State() == PushState(old(builder.State()), old(Pos()), m)
      ensures Pos() == PushPos(old(builder.State()), old(Pos()), m)
    {
      var j := |ChildrenAt(builder.root, node)|;
      builder.root := Push(builder.root, node, m);
      if !m.Head? {
        node := node + [j];
      }
    }

    method PushVar(x: Name, sort: Sort)
      requires nvars <= |builder.vars|
      modifies this`nvars, builder`vars
      ensures builder.vars == Write(old(builder.vars), old(nvars), (x, sort)) && nvars == old(nvars) + 1
    {
      if nvars < |builder.vars| {
        builder.vars := builder.vars[nvars := (x, sort)];
      } else {
        builder.vars := builder.vars + [(x, sort)];
      }
      nvars := nvars + 1;
    }

    method FreshName() returns (x: Name)
      modifies builder`nameGen
      ensures x == old(builder.nameGen)
      ensures builder.State() == old(builder.State()).(gen := x + 1)
    {
      x := builder.nameGen;
      builder.nameGen := builder.nameGen + 1;
    }

    // ----- unknown predicates -----

    /** A new kvar over the bound variable and every name in scope, at their sorts. */
    method FreshKvar(sort: Sort) returns (p: Pred)
      requires Valid()
      modifies builder`kvars
      ensures p == KVar(|old(builder.kvars)|, KvarArgs(builder.vars[..nvars]))
      ensures builder.kvars == old(builder.kvars) + [KvarSorts(sort, builder.vars[..nvars])]
      ensures old(WellFormed()) ==> WellFormed() && WfPred(p, Scope(), Some(sort), builder.kvars) && NuVariable(p)
    {
      ghost var s0 := builder.State();
      p := FreshKvarAtScope(sort, nvars);
      assert builder.State() == KvarState(s0, sort, nvars);
      if Wf(s0, Pos()) {
        KvarWf(s0, Pos(), sort, nvars);
      }
    }

    /** As `FreshKvar`, over the names up to the last mark on the shared stack.  The mark is the
        cursor's own only if no deeper cursor has left marks behind. */
    method FreshKvarAtLastScope(sort: Sort) returns (p: Pred)
      requires Valid()
      modifies builder`kvars
      ensures var scope := if builder.scopes == [] then 0 else builder.scopes[|builder.scopes| - 1];
              && scope <= |builder.vars|
              && p == KVar(|old(builder.kvars)|, KvarArgs(builder.vars[..scope]))
              && builder.kvars == old(builder.kvars) + [KvarSorts(sort, builder.vars[..scope])]
      ensures old(WellFormed()) && nscopes == |builder.scopes| ==>
              WellFormed() && WfPred(p, Scope(), Some(sort), builder.kvars) && NuVariable(p)
    {
      var scope := if builder.scopes == [] then 0 else builder.scopes[|builder.scopes| - 1];
      ghost var s0 := builder.State();
      p := FreshKvarAtScope(sort, scope);
      assert builder.State() == KvarState(s0, sort, scope);
      if Wf(s0, Pos()) && nscopes == |builder.scopes| {
        KvarWf(s0, Pos(), sort, scope);
      }
    }

    method FreshKvarAtScope(sort: Sort, scope: nat) returns (p: Pred)
      requires scope <= |builder.vars|
      modifies builder`kvars
      ensures p == KVar(|old(builder.kvars)|, KvarArgs(builder.vars[..scope]))
      ensures builder.kvars == old(builder.kvars) + [KvarSorts(sort, builder.vars[..scope])]
    {
      var sorts := [sort];
      var args := [Var(Bound)];
      for i := 0 to scope
        invariant args == KvarArgs(builder.vars[..i])
        invariant sorts == KvarSorts(sort, builder.vars[..i])
      {
        var (x, s) := builder.vars[i];
        assert builder.vars[..i + 1][..i] == builder.vars[..i];
        args := args + [Var(Free(x))];
        sorts := sorts + [s];
      }
      var kvid := |builder.kvars|;
      builder.kvars := builder.kvars + [sorts];
      p := KVar(kvid, args);
    }

    // ----- subtyping -----

    /** Turn an existential type into an indexed one by binding its index. */
    method Unpack(ty: Ty) returns (r: Ty)
      requires WellFormed() && WfTy(ty, Scope(), builder.kvars)
      modifies this, builder
      ensures WellFormed() && Keeps(old(builder.State()), builder.State(), old(Pos()))
      ensures ty.Exists? ==>
        && builder.State() == UnpackState(old(builder.State()), old(Pos()), ty.bty, ty.p)
        && Pos() == PushForallPos(old(builder.State()), old(Pos()))
        && r == Refine(ty.bty, FreeVar(old(builder.nameGen)))
      ensures !ty.Exists? ==> builder.State() == old(builder.State()) && Pos() == old(Pos()) && r == ty
      ensures Extends(old(Scope()), Scope()) && WfTy(r, Scope(), builder.kvars)
    {
      KeepsRefl(builder.State(), Pos());
      if ty.Exists? {
        UnpackWf(builder.State(), Pos(), ty.bty, ty.p);
        UnpackKeeps(builder.State(), Pos(), ty.bty, ty.p);
        ghost var g0 := Scope();
        var x := FreshName();
        PushForall(x, SortOfBase(ty.bty), SubstPred(ty.p, FreeVar(x)));
        WfBaseExtends(ty.bty, g0, Scope(), builder.kvars, builder.kvars);
        r := Refine(ty.bty, FreeVar(x));
      } else {
        r := ty;
      }
    }

    /** Emit obligations for `t1` being a subtype of `t2`.  The types that are not comparable,
        on which the checker panics, are reported by `ok == false`. */
    method Subtyping(t1: Ty, t2: Ty) returns (ok: bool)
      requires WellFormed() && WfTy(t1, Scope(), builder.kvars) && WfTy(t2, Scope(), builder.kvars)
      modifies builder
      ensures WellFormed() && Worked(old(builder.State()), builder.State(), Pos())
      ensures ok == Compatible(t1, t2, builder.tcx)
      ensures ok ==> Obliged(old(builder.State()), Pos(), builder.State(), [(t1, t2)], builder.tcx)
      ensures ok ==> Entails(old(builder.State()), Pos(), builder.State(), t1, t2, builder.tcx)
      ensures ok && ScalarType(t1) ==> Necessary(old(builder.State()), Pos(), builder.State(), t1, t2, builder.tcx)
      decreases TySize(t1) + TySize(t2), 3
    {
      ghost var s0 := builder.State();
      if (t1.Refine? && t2.Refine? && t1.e == t2.e) || (t1.Exists? && t2.Exists? && t1.p == t2.p) {
        ok := BtySubtyping(t1.bty, t2.bty);
        if ok {
          SameIndexObliged(s0, Pos(), builder.State(), t1, t2, builder.tcx);
        }
      } else {
        ok := OpenAndCompare(t1, t2);
      }
      if ok {
        ObligedEntails(s0, Pos(), builder.State(), t1, t2, builder.tcx);
        if ScalarType(t1) {
          ObligedNecessary(s0, Pos(), builder.State(), t1, t2, builder.tcx);
        }
      }
    }

    /** Open the first type through a snapshot, then compare. */
    method OpenAndCompare(t1: Ty, t2: Ty) returns (ok: bool)
      requires !SameIndex(t1, t2)
      requires WellFormed() && WfTy(t1, Scope(), builder.kvars) && WfTy(t2, Scope(), builder.kvars)
      modifies builder
      ensures WellFormed() && Worked(old(builder.State()), builder.State(), Pos())
      ensures ok == Compatible(t1, t2, builder.tcx)
      ensures ok ==> Obliged(old(builder.State()), Pos(), builder.State(), [(t1, t2)], builder.tcx)
      decreases TySize(t1) + TySize(t2), 2
    {
      ghost var s0 := builder.State();
      if t1.Exists? {
        FreshIndex(s0, Pos(), t1.bty, t2);
      }
      var cursor := Snapshot();
      var u1 := cursor.Unpack(t1);
      WfTyExtends(t2, Scope(), cursor.Scope(), builder.kvars, builder.kvars);
      ok := cursor.CompareUnpacked(u1, t2);
      if t1.Exists? {
        UnpackedWork(s0, Pos(), t1.bty, t1.p, builder.State(), t2, ok, builder.tcx);
      }
    }

    /** The comparison proper, for a first type that is not existential. */
    method CompareUnpacked(t1: Ty, t2: Ty) returns (ok: bool)
      requires !t1.Exists? && !SameIndex(t1, t2)
      requires WellFormed() && WfTy(t1, Scope(), builder.kvars) && WfTy(t2, Scope(), builder.kvars)
      modifies builder
      ensures WellFormed() && Worked(old(builder.State()), builder.State(), Pos())
      ensures ok == Compatible(t1, t2, builder.tcx)
      ensures ok ==> Obliged(old(builder.State()), Pos(), builder.State(), [(t1, t2)], builder.tcx)
      decreases TySize(t1) + TySize(t2), 1
    {
      WorkedRefl(builder.State(), Pos());
      if t1.Refine? && (t2.Refine? || t2.Exists?) {
        ok := ComparePayload(t1, t2);
      } else {
        NothingObliged(builder.State(), Pos(), [(t1, t2)], builder.tcx);
        if t1.StrgRef? && t2.StrgRef? {
          ok := t1.loc == t2.loc;
        } else if t2.Uninit? {
          ok := true;
        } else {
          ok := t1.Param? && t2.Param? && t1.param == t2.param;
        }
      }
    }

    /** The two arms for an indexed type: compare the base types, then push the goal. */
    method ComparePayload(t1: Ty, t2: Ty) returns (ok: bool)
      requires t1.Refine? && (t2.Refine? || t2.Exists?) && !SameIndex(t1, t2)
      requires WellFormed() && WfTy(t1, Scope(), builder.kvars) && WfTy(t2, Scope(), builder.kvars)
      modifies builder
      ensures WellFormed() && Worked(old(builder.State()), builder.State(), Pos())
      ensures ok == CompatibleBase(t1.bty, t2.bty, builder.tcx)
      ensures ok ==> Obliged(old(builder.State()), Pos(), builder.State(), [(t1, t2)], builder.tcx)
      decreases TySize(t1) + TySize(t2), 0
    {
      ghost var s0 := builder.State();
      ok := BtySubtyping(t1.bty, t2.bty);
      ghost var s1 := builder.State();
      if ok {
        SortedHasNoBound(t1.e, Scope());
        WfTyExtends(t2, Scope(), Scope(), old(builder.kvars), builder.kvars);
        CompatibleSort(t1.bty, t2.bty, builder.tcx);
        GoalWf(t1.e, t2, Scope(), builder.kvars);
        var cursor := Snapshot();
        cursor.PushHead(if t2.Refine? then Pred.Expr(BinaryOp(Eq, t1.e, t2.e))
                        else SubstPred(SubstPred(t2.p, t1.e), t1.e));
        KeepsTrans(s0, s1, builder.State(), Pos(), Pos());
        GoalObliged(s0, Pos(), s1, t1.bty, t1.e, t2, builder.tcx);
      }
    }

    method BtySubtyping(b1: BaseTy, b2: BaseTy) returns (ok: bool)
      requires WellFormed() && WfBase(b1, Scope(), builder.kvars) && WfBase(b2, Scope(), builder.kvars)
      modifies builder
      ensures WellFormed() && Worked(old(builder.State()), builder.State(), Pos())
      ensures ok == CompatibleBase(b1, b2, builder.tcx)
      ensures ok ==> Obliged(old(builder.State()), Pos(), builder.State(), BasePairs(b1, b2, builder.tcx), builder.tcx)
      decreases BaseSize(b1) + BaseSize(b2), 2
    {
      WorkedRefl(builder.State(), Pos());
      if !b1.Adt? || !b2.Adt? {
        NothingObliged(builder.State(), Pos(), BasePairs(b1, b2, builder.tcx), builder.tcx);
      }
      match (b1, b2) {
        case (Int(i1), Int(i2)) => ok := i1 == i2;
        case (Uint(u1), Uint(u2)) => ok := u1 == u2;
        case (Bool, Bool) => ok := true;
        case (Adt(d1, a1), Adt(d2, a2)) =>
          ok := d1 == d2 && |a1| == |a2|;
          if ok {
            ok := SubstsSubtyping(d1, a1, a2);
          }
        case _ => ok := false;
      }
    }

    /** Type arguments pairwise, each in the direction of its variance. */
    method SubstsSubtyping(did: nat, a1: seq<Ty>, a2: seq<Ty>) returns (ok: bool)
      requires |a1| == |a2|
      requires WellFormed() && WfBase(Adt(did, a1), Scope(), builder.kvars) &&
               WfBase(Adt(did, a2), Scope(), builder.kvars)
      modifies builder
      ensures WellFormed() && Worked(old(builder.State()), builder.State(), Pos())
      ensures ok == CompatibleBase(Adt(did, a1), Adt(did, a2), builder.tcx)
      ensures ok ==> Obliged(old(builder.State()), Pos(), builder.State(),
                             BasePairs(Adt(did, a1), Adt(did, a2), builder.tcx), builder.tcx)
      decreases BaseSize(Adt(did, a1)) + BaseSize(Adt(did, a2)), 1
    {
      ghost var s0 := builder.State();
      WorkedRefl(s0, Pos());
      NothingObliged(s0, Pos(), [], builder.tcx);
      var variances := builder.tcx(did);
      var i := 0;
      while i < |variances| && i < |a1|
        invariant 0 <= i <= |a1| && i <= |variances|
        invariant WellFormed() && Worked(s0, builder.State(), Pos())
        invariant CompatibleUpTo(variances, a1, a2, i, builder.tcx)
        invariant Obliged(s0, Pos(), builder.State(), ArgsPairs(variances, a1, a2, i), builder.tcx)
      {
        ghost var s1 := builder.State();
        SizeOfMember(a1, i);
        SizeOfMember(a2, i);
        ok := PolymorphicSubtyping(variances[i], a1[i], a2[i]);
        WorkedTrans(s0, s1, builder.State(), Pos());
        if !ok {
          IncompatibleArg(did, a1, a2, i, builder.tcx);
          return;
        }
        ArgsStep(s0, s1, Pos(), builder.State(), variances, a1, a2, i, builder.tcx);
        i := i + 1;
      }
      ok := true;
    }

    method PolymorphicSubtyping(variance: Variance, t1: Ty, t2: Ty) returns (ok: bool)
      requires WellFormed() && WfTy(t1, Scope(), builder.kvars) && WfTy(t2, Scope(), builder.kvars)
      modifies builder
      ensures WellFormed() && Worked(old(builder.State()), builder.State(), Pos())
      ensures ok == CompatibleArg(variance, t1, t2, builder.tcx)
      ensures ok ==> Obliged(old(builder.State()), Pos(), builder.State(), ArgPairs(variance, t1, t2), builder.tcx)
      ensures ok ==> EntailsArg(old(builder.State()), Pos(), builder.State(), variance, t1, t2, builder.tcx)
      ensures ok && ScalarType(t1) && ScalarType(t2) ==>
                NecessaryArg(old(builder.State()), Pos(), builder.State(), variance, t1, t2, builder.tcx)
      decreases TySize(t1) + TySize(t2), 5
    {
      ghost var s0 := builder.State();
      WorkedRefl(s0, Pos());
      match variance {
        case Covariant => ok := Subtyping(t1, t2);
        case Invariant => ok := BothSubtyping(t1, t2);
        case Contravariant => ok := Subtyping(t2, t1);
        case Bivariant =>
          NothingObliged(s0, Pos(), [], builder.tcx);
          ok := true;
      }
      if ok {
        ArgObliged(s0, Pos(), builder.State(), variance, t1, t2, builder.tcx);
      }
    }

    /** Obligations in both directions. */
    method BothSubtyping(t1: Ty, t2: Ty) returns (ok: bool)
      requires WellFormed() && WfTy(t1, Scope(), builder.kvars) && WfTy(t2, Scope(), builder.kvars)
      modifies builder
      ensures WellFormed() && Worked(old(builder.State()), builder.State(), Pos())
      ensures ok == (Compatible(t1, t2, builder.tcx) && Compatible(t2, t1, builder.tcx))
      ensures ok ==> Obliged(old(builder.State()), Pos(), builder.State(), ArgPairs(Invariant, t1, t2), builder.tcx)
      decreases TySize(t1) + TySize(t2), 4
    {
      ghost var s0 := builder.State();
      ok := Subtyping(t1, t2);
      if ok {
        ghost var s1 := builder.State();
        ok := Subtyping(t2, t1);
        WorkedTrans(s0, s1, builder.State(), Pos());
        if ok {
          ObligedTrans(s0, s1, Pos(), builder.State(), [(t1, t2)], [(t2, t1)], builder.tcx);
          assert ArgPairs(Invariant, t1, t2) == [(t1, t2)] + [(t2, t1)];
        }
      }
    }
  }
}
