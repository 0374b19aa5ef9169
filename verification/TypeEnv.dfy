/** The mutable typing environment of the checker. */
module TypeEnvs {
  import opened Logic
  import opened Tree
  import opened Types
  import opened Position
  import opened Subtyping
  import opened Obligations
  import opened Environment
  import opened Joins
  import opened Expressive
  import opened ConstraintBuilders

  function Max(a: nat, b: nat): nat {
    if a < b then b else a
  }

  class TypeEnv {
    var bindings: Bindings

    constructor (bindings: Bindings)
      ensures this.bindings == bindings
    {
      this.bindings := bindings;
    }

    method Clone() returns (env: TypeEnv)
      ensures fresh(env) && env.bindings == bindings
    {
      env := new TypeEnv(bindings);
    }

    function LookupLoc(loc: Loc): Option<Ty>
      reads this
    {
      if loc in bindings then Some(BindingTy(bindings[loc])) else None
    }

    method InsertLoc(loc: Loc, ty: Ty)
      modifies this
      ensures bindings == old(bindings)[loc := Strong(ty)]
    {
      bindings := bindings[loc := Strong(ty)];
    }

    /** A strong binding is replaced; a weak one keeps its type, which the new one must be below. */
    method UpdateLoc(cursor: Cursor, loc: Loc, newTy: Ty) returns (ok: bool)
      requires cursor.WellFormed() && WfTy(newTy, cursor.Scope(), cursor.builder.kvars)
      requires WfBindings(bindings, cursor.Scope(), cursor.builder.kvars)
      modifies this, cursor.builder
      ensures cursor.WellFormed() && Worked(old(cursor.builder.State()), cursor.builder.State(), cursor.Pos())
      ensures ok <==> Accommodates(old(bindings), loc, newTy, cursor.builder.tcx)
      ensures loc in old(bindings) && old(bindings)[loc].Strong? ==> ok
      ensures ok && old(bindings)[loc].Strong? ==>
                bindings == old(bindings)[loc := Strong(newTy)] && cursor.builder.State() == old(cursor.builder.State())
      ensures ok && old(bindings)[loc].Weak? ==>
                bindings == old(bindings) &&
                Obliged(old(cursor.builder.State()), cursor.Pos(), cursor.builder.State(),
                        [(newTy, bindings[loc].bound)], cursor.builder.tcx) &&
                Entails(old(cursor.builder.State()), cursor.Pos(), cursor.builder.State(), newTy, bindings[loc].bound,
                        cursor.builder.tcx)
    {
      WorkedRefl(cursor.builder.State(), cursor.Pos());
      if loc !in bindings {
        return false;
      }
      match bindings[loc] {
        case Strong(_) =>
          bindings := bindings[loc := Strong(newTy)];
          ok := true;
        case Weak(bound, _) =>
          ok := cursor.Subtyping(newTy, bound);
      }
    }

    /** Follow the dereferences of a place. */
    method WalkPlace(local: nat, derefs: nat) returns (r: Option<Loc>)
      ensures r == Walk(bindings, Local(local), derefs)
    {
      var loc := Local(local);
      if loc !in bindings {
        return None;
      }
      var n := derefs;
      while n > 0
        invariant loc in bindings && n >= 0
        invariant Walk(bindings, loc, n) == Walk(bindings, Local(local), derefs)
      {
        match BindingTy(bindings[loc]) {
          case StrgRef(referee) =>
            if referee !in bindings {
              return None;
            }
            loc := referee;
          case _ =>
            return None;
        }
        n := n - 1;
      }
      r := Some(loc);
    }

    /** Take the type of a local and leave it uninitialized. */
    method MovePlace(local: nat, derefs: nat) returns (r: Option<Ty>)
      modifies this
      ensures r.Some? <==> derefs == 0 && Local(local) in old(bindings)
      ensures r.Some? ==> r.value == BindingTy(old(bindings)[Local(local)]) &&
                          bindings == old(bindings)[Local(local) := Strong(Uninit)]
      ensures r.None? ==> bindings == old(bindings)
    {
      if derefs != 0 || Local(local) !in bindings {
        return None;
      }
      r := Some(BindingTy(bindings[Local(local)]));
      bindings := bindings[Local(local) := Strong(Uninit)];
    }

    method WritePlace(cursor: Cursor, local: nat, derefs: nat, newTy: Ty) returns (ok: bool)
      requires cursor.WellFormed() && WfTy(newTy, cursor.Scope(), cursor.builder.kvars)
      requires WfBindings(bindings, cursor.Scope(), cursor.builder.kvars)
      modifies this, cursor.builder
      ensures cursor.WellFormed() && Worked(old(cursor.builder.State()), cursor.builder.State(), cursor.Pos())
      ensures ok <==> var r := Walk(old(bindings), Local(local), derefs);
                      r.Some? && Accommodates(old(bindings), r.value, newTy, cursor.builder.tcx) &&
                      Writable(BindingTy(old(bindings)[r.value]))
      ensures ok ==> var loc := Walk(old(bindings), Local(local), derefs).value;
                if old(bindings)[loc].Strong? then
                  bindings == old(bindings)[loc := Strong(newTy)] &&
                    cursor.builder.State() == old(cursor.builder.State())
                else
                  bindings == old(bindings) &&
                  Obliged(old(cursor.builder.State()), cursor.Pos(), cursor.builder.State(),
                          [(newTy, bindings[loc].bound)], cursor.builder.tcx) &&
                  Entails(old(cursor.builder.State()), cursor.Pos(), cursor.builder.State(), newTy, bindings[loc].bound,
                          cursor.builder.tcx)
    {
      WorkedRefl(cursor.builder.State(), cursor.Pos());
      var r := WalkPlace(local, derefs);
      if r.None? {
        return false;
      }
      var loc := r.value;
      WalkBound(bindings, Local(local), derefs);
      match BindingTy(bindings[loc]) {
        case Uninit => ok := UpdateLoc(cursor, loc, newTy);
        case Refine(_, _) => ok := UpdateLoc(cursor, loc, newTy);
        case Param(_) => ok := UpdateLoc(cursor, loc, newTy);
        case StrgRef(_) => ok := UpdateLoc(cursor, loc, newTy);
        case Ref(_) => ok := false;
        case Exists(_, _) => ok := false;
      }
    }

    // ----- jumping to a block that has a target environment -----

    /** Keep the locations the other environment has, location by location. */
    method Weakening(other: TypeEnv)
      modifies this
      ensures bindings == Weakened(old(bindings), old(other.bindings))
    {
      ghost var b0 := bindings;
      var target, todo := other.bindings, bindings.Keys;
      while todo != {}
        invariant todo <= b0.Keys
        invariant bindings.Keys == todo + (b0.Keys - todo) * target.Keys
        invariant forall loc :: loc in bindings ==>
                    bindings[loc] == if loc in todo then b0[loc] else Weakened(b0, target)[loc]
        decreases todo
      {
        var loc :| loc in todo;
        if loc !in target {
          bindings := bindings - {loc};
        } else if BindingTy(target[loc]).Uninit? {
          bindings := bindings[loc := Strong(Uninit)];
        }
        todo := todo - {loc};
      }
      assert bindings.Keys == Weakened(b0, target).Keys;
    }

    /** Levels of all locations, memoized, in whatever order the locations come. */
    method Levels(ghost rank: map<Loc, nat>) returns (levels: map<Loc, nat>)
      requires Acyclic(bindings, rank)
      ensures IsLevels(levels, bindings)
    {
      levels := map[];
      var todo := bindings.Keys;
      while todo != {}
        invariant todo <= bindings.Keys
        invariant levels.Keys <= bindings.Keys && bindings.Keys - todo <= levels.Keys
        invariant forall loc :: loc in levels ==> LevelAt(levels, bindings, loc)
        decreases todo
      {
        var loc :| loc in todo;
        var _, levels' := Dfs(loc, levels, rank);
        levels := levels';
        todo := todo - {loc};
      }
    }

    method Dfs(loc: Loc, levels0: map<Loc, nat>, ghost rank: map<Loc, nat>) returns (level: nat, levels: map<Loc, nat>)
      requires Acyclic(bindings, rank) && loc in bindings
      requires levels0.Keys <= bindings.Keys && forall l :: l in levels0 ==> LevelAt(levels0, bindings, l)
      ensures levels.Keys <= bindings.Keys && forall l :: l in levels ==> LevelAt(levels, bindings, l)
      ensures forall l :: l in levels0 ==> l in levels && levels[l] == levels0[l]
      ensures loc in levels && levels[loc] == level
      decreases rank[loc]
    {
      levels := levels0;
      if loc in levels {
        return levels[loc], levels;
      }
      match BindingTy(bindings[loc]) {
        case StrgRef(referee) =>
          var l, levels' := Dfs(referee, levels, rank);
          levels := levels';
          level := l + 1;
        case _ =>
          level := 0;
      }
      levels := levels[loc := level];
    }

    /** Make the location an instance of `bound`, following the reference chain as `bound` does.
        Only pending locations at or below its level change, and none of them into a strong reference. */
    method RefWeak(cursor: Cursor, loc: Loc, bound: Ty, ghost levels: map<Loc, nat>, ghost pending: set<Loc>)
      returns (ok: bool)
      requires cursor.WellFormed() && WfBindings(bindings, cursor.Scope(), cursor.builder.kvars)
      requires WfTy(bound, cursor.Scope(), cursor.builder.kvars)
      requires LevelsHold(bindings, levels, pending) && loc in pending
      modifies this, cursor.builder
      ensures cursor.WellFormed() && Worked(old(cursor.builder.State()), cursor.builder.State(), cursor.Pos())
      ensures ok <==> Weakenable(old(bindings), loc, bound, cursor.builder.tcx)
      ensures ok ==> Rewritten(old(bindings), bindings, loc, bound, levels, pending)
      ensures ok ==> WfBindings(bindings, cursor.Scope(), cursor.builder.kvars)
      ensures ok ==> Weakens(old(cursor.builder.State()), cursor.Pos(), cursor.builder.State(), old(bindings), bindings,
                             cursor.builder.tcx)
      ensures ok ==> Obliged(old(cursor.builder.State()), cursor.Pos(), cursor.builder.State(),
                             WeakPairs(old(bindings), loc, bound), cursor.builder.tcx)
      decreases bound
    {
      ghost var s0, b0, p := cursor.builder.State(), bindings, cursor.Pos();
      WorkedRefl(s0, p);
      if bindings[loc].Weak? {
        return false;
      }
      var ty := bindings[loc].sty;
      if bound.Exists? {
        ok := cursor.Subtyping(ty, bound);
        if ok {
          bindings := bindings[loc := Strong(bound)];
          WeakensBySubtyping(s0, p, cursor.builder.State(), b0, loc, bound, cursor.builder.tcx);
          RewriteOne(b0, b0, loc, bound, levels, pending);
        }
      } else if ty.StrgRef? && bound.Ref? {
        ok := RefWeak(cursor, ty.loc, bound.ty, levels, pending);
        if ok {
          ReferenceStep(s0, p, cursor.builder.State(), b0, bindings, loc, ty.loc, bound.ty, levels, pending,
                        cursor.builder.tcx);
          RewriteOne(b0, bindings, loc, bound, levels, pending);
          bindings := bindings[loc := Strong(bound)];
        }
      } else {
        NothingObliged(s0, p, [], cursor.builder.tcx);
        ok := ty.Ref? && bound == ty;
      }
    }

    /** Weaken this environment into the target, location by location, referrers before the
        locations they refer to. */
    method TransformInto(cursor: Cursor, other: TypeEnv, ghost rank: map<Loc, nat>) returns (ok: bool)
      requires this != other
      requires cursor.WellFormed() && WfBindings(bindings, cursor.Scope(), cursor.builder.kvars)
      requires WfBindings(other.bindings, cursor.Scope(), cursor.builder.kvars)
      requires Acyclic(Weakened(bindings, other.bindings), rank)
      modifies this, cursor.builder
      ensures cursor.WellFormed() && Worked(old(cursor.builder.State()), cursor.builder.State(), cursor.Pos())
      ensures ok ==> Transformed(old(bindings), other.bindings, bindings)
      ensures NoReferenceWeakened(Weakened(old(bindings), other.bindings), other.bindings) ==>
                (ok <==> Transforms(Weakened(old(bindings), other.bindings), other.bindings, cursor.builder.tcx))
      ensures ok ==> Weakens(old(cursor.builder.State()), cursor.Pos(), cursor.builder.State(), old(bindings), bindings,
                             cursor.builder.tcx)
      ensures ok && NoReferenceWeakened(Weakened(old(bindings), other.bindings), other.bindings) ==>
                JumpObliged(old(cursor.builder.State()), cursor.Pos(), cursor.builder.State(),
                            Weakened(old(bindings), other.bindings), other.bindings, {}, cursor.builder.tcx)
    {
      ghost var s0, b0 := cursor.builder.State(), bindings;
      WorkedRefl(s0, cursor.Pos());
      Weakening(other);
      WeakeningStep(s0, cursor.Pos(), b0, other.bindings, cursor.builder.tcx);
      var levels := Levels(rank);
      TransformStarts(b0, other.bindings, levels, cursor.Scope(), cursor.builder.kvars);
      ok := TransformAll(cursor, other, levels, s0, b0);
      if ok {
        TransformEnds(b0, other.bindings, bindings);
      }
    }

    /** The loop, after weakening. */
    method TransformAll(cursor: Cursor, other: TypeEnv, levels: map<Loc, nat>, ghost s0: Position.State,
                        ghost b0: Bindings)
      returns (ok: bool)
      requires this != other && bindings.Keys <= other.bindings.Keys && bindings.Keys == levels.Keys
      requires cursor.WellFormed() && WfBindings(bindings, cursor.Scope(), cursor.builder.kvars)
      requires WfBindings(other.bindings, cursor.Scope(), cursor.builder.kvars)
      requires LevelsHold(bindings, levels, levels.Keys)
      requires At(s0, cursor.Pos()) && Worked(s0, cursor.builder.State(), cursor.Pos())
      requires Weakens(s0, cursor.Pos(), cursor.builder.State(), b0, bindings, cursor.builder.tcx)
      requires cursor.builder.State() == s0
      modifies this, cursor.builder
      ensures cursor.WellFormed() && Worked(s0, cursor.builder.State(), cursor.Pos())
      ensures ok ==> bindings.Keys == old(bindings.Keys) && Reached(bindings, other.bindings, {})
      ensures ok ==> Weakens(s0, cursor.Pos(), cursor.builder.State(), b0, bindings, cursor.builder.tcx)
      ensures NoReferenceWeakened(old(bindings), other.bindings) ==>
                (ok <==> Transforms(old(bindings), other.bindings, cursor.builder.tcx))
      ensures ok && NoReferenceWeakened(old(bindings), other.bindings) ==>
                JumpObliged(s0, cursor.Pos(), cursor.builder.State(), old(bindings), other.bindings, {},
                            cursor.builder.tcx)
    {
      ghost var w, tcx := bindings, cursor.builder.tcx;
      JumpStarts(s0, cursor.Pos(), w, other.bindings, levels.Keys, tcx);
      var pending := levels.Keys;
      while pending != {}
        invariant pending <= bindings.Keys == w.Keys == levels.Keys
        invariant cursor.WellFormed() && Worked(s0, cursor.builder.State(), cursor.Pos())
        invariant WfBindings(bindings, cursor.Scope(), cursor.builder.kvars)
        invariant LevelsHold(bindings, levels, pending)
        invariant Reached(bindings, other.bindings, pending)
        invariant Weakens(s0, cursor.Pos(), cursor.builder.State(), b0, bindings, tcx)
        invariant SoFar(w, other.bindings, bindings, pending, tcx)
        invariant JumpSoFar(s0, cursor.Pos(), cursor.builder.State(), w, other.bindings, pending, tcx)
        decreases pending
      {
        HasTopLevel(levels, pending);
        var loc :| loc in pending && forall l :: l in pending ==> levels[l] <= levels[loc];
        ok := TransformNext(cursor, loc, other, levels, pending, s0, b0, w);
        if !ok {
          return;
        }
        pending := pending - {loc};
      }
      ok := true;
    }

    /** One iteration of the loop, and how far it brings the whole. */
    method TransformNext(cursor: Cursor, loc: Loc, other: TypeEnv, ghost levels: map<Loc, nat>, ghost pending: set<Loc>,
                         ghost s0: Position.State, ghost b0: Bindings, ghost w: Bindings) returns (ok: bool)
      requires this != other
      requires cursor.WellFormed() && WfBindings(bindings, cursor.Scope(), cursor.builder.kvars)
      requires WfBindings(other.bindings, cursor.Scope(), cursor.builder.kvars)
      requires bindings.Keys <= other.bindings.Keys && bindings.Keys == levels.Keys
      requires LevelsHold(bindings, levels, pending) && Reached(bindings, other.bindings, pending)
      requires loc in pending && forall l :: l in pending ==> levels[l] <= levels[loc]
      requires At(s0, cursor.Pos()) && Worked(s0, cursor.builder.State(), cursor.Pos())
      requires Weakens(s0, cursor.Pos(), cursor.builder.State(), b0, bindings, cursor.builder.tcx)
      requires SoFar(w, other.bindings, bindings, pending, cursor.builder.tcx)
      requires JumpSoFar(s0, cursor.Pos(), cursor.builder.State(), w, other.bindings, pending, cursor.builder.tcx)
      modifies this, cursor.builder
      ensures cursor.WellFormed() && Worked(s0, cursor.builder.State(), cursor.Pos())
      ensures ok ==> bindings.Keys == old(bindings.Keys) && WfBindings(bindings, cursor.Scope(), cursor.builder.kvars)
      ensures ok ==> LevelsHold(bindings, levels, pending - {loc}) && Reached(bindings, other.bindings, pending - {loc})
      ensures ok ==> Weakens(s0, cursor.Pos(), cursor.builder.State(), b0, bindings, cursor.builder.tcx)
      ensures ok ==> SoFar(w, other.bindings, bindings, pending - {loc}, cursor.builder.tcx)
      ensures ok ==> JumpSoFar(s0, cursor.Pos(), cursor.builder.State(), w, other.bindings, pending - {loc},
                               cursor.builder.tcx)
      ensures !ok && NoReferenceWeakened(w, other.bindings) ==> !Transforms(w, other.bindings, cursor.builder.tcx)
    {
      ghost var b1, s1, tcx := bindings, cursor.builder.State(), cursor.builder.tcx;
      ok := TransformLoc(cursor, loc, other, levels, pending);
      WorkedTrans(s0, s1, cursor.builder.State(), cursor.Pos());
      if ok {
        WeakensStep(s0, s1, cursor.Pos(), cursor.builder.State(), b0, b1, bindings, tcx);
        JumpNext(s0, s1, cursor.Pos(), cursor.builder.State(), w, other.bindings, b1, pending, loc, tcx);
        SoFarNext(w, other.bindings, b1, bindings, pending, loc, tcx);
      } else {
        SoFarStops(w, other.bindings, b1, pending, loc, tcx);
      }
    }

    /** Compare at one location and give it the type of the target. */
    method TransformLoc(cursor: Cursor, loc: Loc, other: TypeEnv, ghost levels: map<Loc, nat>, ghost pending: set<Loc>)
      returns (ok: bool)
      requires this != other
      requires cursor.WellFormed() && WfBindings(bindings, cursor.Scope(), cursor.builder.kvars)
      requires WfBindings(other.bindings, cursor.Scope(), cursor.builder.kvars)
      requires bindings.Keys <= other.bindings.Keys && bindings.Keys == levels.Keys
      requires LevelsHold(bindings, levels, pending) && Reached(bindings, other.bindings, pending)
      requires loc in pending && forall l :: l in pending ==> levels[l] <= levels[loc]
      modifies this, cursor.builder
      ensures cursor.WellFormed() && Worked(old(cursor.builder.State()), cursor.builder.State(), cursor.Pos())
      ensures ok <==> TransformsAt(old(bindings), other.bindings, loc, cursor.builder.tcx)
      ensures ok ==> bindings.Keys == old(bindings.Keys)
      ensures ok && !WeakensReference(old(bindings), other.bindings, loc) ==>
                bindings == old(bindings)[loc := other.bindings[loc]]
      ensures ok ==> WfBindings(bindings, cursor.Scope(), cursor.builder.kvars)
      ensures ok ==> LevelsHold(bindings, levels, pending - {loc}) && Reached(bindings, other.bindings, pending - {loc})
      ensures ok ==> Weakens(old(cursor.builder.State()), cursor.Pos(), cursor.builder.State(), old(bindings), bindings,
                             cursor.builder.tcx)
      ensures ok ==> Obliged(old(cursor.builder.State()), cursor.Pos(), cursor.builder.State(),
                             ComparePairs(old(bindings), old(bindings)[loc].sty, other.bindings[loc].sty),
                             cursor.builder.tcx)
    {
      WorkedRefl(cursor.builder.State(), cursor.Pos());
      if bindings[loc].Weak? || other.bindings[loc].Weak? {
        return false;
      }
      ghost var b1 := bindings;
      var ty1, ty2 := bindings[loc].sty, other.bindings[loc].sty;
      ok := Compare(cursor, loc, ty1, ty2, levels, pending);
      if ok {
        TransformStep(b1, bindings, other.bindings, loc, ty2, levels, pending);
        WfInsert(bindings, loc, ty2, cursor.Scope(), cursor.builder.kvars);
        InsertLoc(loc, ty2);
      }
    }

    /** The two arms: a reference to be weakened, or a type to be compared. */
    method Compare(cursor: Cursor, loc: Loc, ty1: Ty, ty2: Ty, ghost levels: map<Loc, nat>, ghost pending: set<Loc>)
      returns (ok: bool)
      requires cursor.WellFormed() && WfBindings(bindings, cursor.Scope(), cursor.builder.kvars)
      requires loc in bindings && bindings[loc] == Strong(ty1) && WfTy(ty2, cursor.Scope(), cursor.builder.kvars)
      requires LevelsHold(bindings, levels, pending) && loc in pending
      modifies this, cursor.builder
      ensures cursor.WellFormed() && Worked(old(cursor.builder.State()), cursor.builder.State(), cursor.Pos())
      ensures ok <==> Comparable(old(bindings), ty1, ty2, cursor.builder.tcx)
      ensures !(ty1.StrgRef? && ty2.Ref?) ==> bindings == old(bindings)
      ensures ok ==> RewrittenBelow(old(bindings), bindings, loc, levels, pending)
      ensures ok ==> WfBindings(bindings, cursor.Scope(), cursor.builder.kvars)
      ensures ok ==> Weakens(old(cursor.builder.State()), cursor.Pos(), cursor.builder.State(), old(bindings),
                             bindings[loc := Strong(ty2)], cursor.builder.tcx)
      ensures ok ==> Obliged(old(cursor.builder.State()), cursor.Pos(), cursor.builder.State(),
                             ComparePairs(old(bindings), ty1, ty2), cursor.builder.tcx)
    {
      ghost var s0, b0, p := cursor.builder.State(), bindings, cursor.Pos();
      if ty1.StrgRef? && ty2.Ref? {
        ok := RefWeak(cursor, ty1.loc, ty2.ty, levels, pending);
        if ok {
          ReferenceStep(s0, p, cursor.builder.State(), b0, bindings, loc, ty1.loc, ty2.ty, levels, pending,
                        cursor.builder.tcx);
        }
      } else {
        ok := cursor.Subtyping(ty1, ty2);
        if ok {
          WeakensBySubtyping(s0, p, cursor.builder.State(), b0, loc, ty2, cursor.builder.tcx);
        }
      }
    }

    // ----- joining -----

    /** Join with another environment without references, location by location. */
    method JoinWith(other: TypeEnv, cursor: Cursor) returns (ok: bool)
      requires this != other && cursor.WellFormed()
      requires WfBindings(bindings, cursor.Scope(), cursor.builder.kvars) && PlainBindings(bindings, cursor.builder.tcx)
      requires WfBindings(other.bindings, cursor.Scope(), cursor.builder.kvars) &&
               PlainBindings(other.bindings, cursor.builder.tcx)
      modifies this, cursor.builder`kvars
      ensures cursor.WellFormed() && old(cursor.builder.kvars) <= cursor.builder.kvars
      ensures ok <==> JoinableBindings(old(bindings), other.bindings, cursor.builder.tcx)
      ensures ok ==> Joined(old(bindings), other.bindings, bindings, |old(cursor.builder.kvars)|, cursor.Scope(),
                            cursor.builder.tcx)
      ensures ok ==> Expresses(old(bindings), other.bindings, bindings, |old(cursor.builder.kvars)|,
                               cursor.builder.vars[..cursor.nvars], cursor.builder.tcx)
      ensures ok ==> AllSharp(old(bindings), other.bindings, bindings, |old(cursor.builder.kvars)|,
                              |cursor.builder.kvars|, cursor.builder.vars[..cursor.nvars])
      ensures ok ==> WfBindings(bindings, cursor.Scope(), cursor.builder.kvars)
    {
      ghost var b0, n, g, tcx := bindings, |cursor.builder.kvars|, cursor.Scope(), cursor.builder.tcx;
      ghost var binders := cursor.builder.vars[..cursor.nvars];
      Weakening(other);
      ApartStarts(b0, other.bindings, bindings, n, binders);
      JoiningStarts(b0, other.bindings, n, g, cursor.builder.kvars, tcx);
      var levels := JoinLevels(other, tcx);
      var pending := levels.Keys;
      while pending != {}
        invariant pending <= levels.Keys
        invariant cursor.WellFormed() && old(cursor.builder.kvars) <= cursor.builder.kvars
        invariant WfBindings(bindings, g, cursor.builder.kvars) && WfBindings(other.bindings, g, cursor.builder.kvars)
        invariant Joining(b0, other.bindings, bindings, pending, n, g, tcx)
        invariant Apart(b0, other.bindings, bindings, pending, n, |cursor.builder.kvars|, binders)
        decreases pending
      {
        HasBottomLevel(levels, pending);
        var loc :| loc in pending && forall l :: l in pending ==> levels[loc] <= levels[l];
        ok := JoinLoc(other, cursor, loc, b0, pending, n);
        if !ok {
          return;
        }
        pending := pending - {loc};
      }
      JoiningEnds(b0, other.bindings, bindings, n, g, tcx);
      ApartExpresses(b0, other.bindings, bindings, n, |cursor.builder.kvars|, binders, tcx);
      ok := true;
    }

    /** The greater of the levels in the two environments. */
    method JoinLevels(other: TypeEnv, ghost tcx: Variances) returns (levels: map<Loc, nat>)
      requires PlainBindings(bindings, tcx) && PlainBindings(other.bindings, tcx) &&
               bindings.Keys <= other.bindings.Keys
      ensures levels.Keys == bindings.Keys
    {
      ghost var zero: map<Loc, nat> := map loc | loc in other.bindings.Keys :: 0;
      levels := Levels(zero);
      var levelsOther := other.Levels(zero);
      levels := map loc | loc in levels :: Max(levels[loc], levelsOther[loc]);
    }

    method JoinLoc(other: TypeEnv, cursor: Cursor, loc: Loc, ghost b0: Bindings, ghost pending: set<Loc>, ghost n: nat)
      returns (ok: bool)
      requires this != other && cursor.WellFormed() && n <= |cursor.builder.kvars| && loc in pending
      requires WfBindings(bindings, cursor.Scope(), cursor.builder.kvars) &&
               WfBindings(other.bindings, cursor.Scope(), cursor.builder.kvars)
      requires PlainBindings(b0, cursor.builder.tcx) && PlainBindings(other.bindings, cursor.builder.tcx)
      requires Joining(b0, other.bindings, bindings, pending, n, cursor.Scope(), cursor.builder.tcx)
      requires Apart(b0, other.bindings, bindings, pending, n, |cursor.builder.kvars|,
                     cursor.builder.vars[..cursor.nvars])
      modifies this, cursor.builder`kvars
      ensures cursor.WellFormed() && old(cursor.builder.kvars) <= cursor.builder.kvars
      ensures loc in b0 && loc in other.bindings &&
              (ok <==> Joinable(BindingTy(b0[loc]), BindingTy(other.bindings[loc]), cursor.builder.tcx))
      ensures ok ==> WfBindings(bindings, cursor.Scope(), cursor.builder.kvars) &&
                     WfBindings(other.bindings, cursor.Scope(), cursor.builder.kvars)
      ensures ok ==> Joining(b0, other.bindings, bindings, pending - {loc}, n, cursor.Scope(), cursor.builder.tcx)
      ensures ok ==> Apart(b0, other.bindings, bindings, pending - {loc}, n, |cursor.builder.kvars|,
                           cursor.builder.vars[..cursor.nvars])
    {
      ghost var b1, kvars1, g, tcx := bindings, cursor.builder.kvars, cursor.Scope(), cursor.builder.tcx;
      assert PendingAt(b0, other.bindings, b1, loc);
      var ty := StrgTyJoin(cursor, bindings[loc].sty, other.bindings[loc].sty);
      if ty.None? {
        return false;
      }
      JoinStep(b0, other.bindings, b1, loc, ty.value, pending, n, |kvars1|, g, cursor.builder.kvars, tcx);
      ApartNext(b0, other.bindings, b1, loc, ty.value, pending, n, |kvars1|, |cursor.builder.kvars|,
                cursor.builder.vars[..cursor.nvars]);
      JoinStepWf(other.bindings, b1, loc, ty.value, g, kvars1, cursor.builder.kvars);
      InsertLoc(loc, ty.value);
      ok := true;
    }

    /** The least type above two types, with fresh kvars where indices differ.  Fails on types of
        different kinds, and on data types that are not covariant. */
    method StrgTyJoin(cursor: Cursor, ty1: Ty, ty2: Ty) returns (r: Option<Ty>)
      requires cursor.WellFormed() && Plain(ty1, cursor.builder.tcx) && Plain(ty2, cursor.builder.tcx)
      requires WfTy(ty1, cursor.Scope(), cursor.builder.kvars) && WfTy(ty2, cursor.Scope(), cursor.builder.kvars)
      modifies cursor.builder`kvars
      ensures cursor.WellFormed() && old(cursor.builder.kvars) <= cursor.builder.kvars
      ensures r.Some? <==> Joinable(ty1, ty2, cursor.builder.tcx)
      ensures r.Some? ==> JoinOf(ty1, ty2, r.value, |old(cursor.builder.kvars)|, cursor.Scope(), cursor.builder.kvars,
                                 cursor.builder.tcx)
      ensures r.Some? ==> Sharp(ty1, ty2, r.value, |old(cursor.builder.kvars)|, |cursor.builder.kvars|,
                                cursor.builder.vars[..cursor.nvars])
      decreases ty1, 1
    {
      ghost var n, g, tcx := |cursor.builder.kvars|, cursor.Scope(), cursor.builder.tcx;
      if ty1 == ty2 {
        LeqRefl(ty1, tcx);
        AboveSelf(ty1, n, g, tcx);
        return Some(ty1);
      }
      if ty1.Uninit? || ty2.Uninit? {
        AboveUninit(ty1, n, g, tcx);
        AboveUninit(ty2, n, g, tcx);
        return Some(Uninit);
      }
      if ty1.Param? || ty2.Param? {
        return None;
      }
      var b := BtyJoin(cursor, ty1.bty, ty2.bty);
      if b.None? {
        return None;
      }
      if ty1.Refine? && ty2.Refine? && ty1.e == ty2.e {
        RefineJoin(ty1.bty, ty2.bty, b.value, ty1.e, n, g, cursor.builder.kvars, tcx);
        return Some(Refine(b.value, ty1.e));
      }
      ghost var kvars1 := cursor.builder.kvars;
      var p := cursor.FreshKvar(SortOfBase(b.value));
      SharpBaseLater(ty1.bty, ty2.bty, b.value, n, |kvars1|, n, |cursor.builder.kvars|,
                     cursor.builder.vars[..cursor.nvars]);
      KvarJoin(ty1, ty2, b.value, p, n, g, kvars1, cursor.builder.kvars, tcx);
      r := Some(Exists(b.value, p));
    }

    method BtyJoin(cursor: Cursor, b1: BaseTy, b2: BaseTy) returns (r: Option<BaseTy>)
      requires cursor.WellFormed() && PlainBase(b1, cursor.builder.tcx) && PlainBase(b2, cursor.builder.tcx)
      requires WfBase(b1, cursor.Scope(), cursor.builder.kvars) && WfBase(b2, cursor.Scope(), cursor.builder.kvars)
      modifies cursor.builder`kvars
      ensures cursor.WellFormed() && old(cursor.builder.kvars) <= cursor.builder.kvars
      ensures r.Some? <==> JoinableBase(b1, b2, cursor.builder.tcx)
      ensures r.Some? ==> JoinOfBase(b1, b2, r.value, |old(cursor.builder.kvars)|, cursor.Scope(), cursor.builder.kvars,
                                     cursor.builder.tcx)
      ensures r.Some? ==> SharpBase(b1, b2, r.value, |old(cursor.builder.kvars)|, |cursor.builder.kvars|,
                                    cursor.builder.vars[..cursor.nvars])
      decreases b1, 1
    {
      if b1.Adt? && b2.Adt? {
        if b1.did != b2.did {
          return None;
        }
        r := AdtJoin(cursor, b1.did, b1.substs, b2.substs);
      } else {
        r := if b1 == b2 then Some(b1) else None;
      }
    }

    /** The type arguments, which have to be covariant, are joined one by one. */
    method AdtJoin(cursor: Cursor, did: nat, substs1: seq<Ty>, substs2: seq<Ty>) returns (r: Option<BaseTy>)
      requires cursor.WellFormed() && PlainBase(Adt(did, substs1), cursor.builder.tcx) &&
               PlainBase(Adt(did, substs2), cursor.builder.tcx)
      requires WfBase(Adt(did, substs1), cursor.Scope(), cursor.builder.kvars) &&
               WfBase(Adt(did, substs2), cursor.Scope(), cursor.builder.kvars)
      modifies cursor.builder`kvars
      ensures cursor.WellFormed() && old(cursor.builder.kvars) <= cursor.builder.kvars
      ensures r.Some? <==> JoinableBase(Adt(did, substs1), Adt(did, substs2), cursor.builder.tcx)
      ensures r.Some? ==> JoinOfBase(Adt(did, substs1), Adt(did, substs2), r.value, |old(cursor.builder.kvars)|,
                                     cursor.Scope(), cursor.builder.kvars, cursor.builder.tcx)
      ensures r.Some? ==> SharpBase(Adt(did, substs1), Adt(did, substs2), r.value, |old(cursor.builder.kvars)|,
                                    |cursor.builder.kvars|, cursor.builder.vars[..cursor.nvars])
      decreases substs1, 0
    {
      ghost var n, g, tcx := |cursor.builder.kvars|, cursor.Scope(), cursor.builder.tcx;
      ghost var binders := cursor.builder.vars[..cursor.nvars];
      var variances := cursor.builder.tcx(did);
      var substs: seq<Ty> := [];
      var i := 0;
      while i < |variances|
        invariant i == |substs| <= |variances| == |substs1| == |substs2|
        invariant cursor.WellFormed() && old(cursor.builder.kvars) <= cursor.builder.kvars
        invariant forall j :: 0 <= j < i ==> variances[j].Covariant? && Joinable(substs1[j], substs2[j], tcx)
        invariant forall j :: 0 <= j < i ==> JoinOf(substs1[j], substs2[j], substs[j], n, g, cursor.builder.kvars, tcx)
        invariant SharpUpTo(substs1, substs2, substs, n, |cursor.builder.kvars|, binders)
      {
        if !variances[i].Covariant? {
          return None;
        }
        ghost var kvars1 := cursor.builder.kvars;
        WfTyExtends(substs1[i], g, g, old(cursor.builder.kvars), kvars1);
        WfTyExtends(substs2[i], g, g, old(cursor.builder.kvars), kvars1);
        var ty := StrgTyJoin(cursor, substs1[i], substs2[i]);
        if ty.None? {
          return None;
        }
        JoinOfNext(substs1, substs2, substs, ty.value, n, |kvars1|, g, kvars1, cursor.builder.kvars, tcx);
        SharpNext(substs1, substs2, substs, ty.value, n, |kvars1|, |cursor.builder.kvars|, binders);
        substs := substs + [ty.value];
        i := i + 1;
      }
      ArgsJoin(did, substs1, substs2, substs, n, g, cursor.builder.kvars, tcx);
      r := Some(Adt(did, substs));
    }
  }

  /** Inserting the join of one location. */
  lemma JoinStep(b0: Bindings, other: Bindings, b: Bindings, loc: Loc, ty: Ty, pending: set<Loc>, n: nat, n1: nat,
                 g: Scope, kvars: seq<seq<Sort>>, tcx: Variances)
    requires Joining(b0, other, b, pending, n, g, tcx) && loc in pending && n <= n1
    requires PlainBindings(b0, tcx) && PlainBindings(other, tcx) && loc in other && loc in Weakened(b0, other)
    requires var ty1, ty2 := BindingTy(Weakened(b0, other)[loc]), BindingTy(other[loc]);
             Joinable(ty1, ty2, tcx) && JoinOf(ty1, ty2, ty, n1, g, kvars, tcx)
    ensures Joining(b0, other, b[loc := Strong(ty)], pending - {loc}, n, g, tcx)
  {
    assert PendingAt(b0, other, b, loc);
    WeakenedJoin(b0, other, b, n, n1, g, tcx, loc, ty);
    JoiningNext(b0, other, b, loc, ty, pending, n, g, tcx);
  }

  lemma JoinStepWf(other: Bindings, b: Bindings, loc: Loc, ty: Ty, g: Scope, kvars0: seq<seq<Sort>>,
                   kvars1: seq<seq<Sort>>)
    requires WfBindings(b, g, kvars0) && WfBindings(other, g, kvars0) && kvars0 <= kvars1 && WfTy(ty, g, kvars1)
    ensures WfBindings(b[loc := Strong(ty)], g, kvars1) && WfBindings(other, g, kvars1)
  {
    WfBindingsExtends(b, g, g, kvars0, kvars1);
    WfBindingsExtends(other, g, g, kvars0, kvars1);
  }

  /** The location can take the type: always if it is bound strongly, below its bound otherwise. */
  ghost predicate Accommodates(b: Bindings, loc: Loc, ty: Ty, tcx: Variances) {
    loc in b && (b[loc].Weak? ==> Compatible(ty, b[loc].bound, tcx))
  }

  /** The location can be made an instance of the bound: every reference on the way is strong where
      the bound has a reference, and the chain ends in a comparable type or in the same reference. */
  ghost predicate Weakenable(b: Bindings, loc: Loc, bound: Ty, tcx: Variances)
    decreases bound
  {
    && loc in b && b[loc].Strong?
    && if bound.Exists? then Compatible(b[loc].sty, bound, tcx)
       else if b[loc].sty.StrgRef? && bound.Ref? then Weakenable(b, b[loc].sty.loc, bound.ty, tcx)
       else b[loc].sty.Ref? && b[loc].sty == bound
  }

  ghost predicate Comparable(b: Bindings, ty1: Ty, ty2: Ty, tcx: Variances) {
    if ty1.StrgRef? && ty2.Ref? then Weakenable(b, ty1.loc, ty2.ty, tcx) else Compatible(ty1, ty2, tcx)
  }

  /** The comparison at the end of the chain of references that the bound follows. */
  function WeakPairs(b: Bindings, loc: Loc, bound: Ty): seq<(Ty, Ty)>
    decreases bound
  {
    if loc !in b || b[loc].Weak? then []
    else if bound.Exists? then [(b[loc].sty, bound)]
    else if b[loc].sty.StrgRef? && bound.Ref? then WeakPairs(b, b[loc].sty.loc, bound.ty)
    else []
  }

  function ComparePairs(b: Bindings, ty1: Ty, ty2: Ty): seq<(Ty, Ty)> {
    if ty1.StrgRef? && ty2.Ref? then WeakPairs(b, ty1.loc, ty2.ty) else [(ty1, ty2)]
  }

  /** Without references to be weakened, the tree gains exactly that at the locations that are no longer
      pending the type the jump starts with is a subtype of the target's. */
  ghost predicate JumpObliged(s0: Position.State, p: Position.Pos, s1: Position.State, w: Bindings, target: Bindings,
                              pending: set<Loc>, tcx: Variances)
    requires At(s0, p)
  {
    forall k: Interp ::
      Holds(s1.root, map[], k) <==> Holds(s0.root, map[], k) && JumpHolds(s0, p, w, target, pending, k, tcx)
  }

  ghost predicate JumpHolds(s: Position.State, p: Position.Pos, w: Bindings, target: Bindings, pending: set<Loc>,
                            k: Interp, tcx: Variances)
    requires At(s, p)
  {
    forall loc, env: Env | loc in w && loc !in pending && loc in target && Reach(s.root, p.node, map[], env, k) ::
      Subtype(BindingTy(w[loc]), BindingTy(target[loc]), env, k, tcx)
  }

  ghost predicate JumpSoFar(s0: Position.State, p: Position.Pos, s1: Position.State, w: Bindings, target: Bindings,
                            pending: set<Loc>, tcx: Variances)
    requires At(s0, p)
  {
    NoReferenceWeakened(w, target) ==> JumpObliged(s0, p, s1, w, target, pending, tcx)
  }

  lemma JumpStarts(s: Position.State, p: Position.Pos, w: Bindings, target: Bindings, pending: set<Loc>, tcx: Variances)
    requires At(s, p) && w.Keys <= pending
    ensures JumpObliged(s, p, s, w, target, pending, tcx)
  {
    forall k: Interp ensures JumpHolds(s, p, w, target, pending, k, tcx) {
    }
  }

  lemma JumpNext(s0: Position.State, s1: Position.State, p: Position.Pos, s2: Position.State, w: Bindings,
                 target: Bindings, b: Bindings, pending: set<Loc>, loc: Loc, tcx: Variances)
    requires At(s0, p) && At(s1, p) && Keeps(s0, s1, p) && loc in pending
    requires JumpSoFar(s0, p, s1, w, target, pending, tcx) && SoFar(w, target, b, pending, tcx)
    requires loc in b && loc in target && b[loc].Strong? && target[loc].Strong?
    requires Obliged(s1, p, s2, ComparePairs(b, b[loc].sty, target[loc].sty), tcx)
    ensures JumpSoFar(s0, p, s2, w, target, pending - {loc}, tcx)
  {
    if NoReferenceWeakened(w, target) {
      assert SoFarAt(w, target, b, loc);
      var t1, t2 := BindingTy(w[loc]), BindingTy(target[loc]);
      assert ComparePairs(b, b[loc].sty, target[loc].sty) == [(t1, t2)];
      forall k: Interp
        ensures JumpHolds(s0, p, w, target, pending - {loc}, k, tcx) <==>
                JumpHolds(s0, p, w, target, pending, k, tcx) && SubsHold(s1, p, [(t1, t2)], k, tcx)
      {
        SubsHoldLater(s0, s1, p, [(t1, t2)], k, tcx);
        JumpOneMore(s0, p, w, target, pending, loc, k, tcx);
      }
    }
  }

  lemma JumpOneMore(s: Position.State, p: Position.Pos, w: Bindings, target: Bindings, pending: set<Loc>, loc: Loc,
                    k: Interp, tcx: Variances)
    requires At(s, p) && loc in pending && loc in w && loc in target
    ensures JumpHolds(s, p, w, target, pending - {loc}, k, tcx) <==>
            JumpHolds(s, p, w, target, pending, k, tcx) &&
            SubsHold(s, p, [(BindingTy(w[loc]), BindingTy(target[loc]))], k, tcx)
  {
    var t1, t2 := BindingTy(w[loc]), BindingTy(target[loc]);
    forall env: Env ensures AllSub([(t1, t2)], env, k, tcx) <==> Subtype(t1, t2, env, k, tcx) {
      AllSubOne(t1, t2, env, k, tcx);
    }
    if JumpHolds(s, p, w, target, pending, k, tcx) && SubsHold(s, p, [(t1, t2)], k, tcx) {
      forall l, env: Env | l in w && l !in pending - {loc} && l in target && Reach(s.root, p.node, map[], env, k)
        ensures Subtype(BindingTy(w[l]), BindingTy(target[l]), env, k, tcx)
      {
        if l == loc { assert AllSub([(t1, t2)], env, k, tcx); }
      }
    }
  }

  /** Hence for scalars a jump obliges to no more than its target needs: if every shared location's type is
      contained in the target's, the obligations hold. */
  lemma JumpNecessary(s0: Position.State, p: Position.Pos, s1: Position.State, b: Bindings, target: Bindings, k: Interp,
                      tcx: Variances)
    requires At(s0, p) && JumpObliged(s0, p, s1, Weakened(b, target), target, {}, tcx) && Holds(s0.root, map[], k)
    requires forall loc | loc in b :: ScalarType(BindingTy(b[loc]))
    requires forall loc, env: Env | loc in b && loc in target && Reach(s0.root, p.node, map[], env, k) ::
               Contained(BindingTy(b[loc]), BindingTy(target[loc]), env, k, tcx)
    ensures Holds(s1.root, map[], k)
  {
    var w := Weakened(b, target);
    forall loc, env: Env | loc in w && loc !in {} && loc in target && Reach(s0.root, p.node, map[], env, k)
      ensures Subtype(BindingTy(w[loc]), BindingTy(target[loc]), env, k, tcx)
    {
      if !BindingTy(target[loc]).Uninit? { SubNeeded(BindingTy(b[loc]), BindingTy(target[loc]), env, k, tcx); }
    }
    assert JumpHolds(s0, p, w, target, {}, k, tcx);
  }

  /** The same for a reference that is weakened to its bound: containment at the end of its chain is enough. */
  lemma WeakNecessary(s0: Position.State, p: Position.Pos, s1: Position.State, b: Bindings, loc: Loc, bound: Ty,
                      k: Interp, tcx: Variances)
    requires At(s0, p) && Obliged(s0, p, s1, WeakPairs(b, loc, bound), tcx) && Holds(s0.root, map[], k)
    requires forall i, env: Env | 0 <= i < |WeakPairs(b, loc, bound)| && Reach(s0.root, p.node, map[], env, k) ::
               ScalarType(WeakPairs(b, loc, bound)[i].0) &&
               Contained(WeakPairs(b, loc, bound)[i].0, WeakPairs(b, loc, bound)[i].1, env, k, tcx)
    ensures Holds(s1.root, map[], k)
  {
    var pairs := WeakPairs(b, loc, bound);
    forall env: Env | Reach(s0.root, p.node, map[], env, k) ensures AllSub(pairs, env, k, tcx) {
      forall i | 0 <= i < |pairs| ensures Subtype(pairs[i].0, pairs[i].1, env, k, tcx) {
        SubNeeded(pairs[i].0, pairs[i].1, env, k, tcx);
      }
    }
    assert SubsHold(s0, p, pairs, k, tcx);
  }

  /** The step of the loop at a location goes through. */
  ghost predicate TransformsAt(b: Bindings, target: Bindings, loc: Loc, tcx: Variances) {
    && loc in b && loc in target && b[loc].Strong? && target[loc].Strong?
    && Comparable(b, b[loc].sty, target[loc].sty, tcx)
  }

  ghost predicate Transforms(b: Bindings, target: Bindings, tcx: Variances) {
    forall loc :: loc in b ==> TransformsAt(b, target, loc, tcx)
  }

  predicate WeakensReference(b: Bindings, target: Bindings, loc: Loc) {
    loc in b && loc in target && BindingTy(b[loc]).StrgRef? && BindingTy(target[loc]).Ref?
  }

  predicate NoReferenceWeakened(b: Bindings, target: Bindings) {
    forall loc :: loc in b ==> !WeakensReference(b, target, loc)
  }

  /** While no strong reference is weakened, the steps do not get in each other's way. */
  ghost predicate SoFar(w: Bindings, target: Bindings, b: Bindings, pending: set<Loc>, tcx: Variances) {
    NoReferenceWeakened(w, target) ==>
      && (forall loc :: loc in pending ==> SoFarAt(w, target, b, loc))
      && forall loc :: loc in w && loc !in pending ==> TransformsAt(w, target, loc, tcx)
  }

  lemma SoFarStops(w: Bindings, target: Bindings, b: Bindings, pending: set<Loc>, loc: Loc, tcx: Variances)
    requires SoFar(w, target, b, pending, tcx) && loc in pending && !TransformsAt(b, target, loc, tcx)
    ensures NoReferenceWeakened(w, target) ==> !Transforms(w, target, tcx)
  {
    if NoReferenceWeakened(w, target) {
      assert SoFarAt(w, target, b, loc);
      assert !TransformsAt(w, target, loc, tcx);
    }
  }

  lemma SoFarNext(w: Bindings, target: Bindings, b: Bindings, b': Bindings, pending: set<Loc>, loc: Loc, tcx: Variances)
    requires SoFar(w, target, b, pending, tcx) && loc in pending && TransformsAt(b, target, loc, tcx)
    requires !WeakensReference(b, target, loc) ==> b' == b[loc := target[loc]]
    ensures SoFar(w, target, b', pending - {loc}, tcx)
  {
    if NoReferenceWeakened(w, target) {
      assert SoFarAt(w, target, b, loc);
      forall l | l in pending - {loc} ensures SoFarAt(w, target, b', l) { assert SoFarAt(w, target, b, l); }
    }
  }

  ghost predicate SoFarAt(w: Bindings, target: Bindings, b: Bindings, loc: Loc) {
    loc in w && loc in b && b[loc] == w[loc] && !WeakensReference(w, target, loc)
  }

  /** The locations below `loc` may have changed, none of them into a strong reference. */
  ghost predicate RewrittenBelow(b0: Bindings, b1: Bindings, loc: Loc, levels: map<Loc, nat>, pending: set<Loc>) {
    && b1.Keys == b0.Keys
    && LevelsHold(b1, levels, pending)
    && loc in levels
    && forall l :: l in b1 && b1[l] != b0[l] ==> l in pending && l in levels && levels[l] < levels[loc]
  }

  /** `loc` is bound to `bound`; besides it, only pending locations below it may have changed. */
  ghost predicate Rewritten(b0: Bindings, b1: Bindings, loc: Loc, bound: Ty, levels: map<Loc, nat>, pending: set<Loc>) {
    && b1.Keys == b0.Keys
    && LevelsHold(b1, levels, pending)
    && loc in levels && loc in b1 && b1[loc] == Strong(bound)
    && forall l :: l in b1 && b1[l] != b0[l] ==> l in pending && l in levels && levels[l] <= levels[loc]
  }

  /** The locations that are no longer pending have the type of the target. */
  ghost predicate Reached(b: Bindings, target: Bindings, pending: set<Loc>) {
    forall l :: l in b && l !in pending ==> l in target && target[l].Strong? && b[l] == target[l]
  }

  /** The shared locations, with exactly the types of the target, which are strong. */
  ghost predicate Transformed(b0: Bindings, target: Bindings, b: Bindings) {
    && b.Keys == b0.Keys * target.Keys
    && forall loc :: loc in b ==> target[loc].Strong? && b[loc] == target[loc]
  }

  lemma TransformEnds(b0: Bindings, target: Bindings, b: Bindings)
    requires b.Keys == Weakened(b0, target).Keys && Reached(b, target, {})
    ensures Transformed(b0, target, b)
  {
  }

  lemma TransformStarts(b: Bindings, other: Bindings, levels: map<Loc, nat>, g: Scope, kvars: seq<seq<Sort>>)
    requires WfBindings(b, g, kvars) && IsLevels(levels, Weakened(b, other))
    ensures var w := Weakened(b, other);
            WfBindings(w, g, kvars) && levels.Keys == w.Keys && LevelsHold(w, levels, levels.Keys) &&
              Reached(w, other, levels.Keys)
  {
    var w := Weakened(b, other);
    forall loc | loc in w && BindingTy(w[loc]).StrgRef? ensures RefereeBelow(w, levels, levels.Keys, loc) {
      assert LevelAt(levels, w, loc);
    }
  }

  lemma RewriteOne(b0: Bindings, b1: Bindings, loc: Loc, bound: Ty, levels: map<Loc, nat>, pending: set<Loc>)
    requires b1.Keys == b0.Keys && LevelsHold(b1, levels, pending) && loc in pending && !bound.StrgRef?
    requires forall l :: l in b1 && b1[l] != b0[l] ==> l in pending && levels[l] <= levels[loc]
    ensures Rewritten(b0, b1[loc := Strong(bound)], loc, bound, levels, pending)
  {
    var b2 := b1[loc := Strong(bound)];
    forall l | l in pending && BindingTy(b2[l]).StrgRef? ensures RefereeBelow(b2, levels, pending, l) {
      assert RefereeBelow(b1, levels, pending, l);
    }
  }

  /** After the referee has been weakened to `bound`, the reference can be weakened to `Ref(bound)`. */
  lemma ReferenceStep(s0: Position.State, p: Position.Pos, s1: Position.State, b0: Bindings, b1: Bindings, loc: Loc,
                      referee: Loc, bound: Ty, levels: map<Loc, nat>, pending: set<Loc>, tcx: Variances)
    requires At(s0, p) && loc in b0 && b0[loc] == Strong(StrgRef(referee))
    requires LevelsHold(b0, levels, pending) && loc in pending
    requires Rewritten(b0, b1, referee, bound, levels, pending)
    requires Weakens(s0, p, s1, b0, b1, tcx)
    ensures RewrittenBelow(b0, b1, loc, levels, pending)
    ensures Weakens(s0, p, s1, b0, b1[loc := Strong(Ref(bound))], tcx)
  {
    assert RefereeBelow(b0, levels, pending, loc);
    assert b1[loc] == b0[loc];
    forall k: Interp, env: Env, st: Store |
      Holds(s1.root, map[], k) && Reach(s0.root, p.node, map[], env, k) && Describes(b0, st, env, k, tcx)
      ensures Describes(b1[loc := Strong(Ref(bound))], st, env, k, tcx)
    {
      assert Describes(b1, st, env, k, tcx);
      assert In(st[loc], StrgRef(referee), env, k, tcx, st);
      assert In(st[referee], bound, env, k, tcx, st);
    }
  }

  lemma TransformStep(b0: Bindings, b1: Bindings, target: Bindings, loc: Loc, ty: Ty, levels: map<Loc, nat>,
                      pending: set<Loc>)
    requires loc in target && target[loc] == Strong(ty) && loc in pending
    requires Reached(b0, target, pending) && RewrittenBelow(b0, b1, loc, levels, pending)
    requires forall l :: l in pending ==> l in levels && levels[l] <= levels[loc]
    ensures Reached(b1[loc := Strong(ty)], target, pending - {loc})
    ensures LevelsHold(b1[loc := Strong(ty)], levels, pending - {loc})
  {
    var b2 := b1[loc := Strong(ty)];
    forall l | l in pending - {loc} && BindingTy(b2[l]).StrgRef? ensures RefereeBelow(b2, levels, pending - {loc}, l) {
      assert RefereeBelow(b1, levels, pending, l);
    }
  }

  lemma WeakeningStep(s: Position.State, p: Position.Pos, b: Bindings, other: Bindings, tcx: Variances)
    requires At(s, p)
    ensures Weakens(s, p, s, b, Weakened(b, other), tcx)
  {
    forall k: Interp, env: Env, st: Store | Describes(b, st, env, k, tcx)
      ensures Describes(Weakened(b, other), st, env, k, tcx)
    {
      WeakenedDescribes(b, other, st, env, k, tcx);
    }
  }

  /** Pending locations that are strong references refer to pending locations one level down. */
  ghost predicate LevelsHold(bs: Bindings, levels: map<Loc, nat>, pending: set<Loc>) {
    && pending <= bs.Keys && bs.Keys <= levels.Keys
    && forall loc :: loc in pending && BindingTy(bs[loc]).StrgRef? ==> RefereeBelow(bs, levels, pending, loc)
  }

  ghost predicate RefereeBelow(bs: Bindings, levels: map<Loc, nat>, pending: set<Loc>, loc: Loc)
    requires loc in bs && loc in levels && BindingTy(bs[loc]).StrgRef?
  {
    var r := BindingTy(bs[loc]).loc;
    r in pending && r in levels && levels[r] < levels[loc]
  }

  lemma {:induction false} HasTopLevel(levels: map<Loc, nat>, pending: set<Loc>)
    requires pending != {} && pending <= levels.Keys
    ensures exists loc :: loc in pending && forall l :: l in pending ==> levels[l] <= levels[loc]
  {
    var loc :| loc in pending;
    if pending != {loc} {
      HasTopLevel(levels, pending - {loc});
      var top :| top in pending - {loc} && forall l :: l in pending - {loc} ==> levels[l] <= levels[top];
      var best := if levels[loc] <= levels[top] then top else loc;
      assert forall l :: l in pending ==> l == loc || l in pending - {loc};
      assert forall l :: l in pending ==> levels[l] <= levels[best];
    }
  }

  lemma {:induction false} WalkBound(bs: Bindings, loc: Loc, n: nat)
    requires Walk(bs, loc, n).Some?
    ensures Walk(bs, loc, n).value in bs
    decreases n
  {
    if n > 0 {
      WalkBound(bs, BindingTy(bs[loc]).loc, n - 1);
    }
  }

  lemma {:induction false} HasBottomLevel(levels: map<Loc, nat>, pending: set<Loc>)
    requires pending != {} && pending <= levels.Keys
    ensures exists loc :: loc in pending && forall l :: l in pending ==> levels[loc] <= levels[l]
    decreases pending
  {
    var loc :| loc in pending;
    if pending != {loc} {
      HasBottomLevel(levels, pending - {loc});
      var low :| low in pending - {loc} && forall l :: l in pending - {loc} ==> levels[low] <= levels[l];
      var lowest := if levels[loc] < levels[low] then loc else low;
      assert forall l :: l in pending ==> levels[lowest] <= levels[l];
    }
  }
}
