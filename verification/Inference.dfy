/** Inferring the parameters of a called function from the types of its actual arguments. */
module Inference {
  import opened Logic
  import opened Types
  import opened Environment
  import opened Lowering
  import C = Core

  /** What comparing an actual with a formal type says: an index given to a parameter, or a
      location given to a region. */
  datatype Fact = ExprFact(name: Name, e: Expr) | LocFact(region: Name, loc: Loc) | Nothing

  function FactOf(actual: Ty, formal: C.Ty): Fact {
    if actual.Refine? && formal.Refine? && formal.e.Var? && formal.e.v.Free? then ExprFact(formal.e.v.name, actual.e)
    else if actual.StrgRef? && formal.MutRef? then LocFact(formal.loc, actual.loc)
    else Nothing
  }

  /** The two facts give different things to the same name. */
  predicate Conflict(a: Fact, b: Fact) {
    (a.ExprFact? && b.ExprFact? && a.name == b.name && a.e != b.e) ||
    (a.LocFact? && b.LocFact? && a.region == b.region && a.loc != b.loc)
  }

  ghost predicate Conflicting(facts: seq<Fact>) {
    exists i, j :: 0 <= i < |facts| && 0 <= j < |facts| && Conflict(facts[i], facts[j])
  }

  predicate FactHolds(f: Fact, exprs: map<Name, Expr>, locs: map<Name, Loc>) {
    match f
    case ExprFact(x, e) => x in exprs && exprs[x] == e
    case LocFact(x, l) => x in locs && locs[x] == l
    case Nothing => true
  }

  ghost predicate Solution(facts: seq<Fact>, exprs: map<Name, Expr>, locs: map<Name, Loc>) {
    forall i :: 0 <= i < |facts| ==> FactHolds(facts[i], exprs, locs)
  }

  /** A solution that says nothing more than the facts. */
  ghost predicate Solved(facts: seq<Fact>, exprs: map<Name, Expr>, locs: map<Name, Loc>) {
    && Solution(facts, exprs, locs)
    && (forall x :: x in exprs ==> ExprFact(x, exprs[x]) in facts)
    && (forall x :: x in locs ==> LocFact(x, locs[x]) in facts)
  }

  /** It is the least solution, hence the only one of its kind. */
  lemma SolvedIsLeast(facts: seq<Fact>, exprs: map<Name, Expr>, locs: map<Name, Loc>, exprs': map<Name, Expr>,
                      locs': map<Name, Loc>)
    requires Solved(facts, exprs, locs) && Solution(facts, exprs', locs')
    ensures forall x :: x in exprs ==> x in exprs' && exprs'[x] == exprs[x]
    ensures forall x :: x in locs ==> x in locs' && locs'[x] == locs[x]
  {
    forall x | x in exprs ensures x in exprs' && exprs'[x] == exprs[x] {
      var i :| 0 <= i < |facts| && facts[i] == ExprFact(x, exprs[x]);
      assert FactHolds(facts[i], exprs', locs');
    }
    forall x | x in locs ensures x in locs' && locs'[x] == locs[x] {
      var i :| 0 <= i < |facts| && facts[i] == LocFact(x, locs[x]);
      assert FactHolds(facts[i], exprs', locs');
    }
  }

  /** There is a solution exactly when no two facts conflict. */
  lemma SolvableIff(facts: seq<Fact>)
    ensures !Conflicting(facts) <==> exists exprs: map<Name, Expr>, locs: map<Name, Loc> :: Solution(facts, exprs, locs)
  {
    if exprs: map<Name, Expr>, locs: map<Name, Loc> :| Solution(facts, exprs, locs) {
      forall i, j | 0 <= i < |facts| && 0 <= j < |facts| ensures !Conflict(facts[i], facts[j]) {
        assert FactHolds(facts[i], exprs, locs) && FactHolds(facts[j], exprs, locs);
      }
    }
    if !Conflicting(facts) {
      var exprs, locs := Solve(facts);
      assert Solution(facts, exprs, locs);
    }
  }

  lemma {:induction false} Solve(facts: seq<Fact>) returns (exprs: map<Name, Expr>, locs: map<Name, Loc>)
    requires !Conflicting(facts)
    ensures Solved(facts, exprs, locs)
    decreases |facts|
  {
    if facts == [] {
      exprs, locs := map[], map[];
    } else {
      var init, f := facts[..|facts| - 1], facts[|facts| - 1];
      assert !Conflicting(init) by {
        forall i, j | 0 <= i < |init| && 0 <= j < |init| ensures !Conflict(init[i], init[j]) {
          assert !Conflict(facts[i], facts[j]);
        }
      }
      exprs, locs := Solve(init);
      SolvedNext(init, f, exprs, locs);
      exprs, locs := WithExpr(exprs, f), WithLoc(locs, f);
      assert init + [f] == facts;
    }
  }

  function WithExpr(exprs: map<Name, Expr>, f: Fact): map<Name, Expr> {
    if f.ExprFact? then exprs[f.name := f.e] else exprs
  }

  function WithLoc(locs: map<Name, Loc>, f: Fact): map<Name, Loc> {
    if f.LocFact? then locs[f.region := f.loc] else locs
  }

  /** Adding a fact to what has been solved: it fits, or it conflicts with an earlier one. */
  lemma SolvedNext(facts: seq<Fact>, f: Fact, exprs: map<Name, Expr>, locs: map<Name, Loc>)
    requires Solved(facts, exprs, locs)
    ensures if (f.ExprFact? && f.name in exprs && exprs[f.name] != f.e) ||
            (f.LocFact? && f.region in locs && locs[f.region] != f.loc)
            then Conflicting(facts + [f])
            else Solved(facts + [f], WithExpr(exprs, f), WithLoc(locs, f))
  {
    var all, exprs', locs' := facts + [f], WithExpr(exprs, f), WithLoc(locs, f);
    assert all[|facts|] == f;
    if f.ExprFact? && f.name in exprs && exprs[f.name] != f.e {
      var i :| 0 <= i < |facts| && facts[i] == ExprFact(f.name, exprs[f.name]);
      assert Conflict(all[i], all[|facts|]);
    } else if f.LocFact? && f.region in locs && locs[f.region] != f.loc {
      var i :| 0 <= i < |facts| && facts[i] == LocFact(f.region, locs[f.region]);
      assert Conflict(all[i], all[|facts|]);
    } else {
      forall i | 0 <= i < |all| ensures FactHolds(all[i], exprs', locs') {
        if i < |facts| { assert all[i] == facts[i] && FactHolds(facts[i], exprs, locs); }
      }
      forall x | x in exprs' ensures ExprFact(x, exprs'[x]) in all {
        if f.ExprFact? && x == f.name { assert all[|facts|] == ExprFact(x, exprs'[x]); }
      }
      forall x | x in locs' ensures LocFact(x, locs'[x]) in all {
        if f.LocFact? && x == f.region { assert all[|facts|] == LocFact(x, locs'[x]); }
      }
    }
  }

  // ----- the facts of a call -----

  function ArgFacts(actuals: seq<Ty>, formals: seq<C.Ty>, n: nat): (r: seq<Fact>)
    requires n <= |actuals| && n <= |formals|
    ensures |r| == n && forall i :: 0 <= i < n ==> r[i] == FactOf(actuals[i], formals[i])
  {
    seq(n, i requires 0 <= i < n => FactOf(actuals[i], formals[i]))
  }

  /** The cells of the called function, looked up at the locations of the caller. */
  predicate Located(bs: Bindings, locs: map<Name, Loc>, required: seq<(Name, C.Ty)>, n: nat)
    requires n <= |required|
  {
    forall i :: 0 <= i < n ==> required[i].0 in locs && locs[required[i].0] in bs
  }

  function RequiredFacts(bs: Bindings, locs: map<Name, Loc>, required: seq<(Name, C.Ty)>, n: nat): (r: seq<Fact>)
    requires n <= |required| && Located(bs, locs, required, n)
    ensures |r| == n && forall i :: 0 <= i < n ==> r[i] == FactOf(BindingTy(bs[locs[required[i].0]]), required[i].1)
  {
    seq(n, i requires 0 <= i < n => FactOf(BindingTy(bs[locs[required[i].0]]), required[i].1))
  }

  function CallFacts(bs: Bindings, locs: map<Name, Loc>, actuals: seq<Ty>, sig: C.FnSig, n: nat): seq<Fact>
    requires |actuals| == |sig.args| && n <= |sig.required| && Located(bs, locs, sig.required, n)
  {
    ArgFacts(actuals, sig.args, |actuals|) + RequiredFacts(bs, locs, sig.required, n)
  }

  ghost predicate SolvedUpTo(bs: Bindings, exprs: map<Name, Expr>, locs: map<Name, Loc>, actuals: seq<Ty>, sig: C.FnSig,
                             n: nat)
    requires |actuals| == |sig.args|
  {
    n <= |sig.required| && Located(bs, locs, sig.required, n) &&
      Solved(CallFacts(bs, locs, actuals, sig, n), exprs, locs)
  }

  /** The facts up to a cell have been solved, and that of the cell conflicts with them. */
  ghost predicate AmbiguousAt(bs: Bindings, exprs: map<Name, Expr>, locs: map<Name, Loc>, actuals: seq<Ty>,
                              sig: C.FnSig, n: nat)
    requires |actuals| == |sig.args|
  {
    && n > 0 && SolvedUpTo(bs, exprs, locs, actuals, sig, n - 1)
    && n <= |sig.required| && Located(bs, locs, sig.required, n) && Conflicting(CallFacts(bs, locs, actuals, sig, n))
  }

  ghost predicate Extended(locs: map<Name, Loc>, locs': map<Name, Loc>) {
    forall x :: x in locs ==> x in locs' && locs'[x] == locs[x]
  }

  /** Undetermined is the reported error; the other failures stop the checker. */
  datatype Outcome = Inferred | Undetermined | Ambiguous | Unlocated

  class Subst {
    var exprs: map<Name, Expr>
    var locations: map<Name, Loc>

    constructor ()
      ensures exprs == map[] && locations == map[]
    {
      exprs, locations := map[], map[];
    }

    method InferFromTys(actual: Ty, formal: C.Ty, ghost facts: seq<Fact>) returns (ok: bool)
      requires Solved(facts, exprs, locations)
      modifies this
      ensures ok ==> Solved(facts + [FactOf(actual, formal)], exprs, locations)
      ensures ok ==> Extended(old(locations), locations)
      ensures !ok ==> Conflicting(facts + [FactOf(actual, formal)])
    {
      SolvedNext(facts, FactOf(actual, formal), exprs, locations);
      if actual.Refine? && formal.Refine? && formal.e.Var? && formal.e.v.Free? {
        var name := formal.e.v.name;
        ok := name !in exprs || exprs[name] == actual.e;
        exprs := exprs[name := actual.e];
      } else if actual.StrgRef? && formal.MutRef? {
        ok := formal.loc !in locations || locations[formal.loc] == actual.loc;
        locations := locations[formal.loc := actual.loc];
      } else {
        ok := true;
      }
    }

    /** On success, the least assignment that makes every formal type agree with its actual, and it
        covers the parameters and the regions. */
    method InferFromFnCall(bs: Bindings, actuals: seq<Ty>, sig: C.FnSig) returns (r: Outcome)
      requires |actuals| == |sig.args| && exprs == map[] && locations == map[]
      modifies this
      ensures r.Inferred? || r.Undetermined? ==>
                Located(bs, locations, sig.required, |sig.required|) &&
                Solved(CallFacts(bs, locations, actuals, sig, |sig.required|), exprs, locations)
      ensures r.Inferred? ==> forall i :: 0 <= i < |sig.params| ==> sig.params[i].name in exprs
      ensures r.Undetermined? ==> exists i :: 0 <= i < |sig.params| && sig.params[i].name !in exprs
      ensures r.Ambiguous? ==>
                Conflicting(ArgFacts(actuals, sig.args, |actuals|)) ||
                  exists n, e, l :: AmbiguousAt(bs, e, l, actuals, sig, n)
      ensures r.Unlocated? ==> !Located(bs, locations, sig.required, |sig.required|)
    {
      var ok := InferFromArgs(actuals, sig.args);
      if !ok {
        return Ambiguous;
      }
      r := InferFromRequired(bs, actuals, sig);
      if r.Inferred? {
        r := CheckInference(bs, sig);
      }
    }

    method InferFromRequired(bs: Bindings, actuals: seq<Ty>, sig: C.FnSig) returns (r: Outcome)
      requires |actuals| == |sig.args| && Solved(ArgFacts(actuals, sig.args, |actuals|), exprs, locations)
      modifies this
      ensures r.Inferred? ==> SolvedUpTo(bs, exprs, locations, actuals, sig, |sig.required|)
      ensures r.Ambiguous? ==> exists n, e, l :: AmbiguousAt(bs, e, l, actuals, sig, n)
      ensures r.Unlocated? ==> !Located(bs, locations, sig.required, |sig.required|)
      ensures !r.Undetermined?
    {
      OnlyArgs(bs, locations, actuals, sig);
      var i := 0;
      while i < |sig.required|
        invariant 0 <= i <= |sig.required| && SolvedUpTo(bs, exprs, locations, actuals, sig, i)
      {
        r := InferRequired(bs, actuals, sig, i);
        if !r.Inferred? {
          return;
        }
        i := i + 1;
      }
      r := Inferred;
    }

    method InferRequired(bs: Bindings, actuals: seq<Ty>, sig: C.FnSig, i: nat) returns (r: Outcome)
      requires |actuals| == |sig.args| && i < |sig.required| && SolvedUpTo(bs, exprs, locations, actuals, sig, i)
      modifies this
      ensures r.Inferred? ==> SolvedUpTo(bs, exprs, locations, actuals, sig, i + 1)
      ensures r.Ambiguous? ==> AmbiguousAt(bs, old(exprs), old(locations), actuals, sig, i + 1)
      ensures r.Unlocated? ==> !Located(bs, locations, sig.required, |sig.required|)
      ensures !r.Undetermined?
    {
      var (name, required) := sig.required[i];
      if name !in locations || locations[name] !in bs {
        return Unlocated;
      }
      ghost var locs := locations;
      NextFact(bs, locs, actuals, sig, i);
      var ok := InferFromTys(BindingTy(bs[locations[name]]), required, CallFacts(bs, locs, actuals, sig, i));
      if !ok {
        return Ambiguous;
      }
      SameFacts(bs, locs, locations, actuals, sig, i + 1);
      r := Inferred;
    }

    method InferFromArgs(actuals: seq<Ty>, formals: seq<C.Ty>) returns (ok: bool)
      requires |actuals| == |formals| && exprs == map[] && locations == map[]
      modifies this
      ensures ok ==> Solved(ArgFacts(actuals, formals, |actuals|), exprs, locations)
      ensures !ok ==> Conflicting(ArgFacts(actuals, formals, |actuals|))
    {
      var i := 0;
      while i < |actuals|
        invariant 0 <= i <= |actuals| && Solved(ArgFacts(actuals, formals, i), exprs, locations)
      {
        ok := InferFromTys(actuals[i], formals[i], ArgFacts(actuals, formals, i));
        assert ArgFacts(actuals, formals, i + 1) == ArgFacts(actuals, formals, i) + [FactOf(actuals[i], formals[i])];
        if !ok {
          ConflictLater(ArgFacts(actuals, formals, i + 1), ArgFacts(actuals, formals, |actuals|));
          return;
        }
        i := i + 1;
      }
      ok := true;
    }

    /** The regions have been located before, so that only a parameter can be missing. */
    method CheckInference(bs: Bindings, sig: C.FnSig) returns (r: Outcome)
      requires Located(bs, locations, sig.required, |sig.required|)
      ensures r.Inferred? || r.Undetermined?
      ensures r.Inferred? <==> forall i :: 0 <= i < |sig.params| ==> sig.params[i].name in exprs
    {
      for i := 0 to |sig.params|
        invariant forall j :: 0 <= j < i ==> sig.params[j].name in exprs
      {
        if sig.params[i].name !in exprs {
          return Undetermined;
        }
      }
      for i := 0 to |sig.required| {
        if sig.required[i].0 !in locations {
          return Undetermined;
        }
      }
      r := Inferred;
    }
  }

  lemma ConflictLater(facts: seq<Fact>, facts': seq<Fact>)
    requires Conflicting(facts) && facts <= facts'
    ensures Conflicting(facts')
  {
    var i, j :| 0 <= i < |facts| && 0 <= j < |facts| && Conflict(facts[i], facts[j]);
    assert Conflict(facts'[i], facts'[j]);
  }

  lemma OnlyArgs(bs: Bindings, locs: map<Name, Loc>, actuals: seq<Ty>, sig: C.FnSig)
    requires |actuals| == |sig.args|
    ensures Located(bs, locs, sig.required, 0) &&
            CallFacts(bs, locs, actuals, sig, 0) == ArgFacts(actuals, sig.args, |actuals|)
  {
  }

  lemma NextFact(bs: Bindings, locs: map<Name, Loc>, actuals: seq<Ty>, sig: C.FnSig, i: nat)
    requires |actuals| == |sig.args| && i < |sig.required| && Located(bs, locs, sig.required, i)
    requires sig.required[i].0 in locs && locs[sig.required[i].0] in bs
    ensures Located(bs, locs, sig.required, i + 1)
    ensures CallFacts(bs, locs, actuals, sig, i + 1) ==
            CallFacts(bs, locs, actuals, sig, i) + [FactOf(BindingTy(bs[locs[sig.required[i].0]]), sig.required[i].1)]
  {
    assert RequiredFacts(bs, locs, sig.required, i + 1) ==
           RequiredFacts(bs, locs, sig.required, i) +
             [FactOf(BindingTy(bs[locs[sig.required[i].0]]), sig.required[i].1)];
  }

  lemma SameFacts(bs: Bindings, locs: map<Name, Loc>, locs': map<Name, Loc>, actuals: seq<Ty>, sig: C.FnSig, n: nat)
    requires |actuals| == |sig.args| && n <= |sig.required| && Located(bs, locs, sig.required, n)
    requires Extended(locs, locs')
    ensures Located(bs, locs', sig.required, n)
    ensures CallFacts(bs, locs', actuals, sig, n) == CallFacts(bs, locs, actuals, sig, n)
  {
    assert RequiredFacts(bs, locs', sig.required, n) == RequiredFacts(bs, locs, sig.required, n);
  }

  /** The formal type is indexed by a parameter, or refers to a region. */
  predicate Names(formal: C.Ty) {
    (formal.Refine? && formal.e.Var? && formal.e.v.Free?) || formal.MutRef?
  }

  /** After inference, a formal type that names its index or its region lowers to the index or the
      region of the actual. */
  lemma InferredAgrees(actual: Ty, formal: C.Ty, facts: seq<Fact>, i: nat, exprs: map<Name, Expr>, locs: map<Name, Loc>)
    requires Solved(facts, exprs, locs) && i < |facts| && facts[i] == FactOf(actual, formal) && Names(formal)
    requires if formal.Refine? then actual.Refine? else actual.StrgRef?
    ensures formal.Refine? ==> Lowers(formal.e, exprs) == Some(actual.e)
    ensures formal.MutRef? ==> formal.loc in locs && StrgRef(locs[formal.loc]) == actual
    ensures Lowerable(formal, exprs, locs) ==>
              var ty := LowerTy(formal, exprs, locs);
              if formal.Refine? then ty.Refine? && ty.e == actual.e else ty == actual
  {
    assert FactHolds(facts[i], exprs, locs);
  }

  function Lowers(e: C.Expr, exprs: map<Name, Expr>): Option<Expr> {
    if NamesIn(e, exprs) then Some(LowerExpr(e, exprs)) else None
  }

  /** A fact is found exactly for a formal type that names its index or region, and an actual type of its kind. */
  lemma FactIff(actual: Ty, formal: C.Ty)
    ensures FactOf(actual, formal) != Nothing <==>
            Names(formal) && if formal.Refine? then actual.Refine? else actual.StrgRef?
  {
  }
}
