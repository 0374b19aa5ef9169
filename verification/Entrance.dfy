/** Building the environment at the entry of a function. */
module Entrance {
  import L = Logic
  import opened Logic
  import opened Tree
  import opened Types
  import opened Position
  import opened Subtyping
  import opened Environment
  import opened ConstraintBuilders
  import opened TypeEnvs
  import opened Mir
  import opened Lowering
  import opened Calls
  import opened Entering
  import opened Cells
  import C = Core

  // ----- the cells of a signature -----

  /** The cells that required references point to. */
  function RequiredCells(required: seq<(Name, C.Ty)>, locs: map<Name, Loc>): (r: seq<Cell>)
    requires forall i :: 0 <= i < |required| ==> required[i].0 in locs
    ensures |r| == |required| && forall i :: 0 <= i < |r| ==> r[i] == (locs[required[i].0], required[i].1)
  {
    seq(|required|, i requires 0 <= i < |required| => (locs[required[i].0], required[i].1))
  }

  /** The first `n` arguments. */
  function ArgCells(args: seq<C.Ty>, n: nat): (r: seq<Cell>)
    requires n <= |args|
    ensures |r| == n && forall i :: 0 <= i < n ==> r[i] == (Local(i + 1), args[i])
  {
    seq(n, i requires 0 <= i < n => (Local(i + 1), args[i]))
  }

  function ArgCount(sig: C.FnSig, body: Body): nat {
    if body.argCount <= |sig.args| then body.argCount else |sig.args|
  }

  ghost predicate Named(required: seq<(Name, C.Ty)>, locs: map<Name, Loc>) {
    forall i :: 0 <= i < |required| ==> required[i].0 in locs
  }

  /** Cells have names of their own. */
  ghost predicate DistinctCells(locs: map<Name, Loc>, gen: nat) {
    && (forall x :: x in locs ==> locs[x].Abstract? && locs[x].name < gen)
    && forall x, y :: x in locs && y in locs && x != y ==> locs[x] != locs[y]
  }

  /** Only named cells are bound, and the first `n` locals. */
  ghost predicate BoundBelow(bs: Bindings, gen: nat, n: nat) {
    forall loc :: loc in bs ==> if loc.Abstract? then loc.name < gen else 1 <= loc.index <= n
  }

  /** The required cells and the first `n` arguments, in this order. */
  ghost predicate CellsOf(sig: C.FnSig, n: nat, locs: map<Name, Loc>, cells: seq<Cell>)
    requires n <= |sig.args|
  {
    Named(sig.required, locs) && cells == RequiredCells(sig.required, locs) + ArgCells(sig.args, n)
  }

  /** The entry of the function has been built: for its parameters, required cells, arguments and locals. */
  ghost predicate Entered(t: Stage, sig: C.FnSig, body: Body) {
    && Done(t) && t.params == sig.params
    && t.locs.Keys == CellNames(sig.required) && DistinctCells(t.locs, t.s.gen)
    && CellsOf(sig, ArgCount(sig, body), t.locs, t.cells)
    && forall loc :: loc in t.room <==> loc.Local? && (loc.index == 0 || body.argCount < loc.index < body.nlocals)
  }

  // ----- what callers provide -----

  lemma CellAt(sig: C.FnSig, n: nat, locs: map<Name, Loc>, cells: seq<Cell>, i: nat)
    requires n <= |sig.args| && CellsOf(sig, n, locs, cells)
    ensures |cells| == |sig.required| + n
    ensures i < |sig.required| ==> cells[i] == (locs[sig.required[i].0], sig.required[i].1)
    ensures |sig.required| <= i < |cells| ==>
              cells[i] == (Local(i - |sig.required| + 1), sig.args[i - |sig.required|])
  {
  }

  /** A call that meets the signature provides the cells. */
  lemma CallCells(sig: C.FnSig, body: Body, locs: map<Name, Loc>, cells: seq<Cell>, mu: Env, st: Store, tcx: Variances)
    requires CellsOf(sig, ArgCount(sig, body), locs, cells) && CallOk(sig, body, mu, locs, st, tcx)
    ensures CellsOk(cells, mu, locs, st, tcx)
  {
    forall i | 0 <= i < |cells| ensures CellOk(cells[i], mu, locs, st, tcx) {
      CellAt(sig, ArgCount(sig, body), locs, cells, i);
      if i < |sig.required| { assert RequiredOk(sig.required[i], mu, locs, st, tcx); }
    }
  }

  /** And with room for every local, the other way around. */
  lemma CellsCall(sig: C.FnSig, body: Body, locs: map<Name, Loc>, cells: seq<Cell>, mu: Env, st: Store, tcx: Variances)
    requires CellsOf(sig, ArgCount(sig, body), locs, cells) && CellsOk(cells, mu, locs, st, tcx) &&
             ParamsOk(sig.params, mu)
    requires Local(0) in st && forall i :: 0 <= i < body.nlocals ==> Local(i) in st
    ensures CallOk(sig, body, mu, locs, st, tcx)
  {
    var n := |sig.required|;
    forall i | 0 <= i < n ensures RequiredOk(sig.required[i], mu, locs, st, tcx) {
      CellAt(sig, ArgCount(sig, body), locs, cells, i);
      assert CellOk(cells[i], mu, locs, st, tcx);
    }
    forall i | 0 <= i < body.argCount && i < |sig.args| ensures CellOk((Local(i + 1), sig.args[i]), mu, locs, st, tcx) {
      CellAt(sig, ArgCount(sig, body), locs, cells, n + i);
      assert CellOk(cells[n + i], mu, locs, st, tcx);
    }
  }

  lemma CallProvides(t: Stage, sig: C.FnSig, body: Body, mu: Env, st: Store)
    requires Entered(t, sig, body) && CallOk(sig, body, mu, t.locs, st, t.tcx)
    ensures Provided(t, mu, st)
  {
    CallCells(sig, body, t.locs, t.cells, mu, st, t.tcx);
  }

  lemma ProvidedCall(t: Stage, sig: C.FnSig, body: Body, mu: Env, st: Store)
    requires Entered(t, sig, body) && Provided(t, mu, st) && forall i :: 0 <= i < body.nlocals ==> Local(i) in st
    ensures CallOk(sig, body, mu, t.locs, st, t.tcx)
  {
    assert Local(0) in t.room;
    CellsCall(sig, body, t.locs, t.cells, mu, st, t.tcx);
  }

  /** Room for the locals that nothing is said about. */
  lemma WithLocals(t: Stage, body: Body, env: Env, mu: Env, st: Store, k: Interp) returns (st1: Store)
    requires Done(t) && Provided(t, mu, st) && Fits(t, env, mu, st, k)
    ensures Provided(t, mu, st1) && Fits(t, env, mu, st1, k) && forall i :: 0 <= i < body.nlocals ==> Local(i) in st1
  {
    st1 := (map i: nat | i < body.nlocals :: Local(i) := Junk) + st;
    forall i | 0 <= i < |t.cells| ensures CellOk(t.cells[i], mu, t.locs, st1, t.tcx) {
      assert CellOk(t.cells[i], mu, t.locs, st, t.tcx);
    }
    DescribesStore(t.bs, st, st1, env, k, t.tcx);
  }

  // ----- building the environment -----

  /** How far the builder, the environment and the two maps have come. */
  ghost predicate Reflected(t: Stage, cursor: Cursor, env: TypeEnv, exprs: map<Name, Expr>, locs: map<Name, Loc>)
    reads cursor, cursor.builder, env
  {
    && t.s == cursor.builder.State() && t.p == cursor.Pos() && t.exprs == exprs && t.locs == locs
    && t.bs == env.bindings && t.tcx == cursor.builder.tcx
  }

  method PushParams(cursor: Cursor, params: seq<C.Param>) returns (exprs: map<Name, Expr>)
    requires cursor.builder.State() == Position.State(Conj([]), [], [], [], 0) && cursor.Pos() == Position.Pos([], 0, 0)
    requires ParamsWf(params)
    modifies cursor, cursor.builder
    ensures ParamsDone(cursor.builder.State(), cursor.Pos(), exprs, params, |params|)
  {
    exprs := map[];
    StartDone(params);
    var i := 0;
    while i < |params|
      invariant 0 <= i <= |params|
      invariant ParamsDone(cursor.builder.State(), cursor.Pos(), exprs, params, i)
    {
      exprs := PushParam(cursor, params, exprs, i);
      i := i + 1;
    }
  }

  /** A parameter becomes a binder with its predicate, which may mention the parameter itself. */
  method PushParam(cursor: Cursor, params: seq<C.Param>, exprs0: map<Name, Expr>, i: nat)
    returns (exprs: map<Name, Expr>)
    requires i < |params| && ParamsWf(params)
    requires ParamsDone(cursor.builder.State(), cursor.Pos(), exprs0, params, i)
    modifies cursor, cursor.builder
    ensures ParamsDone(cursor.builder.State(), cursor.Pos(), exprs, params, i + 1)
  {
    ghost var s, p := cursor.builder.State(), cursor.Pos();
    ParamStep(s, p, exprs0, params, i);
    var x := cursor.FreshName();
    exprs := exprs0[params[i].name := FreeVar(x)];
    cursor.PushForall(x, params[i].sort, Pred.Expr(LowerExpr(params[i].pred, exprs)));
    assert cursor.builder.State() == NextParam(s, p, exprs0, params[i]) && cursor.Pos() == PushForallPos(s, p);
  }

  lemma CellMore(t: Stage, loc: Loc, cty: C.Ty)
    requires Done(t) && WellSorted(cty, ParamSorts(t.params), t.locs.Keys) && loc !in t.bs
    ensures LoweredOk(t, cty) && Done(WithCell(t, loc, cty)) && OneCellMore(t, WithCell(t, loc, cty), loc, cty)
  {
    CellStep(t, loc, cty);
  }

  /** Lower the type of a location, unpack it and bind the location to it. */
  method AddCell(cursor: Cursor, env: TypeEnv, exprs: map<Name, Expr>, locs: map<Name, Loc>, loc: Loc, cty: C.Ty,
                 ghost t: Stage)
    returns (ghost t1: Stage)
    requires Done(t) && Reflected(t, cursor, env, exprs, locs)
    requires WellSorted(cty, ParamSorts(t.params), locs.Keys) && loc !in env.bindings
    modifies cursor, cursor.builder, env
    ensures Done(t1) && Reflected(t1, cursor, env, exprs, locs)
    ensures OneCellMore(t, t1, loc, cty)
  {
    CellMore(t, loc, cty);
    t1 := WithCell(t, loc, cty);
    var u := cursor.Unpack(LowerTy(cty, exprs, locs));
    env.InsertLoc(loc, u);
  }

  ghost predicate OneCellMore(t: Stage, t1: Stage, loc: Loc, cty: C.Ty) {
    && t1.params == t.params && t1.room == t.room && t1.cells == t.cells + [(loc, cty)]
    && t1.bs.Keys == t.bs.Keys + {loc} && t1.s.gen >= t.s.gen
  }

  /** The first `i` required cells have been named and bound. */
  ghost predicate RequiredDone(t: Stage, sig: C.FnSig, i: nat)
    requires i <= |sig.required|
  {
    Done(t) && t.params == sig.params && t.room == {} &&
      RequiredBound(sig.required[..i], t.locs, t.cells, t.bs, t.s.gen)
  }

  ghost predicate RequiredBound(required: seq<(Name, C.Ty)>, locs: map<Name, Loc>, cells: seq<Cell>, bs: Bindings,
                                gen: nat)
  {
    && locs.Keys == CellNames(required) && DistinctCells(locs, gen) && BoundBelow(bs, gen, 0)
    && Named(required, locs) && cells == RequiredCells(required, locs)
  }

  method AddRequired(cursor: Cursor, env: TypeEnv, exprs: map<Name, Expr>, sig: C.FnSig, ghost t: Stage)
    returns (locs: map<Name, Loc>, ghost t1: Stage)
    requires SigWf(sig) && Done(t) && t.params == sig.params && t.room == {} && t.cells == [] && t.bs == map[]
    requires Reflected(t, cursor, env, exprs, map[])
    modifies cursor, cursor.builder, env
    ensures RequiredDone(t1, sig, |sig.required|) && Reflected(t1, cursor, env, exprs, locs)
  {
    locs, t1 := map[], t;
    var i := 0;
    while i < |sig.required|
      invariant 0 <= i <= |sig.required|
      invariant RequiredDone(t1, sig, i) && Reflected(t1, cursor, env, exprs, locs)
    {
      locs, t1 := AddCellName(cursor, env, exprs, locs, sig, i, t1);
      i := i + 1;
    }
  }

  /** Name the cell a required reference points to, and bind it. */
  method AddCellName(cursor: Cursor, env: TypeEnv, exprs: map<Name, Expr>, locs0: map<Name, Loc>, sig: C.FnSig, i: nat,
                     ghost t: Stage)
    returns (locs: map<Name, Loc>, ghost t1: Stage)
    requires SigWf(sig) && i < |sig.required| && RequiredDone(t, sig, i) && Reflected(t, cursor, env, exprs, locs0)
    modifies cursor, cursor.builder, env
    ensures RequiredDone(t1, sig, i + 1) && Reflected(t1, cursor, env, exprs, locs)
  {
    DrawName(t);
    t1 := t.(s := t.s.(gen := t.s.gen + 1));
    var x := cursor.FreshName();
    RequiredFresh(t, sig, i);
    t1 := AddCell(cursor, env, exprs, locs0, Abstract(x), sig.required[i].1, t1);
    locs := locs0[sig.required[i].0 := Abstract(x)];
    RequiredStep(t, t1, sig, i, x);
    t1 := t1.(locs := locs);
  }

  /** The location of a new cell is not bound yet. */
  lemma RequiredFresh(t: Stage, sig: C.FnSig, i: nat)
    requires i <= |sig.required| && RequiredDone(t, sig, i)
    ensures Abstract(t.s.gen) !in t.bs
  {
  }

  lemma RequiredStep(t: Stage, t1: Stage, sig: C.FnSig, i: nat, x: Name)
    requires SigWf(sig) && i < |sig.required| && RequiredDone(t, sig, i) && Done(t1) && t1.locs == t.locs
    requires OneCellMore(t.(s := t.s.(gen := x + 1)), t1, Abstract(x), sig.required[i].1) && t.s.gen <= x
    ensures RequiredDone(t1.(locs := t.locs[sig.required[i].0 := Abstract(x)]), sig, i + 1)
  {
    RequiredNamed(sig.required, i, t.locs, t.cells, t.bs, t1.bs, t.s.gen, t1.s.gen, x);
    NameLocs(t1, t.locs[sig.required[i].0 := Abstract(x)]);
  }

  lemma RequiredNamed(required: seq<(Name, C.Ty)>, i: nat, locs: map<Name, Loc>, cells: seq<Cell>, bs0: Bindings,
                      bs1: Bindings, gen0: nat, gen1: nat, x: Name)
    requires i < |required| && forall j, l :: 0 <= j < l < |required| ==> required[j].0 != required[l].0
    requires RequiredBound(required[..i], locs, cells, bs0, gen0) && gen0 <= x < gen1 &&
             bs1.Keys == bs0.Keys + {Abstract(x)}
    ensures required[i].0 !in locs
    ensures RequiredBound(required[..i + 1], locs[required[i].0 := Abstract(x)], cells + [(Abstract(x), required[i].1)],
                          bs1, gen1)
  {
    CellNamesStep(required, i);
    RequiredCellsStep(required, locs, i, x);
  }

  lemma RequiredCellsStep(required: seq<(Name, C.Ty)>, locs: map<Name, Loc>, i: nat, x: Name)
    requires i < |required| && required[i].0 !in locs && Named(required[..i], locs)
    ensures var locs1 := locs[required[i].0 := Abstract(x)];
            && Named(required[..i + 1], locs1)
            && RequiredCells(required[..i + 1], locs1) ==
               RequiredCells(required[..i], locs) + [(Abstract(x), required[i].1)]
  {
    var locs1, init, all := locs[required[i].0 := Abstract(x)], required[..i], required[..i + 1];
    assert all == init + [required[i]];
    forall j | 0 <= j < |all| ensures all[j].0 in locs1 && (j < i ==> locs1[all[j].0] == locs[init[j].0]) {
      assert j < i ==> all[j] == init[j];
    }
  }

  lemma CellNamesStep(required: seq<(Name, C.Ty)>, i: nat)
    requires i < |required| && forall j, l :: 0 <= j < l < |required| ==> required[j].0 != required[l].0
    ensures required[i].0 !in CellNames(required[..i])
    ensures CellNames(required[..i + 1]) == CellNames(required[..i]) + {required[i].0}
  {
    forall x ensures x in CellNames(required[..i + 1]) <==> x in CellNames(required[..i]) || x == required[i].0 {
      if x == required[i].0 {
        assert required[..i + 1][i].0 == x;
      }
      if x in CellNames(required[..i]) {
        var j :| 0 <= j < i && required[..i][j].0 == x;
        assert required[..i + 1][j].0 == x;
      }
      if x in CellNames(required[..i + 1]) {
        var j :| 0 <= j < i + 1 && required[..i + 1][j].0 == x;
        if j < i { assert required[..i][j].0 == x; }
      }
    }
  }

  /** The required cells and the first `i` arguments have been bound. */
  ghost predicate ArgsDone(t: Stage, sig: C.FnSig, i: nat)
    requires i <= |sig.args|
  {
    Done(t) && t.params == sig.params && t.room == {} && ArgsBound(sig, i, t.locs, t.cells, t.bs, t.s.gen)
  }

  ghost predicate ArgsBound(sig: C.FnSig, i: nat, locs: map<Name, Loc>, cells: seq<Cell>, bs: Bindings, gen: nat)
    requires i <= |sig.args|
  {
    locs.Keys == CellNames(sig.required) && DistinctCells(locs, gen) && BoundBelow(bs, gen, i) &&
      CellsOf(sig, i, locs, cells)
  }

  lemma NoArgs(t: Stage, sig: C.FnSig)
    requires RequiredDone(t, sig, |sig.required|)
    ensures ArgsDone(t, sig, 0)
  {
    assert sig.required[..|sig.required|] == sig.required;
    assert t.cells == RequiredCells(sig.required, t.locs) + ArgCells(sig.args, 0);
  }

  lemma ArgStep(t: Stage, t1: Stage, sig: C.FnSig, i: nat)
    requires i < |sig.args| && ArgsDone(t, sig, i) && Done(t1) && t1.locs == t.locs
    requires OneCellMore(t, t1, Local(i + 1), sig.args[i])
    ensures ArgsDone(t1, sig, i + 1)
  {
    assert ArgCells(sig.args, i + 1) == ArgCells(sig.args, i) + [(Local(i + 1), sig.args[i])];
  }

  method AddArgs(cursor: Cursor, env: TypeEnv, exprs: map<Name, Expr>, locs: map<Name, Loc>, sig: C.FnSig, body: Body,
                 ghost t: Stage)
    returns (ghost t1: Stage)
    requires SigWf(sig) && ArgsDone(t, sig, 0) && Reflected(t, cursor, env, exprs, locs)
    modifies cursor, cursor.builder, env
    ensures ArgsDone(t1, sig, ArgCount(sig, body)) && Reflected(t1, cursor, env, exprs, locs)
  {
    t1 := t;
    var i, n := 0, ArgCount(sig, body);
    while i < n
      invariant 0 <= i <= n
      invariant ArgsDone(t1, sig, i) && Reflected(t1, cursor, env, exprs, locs)
    {
      t1 := AddArg(cursor, env, exprs, locs, sig, i, t1);
      i := i + 1;
    }
  }

  method AddArg(cursor: Cursor, env: TypeEnv, exprs: map<Name, Expr>, locs: map<Name, Loc>, sig: C.FnSig, i: nat,
                ghost t: Stage)
    returns (ghost t1: Stage)
    requires SigWf(sig) && i < |sig.args| && ArgsDone(t, sig, i) && Reflected(t, cursor, env, exprs, locs)
    modifies cursor, cursor.builder, env
    ensures ArgsDone(t1, sig, i + 1) && Reflected(t1, cursor, env, exprs, locs)
  {
    t1 := AddCell(cursor, env, exprs, locs, Local(i + 1), sig.args[i], t);
    ArgStep(t, t1, sig, i);
  }

  /** Room for the locals from `argCount + 1` up to `n`, and nothing else so far. */
  ghost predicate RoomDone(t: Stage, t1: Stage, argCount: nat, n: nat) {
    && Done(t1) && t1 == t.(bs := t1.bs, room := t1.room) && BoundBelow(t1.bs, t.s.gen, n)
    && forall loc :: loc in t1.room <==> loc.Local? && argCount < loc.index <= n
  }

  lemma LocalStep(t: Stage, t1: Stage, argCount: nat, n: nat)
    requires argCount <= n && RoomDone(t, t1, argCount, n)
    ensures RoomDone(t, WithRoom(t1, Local(n + 1)), argCount, n + 1)
  {
    RoomStep(t1, Local(n + 1));
  }

  /** The remaining locals and the place of the result are uninitialized. */
  method AddLocals(env: TypeEnv, body: Body, ghost t: Stage) returns (ghost t1: Stage)
    requires Done(t) && t.room == {} && env.bindings == t.bs && BoundBelow(t.bs, t.s.gen, body.argCount)
    modifies env
    ensures Done(t1) && t1 == t.(bs := env.bindings, room := t1.room)
    ensures forall loc :: loc in t1.room <==> loc.Local? && (loc.index == 0 || body.argCount < loc.index < body.nlocals)
  {
    t1 := t;
    var i := body.argCount + 1;
    while i < body.nlocals
      invariant body.argCount < i && RoomDone(t, t1, body.argCount, i - 1) && env.bindings == t1.bs
      invariant i <= body.nlocals || i == body.argCount + 1
    {
      LocalStep(t, t1, body.argCount, i - 1);
      env.InsertLoc(Local(i), Uninit);
      t1 := WithRoom(t1, Local(i));
      i := i + 1;
    }
    RoomStep(t1, Local(0));
    env.InsertLoc(Local(0), Uninit);
    t1 := WithRoom(t1, Local(0));
  }

  lemma EnteredOf(t0: Stage, t: Stage, sig: C.FnSig, body: Body)
    requires ArgsDone(t0, sig, ArgCount(sig, body)) && Done(t) && t == t0.(bs := t.bs, room := t.room)
    requires forall loc :: loc in t.room <==> loc.Local? && (loc.index == 0 || body.argCount < loc.index < body.nlocals)
    ensures Entered(t, sig, body)
  {
  }

  /** The parameters, the cells of required references and the arguments. */
  method EnterArgs(cursor: Cursor, env: TypeEnv, sig: C.FnSig, body: Body)
    returns (exprs: map<Name, Expr>, locs: map<Name, Loc>, ghost t: Stage)
    requires SigWf(sig) && env.bindings == map[]
    requires cursor.builder.State() == Position.State(Conj([]), [], [], [], 0) && cursor.Pos() == Position.Pos([], 0, 0)
    modifies env, cursor, cursor.builder
    ensures ArgsDone(t, sig, ArgCount(sig, body)) && Reflected(t, cursor, env, exprs, locs)
  {
    exprs := PushParams(cursor, sig.params);
    StartCells(cursor.builder.State(), cursor.Pos(), exprs, sig.params, cursor.builder.tcx);
    t := Stage(cursor.builder.State(), cursor.Pos(), exprs, map[], sig.params, map[], [], {}, cursor.builder.tcx);
    locs, t := AddRequired(cursor, env, exprs, sig, t);
    NoArgs(t, sig);
    t := AddArgs(cursor, env, exprs, locs, sig, body, t);
  }

  method FinishEntry(cursor: Cursor, env: TypeEnv, exprs: map<Name, Expr>, locs: map<Name, Loc>, sig: C.FnSig,
                     body: Body, ghost t: Stage)
    returns (ghost t1: Stage)
    requires ArgsDone(t, sig, ArgCount(sig, body)) && Reflected(t, cursor, env, exprs, locs)
    modifies env
    ensures Entered(t1, sig, body) && Reflected(t1, cursor, env, exprs, locs)
  {
    t1 := AddLocals(env, body, t);
    EnteredOf(t, t1, sig, body);
  }

  /** The environment at the entry of a function: its parameters, cells, arguments and locals. */
  method EnterFunction(cursor: Cursor, env: TypeEnv, sig: C.FnSig, body: Body)
    returns (exprs: map<Name, Expr>, locs: map<Name, Loc>, ghost t: Stage)
    requires SigWf(sig) && env.bindings == map[]
    requires cursor.builder.State() == Position.State(Conj([]), [], [], [], 0) && cursor.Pos() == Position.Pos([], 0, 0)
    modifies env, cursor, cursor.builder
    ensures Entered(t, sig, body) && Reflected(t, cursor, env, exprs, locs)
  {
    exprs, locs, t := EnterArgs(cursor, env, sig, body);
    t := FinishEntry(cursor, env, exprs, locs, sig, body, t);
  }
}
