/** The rules of the checker, sound and necessary at once: what a block, a jump, a return or a switch
    obliges to is enough for safe runs, and no more than such runs need. */
module Exactness {
  import opened Logic
  import opened Tree
  import opened Types
  import opened Position
  import opened Subtyping
  import opened Environment
  import opened Mir
  import opened Rules
  import opened Necessity

  ghost predicate PointExact(s0: State, p: Pos, s1: State, b: Bindings, body: Body, bb: nat, i: nat, d: Duty,
                             tcx: Variances)
    requires At(s0, p)
  {
    PointSound(s0, p, s1, b, body, bb, i, d, tcx) && PointNecessary(s0, p, s1, b, body, bb, i, d, tcx)
  }

  ghost predicate GuardedExact(s0: State, p: Pos, s1: State, guard: Expr, b: Bindings, body: Body, bb: nat, d: Duty,
                               tcx: Variances)
    requires At(s0, p)
  {
    GuardedSound(s0, p, s1, guard, b, body, bb, d, tcx) && GuardedNecessary(s0, p, s1, guard, b, body, bb, 0, d, tcx)
  }

  ghost predicate TargetsExact(s0: State, p: Pos, s1: State, ty: Ty, targets: seq<(nat, nat)>, b: Bindings, body: Body,
                               d: Duty, tcx: Variances)
    requires At(s0, p) && Discriminates(ty, targets)
  {
    TargetsSound(s0, p, s1, ty, targets, b, body, d, tcx) && TargetsNecessary(s0, p, s1, ty, targets, b, body, d, tcx)
  }

  ghost predicate StatementsExact(s0: State, p: Pos, s1: State, b0: Bindings, b1: Bindings, stmts: seq<Statement>,
                                  tcx: Variances)
    requires At(s0, p)
  {
    StatementsSound(s0, p, s1, b0, b1, stmts, tcx) && StatementsNecessary(s0, p, s1, b0, stmts, tcx)
  }

  // ----- blocks -----

  lemma NoStatementsExact(s: State, p: Pos, b: Bindings, tcx: Variances)
    requires At(s, p)
    ensures StatementsExact(s, p, s, b, b, [], tcx)
  {
  }

  lemma StatementsExactStep(s0: State, s1: State, p: Pos, b0: Bindings, b1: Bindings, stmts: seq<Statement>, i: nat,
                            tcx: Variances)
    requires At(s0, p) && At(s1, p) && Keeps(s0, s1, p) && RefFreeBindings(b1)
    requires i < |stmts| && StatementTy(b1, stmts[i]).Some? && Keeps(s1, StatementState(s1, p, b1, stmts[i]), p)
    requires StatementsExact(s0, p, s1, b0, b1, stmts[..i], tcx)
    requires StatementSound(s1, p, StatementState(s1, p, b1, stmts[i]), b1, StatementTy(b1, stmts[i]).value, stmts[i],
                            tcx)
    ensures StatementsExact(s0, p, StatementState(s1, p, b1, stmts[i]), b0, StatementTy(b1, stmts[i]).value,
                            stmts[..i + 1], tcx)
  {
    StatementsStep(s0, s1, p, StatementState(s1, p, b1, stmts[i]), b0, b1, StatementTy(b1, stmts[i]).value, stmts[..i],
                   stmts[i], tcx);
    StatementsNecessaryStep(s0, s1, p, b0, b1, stmts[..i], stmts[i], tcx);
    assert stmts[..i + 1] == stmts[..i] + [stmts[i]];
  }

  lemma BlockExact(s0: State, s1: State, p: Pos, s2: State, b0: Bindings, b1: Bindings, body: Body, bb: nat, d: Duty,
                   tcx: Variances)
    requires bb < |body.blocks| && At(s0, p) && At(s1, p) && Keeps(s0, s1, p) && Keeps(s1, s2, p)
    requires StatementsTy(b0, body.blocks[bb].statements) == Some(b1)
    requires StatementsExact(s0, p, s1, b0, b1, body.blocks[bb].statements, tcx)
    requires PointExact(s1, p, s2, b1, body, bb, |body.blocks[bb].statements|, d, tcx)
    ensures PointExact(s0, p, s2, b0, body, bb, 0, d, tcx)
  {
    BlockSound(s0, s1, p, p, s2, b0, b1, body, bb, d, tcx);
    BlockNecessary(s0, s1, p, s2, b0, body, bb, d, tcx);
  }

  /** A new mark on the stack of scopes does not change what reaches the node. */
  lemma SameReachExact(s0: State, p0: Pos, s1: State, p1: Pos, s2: State, b: Bindings, body: Body, bb: nat, d: Duty,
                       tcx: Variances)
    requires At(s0, p0) && At(s1, p1) && s1.root == s0.root && p1.node == p0.node
    requires PointExact(s1, p1, s2, b, body, bb, 0, d, tcx)
    ensures PointExact(s0, p0, s2, b, body, bb, 0, d, tcx)
  {
    SameReach(s0, p0, s1, p1, s2, b, body, bb, d, tcx);
  }

  // ----- terminators -----

  lemma HaltExact(s: State, p: Pos, b: Bindings, body: Body, bb: nat, d: Duty, tcx: Variances)
    requires At(s, p) && bb < |body.blocks| && body.blocks[bb].terminator.None?
    ensures PointExact(s, p, s, b, body, bb, |body.blocks[bb].statements|, d, tcx)
  {
    HaltSound(s, p, s, b, body, bb, d, tcx);
    HaltNecessary(s, p, b, body, bb, |body.blocks[bb].statements|, d, tcx);
  }

  lemma GotoExact(s0: State, p: Pos, s1: State, b: Bindings, body: Body, bb: nat, target: nat, d: Duty, tcx: Variances)
    requires At(s0, p) && AtEnd(body, bb, Goto(target)) && PointExact(s0, p, s1, b, body, target, 0, d, tcx)
    ensures PointExact(s0, p, s1, b, body, bb, |body.blocks[bb].statements|, d, tcx)
  {
    GotoSound(s0, p, s1, b, body, bb, target, d, tcx);
    GotoNecessary(s0, p, s1, b, body, bb, target, d, tcx);
  }

  lemma DropExact(s0: State, p: Pos, s1: State, b: Bindings, body: Body, bb: nat, place: Place, target: nat, d: Duty,
                  tcx: Variances)
    requires At(s0, p) && AtEnd(body, bb, Drop(place, target)) && RefFreeBindings(b) && OperandTy(b, Move(place)).Some?
    requires PointExact(s0, p, s1, OperandTy(b, Move(place)).value.after, body, target, 0, d, tcx)
    ensures PointExact(s0, p, s1, b, body, bb, |body.blocks[bb].statements|, d, tcx)
  {
    var t := OperandTy(b, Move(place)).value;
    OperandTySound(b, Move(place), tcx);
    DropSound(s0, p, s1, b, t.after, body, bb, place, target, t.ty, d, tcx);
    DropNecessary(s0, p, s1, b, body, bb, place, target, d, tcx);
  }

  // ----- returning -----

  /** What the comparison of two types gives. */
  ghost predicate Compared(s0: State, p: Pos, s1: State, t1: Ty, t2: Ty, tcx: Variances)
    requires At(s0, p)
  {
    && Compatible(t1, t2, tcx) && Entails(s0, p, s1, t1, t2, tcx)
    && (NotData(t1) ==> Necessary(s0, p, s1, t1, t2, tcx))
  }

  /** After the result and the first `i` ensured cells. */
  ghost predicate ReturnExact(s0: State, p: Pos, s1: State, b: Bindings, d: Duty, i: nat, tcx: Variances)
    requires At(s0, p) && i <= |d.ensured|
  {
    && Local(0) in b && Compatible(BindingTy(b[Local(0)]), d.ret, tcx)
    && Entails(s0, p, s1, BindingTy(b[Local(0)]), d.ret, tcx)
    && (forall j :: 0 <= j < i ==> EnsuredAt(s0, p, s1, b, d.ensured[j], tcx))
    && ReturnNecessary(s0, p, s1, b, d, i, tcx)
  }

  ghost predicate EnsuredAt(s0: State, p: Pos, s1: State, b: Bindings, e: (Loc, Ty), tcx: Variances)
    requires At(s0, p)
  {
    EnsuredAccepted(b, e, tcx) && Entails(s0, p, s1, BindingTy(b[e.0]), e.1, tcx)
  }

  lemma ReturnExactFirst(s0: State, p: Pos, s1: State, b: Bindings, d: Duty, tcx: Variances)
    requires At(s0, p) && Local(0) in b && Compared(s0, p, s1, BindingTy(b[Local(0)]), d.ret, tcx)
    ensures ReturnExact(s0, p, s1, b, d, 0, tcx)
  {
    ReturnFirst(s0, p, s1, b, d, tcx);
  }

  lemma ReturnExactNext(s0: State, s1: State, p: Pos, s2: State, b: Bindings, d: Duty, i: nat, tcx: Variances)
    requires At(s0, p) && At(s1, p) && Keeps(s0, s1, p) && Keeps(s1, s2, p) && i < |d.ensured|
    requires ReturnExact(s0, p, s1, b, d, i, tcx)
    requires d.ensured[i].0 in b && Compared(s1, p, s2, BindingTy(b[d.ensured[i].0]), d.ensured[i].1, tcx)
    ensures ReturnExact(s0, p, s2, b, d, i + 1, tcx)
  {
    EntailsLater(s0, p, s1, s2, BindingTy(b[Local(0)]), d.ret, tcx);
    EntailsEarlier(s0, s1, p, s2, BindingTy(b[d.ensured[i].0]), d.ensured[i].1, tcx);
    forall j | 0 <= j < i + 1 ensures EnsuredAt(s0, p, s2, b, d.ensured[j], tcx) {
      if j < i {
        assert EnsuredAt(s0, p, s1, b, d.ensured[j], tcx);
        EntailsLater(s0, p, s1, s2, BindingTy(b[d.ensured[j].0]), d.ensured[j].1, tcx);
      }
    }
    ReturnNext(s0, s1, p, s2, b, d, i, tcx);
  }

  lemma ReturnExactLast(s0: State, p: Pos, s1: State, b: Bindings, body: Body, bb: nat, d: Duty, tcx: Variances)
    requires At(s0, p) && AtEnd(body, bb, Return) && ReturnExact(s0, p, s1, b, d, |d.ensured|, tcx)
    ensures Returnable(b, d, tcx) && PointExact(s0, p, s1, b, body, bb, |body.blocks[bb].statements|, d, tcx)
  {
    forall j | 0 <= j < |d.ensured|
      ensures EnsuredAccepted(b, d.ensured[j], tcx) &&
              Entails(s0, p, s1, BindingTy(b[d.ensured[j].0]), d.ensured[j].1, tcx)
    {
      assert EnsuredAt(s0, p, s1, b, d.ensured[j], tcx);
    }
    ReturnSound(s0, p, s1, b, body, bb, d, tcx);
    ReturnLast(s0, p, s1, b, body, bb, d, tcx);
  }

  // ----- switches -----

  /** Work below a guard is work at the position above it. */
  lemma GuardedWork(s: State, p: Pos, guard: Expr, s1: State)
    requires Wf(s, p) && SortOf(guard, ScopeOf(s, p), None) == Some(Sort.Bool)
    requires Worked(PushState(s, p, Guard(guard, [])), s1, PushPos(s, p, Guard(guard, [])))
    ensures Worked(s, s1, p)
  {
    var m := Guard(guard, []);
    PushWfState(s, p, m);
    KeepsTrans(s, PushState(s, p, m), s1, p, PushPos(s, p, m));
    KeepsWf(s, s1, p, PushPos(s, p, m));
  }

  lemma UnderGuardExact(s: State, p: Pos, guard: Expr, s1: State, b: Bindings, body: Body, bb: nat, d: Duty,
                        tcx: Variances)
    requires At(s, p) && At(PushState(s, p, Guard(guard, [])), PushPos(s, p, Guard(guard, [])))
    requires PointExact(PushState(s, p, Guard(guard, [])), PushPos(s, p, Guard(guard, [])), s1, b, body, bb, 0, d, tcx)
    ensures GuardedExact(s, p, s1, guard, b, body, bb, d, tcx)
  {
    KeepsRefl(s, p);
    UnderGuard(s, s, p, guard, s1, b, body, bb, d, tcx);
    UnderGuardNecessary(s, p, guard, s1, b, body, bb, d, tcx);
  }

  lemma UnguardedExact(s: State, p: Pos, s1: State, b: Bindings, body: Body, bb: nat, d: Duty, tcx: Variances)
    requires At(s, p) && PointExact(s, p, s1, b, body, bb, 0, d, tcx)
    ensures GuardedExact(s, p, s1, True(), b, body, bb, d, tcx)
  {
    KeepsRefl(s, p);
    UnguardedIsGuarded(s, s, p, s1, b, body, bb, d, tcx);
  }

  lemma NoTargetsExact(s: State, p: Pos, ty: Ty, b: Bindings, body: Body, d: Duty, tcx: Variances)
    requires At(s, p)
    ensures TargetsExact(s, p, s, ty, [], b, body, d, tcx)
  {
  }

  lemma TargetsExactStep(s0: State, s1: State, p: Pos, s2: State, ty: Ty, targets: seq<(nat, nat)>, i: nat, b: Bindings,
                         body: Body, d: Duty, tcx: Variances)
    requires Switchable(ty) && i < |targets| && At(s0, p) && At(s1, p) && Keeps(s0, s1, p) && Keeps(s1, s2, p)
    requires TargetsExact(s0, p, s1, ty, targets[..i], b, body, d, tcx)
    requires GuardedExact(s1, p, s2, TargetGuard(ty, targets[i].0), b, body, targets[i].1, d, tcx)
    ensures TargetsExact(s0, p, s2, ty, targets[..i + 1], b, body, d, tcx)
  {
    TargetsStep(s0, s1, p, s2, ty, targets, i, b, body, d, tcx);
    TargetsNecessaryStep(s0, s1, p, s2, ty, targets, i, b, body, d, tcx);
  }

  ghost predicate CasesExact(s0: State, p: Pos, s1: State, ty: Ty, targets: seq<(nat, nat)>, otherwise: nat,
                             b: Bindings, body: Body, d: Duty, tcx: Variances)
    requires At(s0, p) && Discriminates(ty, targets)
  {
    && TargetsSound(s0, p, s1, ty, targets, b, body, d, tcx)
    && GuardedSound(s0, p, s1, OtherwiseGuardOf(ty, targets), b, body, otherwise, d, tcx)
    && CasesNecessary(s0, p, s1, ty, targets, otherwise, b, body, d, tcx)
  }

  lemma CasesExactOf(s0: State, s1: State, p: Pos, s2: State, ty: Ty, targets: seq<(nat, nat)>, otherwise: nat,
                     b: Bindings, body: Body, d: Duty, tcx: Variances)
    requires At(s0, p) && At(s1, p) && Keeps(s0, s1, p) && Keeps(s1, s2, p) && Discriminates(ty, targets)
    requires TargetsExact(s0, p, s1, ty, targets, b, body, d, tcx)
    requires GuardedExact(s1, p, s2, OtherwiseGuardOf(ty, targets), b, body, otherwise, d, tcx)
    ensures CasesExact(s0, p, s2, ty, targets, otherwise, b, body, d, tcx)
  {
    TargetsLater(s0, p, s1, s2, ty, targets, b, body, d, tcx);
    GuardedEarlier(s0, s1, p, s2, OtherwiseGuardOf(ty, targets), b, body, otherwise, d, tcx);
    CasesNecessaryOf(s0, s1, p, s2, ty, targets, otherwise, b, body, d, tcx);
  }

  lemma SwitchExact(s0: State, p: Pos, s1: State, b: Bindings, body: Body, bb: nat, discr: Operand,
                    targets: seq<(nat, nat)>, otherwise: nat, d: Duty, tcx: Variances)
    requires AtEnd(body, bb, SwitchInt(discr, targets, otherwise)) && RefFreeBindings(b) && OperandTy(b, discr).Some?
    requires At(s0, p) && Discriminates(OperandTy(b, discr).value.ty, targets)
    requires var t := OperandTy(b, discr).value; CasesExact(s0, p, s1, t.ty, targets, otherwise, t.after, body, d, tcx)
    ensures PointExact(s0, p, s1, b, body, bb, |body.blocks[bb].statements|, d, tcx)
  {
    var t := OperandTy(b, discr).value;
    OperandTySound(b, discr, tcx);
    SwitchSound(s0, p, s1, b, t.after, body, bb, discr, targets, otherwise, t.ty, d, tcx);
    SwitchNecessary(s0, p, s1, b, body, bb, discr, targets, otherwise, d, tcx);
  }
}
