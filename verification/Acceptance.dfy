/** Which bodies the checker accepts, apart from the obligations: no panic on any path.  On a path no
    block is met twice, as there are no join points. */
module Acceptance {
  import opened Logic
  import opened Types
  import opened Environment
  import opened Mir
  import opened Rules
  import opened Visit

  /** From the start of a block, with the blocks of `path` behind. */
  ghost predicate Accepts(body: Body, d: Duty, tcx: Variances, b: Bindings, bb: nat, path: set<nat>)
    decreases Blocks(|body.blocks|) - path, 1
  {
    && bb < |body.blocks| && bb !in path
    && StatementsTy(b, body.blocks[bb].statements).Some?
    && AcceptsEnd(body, d, tcx, StatementsTy(b, body.blocks[bb].statements).value, bb, path)
  }

  /** From the end of its statements. */
  ghost predicate AcceptsEnd(body: Body, d: Duty, tcx: Variances, b: Bindings, bb: nat, path: set<nat>)
    requires bb < |body.blocks| && bb !in path
    decreases Blocks(|body.blocks|) - path, 0
  {
    match body.blocks[bb].terminator
    case None => true
    case Some(Return) => Returnable(b, d, tcx)
    case Some(Goto(target)) => Accepts(body, d, tcx, b, target, path + {bb})
    case Some(Drop(place, target)) =>
      OperandTy(b, Move(place)).Some? && Accepts(body, d, tcx, OperandTy(b, Move(place)).value.after, target,
                                                 path + {bb})
    case Some(Call(_)) => false
    case Some(SwitchInt(discr, targets, otherwise)) =>
      && OperandTy(b, discr).Some? && Discriminates(OperandTy(b, discr).value.ty, targets)
      && (forall i | 0 <= i < |targets| ::
            Accepts(body, d, tcx, OperandTy(b, discr).value.after, targets[i].1, path + {bb}))
      && Accepts(body, d, tcx, OperandTy(b, discr).value.after, otherwise, path + {bb})
  }

  ghost predicate AcceptsTargets(body: Body, d: Duty, tcx: Variances, b: Bindings, targets: seq<(nat, nat)>,
                                 path: set<nat>)
  {
    forall i | 0 <= i < |targets| :: Accepts(body, d, tcx, b, targets[i].1, path)
  }

  lemma AcceptsNext(body: Body, d: Duty, tcx: Variances, b: Bindings, targets: seq<(nat, nat)>, i: nat, path: set<nat>)
    requires i < |targets|
    ensures AcceptsTargets(body, d, tcx, b, targets[..i + 1], path) <==>
            AcceptsTargets(body, d, tcx, b, targets[..i], path) && Accepts(body, d, tcx, b, targets[i].1, path)
    ensures AcceptsTargets(body, d, tcx, b, targets, path) ==> AcceptsTargets(body, d, tcx, b, targets[..i + 1], path)
  {
    var done := targets[..i + 1];
    if AcceptsTargets(body, d, tcx, b, done, path) {
      assert Accepts(body, d, tcx, b, done[i].1, path);
      forall j | 0 <= j < i ensures Accepts(body, d, tcx, b, targets[..i][j].1, path) {
        assert Accepts(body, d, tcx, b, done[j].1, path);
      }
    }
    if AcceptsTargets(body, d, tcx, b, targets[..i], path) && Accepts(body, d, tcx, b, targets[i].1, path) {
      forall j | 0 <= j < i + 1 ensures Accepts(body, d, tcx, b, done[j].1, path) {
        if j < i { assert Accepts(body, d, tcx, b, targets[..i][j].1, path); }
      }
    }
  }

  /** The switch, target by target. */
  lemma AcceptsSwitch(body: Body, d: Duty, tcx: Variances, b: Bindings, bb: nat, path: set<nat>, discr: Operand,
                      targets: seq<(nat, nat)>, otherwise: nat)
    requires bb !in path && AtEnd(body, bb, SwitchInt(discr, targets, otherwise))
    ensures AcceptsEnd(body, d, tcx, b, bb, path) <==>
            && OperandTy(b, discr).Some? && Discriminates(OperandTy(b, discr).value.ty, targets)
            && AcceptsTargets(body, d, tcx, OperandTy(b, discr).value.after, targets, path + {bb})
            && Accepts(body, d, tcx, OperandTy(b, discr).value.after, otherwise, path + {bb})
  {
  }

  lemma AcceptsOther(body: Body, d: Duty, tcx: Variances, b: Bindings, bb: nat, path: set<nat>)
    requires bb < |body.blocks| && bb !in path
    ensures (match body.blocks[bb].terminator
             case None => AcceptsEnd(body, d, tcx, b, bb, path)
             case Some(Return) => AcceptsEnd(body, d, tcx, b, bb, path) <==> Returnable(b, d, tcx)
             case Some(Goto(target)) => AcceptsEnd(body, d, tcx, b, bb, path) <==>
                 Accepts(body, d, tcx, b, target, path + {bb})
             case Some(Drop(place, target)) =>
               AcceptsEnd(body, d, tcx, b, bb, path) <==>
               OperandTy(b, Move(place)).Some? && Accepts(body, d, tcx, OperandTy(b, Move(place)).value.after, target,
                                                          path + {bb})
             case Some(Call(_)) => !AcceptsEnd(body, d, tcx, b, bb, path)
             case Some(SwitchInt(_, _, _)) => true)
  {
  }
}
