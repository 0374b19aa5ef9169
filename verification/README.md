# LiquidRust: a verified model of the refinement type checker

LiquidRust checks refinement types of Rust functions.  It runs a function's MIR symbolically, grows
a tree of Horn-style obligations through cursors, translates the tree into the language of an
external solver, and asks the solver for predicates that make it hold.  This project models that
pipeline in Dafny, from the check of a signature to the constraint handed to the solver, together
with the data structures it stands on, and proves what the pipeline is for: if the solver finds its
predicates, the function cannot go wrong.

## How it is organised

Both constraint languages get a meaning: expressions evaluate to values or are stuck, binders
quantify over every value of a sort, kvars are interpreted by an arbitrary predicate on values.
Types are sets of program values, and the intermediate representation gets a small-step meaning
over a memory.  Code that changes state is a class with methods (`ConstraintBuilder`, `Cursor`,
`TypeEnv`, `Checker`, `Traversal`, `Subst`, `Wf`, `DisjointSetsMap`, `Set`, the lexer's `Cursor`,
`PadAdapter`); code that computes values is functions; the interleavings of threads are a state
machine.

| file | module | part of the program |
|---|---|---|
| Logic.dfy | `Logic` | expressions, predicates, sorts, substitution of the bound variable |
| Tree.dfy, Position.dfy, Cursor.dfy | `Tree`, `Position`, `ConstraintBuilders` | the obligation tree, positions in it, cursors |
| Fixpoint.dfy, Translate.dfy, Closed.dfy, Hoisting.dfy | `Fixpoint`, `Translate`, `Closed`, `Hoisting` | the solver's language and the translation into it |
| Types.dfy, Subtyping.dfy, Obligation.dfy | `Types`, `Subtyping`, `Obligations` | types as sets of values, the steps of a comparison, and the judgement that says exactly what it obliges to |
| Environment.dfy, Join.dfy, Expressive.dfy, TypeEnv.dfy | `Environment`, `Joins`, `Expressive`, `TypeEnvs` | typing environments, strong updates, weakening, joins and what their unknown predicates can say |
| Mir.dfy, Rules.dfy, Visit.dfy, Acceptance.dfy, Necessity.dfy, Exact.dfy, Checker.dfy | `Mir`, `Rules`, `Visit`, `Acceptance`, `Necessity`, `Exactness`, `Checkers` | the checked language, its meaning, the rules of the checker, what it accepts, and why its obligations are not too strong |
| Erasure.dfy | `Erasure` | the plain types below the refinements, and a type checker for them |
| Traversal.dfy | `Traversals` | the order in which blocks are checked, join points and calls included |
| Core.dfy, Lowering.dfy, Signatures.dfy, Inference.dfy | `Core`, `Lowering`, `Signatures`, `Inference` | signatures, their check, lowering, inference of arguments |
| Calls.dfy, Entering.dfy, Cells.dfy, Entrance.dfy, Entry.dfy | `Calls`, `Entering`, `Cells`, `Entrance`, `Entry` | calls that meet a signature, the environment at the entry of a function, the pipeline as a whole |
| Intern.dfy, Requests.dfy, Reclaim.dfy | `Intern`, `Requests`, `Reclaim` | concurrent hash-consing |
| Partition.dfy, DisjointSets.dfy | `Partitions`, `DisjointSets` | partitions with values, and union-find that represents them |
| Printer.dfy, Faithful.dfy, Lexer.dfy, Spelling.dfy, Pad.dfy | `Printer`, `FaithfulPrinting`, `Lexer`, `Spelling`, `Pads` | printing for the solver, flattening of token trees, indentation |

A pointer to a node of the tree is a path of child indices.  A panic (`unreachable!`, `todo!`, a
failed `assert!` or `debug_assert!`, a missing map key) is a failure result of a method: `false`,
`None` or a named outcome.  Program values are mathematical integers.

## Reading guide: the main results

* `Entry.Verify`: for a body without join points it succeeds whenever the body is well-typed without its
  refinements, and for scalar signatures only then (`Erasure.AcceptsIffTyped`).  Whenever
  the constraint produced for the solver is satisfied by some interpretation of its kvars, every call
  that meets the signature runs without dividing by zero or getting stuck, and on return the result
  and every ensured cell are in their types, writes through strong references included.  Conversely,
  without data types: if every such call does, every interpretation satisfies the constraint.
* `Translate.IntoFixpointMeaning` and `Closed.IntoFixpointClosed`: translation keeps the meaning of
  every well-formed tree, and gives a closed constraint.  `Hoisting.KeepsMeaningIff`: exactly which
  binders may be translated.
* `Tree.PushMeaning`: the growth law of the tree; `Cursor.Subtyping`: the tree gains exactly a subtyping
  judgement, for all types, which implies containment (`Obligations.SubSound`) and for scalars follows
  from it (`Obligations.SubNeeded`).
* `TypeEnv.TransformInto` and `TypeEnv.JoinWith`: the two ways of passing a join point, when they
  complete, that a jump obliges to exactly what its target needs, and that a join can express every
  invariant (`Expressive.ApartExpresses`).
* `Traversal.Run` and `Traversals.InferThenCheck`: each reachable block is checked exactly once, and no
  lookup of an environment or a shape fails.
* `Intern.PointerEquality` with `Requests.EqualRequests`: in every interleaving, equality of pointers is
  equality of values, and of the values that were asked for.
  `Reclaim.ReclaimsIff`: exactly which interleavings give every entry of the table up in time.
* `DisjointSetsMap`: forest, sizes, circular lists and payloads keep agreeing on one partition, which
  after any sequence of operations is the least one that contains the pairs united so far.
* `Printer.ReadPrint` with `FaithfulPrinting.FaithfulIff`: printed expressions against a grammar of their
  own; `Lexer.Cursor.Next` with `Spelling.FlattenText`, `Pads.PadAdapter.WriteStr`: each stream against a
  recursive specification, and its text.
* `Signatures.AcceptedIff` and `Signatures.RequiredUnchecked`: exactly when the check of a signature is
  enough for the rest of the pipeline, and signatures for which it is not.

## Model

| member | source | states |
|---|---|---|
| Logic.SubstEval | liquid-rust-typeck/src/ty.rs:208-223 | substituting for the bound variable is evaluating under its value |
| Logic.SubstHolds | liquid-rust-typeck/src/ty.rs:241-249 | the same for predicates, kvar arguments included |
| Logic.SubstTwice | liquid-rust-typeck/src/constraint_builder.rs:159-163 | substituting twice changes nothing exactly when the replacement or the expression has no bound variable, or the replacement is that variable |
| Logic.SubstPredTwice | liquid-rust-typeck/src/constraint_builder.rs:159-163 | so the double substitution of subtyping is a single one, as an index has no bound variable |
| Logic.EvalSorted | liquid-rust-typeck/src/ty.rs:154-224 | a well-sorted expression evaluates, without getting stuck, to a value of its sort |
| Logic.SortSubst | liquid-rust-typeck/src/ty.rs:208-223 | substitution keeps sorts |
| Tree.PushMeaning | liquid-rust-typeck/src/constraint_builder.rs:234-248 | after a push the tree holds exactly when it held before and the new node holds wherever the cursor's path leads |
| Tree.PushGrows | liquid-rust-typeck/src/constraint_builder.rs:234-248 | a push only adds children at the end |
| Tree.GrowsHolds | liquid-rust-typeck/src/constraint_builder.rs:234-248 | a grown tree implies the tree it grew from |
| Tree.GrowsReach | liquid-rust-typeck/src/constraint_builder.rs:76-107 | growth keeps paths valid and leads to the same environments along them |
| Tree.PushReach | liquid-rust-typeck/src/constraint_builder.rs:93-100 | environments that enter the pushed node are reached at the new position |
| Tree.PushReachInv | liquid-rust-typeck/src/constraint_builder.rs:93-100 | and no others are |
| Tree.PushBinders | liquid-rust-typeck/src/constraint_builder.rs:93-96 | the binders on the path to the new position are those of the old one and that of the node |
| Tree.SnapshotThenParent | liquid-rust-typeck/src/constraint_builder.rs:77-82 | after pushes through a snapshot a push of the parent becomes a sibling behind them |
| Tree.ReachConforms | liquid-rust-typeck/src/constraint_builder.rs:250-257 | environments reached at a position give its binders values of their sorts |
| Tree.HoldsAgree | liquid-rust-typeck/src/constraint_builder.rs:32-37 | a well-formed tree depends only on the names in scope |
| Position.KeepsAt | liquid-rust-typeck/src/constraint_builder.rs:77-91 | work through a deeper cursor keeps the variables and scopes of the parent in step with its path |
| Position.KvarWf | liquid-rust-typeck/src/constraint_builder.rs:118-131 | a kvar over the cursor's own variables is well-sorted in its scope |
| Position.PushForallWf | liquid-rust-typeck/src/constraint_builder.rs:93-96 | binding a fresh name keeps the tree well-formed |
| ConstraintBuilders.Cursor.Snapshot | liquid-rust-typeck/src/constraint_builder.rs:77-82 | a new cursor at the same position of the same builder |
| ConstraintBuilders.Cursor.PushScope | liquid-rust-typeck/src/constraint_builder.rs:84-91 | marks the number of variables without touching the tree; scopes stay non-decreasing and bounded by the variables |
| ConstraintBuilders.Cursor.PushForall | liquid-rust-typeck/src/constraint_builder.rs:93-96 | node and variable are pushed together, so that the first variables of the shared array are the binders on the path |
| ConstraintBuilders.Cursor.PushGuard | liquid-rust-typeck/src/constraint_builder.rs:98-100 | descends below the guard |
| ConstraintBuilders.Cursor.PushHead | liquid-rust-typeck/src/constraint_builder.rs:102-107 | adds the goal, unless it is literally true, and stays in place |
| ConstraintBuilders.Cursor.PushNode | liquid-rust-typeck/src/constraint_builder.rs:234-248 | appends to the children and moves into the new node unless it is a head |
| ConstraintBuilders.Cursor.PushVar | liquid-rust-typeck/src/constraint_builder.rs:250-257 | overwrites what a finished cursor left at its place of the array, or extends it |
| ConstraintBuilders.Cursor.FreshKvar | liquid-rust-typeck/src/constraint_builder.rs:109-111 | a kvar applied to the bound variable and exactly the binders on the path, with their sorts |
| ConstraintBuilders.Cursor.FreshKvarAtLastScope | liquid-rust-typeck/src/constraint_builder.rs:113-116 | the same up to the last mark on the shared stack; well-sorted when that mark is the cursor's own |
| ConstraintBuilders.Cursor.FreshKvarAtScope | liquid-rust-typeck/src/constraint_builder.rs:118-131 | the loop collects one argument and one sort per variable in scope |
| ConstraintBuilders.Cursor.Unpack | liquid-rust-typeck/src/constraint_builder.rs:219-232 | an existential type is opened under a binder for its index |
| ConstraintBuilders.Cursor.Subtyping | liquid-rust-typeck/src/constraint_builder.rs:137-180 | succeeds exactly on compatible types; then the tree has gained exactly that in every environment at the cursor the first type is a subtype of the second; hence containment if the obligations hold, and for scalars the converse |
| ConstraintBuilders.Cursor.BtySubtyping | liquid-rust-typeck/src/constraint_builder.rs:182-201 | the same for base types: exactly the comparisons of the type arguments |
| ConstraintBuilders.Cursor.PolymorphicSubtyping | liquid-rust-typeck/src/constraint_builder.rs:203-217 | exactly the comparisons in the direction or directions of the variance; containment that way if the obligations hold, and for scalar arguments the obligations if there is containment |
| Obligations.UnpackObliged | liquid-rust-typeck/src/constraint_builder.rs:153-163 | what is gained below the binder of an opened type is exactly the judgement on the existential type |
| Obligations.GoalObliged | liquid-rust-typeck/src/constraint_builder.rs:155-163 | base types and pushed goal together are exactly the judgement on an indexed type |
| Obligations.SubSound | liquid-rust-typeck/src/constraint_builder.rs:137-201 | the judgement implies containment, through type arguments by variance |
| Obligations.SubNeeded | liquid-rust-typeck/src/constraint_builder.rs:137-180 | for types without arguments containment implies the judgement |
| Obligations.ArgNeeded | liquid-rust-typeck/src/constraint_builder.rs:203-217 | so does containment of scalar arguments in the directions of the variance |
| Translate.IntoFixpointMeaning | liquid-rust-typeck/src/constraint_builder.rs:62-73 | for every well-formed tree and interpretation, the constraint holds exactly when the tree does |
| Translate.NodeMeaning | liquid-rust-typeck/src/constraint_builder.rs:265-293 | the same for every subtree in every environment of its scope; a subtree that is dropped always holds |
| Translate.ForAllMeaning | liquid-rust-typeck/src/constraint_builder.rs:272-283 | hoisting the arguments of a binder's predicate outside the binder keeps its meaning |
| Translate.PredMeaning | liquid-rust-typeck/src/constraint_builder.rs:338-365 | with the hoisted names bound to the values of their arguments, the translated predicate holds exactly when the original does |
| Translate.StitchMeaning | liquid-rust-typeck/src/constraint_builder.rs:385-392 | the stitched binders force exactly those values; sorts are inhabited, so nothing is lost |
| Translate.HoistedNames | liquid-rust-typeck/src/constraint_builder.rs:346-361 | hoisted names are fresh, so that nothing is captured |
| Translate.WfTranslatable | liquid-rust-typeck/src/constraint_builder.rs:367-383 | the panic on a bound variable is unreachable for well-formed trees |
| Closed.IntoFixpointClosed | liquid-rust-typeck/src/constraint_builder.rs:62-73 | a well-formed tree gives a constraint in which every name is bound and every use has the sort of its binder |
| Closed.ForAllClosed | liquid-rust-typeck/src/constraint_builder.rs:272-283 | a translated binder is closed exactly when its predicate does not use it inside a non-variable kvar argument |
| Hoisting.KeepsMeaningIff | liquid-rust-typeck/src/constraint_builder.rs:272-283 | a new binder over a closed scope keeps its meaning in the translation, for all well-formed children, environments and interpretations, exactly when it does not occur inside a non-variable kvar argument of its own predicate |
| Hoisting.OwnBinderLost | liquid-rust-typeck/src/constraint_builder.rs:272-283 | every binder that does so loses it: above a goal that never holds it fails before the translation and holds after |
| Hoisting.SuccessorLost | liquid-rust-typeck/src/constraint_builder.rs:62-73 | the smallest whole tree of this kind: a kvar applied to the successor of the binder |
| Environment.WalkSound | liquid-rust-typeck/src/type_env.rs:123-141 | following references in types and in memory leads to the same location |
| Environment.WalkIff | liquid-rust-typeck/src/type_env.rs:123-141 | a place leads to a location exactly when a chain of as many strong references as it has dereferences does |
| Environment.StrongUpdate | liquid-rust-typeck/src/type_env.rs:84-92 | writing a value and changing the type together keeps the memory described |
| Environment.LevelsUnique | liquid-rust-typeck/src/type_env.rs:229-251 | there is one assignment of levels, so the visiting order does not matter |
| Environment.LevelsAreRanks | liquid-rust-typeck/src/type_env.rs:229-251 | levels exist only for acyclic closed reference graphs |
| TypeEnvs.TypeEnv.UpdateLoc | liquid-rust-typeck/src/type_env.rs:84-92 | succeeds exactly when the binding is strong or its bound is compatible with the new type; a strong binding takes the new type, a weak one stays and obliges to exactly that the new type is below its bound |
| TypeEnvs.TypeEnv.WalkPlace | liquid-rust-typeck/src/type_env.rs:123-141 | the location that the dereferences lead to, or failure |
| TypeEnvs.TypeEnv.MovePlace | liquid-rust-typeck/src/type_env.rs:99-106 | gives the type and leaves the local uninitialized |
| TypeEnvs.TypeEnv.WritePlace | liquid-rust-typeck/src/type_env.rs:108-121 | succeeds exactly where the place leads to a type that may be overwritten and the binding takes the new one; a strong update, or exactly the obligation of a weak binding |
| TypeEnvs.TypeEnv.Weakening | liquid-rust-typeck/src/type_env.rs:272-283 | keeps the common locations, uninitialized where the other environment is |
| TypeEnvs.TypeEnv.Levels | liquid-rust-typeck/src/type_env.rs:229-251 | on acyclic closed references: 0 for non-references, one more than the referee otherwise |
| TypeEnvs.TypeEnv.Dfs | liquid-rust-typeck/src/type_env.rs:230-245 | the memo map only ever holds correct levels, and gains that of the location |
| TypeEnvs.TypeEnv.RefWeak | liquid-rust-typeck/src/type_env.rs:312-328 | succeeds exactly when the chain of referees is weakenable to the bound; rewrites only pending locations below the reference, keeps every described memory described if the obligations hold, and obliges to exactly the comparison at the end of the chain |
| TypeEnvs.TypeEnv.TransformInto | liquid-rust-typeck/src/type_env.rs:170-188 | on completion every shared location has exactly the target's type, and every memory described before is described now if the obligations hold; unless a strong reference is to be weakened, it completes exactly when all shared types are compatible and the bindings strong, and the tree gains exactly that each type is a subtype of the target's |
| TypeEnvs.JumpNecessary | liquid-rust-typeck/src/type_env.rs:170-188 | so for scalars the obligations hold if every shared location's type is contained in the target's |
| TypeEnvs.WeakNecessary | liquid-rust-typeck/src/type_env.rs:312-328 | and for a reference that is weakened, if the type at the end of its chain is contained in the bound |
| Erasure.JumpErased | liquid-rust-typeck/src/type_env.rs:170-188 | between environments of scalars a jump completes exactly when the plain types fit |
| Erasure.WeakenableErased | liquid-rust-typeck/src/type_env.rs:312-328 | and a reference into scalars is weakenable exactly along a chain of pointers as long as the bound's to a location of its plain type |
| TypeEnvs.ReferenceStep | liquid-rust-typeck/src/type_env.rs:170-188 | weakening a reference keeps described memories described |
| TypeEnvs.TransformStep | liquid-rust-typeck/src/type_env.rs:170-188 | because levels descend, no step rewrites a location that has been processed |
| TypeEnvs.TypeEnv.JoinWith | liquid-rust-typeck/src/type_env.rs:253-270 | without references: succeeds exactly when every common location has joinable types; then the common locations, each with the least type above both, containing both; nothing is forgotten but indices that differ, and any invariant on those can be expressed |
| Expressive.ApartExpresses | liquid-rust-typeck/src/type_env.rs:291-298 | for any family of properties of value and names in scope, one per location that differs, some interpretation that agrees on older kvars makes each joined type contain exactly the values of its base type with the property |
| TypeEnvs.TypeEnv.StrgTyJoin | liquid-rust-typeck/src/type_env.rs:285-310 | exists exactly for joinable types: the least upper bound of the two up to kvar names, which contains both when fresh kvars hold of everything; equal types and equal indices stay, and types that differ get a new kvar over the value and all names in scope, in type arguments as well |
| TypeEnvs.TypeEnv.BtyJoin | liquid-rust-typeck/src/type_env.rs:357-380 | the same for base types; data types have to be covariant |
| Erasure.SamePlainJoinable | liquid-rust-typeck/src/type_env.rs:357-380 | covariant types that are the same without refinements have a join |
| Erasure.JoinableErased | liquid-rust-typeck/src/type_env.rs:285-310 | scalars join exactly when they are the same without refinements or one is uninitialized |
| Joins.JoinedDescribes | liquid-rust-typeck/src/type_env.rs:253-270 | a memory described by either environment is described by the join, when the fresh kvars hold of everything |
| Joins.JoinedWeaker | liquid-rust-typeck/src/type_env.rs:253-310 | a join only shrinks the domain and moves types up: index, existential, uninitialized |
| Joins.LeqHeight | liquid-rust-typeck/src/type_env.rs:285-310 | going up lowers the height, unless only predicates differ |
| Joins.ChangesBounded | liquid-rust-typeck/src/type_env.rs:253-310 | along any sequence of joins the changes, other than of predicates, are at most the initial height |
| Joins.ScalarTotal | liquid-rust-typeck/src/type_env.rs:253-310 | which for scalars is at most three per location |
| Rules.OpValue | liquid-rust-typeck/src/checker.rs:404-485 | operators on values of accepted types compute a value of the result type, divisions when the divisor's goal holds |
| Rules.Op1Value | liquid-rust-typeck/src/checker.rs:487-501 | the same for negation of integers and of booleans |
| Rules.OpAcceptsIff | liquid-rust-typeck/src/checker.rs:404-485 | accepted are exactly indexed operands of one base type on whose values the operator never gets stuck |
| Rules.Op1AcceptsIff | liquid-rust-typeck/src/checker.rs:487-501 | accepted are exactly indexed operands whose base type the operator does not lead out of |
| Rules.LitSound | liquid-rust-typeck/src/checker.rs:517-532 | a constant is in its type |
| Rules.BinarySound | liquid-rust-typeck/src/checker.rs:404-450 | if the obligations hold, a binary operation runs and its value is in the assigned type |
| Rules.MutRefSound | liquid-rust-typeck/src/checker.rs:396-399 | a borrow points to the location its type names |
| Rules.AssignSound | liquid-rust-typeck/src/checker.rs:194-202 | an assignment leaves a memory that the updated environment describes |
| Rules.TargetGuardMeaning | liquid-rust-typeck/src/checker.rs:316-330 | the guard of a target holds exactly when the value selects it |
| Rules.OtherwiseGuardMeaning | liquid-rust-typeck/src/checker.rs:337-344 | the remaining guard holds exactly when the value selects no target |
| Rules.SwitchSound | liquid-rust-typeck/src/checker.rs:308-347 | a switch is safe if every target is safe under its guard |
| Rules.DropSound | liquid-rust-typeck/src/checker.rs:242-245 | dropping a place moves out of it |
| Erasure.StatementErased | liquid-rust-typeck/src/checker.rs:194-202 | the rules assign to a statement the plain type that a checker without refinements does, whenever that accepts it, and for scalars only then |
| Erasure.AcceptsIffTyped | liquid-rust-typeck/src/checker.rs:172-248 | whatever body is well-typed without refinements is accepted, and of scalar code nothing else |
| Erasure.AssignAccepted | liquid-rust-typeck/src/checker.rs:194-202 | an assignment is accepted whatever unpacked type it overwrites |
| Erasure.SamePlainCompatible | liquid-rust-typeck/src/constraint_builder.rs:137-201 | types that are the same without refinements can be compared |
| Checkers.Checker.CheckStatements | liquid-rust-typeck/src/checker.rs:183-187 | succeeds exactly when the statements have types one after the other; then running them agrees, and the obligations added are those that safe runs need |
| Rules.ReturnSound | liquid-rust-typeck/src/checker.rs:210-218 | if the obligations hold, the returned value and the ensured cells are in their types |
| Visit.SuccessorsAhead | liquid-rust-typeck/src/checker.rs:172-192 | when a block is entered, none of its ordinary successors has been visited |
| Visit.NextVisited | liquid-rust-typeck/src/checker.rs:349-360 | while one successor is traversed, the later ones stay ahead |
| Necessity.DivisorNotZero | liquid-rust-typeck/src/checker.rs:446-448 | if a division runs in described memory, the goal pushed for it holds |
| Necessity.BlockNecessary | liquid-rust-typeck/src/checker.rs:172-192 | if every environment at a block has a run that stays safe, the obligations of its statements and of its end hold |
| Necessity.ReturnNext | liquid-rust-typeck/src/checker.rs:210-218 | one more ensured cell: if every environment has a memory that meets the duty, the obligation for the cell holds |
| Necessity.DropNecessary | liquid-rust-typeck/src/checker.rs:242-245 | a drop needs what its target needs in the memory it leaves |
| Necessity.SwitchNecessary | liquid-rust-typeck/src/checker.rs:308-347 | the obligations below the guards hold if safe runs exist where the guards do: with distinct targets a value selects the one whose guard holds |
| Checkers.Checker.CheckOperand | liquid-rust-typeck/src/checker.rs:503-515 | the type and the environment the rules assign, or failure; running the operand agrees |
| Checkers.Checker.CheckRvalue | liquid-rust-typeck/src/checker.rs:390-402 | the same for rvalues, with the obligation of a division and no other |
| Checkers.Checker.CheckBinaryOp | liquid-rust-typeck/src/checker.rs:404-485 | operands left to right, then the operator's type, or failure on operands that are not accepted; the obligation of a division and no other |
| Checkers.Checker.CheckUnaryOp | liquid-rust-typeck/src/checker.rs:487-501 | negation of booleans and of signed integers, on an operand that has a type, and nothing else |
| Checkers.Checker.CheckStatement | liquid-rust-typeck/src/checker.rs:194-202 | succeeds exactly when the statement has a type, updates the environment as the rules say, and is sound |
| Checkers.Checker.CheckBasicBlock | liquid-rust-typeck/src/checker.rs:172-192 | succeeds exactly when no path panics; if the obligations hold, every run from the block in described memory is safe, and without data types the obligations hold if every such run is; each block is entered once |
| Checkers.Checker.CheckTerminator | liquid-rust-typeck/src/checker.rs:204-248 | the same from the end of the statements; calls are not accepted |
| Checkers.Checker.CheckReturn | liquid-rust-typeck/src/checker.rs:210-218 | succeeds exactly when result and ensured cells are compatible with what is owed; then the return is sound, and for scalars its obligations are necessary |
| Checkers.Checker.CheckSwitchInt | liquid-rust-typeck/src/checker.rs:308-347 | every target is explored below its guard through a snapshot, in both directions; without targets the type of the discriminant is never looked at |
| Checkers.Checker.CheckGoto | liquid-rust-typeck/src/checker.rs:349-360 | without join points a jump is sound, necessary and accepted exactly as the target is |
| Traversals.JoinMeaning | liquid-rust-core/src/ir.rs:127-131 | counting predecessors decides whether two edges, or the entry and an edge, lead to the block |
| Traversals.Traversal.Run | liquid-rust-typeck/src/checker.rs:160-170 | for any graph and reverse postorder: no missing environment or shape, no block twice, only reachable blocks; it succeeds exactly when no reachable call is reported, and then it has checked exactly the reachable blocks and has environments for exactly the reachable join points |
| Traversals.Traversal.CheckListed | liquid-rust-typeck/src/checker.rs:162-168 | an unvisited block of the order has an environment waiting |
| Traversals.Traversal.CheckBasicBlock | liquid-rust-typeck/src/checker.rs:172-192 | entered unvisited; on success every block visited on the way has had all its successors reached |
| Traversals.Traversal.CheckTerminator | liquid-rust-typeck/src/checker.rs:204-248 | all successors of the block are reached, calls included |
| Traversals.Traversal.CheckGotoJoinPoint | liquid-rust-typeck/src/checker.rs:362-388 | a join point gets its environment at the first jump; its shape is still there |
| Traversals.InferThenCheck | liquid-rust-typeck/src/lib.rs:41-42 | the shapes that inference leaves are enough for checking; both passes finish, having checked each reachable block exactly once, exactly when neither reports a reachable call |
| Lowering.SynthLowers | liquid-rust-core/src/wf.rs:83-125 | an accepted expression lowers, and the result has the accepted sort |
| Lowering.SynthOperands | liquid-rust-core/src/wf.rs:91-125 | an accepted binary operation has accepted operands of the sorts its operator wants |
| Lowering.AcceptedIffValue | liquid-rust-core/src/wf.rs:83-125 | an expression is accepted at a sort exactly when it has a value of that sort, for any one choice of values for the variables in scope |
| Lowering.LowerExprMeaning | liquid-rust-typeck/src/lowering.rs:144-168 | the lowered expression has the original's value under the composed environment |
| Lowering.CheckLowerTranslate | liquid-rust-typeck/src/lowering.rs:144-168 | checked, lowered and translated, an expression evaluates to a value of its sort equal to the original's |
| Lowering.LowerTyMeaning | liquid-rust-typeck/src/lowering.rs:111-142 | a lowered type has the same values |
| Lowering.LowerTyWf | liquid-rust-typeck/src/lowering.rs:111-142 | a well-sorted type lowers without a panic to a well-sorted one |
| Erasure.LowerErased | liquid-rust-typeck/src/lowering.rs:111-142 | lowering keeps the plain type: width, signedness, data type and region |
| Signatures.Wf.CheckFnSig | liquid-rust-core/src/wf.rs:17-48 | accepts exactly when every predicate and type passes in the environment the earlier ones leave |
| Signatures.Wf.CheckType | liquid-rust-core/src/wf.rs:50-63 | the bound variable of an existential type is left in scope |
| Signatures.BoundStays | liquid-rust-core/src/wf.rs:50-63 | as an index of the next type it is accepted exactly at its own sort |
| Signatures.ArgumentsUnchecked | liquid-rust-core/src/wf.rs:50-63 | the arguments of a data type make no difference |
| Signatures.AcceptedIff | liquid-rust-core/src/wf.rs:17-63 | a signature is fit for the pipeline exactly when it is accepted, its names are resolved, and what the check leaves out is in order |
| Signatures.RequiredUnchecked | liquid-rust-core/src/wf.rs:17-48 | any accepted signature stays accepted with one more required cell of an ill-sorted type, and is not fit any more |
| Inference.Subst.InferFromTys | liquid-rust-typeck/src/lowering.rs:75-105 | one more fact is added to the solution, or conflicts with an earlier one |
| Inference.Subst.InferFromFnCall | liquid-rust-typeck/src/lowering.rs:40-58 | on success the least assignment that makes formal and actual types agree, covering all parameters; each failure has its cause |
| Inference.Subst.CheckInference | liquid-rust-typeck/src/lowering.rs:60-73 | fails exactly for an undetermined parameter; a region cannot be missing at this point |
| Inference.SolvedIsLeast | liquid-rust-typeck/src/lowering.rs:75-105 | what is inferred is part of every solution |
| Inference.SolvableIff | liquid-rust-typeck/src/lowering.rs:88-101 | facts have a solution exactly when no two of them conflict |
| Inference.InferredAgrees | liquid-rust-typeck/src/lowering.rs:75-123 | every formal type that names its index or region lowers to that of the actual |
| Inference.FactIff | liquid-rust-typeck/src/lowering.rs:75-105 | something is inferred exactly from a formal type that names its index or region and an actual type of its kind |
| Entering.ParamStepReach | liquid-rust-typeck/src/checker.rs:92-96 | parameters that satisfy their predicates are among the environments that reach the next position |
| Entering.ParamStepCovered | liquid-rust-typeck/src/checker.rs:92-96 | and no environment reaches it that is not such a choice |
| Cells.CellReach | liquid-rust-typeck/src/checker.rs:98-108 | for every memory with the cell's value in its declared type some environment reaches the position after unpacking and describes it |
| Cells.CellCovered | liquid-rust-typeck/src/checker.rs:98-108 | every environment that reaches it describes some memory with all cells in their declared types |
| Entrance.EnterFunction | liquid-rust-typeck/src/checker.rs:85-114 | parameters, required cells, arguments and locals in turn: the environments at the entry are exactly those of calls that meet the signature |
| Entry.EntrySure | liquid-rust-typeck/src/checker.rs:95-132 | if every call that meets the signature is safe, every environment at the entry has a memory from which the run stays safe |
| Entry.EntryCorrect | liquid-rust-typeck/src/checker.rs:95-132 | safety from the entry environment is safety of every call that meets the signature |
| Entry.EntryNeeded | liquid-rust-typeck/src/checker.rs:95-132 | so, without data types, the obligations hold if every such call is safe |
| Entry.EntryErased | liquid-rust-typeck/src/checker.rs:98-114 | at the entry each cell has the plain type declared for it and the rest is uninitialized |
| Entry.AcceptedIffTyped | liquid-rust-typeck/src/checker.rs:85-132 | from there the checker accepts whatever is well-typed against the declared types, and for scalar signatures nothing else |
| Entry.CheckEntered | liquid-rust-typeck/src/checker.rs:113-129 | from the entry environment the checker succeeds exactly when no path panics; then every call is safe if the tree holds, and without data types the tree holds if every call is safe |
| Entry.CheckFunction | liquid-rust-typeck/src/checker.rs:85-132 | a well-formed tree; success exactly when no path panics from the entry, and then the same two directions |
| Entry.Verify | liquid-rust-typeck/src/lib.rs:41-51 | success on every well-typed body, and for scalar signatures on no other; the same two directions from the solver's answer on the closed constraint |
| Intern.RunInv | liquid-rust-typeck/src/intern.rs:261-341 | every step of every thread keeps table, counts, handles and locks consistent |
| Intern.PointerEquality | liquid-rust-typeck/src/intern.rs:344-351 | in every interleaving two live handles have the same pointer exactly when they have the same value |
| Requests.HandlesAsAsked | liquid-rust-typeck/src/intern.rs:261-302 | in every interleaving the handles are those created and not released, and each has the value it was created for, directly or by cloning |
| Requests.EqualRequests | liquid-rust-typeck/src/intern.rs:344-351 | so two live handles have the same pointer exactly when equal values were asked for |
| Requests.KeepsValue | liquid-rust-typeck/src/intern.rs:378-383 | a handle keeps pointer and value until it is released |
| Intern.CountExact | liquid-rust-typeck/src/intern.rs:304-313 | an allocation's count is its handles and one if it is stored |
| Intern.LookupFinds | liquid-rust-typeck/src/intern.rs:324-327 | the lookup of a slow drop finds the entry, and it is the handle's own |
| Intern.DropProceeds | liquid-rust-typeck/src/intern.rs:304-341 | a drop can always take a step, unless another handle holds its shard |
| Reclaim.ReclaimsIff | liquid-rust-typeck/src/intern.rs:304-341 | in any interleaving the table holds exactly the values of undecided handles throughout, exactly when no drop sees a count other than two although all other handles to its allocation have decided to leave the entry |
| Reclaim.SerialDropsReclaim | liquid-rust-typeck/src/intern.rs:304-341 | which is so when drops of one allocation do not overlap, whatever else happens in between |
| Intern.InterruptedDropsLeak | liquid-rust-typeck/src/intern.rs:308-331 | a run in which two drops interleave and leave an entry without a handle |
| Partitions.UnionSame | liquid-rust-common/src/disjoint_sets.rs:67-90 | what a union identifies |
| Partitions.UnionLeast | liquid-rust-common/src/disjoint_sets.rs:67-90 | if two indices are together exactly when every equivalence with the united pairs relates them, a union keeps that with its pair added |
| Partitions.PushLeast | liquid-rust-common/src/disjoint_sets.rs:54-61 | and so does a push, with no pair added |
| Partitions.UnionAllLeast | liquid-rust-common/src/disjoint_sets.rs:67-90 | and any number of unions |
| Partitions.UnionFirstIsAll | liquid-rust-common/src/disjoint_sets.rs:92-106 | uniting many indices with the first is uniting those pairs |
| Partitions.MultiUnionMeaning | liquid-rust-common/src/disjoint_sets.rs:92-106 | one class whose value is the fold over the distinct classes in the order they are met; others unchanged |
| Partitions.FoldIsJoin | liquid-rust-common/src/disjoint_sets.rs:92-106 | with a semilattice merge the fold is the least upper bound |
| Partitions.FoldOrderFree | liquid-rust-common/src/disjoint_sets.rs:92-106 | so order and repetition do not matter |
| Partitions.MultiUnionJoin | liquid-rust-common/src/disjoint_sets.rs:92-106 | with a semilattice merge the value of the united class is the least upper bound of the values at the indices |
| Partitions.MultiUnionOrderFree | liquid-rust-common/src/disjoint_sets.rs:92-106 | and index lists with the same members give the same classes and values |
| Partitions.MergedIsFold | liquid-rust-common/src/disjoint_sets.rs:176-184 | the merged value of a class is the left fold, in ascending order, over the other map's values at its members |
| Partitions.MergedSame | liquid-rust-common/src/disjoint_sets.rs:176-184 | members of a class get the same merged value |
| DisjointSets.LinkedOk | liquid-rust-common/src/disjoint_sets.rs:75-85 | swapping two successors and hanging the smaller root under the larger keeps forest, sizes and circular lists in agreement |
| DisjointSets.CompressedOk | liquid-rust-common/src/disjoint_sets.rs:138-144 | path compression keeps them in agreement |
| DisjointSets.DepthBound | liquid-rust-common/src/disjoint_sets.rs:138-144 | two to the depth of an index is at most the size of its class |
| DisjointSets.NextInjective | liquid-rust-common/src/disjoint_sets.rs:58-73 | the successor array is a permutation |
| DisjointSets.CyclesAreClasses | liquid-rust-common/src/disjoint_sets.rs:58-73 | its cycles are exactly the classes |
| DisjointSets.LinkedView | liquid-rust-common/src/disjoint_sets.rs:67-90 | linking with the merged payload is the union of the two classes |
| DisjointSets.UnitedView | liquid-rust-common/src/disjoint_sets.rs:67-90 | and the classes stay the least ones that contain the united pairs |
| DisjointSets.DisjointSetsMap.FromIter | liquid-rust-common/src/disjoint_sets.rs:32-48 | every element is a class of its own with its payload; nothing is united |
| DisjointSets.DisjointSetsMap.Push | liquid-rust-common/src/disjoint_sets.rs:54-61 | one more class at the next index, the others and the united pairs unchanged |
| DisjointSets.DisjointSetsMap.UncheckedFind | liquid-rust-common/src/disjoint_sets.rs:138-144 | the root; every parent is as before or the root, and that of the index is the root |
| DisjointSets.DisjointSetsMap.Find | liquid-rust-common/src/disjoint_sets.rs:133-136 | the root, or nothing for an index out of range |
| DisjointSets.DisjointSetsMap.SameSet | liquid-rust-common/src/disjoint_sets.rs:63-65 | whether every equivalence that contains the pairs united so far, by any operations, relates the indices |
| DisjointSets.DisjointSetsMap.Get | liquid-rust-common/src/disjoint_sets.rs:113-115 | the value of the index's class |
| DisjointSets.DisjointSetsMap.Update | liquid-rust-common/src/disjoint_sets.rs:121-123 | replaces the value for all members of the class and no others |
| DisjointSets.DisjointSetsMap.Union | liquid-rust-common/src/disjoint_sets.rs:67-90 | the represented partition becomes the union, with the values merged left before right; the pair joins the united ones |
| DisjointSets.DisjointSetsMap.MultiUnion | liquid-rust-common/src/disjoint_sets.rs:92-106 | the represented partition becomes the multi-union; the pairs of the first index with the others join the united ones |
| DisjointSets.DisjointSetsMap.SetOf | liquid-rust-common/src/disjoint_sets.rs:108-111 | an iterator with the members of the class still to come, once each |
| DisjointSets.DisjointSetsMap.MergeWith | liquid-rust-common/src/disjoint_sets.rs:176-184 | the partition stays, the values become the folds; the other map is unchanged |
| DisjointSets.Set.Next | liquid-rust-common/src/disjoint_sets.rs:199-215 | the next member, and after the last nothing, for ever |
| Printer.ReadPrint | liquid-rust-fixpoint/src/constraint.rs:177-215 | every printed expression is read back by a grammar with its own seven levels of operators, with its chains of equal precedence associated to the left |
| Printer.ParenthesesIff | liquid-rust-fixpoint/src/constraint.rs:96-108 | parentheses are printed exactly around operands of a lower level of the grammar, or of the same for implication and comparisons |
| Printer.RoundTrip | liquid-rust-fixpoint/src/constraint.rs:177-215 | and with the same value, if no operator has an unparenthesised right operand with which it does not reassociate |
| Printer.ReassociatesIff | liquid-rust-fixpoint/src/constraint.rs:179-187 | which pairs of operators do: exactly those for which the order makes no difference on any operands |
| FaithfulPrinting.FaithfulIff | liquid-rust-fixpoint/src/constraint.rs:177-215 | for every well-sorted expression whose leaves are distinct variables, the value survives in all environments exactly then |
| Printer.InnerDivision | liquid-rust-fixpoint/src/constraint.rs:179-203 | a product whose right operand is itself a product with a division further left changes its value |
| Lexer.Cursor.Next | liquid-rust-syntax/src/lexer.rs:117-153 | yields the head of the recursive flattening and leaves its tail; then nothing, for ever; the remaining size decreases |
| Lexer.Cursor.NextLeaf | liquid-rust-syntax/src/lexer.rs:121-134 | one token, or an arrow for two adjacent ones of the same frame |
| Lexer.FlattenSplit | liquid-rust-syntax/src/lexer.rs:121-134 | flattening is local, but for an arrow across the cut |
| Lexer.Balanced | liquid-rust-syntax/src/lexer.rs:135-151 | delimiters in the flattened stream are balanced |
| Spelling.MapKindText | liquid-rust-syntax/src/lexer.rs:71-107 | a token is written, in the grammar, as its kind is in the compiler, and is invalid exactly where the lexer does not know the kind |
| Spelling.FlattenText | liquid-rust-syntax/src/lexer.rs:117-153 | the flattened stream has the text of the trees |
| Spelling.ArrowsFused | liquid-rust-syntax/src/lexer.rs:121-134 | no two adjacent tokens that make an arrow are left apart |
| Spelling.FlattenFits | liquid-rust-syntax/src/lexer.rs:121-134 | and none is made of tokens with a gap: spans stay as long as their text |
| Spelling.FlattenPlaced | liquid-rust-syntax/src/lexer.rs:71-112 | every token begins and ends where pieces of the trees do, counted from the offset |
| Pads.PadAdapter.WriteStr | liquid-rust-common/src/format.rs:49-70 | writes the text with a pad before every character that starts a line |
| Pads.ChunksImmaterial | liquid-rust-common/src/format.rs:49-70 | successive writes of chunks put out what one write of the whole does |
| Pads.PadsRemoved | liquid-rust-common/src/format.rs:49-70 | deleting the pads recovers the text |
| Pads.OnePadPerLine | liquid-rust-common/src/format.rs:49-70 | there is one pad per line that is started, blank lines included |

## Where the code and its promises differ

* A binder that uses itself inside a non-variable kvar argument is not bound any more where the
  argument is hoisted to, and a tree that does not hold can be translated into a constraint that does.
  `Hoisting.KeepsMeaningIff` says that exactly these binders lose their meaning, `Closed.ForAllClosed`
  that exactly these give open constraints.  Opening a well-formed existential type never gives one,
  because its kvars take the bound variable itself.
* The check of a signature does not look at the types of required cells nor at the arguments of data
  types, and leaves the bound variable of an existential type in scope for the types after it
  (liquid-rust-core/src/wf.rs:17-63).  `Signatures.AcceptedIff` gives the exact remaining condition and
  `Signatures.RequiredUnchecked` accepted signatures that miss it.  The third gap does no harm: the only
  caller checks signatures that name resolution has built (liquid-rust-driver/src/callbacks.rs:40-41),
  and resolution pops the bound variable with the predicate it belongs to
  (liquid-rust-driver/src/resolve.rs:205-211), so that no index mentions it.
* The printer treats every operator but implication and comparisons as associative and leaves out the
  parentheses around right operands of the same precedence, also below subtraction and division;
  `Printer.ReassociatesIff` says for which operators that is harmless, and
  `FaithfulPrinting.FaithfulIff` for which expressions.
* Two interrupted drops can leave an entry without handles in the interning table
  (`Intern.InterruptedDropsLeak`), where it stays until its value is interned again;
  `Reclaim.ReclaimsIff` says exactly when that happens.  Equality of handles is unaffected.
* A pad is also written before the newline of a blank line.
* The region half of `check_inference` cannot fail: a missing region stops the inference before.

## Left out

* Soundness across join points: one cursor runs through all join blocks, so the obligations of later
  blocks are nested under the binders of earlier ones.  For graphs with join points the project proves
  how blocks are traversed, what `transform_into` and `join_with` do, and nothing about runs.
* Calls in the soundness theorem: `check_call` is followed by the traversal only; inference of the
  arguments is modelled on its own.  `Checkers.Checker` fails on a call.
* Equality of data type values and switches on booleans over more than the value zero are given no
  run-time meaning; the theorems say nothing about runs that use them.
* Machine integers: wrap-around, sign reinterpretation of switch constants and the negation of the
  smallest integer.  Logical division is taken as the program's truncating division, zero for a zero
  divisor; what the solver makes of it is outside.
* Containment of data types does not imply the judgement of subtyping: a type argument can be irrelevant
  to the values there are, and with equal predicates the arguments are compared outside the binder.
* `Ref` types in the environments of the soundness theorem; `todo!` arms for places behind them;
  joins of references.
* `unpack` of whole environments, `infer_bb_env`, `replace_kvars`, `into_shape`, type substitutions
  at calls, and `Pred::Infer` in lowering: the cells and parameters of the model have explicit
  predicates.
* Hashing, shards and the shrinking of the interning table beyond the lock per shard; unsized values.
* `map_values`, `values`, `iter` and `get_mut` of the union-find map: the first three visit a hash map
  in no fixed order, the last hands out a reference.
* Printing of constraints and predicates around expressions; spaces between tokens; a writer that fails.
* The generated parser, name resolution, the driver, configuration, diagnostics, the solver process.
* ConstraintBuilders.Cursor.FreshKvarAtLastScope: in-scope only when the cursor's marks are all the marks on the shared stack, because it reads the last mark of any cursor.
* Erasure.AcceptsIffTyped: well-typed code does not compare data types for equality, because the checker asks for equal refinements there; calls are not well-typed in it.
* TypeEnvs.TypeEnv.JoinWith: what can be expressed is stated for the predicates of locations, and for those of type arguments only that they are new kvars over all names in scope; types without references only, because the reference arms of the join are unfinished in the code.
* Entry.Verify: assumes that the signature is well-formed, a condition `Signatures.AcceptedIff` relates to the check, because the check itself accepts more; the converse direction is for signatures without data types, whose subtyping is not necessary, and for switches with distinct targets.
* Entry.CheckEntered: bodies without join points and calls, as the first two points above say.
* Checkers.Checker.CheckBasicBlock: the same.
* Checkers.Checker.CheckTerminator: the same; a call is a failure.
* Checkers.Checker.CheckSwitchInt: the same.
* Checkers.Checker.CheckGoto: the same.
* TypeEnvs.TypeEnv.TransformInto: when a strong reference has to be weakened it is not said whether it completes, nor what it obliges to in all, because locations of one level are visited in the order of a hash map and an earlier weakening can rewrite what a later one needs.
* FaithfulPrinting.FaithfulIff: variables at the leaves, each once; with constants or repeated variables a differently associated expression can have the same value by chance.
* Lexer.Balanced: token trees without stray delimiter tokens, as the compiler builds them.
