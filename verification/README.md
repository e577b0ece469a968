# Verified models of RefinedRust's algorithms

RefinedRust translates annotated Rust to Rocq. Its frontend and its case studies contain a number of
self-contained algorithms. This project models them in Dafny and proves what they compute. Types of
rustc are replaced by datatypes with the same constructors, as far as an algorithm looks at them;
queries to the compiler are parameters.

| file | what it models |
|---|---|
| `Mir.dfy`, `AbstractInterpretation.dfy`, `FixpointTheorems.dfy`, `FixpointEngine.dfy` | the worklist solver for forward analyses of MIR bodies |
| `DefinitelyAllocated.dfy` | the domain of definitely allocated locals, and what the solver computes on it |
| `RustTypes.dfy`, `Unification.dfy`, `UnificationTheorems.dfy` | one-way unification of types |
| `Search.dfy` | resolution of a trait to an impl by unification |
| `RustCmp.dfy`, `RustCmpTheorems.dfy`, `RustCmpOrder.dfy` | the structural comparators |
| `DefinitionOrder.dfy` | the layered topological order of type definitions |
| `LibraryIncludes.dfy` | the two loops that load included and re-exported libraries |
| `RawMemory.dfy`, `MiniVec.dfy` | `realloc`, and the growable vector on raw memory |
| `PowersOfTwo.dfy`, `MachineIntegers.dfy` | `Step`, `abs_diff`, power-of-two and alignment tests for every width |
| `Punctuated.dfy` | the punctuated-sequence parser and its double-ended iterator |
| `Wrappers.dfy`, `Collections.dfy` | notions that several models share |
| `SeparationLogic.dfy` | purification of separation-logic propositions |
| `Fulcrum.dfy` | the fulcrum of a list |

## How the models are built

* **The solver.** `Visit` is one iteration of the loop as a function of the stored states and the work
  set, for an arbitrary domain; `Reaches` are all runs that pick blocks from the work set in any order.
  The classes `PointwiseState` and `FixpointEngine` do the same in place, and each of their methods is
  proved equal to its part of `Visit`. What holds without any law of the domain (the worklist invariant,
  the exact solution) is proved without one. The laws listed in the documentation of `AbstractState` are
  hypotheses of the theorems that need them. They are asked of a `Lattice`: the states of one body, which
  contain the start states and are closed under join and transformers. The type of states may have more
  values, and `RunStaysInside` shows that no run leaves the lattice. The loop of the source has no
  widening and only stops if the transformers are monotone and the domain has finite height, so
  `RunFwdAnalysis` takes the lattice and its height as ghost arguments; `ProcessBlock`, the loop body,
  does not. `debug_assert_eq!` is modelled: `debugAssertions` says whether it is compiled in. A block's
  transformers may also report `NoStateAfterSuccessor` themselves, so `MissingSuccessorIff` has two cases.
* **Allocated locals.** The domain meets the laws (`AllocatedLaws`), so all theorems about the solver apply
  to it, and more: its result is the meet over all control-flow paths (`AllocatedExactly`). What is allocated
  at the end of a path is said by the statements on it, not by the transformer of the domain. Blocks that
  cannot be reached take part in the analysis, which is why paths may also begin at them, with all locals.
  The documentation of `new_initial` asks to take the arguments into account, but the code of this domain
  leaves the return place and the arguments out of the initial state; the model does as the code does, and
  `ArgumentsAreLeftOut` states the consequence.
* **Unification.** `UnifyTypes` gives the verdict and the map afterwards, also after a failure, because
  a failing attempt keeps the bindings it made and the impl search goes on with that map. The comment of
  the source says that unification decides whether two types are the same modulo renaming. The code
  checks a functional renaming in one direction, always rejects constant arguments and regions other than
  early parameters, and compares tuples, slices, function pointers and so on as a whole.
  `DecidesRenamingIff` says for exactly which types the code decides renaming, and
  `UnifiesBackIffInjective` for exactly which pairs it succeeds in both directions.
* **Impl search.** The candidates of one search are impls of one trait, so their trait arguments agree in
  number and kind, and they are filed under one simplified self type. `SharingIsHarmlessIff` says, over all
  such lists, when it makes no difference that they share one map. The first candidate that is accepted
  wins, as in the source, which allows for several.
* **The comparators** answer `Panic` where the source is `unimplemented!`. `cmp_arg_ref` has an arm for a
  parameter on the left but none for a parameter on the right, so a parameter and, say, `bool` are each
  less than the other. `Clash` is the condition, on the two inputs, under which this decides the
  comparison: a parameter meets another type after a prefix that is the same up to path strings. The
  comparators as written are antisymmetric on a pair exactly without a clash, and transitive on a set
  exactly if no two members clash. In the `repaired` version, which has the missing arm, both laws hold
  always. `RustCmpOrder.dfy` says which of two values comes first.
* **The vector.** `Abstract` is a vector without memory; the class `Vec` keeps it in slots of a heap that
  may be uninitialised. Preconditions of the heap operations are what Rust calls undefined behaviour, so
  that the methods verify says that only initialised, owned slots are read. Pointer width and element
  size are arbitrary. The annotations of the source ask callers of `push` for room; the model has the
  panics of the code instead, and `PushSucceeds` shows that the annotation rules them out.
* **Machine integers.** Contracts follow the bodies. The annotations differ in two places: the forward
  range of `u128` is given as `i128` (`stdlib/iterator/src/step.rs:272`), and the saturation of the wide
  `steps_between` is left out (`stdlib/iterator/src/step.rs:200` and `:232`).

## Model

| member | source | states |
|---|---|---|
| AbstractInterpretation.VisitKeepsInvariant | rr_frontend/analysis/src/abstract_interpretation/fixpoint_engine.rs:64-152 | one iteration, on any block, keeps the worklist invariant in any domain: every block not due has its stored states equal to their recomputation from the current incoming edges |
| AbstractInterpretation.InvariantOfEveryRun | rr_frontend/analysis/src/abstract_interpretation/fixpoint_engine.rs:51-152 | the invariant holds in every state of every run, whatever the order of blocks |
| AbstractInterpretation.CompleteRunSolvesEquations | rr_frontend/analysis/src/abstract_interpretation/fixpoint_engine.rs:51-154 | when the work set is empty all entry, statement and edge equations hold exactly, the state on an edge being what the states that the terminator effect sends along it join to; states are stored for precisely the locations and blocks of the body |
| AbstractInterpretation.PredecessorMapsContainBlock | rr_frontend/analysis/src/abstract_interpretation/fixpoint_engine.rs:74-81 | the `unwrap` on a predecessor's map never fails |
| AbstractInterpretation.MissingSuccessorIff | rr_frontend/analysis/src/abstract_interpretation/fixpoint_engine.rs:118-135 | a missing successor is reported exactly when the terminator effect reports it, or succeeds and gives the first such successor no state |
| AbstractInterpretation.VisitStopsIff | rr_frontend/analysis/src/abstract_interpretation/fixpoint_engine.rs:118-139 | the debug assertion fails exactly when it is compiled in, all successors have a state, and some other block has one; an unsupported terminator is reported exactly when the effect does |
| AbstractInterpretation.MergedTargets | rr_frontend/analysis/src/abstract_interpretation/fixpoint_engine.rs:120-128 | merging the outgoing states has exactly the named targets |
| AbstractInterpretation.SingleStateArrives | rr_frontend/analysis/src/abstract_interpretation/fixpoint_engine.rs:120-128 | with no law: a state that no other one shares its target with arrives there unchanged |
| AbstractInterpretation.MergeOneMore | rr_frontend/analysis/src/abstract_interpretation/fixpoint_engine.rs:120-128 | one more state changes its own target only |
| AbstractInterpretation.EntryDependsOnIncoming | rr_frontend/analysis/src/abstract_interpretation/fixpoint_engine.rs:67-81 | the entry state of a block depends only on the states of its incoming edges |
| FixpointTheorems.RunStaysInside | rr_frontend/analysis/src/abstract_interpretation/fixpoint_engine.rs:51-154 | if the lattice of a body is closed under join and transformers, every state stored in any run belongs to it |
| FixpointTheorems.EntryIsUpperBound | rr_frontend/analysis/src/abstract_interpretation/fixpoint_engine.rs:67-81 | if join is a least upper bound on the lattice, the entry state is above the start state and every incoming edge |
| FixpointTheorems.EntryIsLeast | rr_frontend/analysis/src/abstract_interpretation/fixpoint_engine.rs:67-81 | and it is below every other such state of the lattice |
| FixpointTheorems.MergedStateIsLeastUpperBound | rr_frontend/analysis/src/abstract_interpretation/fixpoint_engine.rs:120-128 | the state merged for a target is above every state sent to it and below everything above all of those |
| FixpointTheorems.RunStaysBelow | rr_frontend/analysis/src/abstract_interpretation/fixpoint_engine.rs:51-154 | along every run, finished or not, all stored states are below every post-fixpoint in the lattice of the body |
| FixpointTheorems.CompleteRunIsLeast | rr_frontend/analysis/src/abstract_interpretation/fixpoint_engine.rs:51-154 | a complete run computes the least post-fixpoint in the lattice of the body; what bounds an edge is read off the terminator effect itself |
| FixpointTheorems.CompleteRunsAgree | rr_frontend/analysis/src/abstract_interpretation/fixpoint_engine.rs:61-65 | two complete runs give the same states, whatever the order in which they pick blocks |
| FixpointTheorems.CompleteRunRulesOutErrors | rr_frontend/analysis/src/abstract_interpretation/fixpoint_engine.rs:118-139 | if larger states are never accepted where smaller ones are rejected, one successful order means that no order fails |
| FixpointTheorems.VisitRaisesEdges | rr_frontend/analysis/src/abstract_interpretation/fixpoint_engine.rs:140-151 | with monotone transformers every edge state only rises |
| FixpointTheorems.VisitLowersPotential | rr_frontend/analysis/src/abstract_interpretation/fixpoint_engine.rs:64-152 | each visit lowers the size of the work set plus the remaining height of all edges |
| FixpointTheorems.VisitBound | rr_frontend/analysis/src/abstract_interpretation/fixpoint_engine.rs:64-152 | no run makes more than blocks + edges * (h + 1) visits, if the lattice of the body has height h |
| FixpointTheorems.StepIsCovered | rr_frontend/analysis/src/abstract_interpretation/abstract_state.rs:14-25 | a solution covers one concrete step, inside a block or along an edge |
| FixpointTheorems.CompleteRunIsSound | rr_frontend/analysis/src/abstract_interpretation/abstract_state.rs:14-25 | if join and transformers over-approximate, the result covers every concrete state at every location of every execution; no monotonicity is needed |
| FixpointEngine.PointwiseState.EnsureAfterBlock | rr_frontend/analysis/src/pointwise_state.rs:113-118 | the edge map of a block exists afterwards, empty if it was not there |
| FixpointEngine.PointwiseState.InsertAfterBlock | rr_frontend/analysis/src/abstract_interpretation/fixpoint_engine.rs:143-144 | inserts one edge state, changes nothing else, gives back the old one |
| FixpointEngine.LookupAfterIsEffect | rr_frontend/analysis/src/pointwise_state.rs:96-99 | in a solution the state looked up after a statement is its effect on the state looked up before it |
| FixpointEngine.FixpointEngine.JoinPredecessors | rr_frontend/analysis/src/abstract_interpretation/fixpoint_engine.rs:67-81 | the loop over predecessors computes the entry state |
| FixpointEngine.FixpointEngine.RunStatements | rr_frontend/analysis/src/abstract_interpretation/fixpoint_engine.rs:87-116 | the loop over statements stores the state before each of them and before the terminator |
| FixpointEngine.FixpointEngine.MergeNextStates | rr_frontend/analysis/src/abstract_interpretation/fixpoint_engine.rs:120-128 | the loop over outgoing states leaves, for each target and no other block, what the states sent to it join to in order |
| FixpointEngine.FixpointEngine.FindMissingSuccessor | rr_frontend/analysis/src/abstract_interpretation/fixpoint_engine.rs:130-135 | finds the first successor without a state |
| FixpointEngine.FixpointEngine.StoreEdges | rr_frontend/analysis/src/abstract_interpretation/fixpoint_engine.rs:140-151 | stores an edge state per successor, however often it is listed, and makes exactly the successors due whose state changed |
| FixpointEngine.FixpointEngine.ProcessBlock | rr_frontend/analysis/src/abstract_interpretation/fixpoint_engine.rs:65-151 | the loop body in place is exactly one visit, including its errors; no law of the domain is assumed |
| FixpointEngine.FixpointEngine.ProcessNext | rr_frontend/analysis/src/abstract_interpretation/fixpoint_engine.rs:61-65 | the least due block is processed; the run grows by one visit and the potential sinks, or the engine stops with the error of that block |
| FixpointEngine.FixpointEngine.RunFwdAnalysis | rr_frontend/analysis/src/abstract_interpretation/fixpoint_engine.rs:51-154 | on a lattice of finite height that is closed under monotone transformers, terminates within the bound on visits; on success all equations hold, otherwise some due block gives the error |
| DefinitelyAllocated.DefinitelyAllocatedState.ApplyTerminatorEffect | rr_frontend/analysis/src/domains/definitely_allocated/state.rs:79-89 | the loop gives every successor, as often as it is listed, the state unchanged |
| DefinitelyAllocated.DefinitelyAllocatedState.Join | rr_frontend/analysis/src/domains/definitely_allocated/state.rs:94-96 | retaining what the other set has too is intersection |
| DefinitelyAllocated.DefinitelyAllocatedState.ApplyStatementEffect | rr_frontend/analysis/src/domains/definitely_allocated/state.rs:64-76 | afterwards a local is allocated exactly if the statement allocates it, or it was and the statement does not name it |
| DefinitelyAllocated.NewInitial | rr_frontend/analysis/src/domains/definitely_allocated/analysis.rs:40-56 | the nested loops leave exactly the variables and temporaries that no statement allocates or frees |
| DefinitelyAllocated.InitialLocalsIff | rr_frontend/analysis/src/domains/definitely_allocated/analysis.rs:40-56 | the same for the function that the analysis uses |
| DefinitelyAllocated.StateAlongIsHistory | rr_frontend/analysis/src/domains/definitely_allocated/state.rs:64-76 | along a path a local is in the state exactly if the last statement that names it allocates it, or none names it and it is allocated at the start |
| DefinitelyAllocated.AllocatedLaws | rr_frontend/analysis/src/domains/definitely_allocated/state.rs:64-97 | sets of declared locals under reverse inclusion are a lattice of height "number of locals" that meets all laws the solver needs |
| DefinitelyAllocated.AllocatedNeverFails | rr_frontend/analysis/src/domains/definitely_allocated/state.rs:79-89 | on this domain no visit reports an error or fails the debug assertion |
| DefinitelyAllocated.AllocatedExactly | rr_frontend/analysis/src/domains/definitely_allocated/analysis.rs:24-69 | every complete run finds exactly the locals that, by the history of statements, are allocated at the end of all control-flow paths |
| DefinitelyAllocated.AllocatedExactlyOnExecutions | rr_frontend/analysis/src/domains/definitely_allocated/analysis.rs:24-69 | if all blocks are reachable, these are exactly the locals that every execution has allocated |
| DefinitelyAllocated.ArgumentsAreLeftOut | rr_frontend/analysis/src/domains/definitely_allocated/analysis.rs:40-56 | the return place and the arguments are missing from the result wherever control can get to, unless a statement allocates them |
| DefinitelyAllocated.AnalyseAllocated | rr_frontend/analysis/src/domains/definitely_allocated/analysis.rs:24-69 | running the solver on this domain always succeeds and is exact |
| UnificationTheorems.UnifySound | rr_frontend/translation/src/unification.rs:70-147 | never overwrites a binding; on success the map matches the two types |
| UnificationTheorems.UnifyComplete | rr_frontend/translation/src/unification.rs:70-147 | succeeds whenever some extension of the map matches, and stays inside it |
| UnificationTheorems.UnifyIsLeastMatch | rr_frontend/translation/src/unification.rs:40-147 | for all types and maps: succeeds iff some extension matches, and computes the least one |
| UnificationTheorems.UnifyAntimonotone | rr_frontend/translation/src/unification.rs:70-147 | success from a map implies success from any submap, with a smaller result |
| UnificationTheorems.UnifyStopsAtFirstConflict | rr_frontend/translation/src/unification.rs:70-147 | an attempt goes through the visited positions in order up to the first conflict, and adds exactly the bindings before it, also when it fails |
| UnificationTheorems.ArgsUnifyIsLeastMatch | rr_frontend/translation/src/unification.rs:149-175 | trait arguments unify iff the lists agree in length and some extension of the map matches every position of a type; the result is the least one |
| UnificationTheorems.ArgsUnifyAntimonotone | rr_frontend/translation/src/unification.rs:149-175 | success carries over to submaps for the type positions of argument lists |
| UnificationTheorems.MatchesIffApply | rr_frontend/translation/src/unification.rs:70-147 | a renaming matches exactly if the left type has no forbidden part and the right type is the left one with its visible parameters renamed |
| UnificationTheorems.UnifyBindsVisible | rr_frontend/translation/src/unification.rs:126-144 | success binds exactly the visible parameters, to parameters |
| UnificationTheorems.DecidesRenamingIff | rr_frontend/translation/src/unification.rs:7-7 | unification decides "same modulo renaming" for exactly the types without constant arguments, without regions other than early parameters, and without parameters below a type compared as a whole |
| UnificationTheorems.UnifiesBackIffInjective | rr_frontend/translation/src/unification.rs:7-7 | two types unify in both directions exactly if the left one has no forbidden part and the right one is the left one with its visible parameters renamed injectively |
| UnificationTheorems.ConstantsAndStaticRegionsNeverUnify | rr_frontend/translation/src/unification.rs:27-30 | a type with a constant argument, and one with a static region, does not unify with itself |
| UnificationTheorems.TuplesAreNotRenamed | rr_frontend/translation/src/unification.rs:145-145 | tuples are compared as they are, even against the bindings of the map |
| UnificationTheorems.RenamingMayMergeParameters | rr_frontend/translation/src/unification.rs:126-144 | two parameters may be bound to one, which does not unify back |
| Unification.Unifier.Types | rr_frontend/translation/src/unification.rs:70-147 | the recursion that threads a mutable map gives the verdict and the map of `UnifyTypes` |
| Unification.Unifier.Args | rr_frontend/translation/src/unification.rs:15-38 | one generic argument |
| Unification.Unifier.GenericArgs | rr_frontend/translation/src/unification.rs:40-54 | the loop over two argument lists, with its early returns |
| Unification.Unifier.TypePositions | rr_frontend/translation/src/unification.rs:149-175 | the loop over the type positions, ignoring the others |
| Search.ResolveBlanket | rr_frontend/translation/src/search.rs:86-134 | the loop with a fresh map per candidate gives the first impl whose trait arguments match those asked for, if there is one |
| Search.ResolveNonBlanket | rr_frontend/translation/src/search.rs:136-185 | the loop with one shared map, and a copy of it for the trait arguments, gives the first candidate that matches from what the attempts before it left behind |
| Search.TryResolveTraitImpl | rr_frontend/translation/src/search.rs:76-187 | which of the two answers is given, and none without a simplified type |
| Search.BlanketIsFirstUnifying | rr_frontend/translation/src/search.rs:91-134 | the blanket branch returns exactly the first candidate for which one assignment matches all type positions, and none iff there is none |
| Search.AcceptsIff | rr_frontend/translation/src/search.rs:156-176 | a candidate is accepted from a map exactly if one assignment that extends it matches both the self type and the trait arguments |
| Search.SharedIsFirstMatching | rr_frontend/translation/src/search.rs:136-185 | the non-blanket branch returns the first candidate that matches from the bindings left by the ones before it |
| Search.SharedResultUnifiesAlone | rr_frontend/translation/src/search.rs:136-185 | an impl returned with a shared map also unifies from no bindings |
| Search.SharingHidesCandidate | rr_frontend/translation/src/search.rs:136-185 | two impls of one trait of which the second is accepted alone but missed after the first: for every matchable type with a visible parameter, if the trait has a type parameter or the visible parameter is not at the last position |
| Search.SharingIsHarmlessIff | rr_frontend/translation/src/search.rs:136-185 | over all lists of impls of one trait, sharing the map never changes the answer exactly for types that can never be matched, that have no visible parameter, or, if the trait has no type parameter, whose first visible parameter is at the last position visited |
| Search.FailureKeepsMap | rr_frontend/translation/src/unification.rs:70-147 | a failing unification binds nothing if no visible parameter comes before the last position |
| RustCmpOrder.DefIdLessIff | rr_frontend/translation/src/rustcmp.rs:95-106 | a definition comes first whose path is a proper prefix of the other or smaller at the first byte that differs |
| RustCmpOrder.ExportPathIs | rr_frontend/translation/src/rustcmp.rs:98-99 | a definition that stands for an external one goes by the path of that one |
| RustCmpOrder.RegionLessIff | rr_frontend/translation/src/rustcmp.rs:8-54 | regions are ordered by kind as listed in the source, then by index, binder (the canonical one last) and variable |
| RustCmpOrder.TyLessIff | rr_frontend/translation/src/rustcmp.rs:61-188 | `Less` exactly for the type that comes first: kinds in the listed order, then components, a prefix of a tuple and immutable before mutable |
| RustCmpOrder.ArgRefsLessIff | rr_frontend/translation/src/rustcmp.rs:207-248 | `Less` exactly for the shorter list, or the one that comes first at the first position that differs |
| RustCmpOrder.TysLessIff | rr_frontend/translation/src/rustcmp.rs:190-205 | the same for lists of types |
| RustCmpOrder.TraitRefLessIff | rr_frontend/translation/src/rustcmp.rs:250-281 | `Less` exactly if the first is not the declared trait and the second is, or its path, or else its arguments, come first |
| RustCmpOrder.TyGreaterIff | rr_frontend/translation/src/rustcmp.rs:112-188 | as written, `Greater` exactly if there is no clash and the other type comes first |
| RustCmpOrder.ArgRefsGreaterIff | rr_frontend/translation/src/rustcmp.rs:207-248 | the same for argument lists |
| RustCmpOrder.TysGreaterIff | rr_frontend/translation/src/rustcmp.rs:190-205 | the same for lists of types |
| RustCmpOrder.TraitRefGreaterIff | rr_frontend/translation/src/rustcmp.rs:250-281 | as written, `Greater` exactly for the declared trait, or if there is no clash and the other comes first |
| RustCmpTheorems.BytesFlip | rr_frontend/translation/src/rustcmp.rs:95-106 | comparing path strings is antisymmetric and identifies equal strings |
| RustCmpTheorems.RegionOrder | rr_frontend/translation/src/rustcmp.rs:8-54 | `cmp_region` is a total order on what it can compare, and panics in both directions or none |
| RustCmpTheorems.TyFlip | rr_frontend/translation/src/rustcmp.rs:112-188 | with the missing arm, `cmp_ty` is antisymmetric, panics included |
| RustCmpTheorems.TyTransitive | rr_frontend/translation/src/rustcmp.rs:112-188 | with the missing arm, `cmp_ty` is transitive: from two verdicts that are neither `Greater` nor a panic the third follows, without a panic |
| RustCmpTheorems.ArgRefsFlip | rr_frontend/translation/src/rustcmp.rs:207-248 | with the missing arm, `cmp_arg_refs` is antisymmetric |
| RustCmpTheorems.ArgRefsTransitive | rr_frontend/translation/src/rustcmp.rs:207-248 | with the missing arm, `cmp_arg_refs` is transitive |
| RustCmpTheorems.FirstDifferenceDecides | rr_frontend/translation/src/rustcmp.rs:229-248 | on lists of one length the verdict is that of the first position that is not equal |
| RustCmpTheorems.TyEqualIffAgree | rr_frontend/translation/src/rustcmp.rs:112-188 | types compare as equal exactly if they are the same up to definitions with one path and no unimplemented arm is reached |
| RustCmpTheorems.EqualTysAreSame | rr_frontend/translation/src/rustcmp.rs:112-188 | where paths identify definitions, types compare as equal exactly if they are the same and supported |
| RustCmpTheorems.EqualArgsAreSame | rr_frontend/translation/src/rustcmp.rs:227-248 | the same for argument lists |
| RustCmpTheorems.TyAntisymmetricIff | rr_frontend/translation/src/rustcmp.rs:112-188 | `cmp_ty` as written is antisymmetric on a pair exactly if the pair has no clash |
| RustCmpTheorems.ArgRefsAntisymmetricIff | rr_frontend/translation/src/rustcmp.rs:207-248 | the same for `cmp_arg_refs` |
| RustCmpTheorems.TysAntisymmetricIff | rr_frontend/translation/src/rustcmp.rs:190-205 | the same for `cmp_tys` |
| RustCmpTheorems.TyReflexiveIff | rr_frontend/translation/src/rustcmp.rs:112-188 | comparing a type with itself is equality exactly if no unimplemented arm is reached, and panics otherwise |
| RustCmpTheorems.ArgRefsReflexiveIff | rr_frontend/translation/src/rustcmp.rs:227-248 | the same for argument lists |
| RustCmpTheorems.ArgRefsTransitiveIff | rr_frontend/translation/src/rustcmp.rs:207-248 | `cmp_arg_refs` as written is transitive on a set of lists exactly if no two of them clash |
| RustCmpTheorems.TyTransitiveIff | rr_frontend/translation/src/rustcmp.rs:112-188 | the same for `cmp_ty` on a set of types |
| RustCmpTheorems.TysTransitiveIff | rr_frontend/translation/src/rustcmp.rs:190-205 | the same for `cmp_tys` on a set of lists of types |
| RustCmpTheorems.ParameterAgainstBool | rr_frontend/translation/src/rustcmp.rs:212-218 | the missing arm makes both directions `Less`; adding it restores the order |
| RustCmpTheorems.TraitRefAntisymmetricIff | rr_frontend/translation/src/rustcmp.rs:250-281 | `cmp_trait_ref` is antisymmetric on a pair exactly if not both are the declared trait and the pair does not clash |
| RustCmpTheorems.TraitRefReflexiveIff | rr_frontend/translation/src/rustcmp.rs:250-281 | compared with itself, a reference to the declared trait is `Greater`; any other is equal exactly if its arguments are supported, and panics otherwise |
| RustCmpTheorems.TraitRefTransitiveIff | rr_frontend/translation/src/rustcmp.rs:250-281 | `cmp_trait_ref` as written is transitive on a set of trait references exactly if no two of them clash; references to the declared trait never do |
| RustCmpTheorems.TraitRefTransitive | rr_frontend/translation/src/rustcmp.rs:250-281 | with the missing arm, `cmp_trait_ref` is transitive, the declared trait last |
| RustCmp.CmpTys | rr_frontend/translation/src/rustcmp.rs:190-205 | the early-return loop compares lengths, then the first difference |
| RustCmp.CmpArgs | rr_frontend/translation/src/rustcmp.rs:227-248 | the early-return loop over generic arguments |
| DefinitionOrder.SortIsSorted | rr_frontend/translation/src/base.rs:69-75 | sorting by path hash orders a layer and repeats nothing |
| DefinitionOrder.TopologicalSort.PopAll | rr_frontend/translation/src/base.rs:97-97 | the contract of the sorting crate: all items without a remaining predecessor are taken out |
| DefinitionOrder.BuildSorter | rr_frontend/translation/src/base.rs:82-93 | the loops over the map enter all keys, all references, and their precedence |
| DefinitionOrder.LayerStep | rr_frontend/translation/src/base.rs:96-108 | each round takes out exactly the definitions of the next rank |
| DefinitionOrder.StuckMeansCycle | rr_frontend/translation/src/base.rs:101-105 | no source left means that there is a cycle |
| DefinitionOrder.OrderDefsWithDeps | rr_frontend/translation/src/base.rs:77-111 | panics iff the references have a cycle; otherwise lists each key once, sorted by the longest chain of references and then by hash |
| DefinitionOrder.DependenciesComeFirst | rr_frontend/translation/src/base.rs:77-111 | each key comes after all keys it refers to, directly or through others |
| DefinitionOrder.OrderIsDetermined | rr_frontend/translation/src/base.rs:69-75 | with distinct hashes there is only one such order |
| LibraryIncludes.LoadIncludes | rr_frontend/translation/src/lib.rs:2107-2125 | loads exactly the found libraries reachable from the includes, each once, through cycles and missing ones |
| LibraryIncludes.LoadExports | rr_frontend/translation/src/lib.rs:2127-2150 | re-exports the found exports and what they reach outside the included libraries, loading only what is new |
| LibraryIncludes.LoadLibraries | rr_frontend/translation/src/lib.rs:2107-2150 | both loops load exactly what is reachable from includes and exports, each once; they fail exactly if one of those fails to load |
| LibraryIncludes.LoadPath.ClosedContainsReach | rr_frontend/translation/src/lib.rs:2118-2124 | a set closed under including contains all that is reachable from its roots |
| LibraryIncludes.ReachOfBoth | rr_frontend/translation/src/lib.rs:2107-2150 | what both loops together cover |
| RawMemory.Heap.Realloc | stdlib/alloc/src/lib.rs:141-147 | allocates, copies what fits, frees: the old contents are a prefix, all other blocks are untouched |
| MiniVec.RawVec.constructor | case_studies/minivec/src/lib.rs:217-227 | nothing is allocated; a zero-sized type has the capacity `usize::MAX` |
| MiniVec.RawVec.Grow | case_studies/minivec/src/lib.rs:239-279 | panics exactly for zero-sized types and too large arrays, changing nothing; otherwise doubles the one block it owns, with the old slots first |
| MiniVec.Vec.constructor | case_studies/minivec/src/lib.rs:309-314 | a new vector represents the empty one |
| MiniVec.Vec.Push | case_studies/minivec/src/lib.rs:319-331 | appends the element, or panics and changes nothing |
| MiniVec.Vec.Pop | case_studies/minivec/src/lib.rs:337-344 | takes off the last element, if there is one |
| MiniVec.Vec.Insert | case_studies/minivec/src/lib.rs:354-372 | the overlapping move and the write insert the element at its index, or the call panics |
| MiniVec.Vec.Remove | case_studies/minivec/src/lib.rs:381-395 | the read and the overlapping move delete and return the element, or the call panics |
| MiniVec.Vec.Get | case_studies/minivec/src/lib.rs:440-450 | the element at the index, or nothing |
| MiniVec.Vec.GetMutAssign | case_studies/minivec/src/lib.rs:418-425 | writing through `get_mut` replaces the element at the index and no other, if the index is in range |
| MiniVec.StepElementwise | case_studies/minivec/src/lib.rs:319-425 | what push, pop, insert, remove and assignment do to each element, and exactly when they do nothing |
| MiniVec.StepCapacity | case_studies/minivec/src/lib.rs:239-279 | only a push or an insertion into a full vector changes the capacity: it doubles, and moves all elements |
| MiniVec.Vec.Execute | case_studies/minivec/src/lib.rs:282-451 | every run of operations on memory ends where the run on the abstract vector ends, with all other memory untouched |
| MiniVec.CopyOpensGap | case_studies/minivec/src/lib.rs:364-369 | moving up and writing is take, element, drop |
| MiniVec.CopyClosesGap | case_studies/minivec/src/lib.rs:386-392 | moving down is delete |
| MiniVec.RunInvariant | case_studies/minivec/src/lib.rs:239-279 | after any run: at most `isize::MAX` bytes, capacity 0 or a power of two, fewer elements moved in all than twice the greatest length; zero-sized types never grow |
| MiniVec.NoOverflow | case_studies/minivec/src/lib.rs:254-257 | doubling the capacity and counting one more element stay inside `usize` |
| MiniVec.PushSucceeds | case_studies/minivec/src/lib.rs:316-317 | the annotated preconditions of `push` rule out its panics |
| MiniVec.RemoveUndoesInsert | case_studies/minivec/src/lib.rs:354-395 | removing what was inserted gives back the elements |
| MachineIntegers.IntType.ForwardIsChecked | stdlib/iterator/src/step.rs:84-143 | for every width, also through wrapping: the sum if it is in range, otherwise nothing |
| MachineIntegers.IntType.BackwardIsChecked | stdlib/iterator/src/step.rs:93-165 | the same for the difference |
| MachineIntegers.IntType.StepsBetweenIsDistance | stdlib/iterator/src/step.rs:74-254 | the distance, also through wrapping; wide types saturate exactly if it exceeds `usize`, narrow ones never |
| MachineIntegers.IntType.StepsAreInverse | stdlib/iterator/src/step.rs:84-165 | forward and backward undo each other |
| MachineIntegers.IntType.StepsCompose | stdlib/iterator/src/step.rs:84-165 | stepping by a sum is stepping twice |
| MachineIntegers.IntType.DistanceIffReached | stdlib/iterator/src/step.rs:74-165 | the distance is n exactly if n steps forward lead there |
| MachineIntegers.SignedAbsDiffIsDistance | stdlib/num/src/lib.rs:41-59 | the wrapping difference of the casts is the distance, for every width |
| MachineIntegers.IsPowerOfTwoIffOneBit | stdlib/num/src/lib.rs:79-81 | one bit is set exactly in the powers of two |
| MachineIntegers.MaskIsRemainder | stdlib/ptr/src/lib.rs:478-484 | masking with a power of two minus one is the remainder |
| MachineIntegers.IsAlignedToIffDivides | stdlib/ptr/src/lib.rs:478-484 | panics exactly if the alignment is no power of two, and otherwise decides divisibility |
| Punctuated.Buffer.ExpectToken | rr_frontend/attribute_parse/src/parse.rs:110-124 | consumes one token of the kind, or consumes nothing and says what was expected, what was found and where |
| Punctuated.Sequence.Push | rr_frontend/attribute_parse/src/parse.rs:465-473 | appends an item, with a default separator before it if one is missing |
| Punctuated.Grammar.ParseTerminatedIffSplits | rr_frontend/attribute_parse/src/parse.rs:503-528 | what is read is the one decomposition of the tokens into items and separators |
| Punctuated.Grammar.ParseTerminatedFailsIff | rr_frontend/attribute_parse/src/parse.rs:503-528 | the error is the one of the first place where an item, or the separator after one, is missing |
| Punctuated.Grammar.ParseNonemptyFailsIff | rr_frontend/attribute_parse/src/parse.rs:560-582 | the error is the one of the first missing item |
| Punctuated.Grammar.FlattenGivesTokensBack | rr_frontend/attribute_parse/src/parse.rs:503-528 | flattening the result gives the tokens back |
| Punctuated.Grammar.ParseNonemptyIffSplits | rr_frontend/attribute_parse/src/parse.rs:560-582 | the same for the parser that wants at least one item and no trailing separator |
| Punctuated.ParseTerminatedWith | rr_frontend/attribute_parse/src/parse.rs:503-528 | succeeds iff the remaining tokens split, then consumes all of them; its assertions never fire, and it terminates even if items consume nothing |
| Punctuated.ParseSeparatedNonemptyWith | rr_frontend/attribute_parse/src/parse.rs:560-582 | reads up to the first item without a separator after it |
| Punctuated.PrivateIter.Next | rr_frontend/attribute_parse/src/parse.rs:736-742 | takes the first remaining item |
| Punctuated.PrivateIter.NextBack | rr_frontend/attribute_parse/src/parse.rs:744-748 | takes the last remaining item |
| Punctuated.PrivateIter.Len | rr_frontend/attribute_parse/src/parse.rs:750-754 | the exact number of remaining items |
| Punctuated.PrivateIter.Interleave | rr_frontend/attribute_parse/src/parse.rs:736-748 | any interleaving of both ends yields each item once, in order from the front and in reverse from the back |
| SeparationLogic.PureFormHasSameMeaning | rr_frontend/radium/src/coq/iris.rs:60-84 | the pure term means what the proposition means, for all valuations and resources of a model in which every resource splits |
| SeparationLogic.SepOfPure | rr_frontend/radium/src/coq/iris.rs:64-67 | separating pure propositions is conjoining them |
| SeparationLogic.PurifyPreservesMeaning | rr_frontend/radium/src/coq/iris.rs:86-89 | where every resource splits, `purify` preserves meaning; it is idempotent |
| SeparationLogic.PurifyPreservesMeaningIff | rr_frontend/radium/src/coq/iris.rs:86-89 | it preserves all meanings exactly in the models in which every resource splits and the text `True` is true |
| SeparationLogic.PurifiesIffPureShaped | rr_frontend/radium/src/coq/iris.rs:60-84 | it succeeds exactly on propositions without atoms, wands and existentials |
| Fulcrum.Total | case_studies/hillel/src/lib.rs:148-159 | the running total overflows exactly if the sum does not fit |
| Fulcrum.FindFulcrum | case_studies/hillel/src/lib.rs:147-187 | the least index that minimises the difference of both sums, agreeing with the quadratic definition; nothing over- or underflows once the total fits |

## Left out

- Names of type and region parameters: comparison and unification look at the index, which determines the name inside one definition.
- Constants are values compared as a whole, so parameters inside constants are not seen.
- `rustc` queries (normalisation, `simplify_type`, impl lists, path strings, path hashes, shims): they are parameters; the warnings about ambiguous impls are not printed.
- The domain `definitely_initialized`, with its places, expansion and collapse of fields: the solver is proved for every domain and `definitely_allocated` is the one instance. The per-block visit counters are kept but their `u32` overflow is not modelled.
- Coherence of impls: the lists of `SharingIsHarmlessIff` may hold impls that overlap, which the search of the source also provides for.
- Serialisation of `PointwiseState`: printing only.
- DefinitionOrder.TopologicalSort.PopAll: does not model the internals of the `topological_sort` crate, which is not part of this model; only its contract is.
- Bytes, alignment and provenance of memory: a slot holds one element. `Layout::array` also rounds up to the alignment, which changes nothing because the size of a type is a multiple of it. Allocation failure aborts and is not modelled.
- `Drop` of vectors and elements, and `get_mut` references that outlive the call: the model assigns through the reference at once.
- Item parsers with side effects: an item parser is a function of the position that never moves back or past the end, as the parsers built from `expect_*` are.
- The text that `IProp` and terms print as: the meaning follows the printed form, including empty connectives that print as `True`; precedence of printed wands and quantifiers is not modelled.
- Not modelled: the helpers that pad vectors (`left_pad`, `right_pad`), collect distinct elements (`unique`, `insert_unique`), order definitions by path hash, crate and index (`OrderedDefId::cmp`), and take symbols out of identifiers (`strip_coq_ident`).
- Rocq code generation, file output, configuration, logging and the compiler drivers: plumbing without an algorithm.
