/** Resolution of a trait to an impl for a type, by unifying with one candidate after the other. */
module Search {
  import opened Wrappers
  import opened RustTypes
  import opened Unification
  import opened UnificationTheorems

  /** An impl of the trait: its normalised self type and its trait arguments after `Self`. */
  datatype Candidate = Candidate(did: DefId, selfTy: Ty, traitArgs: seq<GenericArg>)

  /** The trait arguments asked for; `None` at positions that are no types. */
  type TraitArgs = seq<Option<GenericArg>>

  predicate BlanketAccepts(c: Candidate, traitArgs: TraitArgs) {
    ArgsUnifyTypes(c.traitArgs, traitArgs, map[]).0
  }

  /** Acceptance of a non-blanket impl, starting from the bindings `m` that earlier candidates left. */
  predicate Accepts(c: Candidate, traitArgs: TraitArgs, forType: Ty, m: UnificationMap) {
    var (ok, m') := UnifyTypes(forType, c.selfTy, m);
    ok && ArgsUnifyTypes(c.traitArgs, traitArgs, m').0
  }

  function FirstBlanket(impls: seq<Candidate>, traitArgs: TraitArgs): Option<DefId> {
    if impls == [] then None
    else if BlanketAccepts(impls[0], traitArgs) then Some(impls[0].did)
    else FirstBlanket(impls[1..], traitArgs)
  }

  /** The first impl accepted when all candidates share one map of bindings. */
  function FirstShared(impls: seq<Candidate>, traitArgs: TraitArgs, forType: Ty, m: UnificationMap): Option<DefId> {
    if impls == [] then None
    else if Accepts(impls[0], traitArgs, forType, m) then Some(impls[0].did)
    else FirstShared(impls[1..], traitArgs, forType, UnifyTypes(forType, impls[0].selfTy, m).1)
  }

  /** The first impl accepted when every candidate starts from no bindings. */
  function FirstFresh(impls: seq<Candidate>, traitArgs: TraitArgs, forType: Ty): Option<DefId> {
    if impls == [] then None
    else if Accepts(impls[0], traitArgs, forType, map[]) then Some(impls[0].did)
    else FirstFresh(impls[1..], traitArgs, forType)
  }

  // ----- what acceptance means -----

  /** One assignment of parameters matches the trait arguments of the impl to those asked for. */
  ghost predicate BlanketMatches(c: Candidate, traitArgs: TraitArgs) {
    exists n :: ArgsMatch(n, c.traitArgs, traitArgs)
  }

  /** One assignment that agrees with `m` matches the self type as well as the trait arguments. */
  ghost predicate MatchesFrom(c: Candidate, traitArgs: TraitArgs, forType: Ty, m: UnificationMap) {
    exists n :: Extends(m, n) && Matches(n, forType, c.selfTy) && ArgsMatch(n, c.traitArgs, traitArgs)
  }

  lemma BlanketAcceptsIff(c: Candidate, traitArgs: TraitArgs)
    ensures BlanketAccepts(c, traitArgs) <==> BlanketMatches(c, traitArgs)
  {
    ArgsUnifyIsLeastMatch(c.traitArgs, traitArgs, map[]);
    if n :| ArgsMatch(n, c.traitArgs, traitArgs) { assert Extends(map[], n); }
  }

  /** The trait arguments are unified from the bindings of the self type, so one assignment has to do for both. */
  lemma AcceptsIff(c: Candidate, traitArgs: TraitArgs, forType: Ty, m: UnificationMap)
    ensures Accepts(c, traitArgs, forType, m) <==> MatchesFrom(c, traitArgs, forType, m)
  {
    var (ok, m') := UnifyTypes(forType, c.selfTy, m);
    UnifySound(forType, c.selfTy, m);
    ArgsUnifySound(c.traitArgs, traitArgs, m');
    if Accepts(c, traitArgs, forType, m) {
      var n := ArgsUnifyTypes(c.traitArgs, traitArgs, m').1;
      MatchesMonotone(m', n, forType, c.selfTy);
      assert Extends(m, n);
    }
    forall n | Extends(m, n) && Matches(n, forType, c.selfTy) && ArgsMatch(n, c.traitArgs, traitArgs)
      ensures Accepts(c, traitArgs, forType, m)
    {
      UnifyComplete(forType, c.selfTy, m, n);
      ArgsUnifyComplete(c.traitArgs, traitArgs, m', n);
    }
  }

  /** `d` is the candidate at some index, accepted by `ok`, with no accepted candidate before it. */
  ghost predicate IsFirst(impls: seq<Candidate>, ok: Candidate -> bool, d: DefId) {
    exists k :: 0 <= k < |impls| && impls[k].did == d && ok(impls[k]) && forall j :: 0 <= j < k ==> !ok(impls[j])
  }

  /** The first candidate that `ok` accepts, or none if it accepts none. */
  ghost predicate IsAnswer(impls: seq<Candidate>, ok: Candidate -> bool, solution: Option<DefId>) {
    match solution
    case Some(d) => IsFirst(impls, ok, d)
    case None => forall c :: c in impls ==> !ok(c)
  }

  lemma {:induction false} IsFirstStep(impls: seq<Candidate>, ok: Candidate -> bool, d: DefId)
    requires impls != []
    ensures IsFirst(impls, ok, d) <==> if ok(impls[0]) then impls[0].did == d else IsFirst(impls[1..], ok, d)
  {
    if !ok(impls[0]) {
      if IsFirst(impls[1..], ok, d) {
        var k :| 0 <= k < |impls[1..]| && impls[1..][k].did == d && ok(impls[1..][k]) &&
                 forall j :: 0 <= j < k ==> !ok(impls[1..][j]);
        assert impls[k + 1] == impls[1..][k];
        forall j | 0 <= j < k + 1 ensures !ok(impls[j]) {
          if j > 0 { assert impls[j] == impls[1..][j - 1]; }
        }
      }
      if IsFirst(impls, ok, d) {
        var k :| 0 <= k < |impls| && impls[k].did == d && ok(impls[k]) && forall j :: 0 <= j < k ==> !ok(impls[j]);
        assert impls[1..][k - 1] == impls[k];
        forall j | 0 <= j < k - 1 ensures !ok(impls[1..][j]) { assert impls[1..][j] == impls[j + 1]; }
      }
    }
  }

  /** The blanket branch gives the first impl that matches the trait arguments, and none only if none does. */
  lemma {:induction false} BlanketIsFirstUnifying(impls: seq<Candidate>, traitArgs: TraitArgs)
    ensures forall d: DefId :: FirstBlanket(impls, traitArgs) == Some(d) <==>
                                 IsFirst(impls, c => BlanketMatches(c, traitArgs), d)
    ensures FirstBlanket(impls, traitArgs) == None <==> forall c :: c in impls ==> !BlanketMatches(c, traitArgs)
  {
    if impls != [] {
      var ok := c => BlanketMatches(c, traitArgs);
      BlanketIsFirstUnifying(impls[1..], traitArgs);
      BlanketAcceptsIff(impls[0], traitArgs);
      forall d: DefId ensures FirstBlanket(impls, traitArgs) == Some(d) <==> IsFirst(impls, ok, d) {
        IsFirstStep(impls, ok, d);
      }
      assert impls == [impls[0]] + impls[1..];
    }
  }

  /** The bindings that the attempts on the self types of `impls` leave behind, each starting from those of
      the attempt before it. */
  function LeftOver(impls: seq<Candidate>, forType: Ty, m: UnificationMap): UnificationMap {
    if impls == [] then m else LeftOver(impls[1..], forType, UnifyTypes(forType, impls[0].selfTy, m).1)
  }

  /** Candidate `k` matches after what the ones before it have left behind. */
  ghost predicate MatchesAfter(impls: seq<Candidate>, k: nat, traitArgs: TraitArgs, forType: Ty, m: UnificationMap) {
    k < |impls| && MatchesFrom(impls[k], traitArgs, forType, LeftOver(impls[..k], forType, m))
  }

  /** The candidate at the first index that `hit` accepts, or none if there is none. */
  ghost predicate IsFirstHit(impls: seq<Candidate>, hit: nat -> bool, solution: Option<DefId>) {
    match solution
    case Some(d) => exists k: nat :: k < |impls| && impls[k].did == d && hit(k) && forall j: nat :: j < k ==> !hit(j)
    case None => forall k: nat :: k < |impls| ==> !hit(k)
  }

  lemma NoHitStep(impls: seq<Candidate>, hit: nat -> bool, later: nat -> bool)
    requires impls != [] && !hit(0) && forall j: nat :: later(j) == hit(j + 1)
    requires IsFirstHit(impls[1..], later, None)
    ensures IsFirstHit(impls, hit, None)
  {
    forall k: nat | k < |impls| ensures !hit(k) {
      if k > 0 { assert !later(k - 1); }
    }
  }

  lemma LaterHitStep(impls: seq<Candidate>, hit: nat -> bool, later: nat -> bool, d: DefId)
    requires impls != [] && !hit(0) && forall j: nat :: later(j) == hit(j + 1)
    requires IsFirstHit(impls[1..], later, Some(d))
    ensures IsFirstHit(impls, hit, Some(d))
  {
    var k: nat :| k < |impls[1..]| && impls[1..][k].did == d && later(k) && forall j: nat :: j < k ==> !later(j);
    forall j: nat | j < k + 1 ensures !hit(j) {
      if j > 0 { assert !later(j - 1); }
    }
    assert impls[k + 1] == impls[1..][k] && hit(k + 1);
  }

  /** The first candidate that matches after what the ones before it have left behind. */
  ghost predicate IsSharedAnswer(impls: seq<Candidate>, traitArgs: TraitArgs, forType: Ty, m: UnificationMap,
                                 solution: Option<DefId>) {
    IsFirstHit(impls, (k: nat) => MatchesAfter(impls, k, traitArgs, forType, m), solution)
  }

  lemma MatchesAfterStep(impls: seq<Candidate>, k: nat, traitArgs: TraitArgs, forType: Ty, m: UnificationMap)
    requires impls != []
    ensures MatchesAfter(impls, k + 1, traitArgs, forType, m) ==
            MatchesAfter(impls[1..], k, traitArgs, forType, UnifyTypes(forType, impls[0].selfTy, m).1)
  {
    if k < |impls[1..]| { assert impls[..k + 1][1..] == impls[1..][..k]; }
  }

  /** The non-blanket branch gives the first candidate that matches from the bindings left by the others. */
  lemma {:induction false} SharedIsFirstMatching(impls: seq<Candidate>, traitArgs: TraitArgs, forType: Ty, m: UnificationMap)
    ensures IsSharedAnswer(impls, traitArgs, forType, m, FirstShared(impls, traitArgs, forType, m))
  {
    if impls != [] {
      var m' := UnifyTypes(forType, impls[0].selfTy, m).1;
      AcceptsIff(impls[0], traitArgs, forType, m);
      SharedIsFirstMatching(impls[1..], traitArgs, forType, m');
      var hit := (k: nat) => MatchesAfter(impls, k, traitArgs, forType, m);
      var later := (k: nat) => MatchesAfter(impls[1..], k, traitArgs, forType, m');
      forall j: nat ensures later(j) == hit(j + 1) {
        MatchesAfterStep(impls, j, traitArgs, forType, m);
      }
      if !hit(0) {
        match FirstShared(impls[1..], traitArgs, forType, m')
        case None => NoHitStep(impls, hit, later);
        case Some(d) => LaterHitStep(impls, hit, later, d);
      }
    }
  }

  // ----- the two loops -----

  method ResolveBlanket(impls: seq<Candidate>, traitArgs: TraitArgs) returns (solution: Option<DefId>)
    ensures solution == FirstBlanket(impls, traitArgs)
    ensures IsAnswer(impls, c => BlanketMatches(c, traitArgs), solution)
  {
    BlanketIsFirstUnifying(impls, traitArgs);
    solution := None;
    for i := 0 to |impls|
      invariant FirstBlanket(impls, traitArgs) == if solution.Some? then solution else FirstBlanket(impls[i..], traitArgs)
    {
      assert impls[i..][0] == impls[i] && impls[i..][1..] == impls[i + 1..];
      var unifier := new Unifier(map[]);
      var ok := unifier.TypePositions(impls[i].traitArgs, traitArgs);
      if !ok { continue; }
      if solution.None? {
        solution := Some(impls[i].did);
      }
    }
  }

  method ResolveNonBlanket(impls: seq<Candidate>, traitArgs: TraitArgs, forType: Ty) returns (solution: Option<DefId>)
    ensures solution == FirstShared(impls, traitArgs, forType, map[])
    ensures IsSharedAnswer(impls, traitArgs, forType, map[], solution)
  {
    SharedIsFirstMatching(impls, traitArgs, forType, map[]);
    var unifier := new Unifier(map[]);
    solution := None;
    for i := 0 to |impls|
      invariant FirstShared(impls, traitArgs, forType, map[]) ==
                if solution.Some? then solution else FirstShared(impls[i..], traitArgs, forType, unifier.mapping)
    {
      assert impls[i..][0] == impls[i] && impls[i..][1..] == impls[i + 1..];
      var sameSelf := unifier.Types(forType, impls[i].selfTy);
      if sameSelf {
        var forArgs := new Unifier(unifier.mapping);
        var ok := forArgs.TypePositions(impls[i].traitArgs, traitArgs);
        if !ok { continue; }
        if solution.None? {
          solution := Some(impls[i].did);
        }
      }
    }
  }

  /** `nonBlanket` are the impls filed under the simplified form of `forType`, if it has one. */
  method TryResolveTraitImpl(blanket: seq<Candidate>, nonBlanket: Option<seq<Candidate>>, traitArgs: TraitArgs, forType: Ty)
    returns (solution: Option<DefId>)
    ensures solution == if forType.Param? then FirstBlanket(blanket, traitArgs)
                        else if nonBlanket.Some? then FirstShared(nonBlanket.value, traitArgs, forType, map[]) else None
    ensures forType.Param? ==> IsAnswer(blanket, c => BlanketMatches(c, traitArgs), solution)
    ensures !forType.Param? && nonBlanket.Some? ==> IsSharedAnswer(nonBlanket.value, traitArgs, forType, map[], solution)
  {
    if forType.Param? {
      solution := ResolveBlanket(blanket, traitArgs);
    } else {
      if nonBlanket.None? { return None; }
      solution := ResolveNonBlanket(nonBlanket.value, traitArgs, forType);
    }
  }

  // ----- the shared map of the non-blanket branch -----

  lemma AcceptsFromFewerBindings(c: Candidate, traitArgs: TraitArgs, forType: Ty, m: UnificationMap)
    requires Accepts(c, traitArgs, forType, m)
    ensures Accepts(c, traitArgs, forType, map[])
  {
    UnifyAntimonotone(forType, c.selfTy, map[], m);
    ArgsUnifyAntimonotone(c.traitArgs, traitArgs, UnifyTypes(forType, c.selfTy, map[]).1, UnifyTypes(forType, c.selfTy, m).1);
  }

  /** Whatever bindings earlier candidates left behind, an impl that is returned would also have been
      accepted on its own. */
  lemma {:induction false} SharedResultUnifiesAlone(impls: seq<Candidate>, traitArgs: TraitArgs, forType: Ty,
                                                    m: UnificationMap)
    requires FirstShared(impls, traitArgs, forType, m).Some?
    ensures exists c :: && c in impls && c.did == FirstShared(impls, traitArgs, forType, m).value
                        && Accepts(c, traitArgs, forType, map[])
  {
    if Accepts(impls[0], traitArgs, forType, m) {
      AcceptsFromFewerBindings(impls[0], traitArgs, forType, m);
    } else {
      SharedResultUnifiesAlone(impls[1..], traitArgs, forType, UnifyTypes(forType, impls[0].selfTy, m).1);
    }
  }

  // ----- when sharing is harmless -----

  datatype ArgKind = TypeKind | LifetimeKind | ConstKind

  function KindOf(arg: GenericArg): ArgKind {
    match arg
    case TypeArg(_) => TypeKind
    case LifetimeArg(_) => LifetimeKind
    case ConstArg(_) => ConstKind
  }

  /** One argument of the right kind for each parameter of the trait after `Self`. */
  predicate Conforms(args: seq<GenericArg>, kinds: seq<ArgKind>) {
    |args| == |kinds| && forall i :: 0 <= i < |kinds| ==> KindOf(args[i]) == kinds[i]
  }

  /** A type is asked for at each position of a type; elsewhere there may be nothing. */
  predicate Asks(traitArgs: TraitArgs, kinds: seq<ArgKind>) {
    && |traitArgs| == |kinds|
    && forall i :: 0 <= i < |kinds| ==>
         if traitArgs[i].Some? then KindOf(traitArgs[i].value) == kinds[i] else kinds[i] != TypeKind
  }

  /** Impls are filed under their simplified self type, which keeps the head of these types. */
  predicate SameHead(forType: Ty, selfTy: Ty) {
    match forType
    case Adt(did, _) => selfTy.Adt? && selfTy.did == did
    case Ref(_, _, mutbl) => selfTy.Ref? && selfTy.mutbl == mutbl
    case RawPtr(_, mutbl) => selfTy.RawPtr? && selfTy.mutbl == mutbl
    case _ => true
  }

  /** Impls of one trait, whose parameters have the given kinds, that are filed under `forType`. */
  predicate ImplsFor(impls: seq<Candidate>, kinds: seq<ArgKind>, forType: Ty) {
    forall c :: c in impls ==> Conforms(c.traitArgs, kinds) && SameHead(forType, c.selfTy)
  }

  /** For `forType`, sharing the map never changes the answer, whatever impls of such a trait there are
      and whatever trait arguments are asked for. */
  ghost predicate SharingIsHarmless(forType: Ty, kinds: seq<ArgKind>) {
    forall impls, traitArgs | ImplsFor(impls, kinds, forType) && Asks(traitArgs, kinds) ::
      FirstShared(impls, traitArgs, forType, map[]) == FirstFresh(impls, traitArgs, forType)
  }

  lemma {:induction false} UnmatchableIsNeverAccepted(impls: seq<Candidate>, traitArgs: TraitArgs, forType: Ty,
                                                      m: UnificationMap)
    requires !Matchable(forType) && IsRenaming(m)
    ensures FirstShared(impls, traitArgs, forType, m) == FirstFresh(impls, traitArgs, forType)
  {
    if impls != [] {
      var u := impls[0].selfTy;
      if UnifyTypes(forType, u, m).0 { UnifyBindsVisible(forType, u, m); }
      if UnifyTypes(forType, u, map[]).0 { UnifyBindsVisible(forType, u, map[]); }
      UnifyKeepsRenaming(forType, u, m);
      UnmatchableIsNeverAccepted(impls[1..], traitArgs, forType, UnifyTypes(forType, u, m).1);
    }
  }

  lemma {:induction false} ClosedTypesBindNothing(impls: seq<Candidate>, traitArgs: TraitArgs, forType: Ty)
    requires Visible(forType) == {}
    ensures FirstShared(impls, traitArgs, forType, map[]) == FirstFresh(impls, traitArgs, forType)
  {
    if impls != [] {
      UnifyKeepsRenaming(forType, impls[0].selfTy, map[]);
      assert UnifyTypes(forType, impls[0].selfTy, map[]).1 == map[];
      ClosedTypesBindNothing(impls[1..], traitArgs, forType);
    }
  }

  /** The visible parameters that occur before the last position that unification visits. */
  function VisibleBeforeLast(ty: Ty): set<nat>
    decreases ty, 1
  {
    match ty
    case Adt(_, args) => VisibleBeforeLastArg(args)
    case Ref(_, elem, _) => VisibleBeforeLast(elem)
    case RawPtr(elem, _) => VisibleBeforeLast(elem)
    case _ => {}
  }

  function VisibleBeforeLastArg(args: seq<GenericArg>): set<nat>
    decreases args, 0
  {
    if args == [] then {} else
      assert args decreases to args[0];
      if |args| == 1 then (if args[0].TypeArg? then VisibleBeforeLast(args[0].ty) else {})
      else (if args[0].TypeArg? then Visible(args[0].ty) else {}) + VisibleBeforeLastArg(args[1..])
  }

  lemma ClosedTypeKeepsMap(ty1: Ty, ty2: Ty, m: UnificationMap)
    requires IsRenaming(m) && Visible(ty1) == {}
    ensures UnifyTypes(ty1, ty2, m).1 == m
  {
    UnifySound(ty1, ty2, m);
    UnifyKeepsRenaming(ty1, ty2, m);
  }

  /** If no parameter comes before the last position, a failing unification binds nothing. */
  lemma {:induction false} FailureKeepsMap(ty1: Ty, ty2: Ty, m: UnificationMap)
    requires IsRenaming(m) && VisibleBeforeLast(ty1) == {} && !UnifyTypes(ty1, ty2, m).0
    ensures UnifyTypes(ty1, ty2, m).1 == m
    decreases ty1, 1
  {
    match ty1
    case Adt(_, args) => if ty2.Adt? && ty1.did == ty2.did { ListFailureKeepsMap(args, ty2.args, m); }
    case Ref(r, elem, mutbl) =>
      if ty2.Ref? && mutbl == ty2.mutbl && UnifyRegions(r, ty2.region) { FailureKeepsMap(elem, ty2.elem, m); }
    case RawPtr(elem, mutbl) => if ty2.RawPtr? && mutbl == ty2.mutbl { FailureKeepsMap(elem, ty2.elem, m); }
    case _ =>
  }

  lemma {:induction false} ListFailureKeepsMap(args1: seq<GenericArg>, args2: seq<GenericArg>, m: UnificationMap)
    requires IsRenaming(m) && VisibleBeforeLastArg(args1) == {} && !UnifyGenericArgs(args1, args2, m).0
    ensures UnifyGenericArgs(args1, args2, m).1 == m
    decreases args1, 0
  {
    if |args1| == |args2| && args1 != [] {
      assert args1 decreases to args1[0];
      var ok := UnifyArgs(args1[0], args2[0], m).0;
      if args1[0].TypeArg? && args2[0].TypeArg? {
        if |args1| > 1 {
          ClosedTypeKeepsMap(args1[0].ty, args2[0].ty, m);
        } else if !ok {
          FailureKeepsMap(args1[0].ty, args2[0].ty, m);
        }
      }
      if ok && |args1| > 1 { ListFailureKeepsMap(args1[1..], args2[1..], m); }
    }
  }

  lemma {:induction false} ArgsWithoutTypesUnify(reference: seq<GenericArg>, compare: TraitArgs, m: UnificationMap)
    requires |reference| == |compare| && forall arg :: arg in reference ==> !arg.TypeArg?
    ensures ArgsUnifyTypes(reference, compare, m).0
  {
    if reference != [] { ArgsWithoutTypesUnify(reference[1..], compare[1..], m); }
  }

  /** Every candidate is then accepted or leaves the map empty. */
  lemma {:induction false} FailuresBindNothing(impls: seq<Candidate>, kinds: seq<ArgKind>, traitArgs: TraitArgs, forType: Ty)
    requires VisibleBeforeLast(forType) == {} && TypeKind !in kinds
    requires ImplsFor(impls, kinds, forType) && Asks(traitArgs, kinds)
    ensures FirstShared(impls, traitArgs, forType, map[]) == FirstFresh(impls, traitArgs, forType)
  {
    if impls != [] {
      var c := impls[0];
      forall arg | arg in c.traitArgs ensures !arg.TypeArg? {
        var i :| 0 <= i < |c.traitArgs| && c.traitArgs[i] == arg;
        assert kinds[i] in kinds;
      }
      if UnifyTypes(forType, c.selfTy, map[]).0 {
        ArgsWithoutTypesUnify(c.traitArgs, traitArgs, UnifyTypes(forType, c.selfTy, map[]).1);
      } else {
        FailureKeepsMap(forType, c.selfTy, map[]);
        FailuresBindNothing(impls[1..], kinds, traitArgs, forType);
      }
    }
  }

  // ----- when it is not -----

  /** `forType` renamed by `n`, except that the last position that unification visits does not unify. */
  function Spoil(n: UnificationMap, ty: Ty): Ty
    decreases ty, 1
  {
    match ty
    case Adt(did, args) => if args == [] then Param(0) else Adt(did, SpoilLast(n, args))
    case Ref(r, elem, mutbl) => Ref(r, Spoil(n, elem), mutbl)
    case RawPtr(elem, mutbl) => RawPtr(Spoil(n, elem), mutbl)
    case Param(_) => Scalar(Bool)
    case _ => Param(0)
  }

  function SpoilLast(n: UnificationMap, args: seq<GenericArg>): (r: seq<GenericArg>)
    requires args != []
    ensures |r| == |args|
    decreases args, 0
  {
    assert args decreases to args[0];
    if |args| == 1 then [if args[0].TypeArg? then TypeArg(Spoil(n, args[0].ty)) else LifetimeArg(ReStatic)]
    else [if args[0].TypeArg? then TypeArg(Apply(n, args[0].ty)) else args[0]] + SpoilLast(n, args[1..])
  }

  /** Applying `n` to a type makes it unify from any map inside `n`, and binds its parameters. */
  lemma AppliedTypeUnifies(ty: Ty, n: UnificationMap, m: UnificationMap)
    requires IsRenaming(n) && Matchable(ty) && Visible(ty) <= n.Keys && Extends(m, n)
    ensures var (ok, m') := UnifyTypes(ty, Apply(n, ty), m); ok && Extends(m', n) && m'.Keys == m.Keys + Visible(ty)
  {
    MatchesIffApply(n, ty, Apply(n, ty));
    UnifyComplete(ty, Apply(n, ty), m, n);
    UnifyBindsVisible(ty, Apply(n, ty), m);
  }

  lemma {:induction false} SpoiltTypeBinds(ty: Ty, n: UnificationMap, m: UnificationMap)
    requires IsRenaming(n) && Matchable(ty) && Visible(ty) <= n.Keys && Extends(m, n)
    ensures var (ok, m') := UnifyTypes(ty, Spoil(n, ty), m); !ok && Extends(m', n) && VisibleBeforeLast(ty) <= m'.Keys
    decreases ty, 1
  {
    match ty
    case Adt(_, args) => if args != [] { SpoiltArgsBind(args, n, m); }
    case Ref(_, elem, _) => SpoiltTypeBinds(elem, n, m);
    case RawPtr(elem, _) => SpoiltTypeBinds(elem, n, m);
    case _ =>
  }

  lemma {:induction false} SpoiltArgsBind(args: seq<GenericArg>, n: UnificationMap, m: UnificationMap)
    requires args != [] && IsRenaming(n) && MatchableList(args) && VisibleList(args) <= n.Keys && Extends(m, n)
    ensures var (ok, m') := UnifyGenericArgs(args, SpoilLast(n, args), m);
            !ok && Extends(m', n) && VisibleBeforeLastArg(args) <= m'.Keys
    decreases args, 0
  {
    assert args decreases to args[0];
    var spoilt := SpoilLast(n, args);
    if |args| == 1 {
      if args[0].TypeArg? { SpoiltTypeBinds(args[0].ty, n, m); }
    } else {
      if args[0].TypeArg? { AppliedTypeUnifies(args[0].ty, n, m); }
      var m' := UnifyArgs(args[0], spoilt[0], m).1;
      assert spoilt[1..] == SpoilLast(n, args[1..]);
      SpoiltArgsBind(args[1..], n, m');
      UnifyListSound(args[1..], spoilt[1..], m');
    }
  }

  /** A binding left behind that contradicts the next candidate makes the shared map reject it. */
  lemma ConflictingBindingRejects(forType: Ty, n1: UnificationMap, n2: UnificationMap, m: UnificationMap, i: nat)
    requires IsRenaming(n1) && IsRenaming(n2) && Extends(m, n1)
    requires i in m && i in Visible(forType) && Image(n1, i) != Image(n2, i)
    ensures !UnifyTypes(forType, Apply(n2, forType), m).0
  {
    if UnifyTypes(forType, Apply(n2, forType), m).0 {
      UnifyBindsVisible(forType, Apply(n2, forType), m);
      ApplyDetermines(UnifyTypes(forType, Apply(n2, forType), m).1, n2, forType);
    }
  }

  /** Trait arguments of the given kinds, with one type at all positions of types. */
  function SampleArgs(kinds: seq<ArgKind>, ty: Ty): seq<GenericArg> {
    seq(|kinds|, i requires 0 <= i < |kinds| =>
      match kinds[i]
      case TypeKind => TypeArg(ty)
      case LifetimeKind => LifetimeArg(ReStatic)
      case ConstKind => ConstArg(0))
  }

  function SampleQuestion(kinds: seq<ArgKind>, ty: Ty): TraitArgs {
    seq(|kinds|, i requires 0 <= i < |kinds| => if kinds[i] == TypeKind then Some(TypeArg(ty)) else None)
  }

  lemma SampleTails(kinds: seq<ArgKind>, s: Ty, t: Ty)
    requires kinds != []
    ensures SampleArgs(kinds, s)[1..] == SampleArgs(kinds[1..], s)
    ensures SampleQuestion(kinds, t)[1..] == SampleQuestion(kinds[1..], t)
  {
    forall i | 0 <= i < |kinds| - 1
      ensures SampleArgs(kinds, s)[1..][i] == SampleArgs(kinds[1..], s)[i]
      ensures SampleQuestion(kinds, t)[1..][i] == SampleQuestion(kinds[1..], t)[i]
    {
      assert kinds[1..][i] == kinds[i + 1];
    }
  }

  lemma {:induction false} SampleArgsUnify(kinds: seq<ArgKind>, s: Scalar, t: Scalar, m: UnificationMap)
    ensures ArgsUnifyTypes(SampleArgs(kinds, Scalar(s)), SampleQuestion(kinds, Scalar(t)), m).0 <==> TypeKind !in kinds || s == t
  {
    if kinds != [] {
      SampleArgsUnify(kinds[1..], s, t, m);
      SampleTails(kinds, Scalar(s), Scalar(t));
      assert kinds == [kinds[0]] + kinds[1..];
    }
  }

  lemma RejectedThenHidden(c1: Candidate, c2: Candidate, traitArgs: TraitArgs, forType: Ty)
    requires !Accepts(c1, traitArgs, forType, map[]) && Accepts(c2, traitArgs, forType, map[])
    requires !Accepts(c2, traitArgs, forType, UnifyTypes(forType, c1.selfTy, map[]).1)
    ensures FirstFresh([c1, c2], traitArgs, forType) == Some(c2.did) && FirstShared([c1, c2], traitArgs, forType, map[]) == None
  {
    assert [c1, c2][1..] == [c2] && [c2][1..] == [];
    assert FirstFresh([c2], traitArgs, forType) == Some(c2.did);
    assert FirstShared([c2], traitArgs, forType, UnifyTypes(forType, c1.selfTy, map[]).1) == None;
  }

  /** A self type that binds a parameter of `forType`: it unifies, or fails at the last position only. */
  function FirstSelfTy(forType: Ty, unifies: bool): Ty {
    var n := Shift(Visible(forType), 1);
    if unifies then Apply(n, forType) else Spoil(n, forType)
  }

  function SecondSelfTy(forType: Ty): Ty {
    Apply(Shift(Visible(forType), 2), forType)
  }

  lemma SecondIsHidden(forType: Ty, unifies: bool)
    requires Matchable(forType) && Visible(forType) != {} && (unifies || VisibleBeforeLast(forType) != {})
    ensures UnifyTypes(forType, FirstSelfTy(forType, unifies), map[]).0 == unifies
    ensures UnifyTypes(forType, SecondSelfTy(forType), map[]).0
    ensures !UnifyTypes(forType, SecondSelfTy(forType), UnifyTypes(forType, FirstSelfTy(forType, unifies), map[]).1).0
  {
    var ps, u := Visible(forType), FirstSelfTy(forType, unifies);
    var n1, n2 := Shift(ps, 1), Shift(ps, 2);
    if unifies { AppliedTypeUnifies(forType, n1, map[]); } else { SpoiltTypeBinds(forType, n1, map[]); }
    UnifyKeepsRenaming(forType, u, map[]);
    var m := UnifyTypes(forType, u, map[]).1;
    var i :| i in m && i in ps;
    ConflictingBindingRejects(forType, n1, n2, m, i);
    AppliedTypeUnifies(forType, n2, map[]);
  }

  lemma HeadsAreKept(forType: Ty, unifies: bool)
    requires Visible(forType) != {}
    ensures SameHead(forType, FirstSelfTy(forType, unifies)) && SameHead(forType, SecondSelfTy(forType))
  {
  }

  /** The second of these candidates is accepted on its own, but not after the first one. The first is
      refused for its trait arguments where the trait has a type parameter, and otherwise for the last
      position of its self type. */
  lemma SharingHidesCandidate(forType: Ty, kinds: seq<ArgKind>) returns (impls: seq<Candidate>, traitArgs: TraitArgs)
    requires Matchable(forType) && Visible(forType) != {}
    requires TypeKind in kinds || VisibleBeforeLast(forType) != {}
    ensures ImplsFor(impls, kinds, forType) && Asks(traitArgs, kinds)
    ensures FirstFresh(impls, traitArgs, forType) == Some(1) && FirstShared(impls, traitArgs, forType, map[]) == None
  {
    var unifies := TypeKind in kinds;
    var c1 := Candidate(0, FirstSelfTy(forType, unifies), SampleArgs(kinds, Scalar(Bool)));
    var c2 := Candidate(1, SecondSelfTy(forType), SampleArgs(kinds, Scalar(Char)));
    impls, traitArgs := [c1, c2], SampleQuestion(kinds, Scalar(Char));
    HeadsAreKept(forType, unifies);
    SecondIsHidden(forType, unifies);
    SampleArgsUnify(kinds, Bool, Char, UnifyTypes(forType, c1.selfTy, map[]).1);
    SampleArgsUnify(kinds, Char, Char, UnifyTypes(forType, c2.selfTy, map[]).1);
    RejectedThenHidden(c1, c2, traitArgs, forType);
  }

  /** Sharing one map across the candidates is harmless exactly for types that can never be matched, for
      types without a parameter that a candidate could bind, and, if the trait has no type parameter
      after `Self`, for types whose first such parameter is at the last position. */
  lemma SharingIsHarmlessIff(forType: Ty, kinds: seq<ArgKind>)
    ensures SharingIsHarmless(forType, kinds) <==>
              || !Matchable(forType)
              || Visible(forType) == {}
              || (TypeKind !in kinds && VisibleBeforeLast(forType) == {})
  {
    if Matchable(forType) && Visible(forType) != {} && (TypeKind in kinds || VisibleBeforeLast(forType) != {}) {
      var impls, traitArgs := SharingHidesCandidate(forType, kinds);
    } else {
      forall impls, traitArgs | ImplsFor(impls, kinds, forType) && Asks(traitArgs, kinds)
        ensures FirstShared(impls, traitArgs, forType, map[]) == FirstFresh(impls, traitArgs, forType)
      {
        if !Matchable(forType) {
          UnmatchableIsNeverAccepted(impls, traitArgs, forType, map[]);
        } else if Visible(forType) == {} {
          ClosedTypesBindNothing(impls, traitArgs, forType);
        } else {
          FailuresBindNothing(impls, kinds, traitArgs, forType);
        }
      }
    }
  }
}
