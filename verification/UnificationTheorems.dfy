/** What a successful unification means, and on which types it is renaming of parameters. */
module UnificationTheorems {
  import opened Wrappers
  import opened RustTypes
  import opened Unification

  ghost predicate Extends(m: UnificationMap, n: UnificationMap) {
    forall i :: i in m ==> i in n && n[i] == m[i]
  }

  /** A map from parameters to parameters, as every unification builds it from the empty map. */
  predicate IsRenaming(m: UnificationMap) {
    forall i :: i in m ==> m[i].TypeArg? && m[i].ty.Param?
  }

  // ----- a relation with a fixed map -----

  /** `m`, left as it is, sends `ty1` to `ty2` at the positions that unification visits. */
  ghost predicate Matches(m: UnificationMap, ty1: Ty, ty2: Ty)
    decreases ty1, 1
  {
    match ty1
    case Adt(did, args) => ty2.Adt? && did == ty2.did && MatchesList(m, args, ty2.args)
    case Ref(r, elem, mutbl) => ty2.Ref? && mutbl == ty2.mutbl && UnifyRegions(r, ty2.region) && Matches(m, elem, ty2.elem)
    case RawPtr(elem, mutbl) => ty2.RawPtr? && mutbl == ty2.mutbl && Matches(m, elem, ty2.elem)
    case Param(i) => ty2.Param? && i in m && m[i] == TypeArg(ty2)
    case _ => ty1 == ty2
  }

  ghost predicate MatchesArg(m: UnificationMap, arg1: GenericArg, arg2: GenericArg)
    decreases arg1, 2
  {
    match arg1
    case TypeArg(ty) => arg2.TypeArg? && Matches(m, ty, arg2.ty)
    case ConstArg(_) => false
    case LifetimeArg(r) => arg2.LifetimeArg? && UnifyRegions(r, arg2.lifetime)
  }

  ghost predicate MatchesList(m: UnificationMap, args1: seq<GenericArg>, args2: seq<GenericArg>)
    decreases args1, 0
  {
    && |args1| == |args2|
    && (args1 != [] ==> MatchesArg(m, args1[0], args2[0]) && MatchesList(m, args1[1..], args2[1..]))
  }

  lemma {:induction false} MatchesMonotone(m: UnificationMap, n: UnificationMap, ty1: Ty, ty2: Ty)
    requires Extends(m, n) && Matches(m, ty1, ty2)
    ensures Matches(n, ty1, ty2)
    decreases ty1, 1
  {
    match ty1
    case Adt(_, args) => MatchesListMonotone(m, n, args, ty2.args);
    case Ref(_, elem, _) => MatchesMonotone(m, n, elem, ty2.elem);
    case RawPtr(elem, _) => MatchesMonotone(m, n, elem, ty2.elem);
    case _ =>
  }

  lemma {:induction false} MatchesListMonotone(m: UnificationMap, n: UnificationMap, args1: seq<GenericArg>,
                                               args2: seq<GenericArg>)
    requires Extends(m, n) && MatchesList(m, args1, args2)
    ensures MatchesList(n, args1, args2)
    decreases args1, 0
  {
    if args1 != [] {
      assert args1 decreases to args1[0];
      if args1[0].TypeArg? { MatchesMonotone(m, n, args1[0].ty, args2[0].ty); }
      MatchesListMonotone(m, n, args1[1..], args2[1..]);
    }
  }

  // ----- unification computes the least matching extension -----

  lemma {:induction false} UnifySound(ty1: Ty, ty2: Ty, m: UnificationMap)
    ensures Extends(m, UnifyTypes(ty1, ty2, m).1)
    ensures UnifyTypes(ty1, ty2, m).0 ==> Matches(UnifyTypes(ty1, ty2, m).1, ty1, ty2)
    decreases ty1, 1
  {
    match ty1
    case Adt(_, args) => if ty2.Adt? { UnifyListSound(args, ty2.args, m); }
    case Ref(_, elem, _) => if ty2.Ref? { UnifySound(elem, ty2.elem, m); }
    case RawPtr(elem, _) => if ty2.RawPtr? { UnifySound(elem, ty2.elem, m); }
    case _ =>
  }

  lemma {:induction false} UnifyListSound(args1: seq<GenericArg>, args2: seq<GenericArg>, m: UnificationMap)
    ensures Extends(m, UnifyGenericArgs(args1, args2, m).1)
    ensures UnifyGenericArgs(args1, args2, m).0 ==> MatchesList(UnifyGenericArgs(args1, args2, m).1, args1, args2)
    decreases args1, 0
  {
    if |args1| == |args2| && args1 != [] {
      assert args1 decreases to args1[0];
      var (ok, m') := UnifyArgs(args1[0], args2[0], m);
      if args1[0].TypeArg? && args2[0].TypeArg? { UnifySound(args1[0].ty, args2[0].ty, m); }
      UnifyListSound(args1[1..], args2[1..], m');
      var m'' := UnifyGenericArgs(args1[1..], args2[1..], m').1;
      if ok && args1[0].TypeArg? { MatchesMonotone(m', m'', args1[0].ty, args2[0].ty); }
    }
  }

  lemma {:induction false} UnifyComplete(ty1: Ty, ty2: Ty, m: UnificationMap, n: UnificationMap)
    requires Extends(m, n) && Matches(n, ty1, ty2)
    ensures UnifyTypes(ty1, ty2, m).0 && Extends(UnifyTypes(ty1, ty2, m).1, n)
    decreases ty1, 1
  {
    match ty1
    case Adt(_, args) => UnifyListComplete(args, ty2.args, m, n);
    case Ref(_, elem, _) => UnifyComplete(elem, ty2.elem, m, n);
    case RawPtr(elem, _) => UnifyComplete(elem, ty2.elem, m, n);
    case _ =>
  }

  lemma {:induction false} UnifyListComplete(args1: seq<GenericArg>, args2: seq<GenericArg>, m: UnificationMap,
                                             n: UnificationMap)
    requires Extends(m, n) && MatchesList(n, args1, args2)
    ensures UnifyGenericArgs(args1, args2, m).0 && Extends(UnifyGenericArgs(args1, args2, m).1, n)
    decreases args1, 0
  {
    if args1 != [] {
      assert args1 decreases to args1[0];
      if args1[0].TypeArg? { UnifyComplete(args1[0].ty, args2[0].ty, m, n); }
      UnifyListComplete(args1[1..], args2[1..], UnifyArgs(args1[0], args2[0], m).1, n);
    }
  }

  /** Unification succeeds exactly when some extension of the map matches. It never overwrites a
      binding, and its result is contained in every matching extension. Holds of all types and maps. */
  lemma UnifyIsLeastMatch(ty1: Ty, ty2: Ty, m: UnificationMap)
    ensures var (ok, m') := UnifyTypes(ty1, ty2, m);
            && Extends(m, m')
            && (ok <==> exists n :: Extends(m, n) && Matches(n, ty1, ty2))
            && (ok ==> Matches(m', ty1, ty2))
            && (ok ==> forall n :: Extends(m, n) && Matches(n, ty1, ty2) ==> Extends(m', n))
  {
    UnifySound(ty1, ty2, m);
    forall n | Extends(m, n) && Matches(n, ty1, ty2)
      ensures UnifyTypes(ty1, ty2, m).0 && Extends(UnifyTypes(ty1, ty2, m).1, n)
    {
      UnifyComplete(ty1, ty2, m, n);
    }
  }

  /** Success is anti-monotone in the map, and the resulting maps keep the order. */
  lemma UnifyAntimonotone(ty1: Ty, ty2: Ty, m: UnificationMap, n: UnificationMap)
    requires Extends(m, n) && UnifyTypes(ty1, ty2, n).0
    ensures UnifyTypes(ty1, ty2, m).0
    ensures Extends(UnifyTypes(ty1, ty2, m).1, UnifyTypes(ty1, ty2, n).1)
  {
    UnifySound(ty1, ty2, n);
    UnifyComplete(ty1, ty2, m, UnifyTypes(ty1, ty2, n).1);
  }

  // ----- trait arguments -----

  /** Position `i` of the reference is no type, or `n` sends the type there to the one asked for. */
  ghost predicate MatchesPosition(n: UnificationMap, reference: seq<GenericArg>, compare: seq<Option<GenericArg>>, i: nat)
    requires i < |reference| == |compare|
  {
    reference[i].TypeArg? ==>
      compare[i].Some? && compare[i].value.TypeArg? && Matches(n, reference[i].ty, compare[i].value.ty)
  }

  /** The lists agree in length, and `n`, left as it is, matches all positions of types. */
  ghost predicate ArgsMatch(n: UnificationMap, reference: seq<GenericArg>, compare: seq<Option<GenericArg>>) {
    |reference| == |compare| && forall i: nat :: i < |reference| ==> MatchesPosition(n, reference, compare, i)
  }

  lemma ArgsMatchStep(n: UnificationMap, reference: seq<GenericArg>, compare: seq<Option<GenericArg>>)
    requires |reference| == |compare| && reference != []
    ensures ArgsMatch(n, reference, compare) <==>
              MatchesPosition(n, reference, compare, 0) && ArgsMatch(n, reference[1..], compare[1..])
  {
    if ArgsMatch(n, reference, compare) {
      forall i: nat | i < |reference[1..]| ensures MatchesPosition(n, reference[1..], compare[1..], i) {
        assert MatchesPosition(n, reference, compare, i + 1);
      }
    }
    if MatchesPosition(n, reference, compare, 0) && ArgsMatch(n, reference[1..], compare[1..]) {
      forall i: nat | i < |reference| ensures MatchesPosition(n, reference, compare, i) {
        if i > 0 { assert MatchesPosition(n, reference[1..], compare[1..], i - 1); }
      }
    }
  }

  lemma {:induction false} ArgsUnifySound(reference: seq<GenericArg>, compare: seq<Option<GenericArg>>, m: UnificationMap)
    ensures Extends(m, ArgsUnifyTypes(reference, compare, m).1)
    ensures ArgsUnifyTypes(reference, compare, m).0 ==> ArgsMatch(ArgsUnifyTypes(reference, compare, m).1, reference, compare)
  {
    if |reference| == |compare| && reference != [] {
      var m' := m;
      if reference[0].TypeArg? && compare[0].Some? && compare[0].value.TypeArg? {
        UnifySound(reference[0].ty, compare[0].value.ty, m);
        m' := UnifyTypes(reference[0].ty, compare[0].value.ty, m).1;
      }
      ArgsUnifySound(reference[1..], compare[1..], m');
      var m'' := ArgsUnifyTypes(reference[1..], compare[1..], m').1;
      if ArgsUnifyTypes(reference, compare, m).0 {
        if reference[0].TypeArg? { MatchesMonotone(m', m'', reference[0].ty, compare[0].value.ty); }
        ArgsMatchStep(m'', reference, compare);
      }
    }
  }

  lemma {:induction false} ArgsUnifyComplete(reference: seq<GenericArg>, compare: seq<Option<GenericArg>>,
                                             m: UnificationMap, n: UnificationMap)
    requires Extends(m, n) && ArgsMatch(n, reference, compare)
    ensures ArgsUnifyTypes(reference, compare, m).0 && Extends(ArgsUnifyTypes(reference, compare, m).1, n)
  {
    if reference != [] {
      ArgsMatchStep(n, reference, compare);
      var m' := m;
      if reference[0].TypeArg? {
        UnifyComplete(reference[0].ty, compare[0].value.ty, m, n);
        m' := UnifyTypes(reference[0].ty, compare[0].value.ty, m).1;
      }
      ArgsUnifyComplete(reference[1..], compare[1..], m', n);
    }
  }

  /** Trait arguments unify from a map exactly when the lists agree in length and some extension of the map
      matches every position of a type; the result is the least such extension. */
  lemma ArgsUnifyIsLeastMatch(reference: seq<GenericArg>, compare: seq<Option<GenericArg>>, m: UnificationMap)
    ensures var (ok, m') := ArgsUnifyTypes(reference, compare, m);
            && Extends(m, m')
            && (ok <==> exists n :: Extends(m, n) && ArgsMatch(n, reference, compare))
            && (ok ==> ArgsMatch(m', reference, compare))
            && (ok ==> forall n :: Extends(m, n) && ArgsMatch(n, reference, compare) ==> Extends(m', n))
  {
    ArgsUnifySound(reference, compare, m);
    forall n | Extends(m, n) && ArgsMatch(n, reference, compare)
      ensures ArgsUnifyTypes(reference, compare, m).0 && Extends(ArgsUnifyTypes(reference, compare, m).1, n)
    {
      ArgsUnifyComplete(reference, compare, m, n);
    }
  }

  lemma ArgsUnifyAntimonotone(reference: seq<GenericArg>, compare: seq<Option<GenericArg>>,
                              m: UnificationMap, n: UnificationMap)
    requires Extends(m, n) && ArgsUnifyTypes(reference, compare, n).0
    ensures ArgsUnifyTypes(reference, compare, m).0
    ensures Extends(ArgsUnifyTypes(reference, compare, m).1, ArgsUnifyTypes(reference, compare, n).1)
  {
    ArgsUnifySound(reference, compare, n);
    ArgsUnifyComplete(reference, compare, m, ArgsUnifyTypes(reference, compare, n).1);
  }

  // ----- the bindings that a failing attempt leaves -----

  /** A visited position wants a parameter to be bound to another, or cannot be matched. */
  datatype Constraint = Bind(param: nat, to: nat) | Impossible

  function When(possible: bool, rest: seq<Constraint>): seq<Constraint> {
    if possible then rest else [Impossible]
  }

  /** The constraints of two types, in the order in which unification visits their positions. */
  function Constraints(ty1: Ty, ty2: Ty): seq<Constraint>
    decreases ty1, 1
  {
    match ty1
    case Adt(did, args) =>
      if ty2.Adt? && did == ty2.did && |args| == |ty2.args| then ListConstraints(args, ty2.args) else [Impossible]
    case Ref(r, elem, mutbl) =>
      if ty2.Ref? && mutbl == ty2.mutbl && UnifyRegions(r, ty2.region) then Constraints(elem, ty2.elem) else [Impossible]
    case RawPtr(elem, mutbl) => if ty2.RawPtr? && mutbl == ty2.mutbl then Constraints(elem, ty2.elem) else [Impossible]
    case Param(i) => if ty2.Param? then [Bind(i, ty2.index)] else [Impossible]
    case _ => When(ty1 == ty2, [])
  }

  function ArgConstraints(arg1: GenericArg, arg2: GenericArg): seq<Constraint>
    decreases arg1, 2
  {
    match arg1
    case TypeArg(ty) => if arg2.TypeArg? then Constraints(ty, arg2.ty) else [Impossible]
    case ConstArg(_) => [Impossible]
    case LifetimeArg(r) => When(arg2.LifetimeArg? && UnifyRegions(r, arg2.lifetime), [])
  }

  function ListConstraints(args1: seq<GenericArg>, args2: seq<GenericArg>): seq<Constraint>
    requires |args1| == |args2|
    decreases args1, 0
  {
    if args1 == [] then [] else
      assert args1 decreases to args1[0];
      ArgConstraints(args1[0], args2[0]) + ListConstraints(args1[1..], args2[1..])
  }

  predicate Conflicts(c: Constraint, m: UnificationMap) {
    c.Impossible? || (c.param in m && m[c.param] != TypeArg(Param(c.to)))
  }

  /** Takes the constraints in order, up to the first that conflicts with the bindings so far. */
  function Solve(cs: seq<Constraint>, m: UnificationMap): (bool, UnificationMap) {
    if cs == [] then (true, m)
    else if Conflicts(cs[0], m) then (false, m)
    else Solve(cs[1..], m[cs[0].param := TypeArg(Param(cs[0].to))])
  }

  lemma {:induction false} SolveAppend(cs: seq<Constraint>, more: seq<Constraint>, m: UnificationMap)
    ensures Solve(cs + more, m) == if Solve(cs, m).0 then Solve(more, Solve(cs, m).1) else Solve(cs, m)
  {
    if cs == [] {
      assert cs + more == more;
    } else {
      assert (cs + more)[0] == cs[0] && (cs + more)[1..] == cs[1..] + more;
      if !Conflicts(cs[0], m) { SolveAppend(cs[1..], more, m[cs[0].param := TypeArg(Param(cs[0].to))]); }
    }
  }

  lemma BindAgain(m: UnificationMap, i: nat)
    requires i in m
    ensures m[i := m[i]] == m
  {
  }

  lemma {:induction false} UnifySolves(ty1: Ty, ty2: Ty, m: UnificationMap)
    ensures UnifyTypes(ty1, ty2, m) == Solve(Constraints(ty1, ty2), m)
    decreases ty1, 1
  {
    match ty1
    case Adt(did, args) =>
      if ty2.Adt? && did == ty2.did && |args| == |ty2.args| { UnifyListSolves(args, ty2.args, m); }
    case Ref(_, elem, _) => if ty2.Ref? { UnifySolves(elem, ty2.elem, m); }
    case RawPtr(elem, _) => if ty2.RawPtr? { UnifySolves(elem, ty2.elem, m); }
    case Param(i) =>
      if i in m { BindAgain(m, i); }
      assert ty2.Param? ==> Constraints(ty1, ty2)[1..] == [];
    case _ =>
  }

  lemma {:induction false} UnifyListSolves(args1: seq<GenericArg>, args2: seq<GenericArg>, m: UnificationMap)
    requires |args1| == |args2|
    ensures UnifyGenericArgs(args1, args2, m) == Solve(ListConstraints(args1, args2), m)
    decreases args1, 0
  {
    if args1 != [] {
      assert args1 decreases to args1[0];
      if args1[0].TypeArg? && args2[0].TypeArg? { UnifySolves(args1[0].ty, args2[0].ty, m); }
      SolveAppend(ArgConstraints(args1[0], args2[0]), ListConstraints(args1[1..], args2[1..]), m);
      UnifyListSolves(args1[1..], args2[1..], UnifyArgs(args1[0], args2[0], m).1);
    }
  }

  /** `m'` is `m` with exactly the bindings that the first `k` constraints ask for. */
  ghost predicate Binds(cs: seq<Constraint>, k: nat, m: UnificationMap, m': UnificationMap) {
    && k <= |cs| && Extends(m, m')
    && (forall j :: 0 <= j < k ==> cs[j].Bind? && cs[j].param in m' && m'[cs[j].param] == TypeArg(Param(cs[j].to)))
    && (forall i :: i in m' ==> i in m || exists j :: 0 <= j < k && cs[j] == Bind(i, cs[j].to))
  }

  ghost predicate StopsAt(cs: seq<Constraint>, k: nat, m: UnificationMap, ok: bool, m': UnificationMap) {
    Binds(cs, k, m, m') && if ok then k == |cs| else k < |cs| && Conflicts(cs[k], m')
  }

  lemma {:induction false} SolveStops(cs: seq<Constraint>, m: UnificationMap) returns (k: nat)
    ensures StopsAt(cs, k, m, Solve(cs, m).0, Solve(cs, m).1)
  {
    if cs == [] || Conflicts(cs[0], m) {
      k := 0;
    } else {
      var m1 := m[cs[0].param := TypeArg(Param(cs[0].to))];
      var k1 := SolveStops(cs[1..], m1);
      k := k1 + 1;
      var m' := Solve(cs, m).1;
      forall j | 0 <= j < k ensures cs[j].Bind? && cs[j].param in m' && m'[cs[j].param] == TypeArg(Param(cs[j].to)) {
        if j > 0 { assert cs[j] == cs[1..][j - 1]; }
      }
      forall i | i in m' && i !in m ensures exists j :: 0 <= j < k && cs[j] == Bind(i, cs[j].to) {
        if i != cs[0].param {
          var j :| 0 <= j < k1 && cs[1..][j] == Bind(i, cs[1..][j].to);
          assert cs[j + 1] == Bind(i, cs[j + 1].to);
        } else {
          assert cs[0] == Bind(i, cs[0].to);
        }
      }
    }
  }

  /** An attempt goes through the visited positions in order and stops at the first that conflicts with the
      bindings made so far. Those bindings, and no others, are added to the map, whether it fails or not. */
  lemma UnifyStopsAtFirstConflict(ty1: Ty, ty2: Ty, m: UnificationMap)
    ensures var (ok, m') := UnifyTypes(ty1, ty2, m); exists k :: StopsAt(Constraints(ty1, ty2), k, m, ok, m')
  {
    UnifySolves(ty1, ty2, m);
    var k := SolveStops(Constraints(ty1, ty2), m);
  }

  // ----- renaming -----

  function Image(m: UnificationMap, i: nat): Ty {
    if i in m && m[i].TypeArg? then m[i].ty else Param(i)
  }

  /** Renames the parameters at the positions that unification visits: at the top and under `Adt`,
      `Ref` and `RawPtr`. */
  function Apply(m: UnificationMap, ty: Ty): Ty
    decreases ty, 1
  {
    match ty
    case Adt(did, args) => Adt(did, ApplyList(m, args))
    case Ref(r, elem, mutbl) => Ref(r, Apply(m, elem), mutbl)
    case RawPtr(elem, mutbl) => RawPtr(Apply(m, elem), mutbl)
    case Param(i) => Image(m, i)
    case _ => ty
  }

  function ApplyList(m: UnificationMap, args: seq<GenericArg>): (r: seq<GenericArg>)
    ensures |r| == |args|
    decreases args, 0
  {
    if args == [] then [] else
      assert args decreases to args[0];
      [if args[0].TypeArg? then TypeArg(Apply(m, args[0].ty)) else args[0]] + ApplyList(m, args[1..])
  }

  /** Renames the parameters everywhere. */
  function Rename(m: UnificationMap, ty: Ty): Ty
    decreases ty, 1
  {
    match ty
    case Adt(did, args) => Adt(did, RenameList(m, args))
    case Array(elem, len) => Array(Rename(m, elem), len)
    case Slice(elem) => Slice(Rename(m, elem))
    case RawPtr(elem, mutbl) => RawPtr(Rename(m, elem), mutbl)
    case Ref(r, elem, mutbl) => Ref(r, Rename(m, elem), mutbl)
    case Def(kind, did, args) => Def(kind, did, RenameList(m, args))
    case Tuple(elems) => Tuple(RenameTys(m, elems))
    case Alias(kind, did, args) => Alias(kind, did, RenameList(m, args))
    case Param(i) => Image(m, i)
    case Opaque(kind, args) => Opaque(kind, RenameList(m, args))
    case _ => ty
  }

  function RenameList(m: UnificationMap, args: seq<GenericArg>): seq<GenericArg>
    decreases args, 0
  {
    if args == [] then [] else
      assert args decreases to args[0];
      [if args[0].TypeArg? then TypeArg(Rename(m, args[0].ty)) else args[0]] + RenameList(m, args[1..])
  }

  function RenameTys(m: UnificationMap, tys: seq<Ty>): seq<Ty>
    decreases tys, 0
  {
    if tys == [] then [] else [Rename(m, tys[0])] + RenameTys(m, tys[1..])
  }

  /** All parameters of a type. */
  function Params(ty: Ty): set<nat>
    decreases ty, 1
  {
    match ty
    case Adt(_, args) => ParamsList(args)
    case Array(elem, _) => Params(elem)
    case Slice(elem) => Params(elem)
    case RawPtr(elem, _) => Params(elem)
    case Ref(_, elem, _) => Params(elem)
    case Def(_, _, args) => ParamsList(args)
    case Tuple(elems) => ParamsTys(elems)
    case Alias(_, _, args) => ParamsList(args)
    case Param(i) => {i}
    case Opaque(_, args) => ParamsList(args)
    case _ => {}
  }

  function ParamsList(args: seq<GenericArg>): set<nat>
    decreases args, 0
  {
    if args == [] then {} else
      assert args decreases to args[0];
      (if args[0].TypeArg? then Params(args[0].ty) else {}) + ParamsList(args[1..])
  }

  function ParamsTys(tys: seq<Ty>): set<nat>
    decreases tys, 0
  {
    if tys == [] then {} else Params(tys[0]) + ParamsTys(tys[1..])
  }

  /** The parameters at the positions that unification visits. */
  function Visible(ty: Ty): set<nat>
    decreases ty, 1
  {
    match ty
    case Adt(_, args) => VisibleList(args)
    case Ref(_, elem, _) => Visible(elem)
    case RawPtr(elem, _) => Visible(elem)
    case Param(i) => {i}
    case _ => {}
  }

  function VisibleList(args: seq<GenericArg>): set<nat>
    decreases args, 0
  {
    if args == [] then {} else
      assert args decreases to args[0];
      (if args[0].TypeArg? then Visible(args[0].ty) else {}) + VisibleList(args[1..])
  }

  /** No constant argument and only early-bound regions at the visited positions: the type can
      appear on the left of a successful unification. */
  predicate Matchable(ty: Ty)
    decreases ty, 1
  {
    match ty
    case Adt(_, args) => MatchableList(args)
    case Ref(r, elem, _) => r.ReEarlyParam? && Matchable(elem)
    case RawPtr(elem, _) => Matchable(elem)
    case _ => true
  }

  predicate MatchableList(args: seq<GenericArg>)
    decreases args, 0
  {
    args != [] ==>
      assert args decreases to args[0];
      && (match args[0]
          case TypeArg(ty) => Matchable(ty)
          case ConstArg(_) => false
          case LifetimeArg(r) => r.ReEarlyParam?)
      && MatchableList(args[1..])
  }

  /** No parameter sits below a type that unification compares as a whole. */
  predicate NoHiddenParams(ty: Ty)
    decreases ty, 1
  {
    match ty
    case Adt(_, args) => NoHiddenParamsList(args)
    case Ref(_, elem, _) => NoHiddenParams(elem)
    case RawPtr(elem, _) => NoHiddenParams(elem)
    case Param(_) => true
    case _ => Params(ty) == {}
  }

  predicate NoHiddenParamsList(args: seq<GenericArg>)
    decreases args, 0
  {
    args != [] ==>
      assert args decreases to args[0];
      (args[0].TypeArg? ==> NoHiddenParams(args[0].ty)) && NoHiddenParamsList(args[1..])
  }

  /** No constant argument, no region other than an early parameter, and no parameter below a type
      that is compared as a whole. */
  predicate InRenamingFragment(ty: Ty) {
    Matchable(ty) && NoHiddenParams(ty)
  }

  // ----- matching is applying the map -----

  lemma {:induction false} MatchesIffApply(m: UnificationMap, ty1: Ty, ty2: Ty)
    requires IsRenaming(m)
    ensures Matches(m, ty1, ty2) <==> Matchable(ty1) && Visible(ty1) <= m.Keys && ty2 == Apply(m, ty1)
    decreases ty1, 1
  {
    match ty1
    case Adt(_, args) => if ty2.Adt? { MatchesListIffApply(m, args, ty2.args); }
    case Ref(_, elem, _) => if ty2.Ref? { MatchesIffApply(m, elem, ty2.elem); }
    case RawPtr(elem, _) => if ty2.RawPtr? { MatchesIffApply(m, elem, ty2.elem); }
    case _ =>
  }

  lemma {:induction false} MatchesListIffApply(m: UnificationMap, args1: seq<GenericArg>, args2: seq<GenericArg>)
    requires IsRenaming(m)
    ensures MatchesList(m, args1, args2) <==> MatchableList(args1) && VisibleList(args1) <= m.Keys && args2 == ApplyList(m, args1)
    decreases args1, 0
  {
    if args1 != [] && |args1| == |args2| {
      assert args1 decreases to args1[0];
      if args1[0].TypeArg? && args2[0].TypeArg? { MatchesIffApply(m, args1[0].ty, args2[0].ty); }
      MatchesListIffApply(m, args1[1..], args2[1..]);
      assert args2 == [args2[0]] + args2[1..];
      assert ApplyList(m, args1)[1..] == ApplyList(m, args1[1..]);
    }
  }

  lemma {:induction false} UnifyKeepsRenaming(ty1: Ty, ty2: Ty, m: UnificationMap)
    requires IsRenaming(m)
    ensures IsRenaming(UnifyTypes(ty1, ty2, m).1)
    ensures UnifyTypes(ty1, ty2, m).1.Keys <= m.Keys + Visible(ty1)
    decreases ty1, 1
  {
    match ty1
    case Adt(_, args) => if ty2.Adt? { UnifyListKeepsRenaming(args, ty2.args, m); }
    case Ref(_, elem, _) => if ty2.Ref? { UnifyKeepsRenaming(elem, ty2.elem, m); }
    case RawPtr(elem, _) => if ty2.RawPtr? { UnifyKeepsRenaming(elem, ty2.elem, m); }
    case _ =>
  }

  lemma {:induction false} UnifyListKeepsRenaming(args1: seq<GenericArg>, args2: seq<GenericArg>, m: UnificationMap)
    requires IsRenaming(m)
    ensures IsRenaming(UnifyGenericArgs(args1, args2, m).1)
    ensures UnifyGenericArgs(args1, args2, m).1.Keys <= m.Keys + VisibleList(args1)
    decreases args1, 0
  {
    if |args1| == |args2| && args1 != [] {
      assert args1 decreases to args1[0];
      if args1[0].TypeArg? && args2[0].TypeArg? { UnifyKeepsRenaming(args1[0].ty, args2[0].ty, m); }
      UnifyListKeepsRenaming(args1[1..], args2[1..], UnifyArgs(args1[0], args2[0], m).1);
    }
  }

  /** From a renaming, a successful unification binds exactly the visible parameters besides. */
  lemma UnifyBindsVisible(ty1: Ty, ty2: Ty, m: UnificationMap)
    requires IsRenaming(m) && UnifyTypes(ty1, ty2, m).0
    ensures var m' := UnifyTypes(ty1, ty2, m).1;
            IsRenaming(m') && Extends(m, m') && m'.Keys == m.Keys + Visible(ty1) && Matchable(ty1) && ty2 == Apply(m', ty1)
  {
    UnifyKeepsRenaming(ty1, ty2, m);
    UnifySound(ty1, ty2, m);
    MatchesIffApply(UnifyTypes(ty1, ty2, m).1, ty1, ty2);
  }

  // ----- the fragment on which unification is renaming -----

  lemma {:induction false} RenameClosed(m: UnificationMap, ty: Ty)
    requires Params(ty) == {}
    ensures Rename(m, ty) == ty
    decreases ty, 1
  {
    match ty
    case Adt(_, args) => RenameClosedList(m, args);
    case Array(elem, _) => RenameClosed(m, elem);
    case Slice(elem) => RenameClosed(m, elem);
    case RawPtr(elem, _) => RenameClosed(m, elem);
    case Ref(_, elem, _) => RenameClosed(m, elem);
    case Def(_, _, args) => RenameClosedList(m, args);
    case Tuple(elems) => RenameClosedTys(m, elems);
    case Alias(_, _, args) => RenameClosedList(m, args);
    case Opaque(_, args) => RenameClosedList(m, args);
    case _ =>
  }

  lemma {:induction false} RenameClosedList(m: UnificationMap, args: seq<GenericArg>)
    requires ParamsList(args) == {}
    ensures RenameList(m, args) == args
    decreases args, 0
  {
    if args != [] {
      assert args decreases to args[0];
      if args[0].TypeArg? { RenameClosed(m, args[0].ty); }
      RenameClosedList(m, args[1..]);
      assert args == [args[0]] + args[1..];
    }
  }

  lemma {:induction false} RenameClosedTys(m: UnificationMap, tys: seq<Ty>)
    requires ParamsTys(tys) == {}
    ensures RenameTys(m, tys) == tys
    decreases tys, 0
  {
    if tys != [] {
      RenameClosed(m, tys[0]);
      RenameClosedTys(m, tys[1..]);
      assert tys == [tys[0]] + tys[1..];
    }
  }

  /** Every parameter in `ps` is moved to a different one. */
  ghost predicate MovesAll(m: UnificationMap, ps: set<nat>) {
    forall i :: i in ps ==> Image(m, i) != Param(i)
  }

  lemma {:induction false} RenameMoves(m: UnificationMap, ty: Ty)
    requires Params(ty) != {} && MovesAll(m, Params(ty))
    ensures Rename(m, ty) != ty
    decreases ty, 1
  {
    match ty
    case Adt(_, args) => RenameMovesList(m, args);
    case Array(elem, _) => RenameMoves(m, elem);
    case Slice(elem) => RenameMoves(m, elem);
    case RawPtr(elem, _) => RenameMoves(m, elem);
    case Ref(_, elem, _) => RenameMoves(m, elem);
    case Def(_, _, args) => RenameMovesList(m, args);
    case Tuple(elems) => RenameMovesTys(m, elems);
    case Alias(_, _, args) => RenameMovesList(m, args);
    case Param(i) => assert i in Params(ty);
    case Opaque(_, args) => RenameMovesList(m, args);
    case _ =>
  }

  lemma {:induction false} RenameMovesList(m: UnificationMap, args: seq<GenericArg>)
    requires ParamsList(args) != {} && MovesAll(m, ParamsList(args))
    ensures RenameList(m, args) != args
    decreases args, 0
  {
    assert args decreases to args[0];
    if args[0].TypeArg? && Params(args[0].ty) != {} {
      RenameMoves(m, args[0].ty);
      assert RenameList(m, args)[0] != args[0];
    } else {
      RenameMovesList(m, args[1..]);
      assert RenameList(m, args)[1..] == RenameList(m, args[1..]);
    }
  }

  lemma {:induction false} RenameMovesTys(m: UnificationMap, tys: seq<Ty>)
    requires ParamsTys(tys) != {} && MovesAll(m, ParamsTys(tys))
    ensures RenameTys(m, tys) != tys
    decreases tys, 0
  {
    if Params(tys[0]) != {} {
      RenameMoves(m, tys[0]);
      assert RenameTys(m, tys)[0] != tys[0];
    } else {
      RenameMovesTys(m, tys[1..]);
      assert RenameTys(m, tys)[1..] == RenameTys(m, tys[1..]);
    }
  }

  lemma {:induction false} RenameIsApply(m: UnificationMap, ty: Ty)
    requires NoHiddenParams(ty)
    ensures Rename(m, ty) == Apply(m, ty) && Params(ty) == Visible(ty)
    decreases ty, 1
  {
    match ty
    case Adt(_, args) => RenameIsApplyList(m, args);
    case Ref(_, elem, _) => RenameIsApply(m, elem);
    case RawPtr(elem, _) => RenameIsApply(m, elem);
    case Param(_) =>
    case _ => RenameClosed(m, ty);
  }

  lemma {:induction false} RenameIsApplyList(m: UnificationMap, args: seq<GenericArg>)
    requires NoHiddenParamsList(args)
    ensures RenameList(m, args) == ApplyList(m, args) && ParamsList(args) == VisibleList(args)
    decreases args, 0
  {
    if args != [] {
      assert args decreases to args[0];
      if args[0].TypeArg? { RenameIsApply(m, args[0].ty); }
      RenameIsApplyList(m, args[1..]);
    }
  }

  lemma {:induction false} HiddenParamsAreNotApplied(m: UnificationMap, n: UnificationMap, ty: Ty)
    requires !NoHiddenParams(ty) && MovesAll(m, Params(ty))
    ensures Rename(m, ty) != Apply(n, ty)
    decreases ty, 1
  {
    match ty
    case Adt(_, args) => HiddenParamsAreNotAppliedList(m, n, args);
    case Ref(_, elem, _) => HiddenParamsAreNotApplied(m, n, elem);
    case RawPtr(elem, _) => HiddenParamsAreNotApplied(m, n, elem);
    case _ => RenameMoves(m, ty);
  }

  lemma {:induction false} HiddenParamsAreNotAppliedList(m: UnificationMap, n: UnificationMap, args: seq<GenericArg>)
    requires !NoHiddenParamsList(args) && MovesAll(m, ParamsList(args))
    ensures RenameList(m, args) != ApplyList(n, args)
    decreases args, 0
  {
    assert args decreases to args[0];
    if args[0].TypeArg? && !NoHiddenParams(args[0].ty) {
      HiddenParamsAreNotApplied(m, n, args[0].ty);
      assert RenameList(m, args)[0] != ApplyList(n, args)[0];
    } else {
      HiddenParamsAreNotAppliedList(m, n, args[1..]);
      assert RenameList(m, args)[1..] == RenameList(m, args[1..]) && ApplyList(n, args)[1..] == ApplyList(n, args[1..]);
    }
  }

  /** Some renaming that extends `m` and is defined on all parameters of `ty1` sends it to `ty2`. */
  ghost predicate RenamableTo(m: UnificationMap, ty1: Ty, ty2: Ty) {
    exists n :: IsRenaming(n) && Extends(m, n) && SendsTo(n, ty1, ty2)
  }

  ghost predicate SendsTo(n: UnificationMap, ty1: Ty, ty2: Ty) {
    Params(ty1) <= n.Keys && Rename(n, ty1) == ty2
  }

  ghost predicate DecidesRenaming(ty1: Ty) {
    forall ty2, m :: IsRenaming(m) ==> (UnifyTypes(ty1, ty2, m).0 <==> RenamableTo(m, ty1, ty2))
  }

  lemma MatchesIffRenamed(n: UnificationMap, ty1: Ty, ty2: Ty)
    requires IsRenaming(n) && InRenamingFragment(ty1)
    ensures Matches(n, ty1, ty2) <==> SendsTo(n, ty1, ty2)
  {
    RenameIsApply(n, ty1);
    MatchesIffApply(n, ty1, ty2);
  }

  lemma UnifyMeansRenamable(ty1: Ty, ty2: Ty, m: UnificationMap)
    requires IsRenaming(m) && InRenamingFragment(ty1) && UnifyTypes(ty1, ty2, m).0
    ensures RenamableTo(m, ty1, ty2)
  {
    var m' := UnifyTypes(ty1, ty2, m).1;
    UnifyKeepsRenaming(ty1, ty2, m);
    UnifySound(ty1, ty2, m);
    MatchesIffRenamed(m', ty1, ty2);
  }

  lemma RenamableUnifies(ty1: Ty, ty2: Ty, m: UnificationMap)
    requires InRenamingFragment(ty1) && RenamableTo(m, ty1, ty2)
    ensures UnifyTypes(ty1, ty2, m).0
  {
    var n :| IsRenaming(n) && Extends(m, n) && SendsTo(n, ty1, ty2);
    MatchesIffRenamed(n, ty1, ty2);
    UnifyComplete(ty1, ty2, m, n);
  }

  function Shift(ps: set<nat>, k: nat): UnificationMap {
    map i | i in ps :: TypeArg(Param(i + k))
  }

  /** Unification of `ty1` with other types decides renaming exactly when `ty1` is in the fragment. */
  lemma DecidesRenamingIff(ty1: Ty)
    ensures DecidesRenaming(ty1) <==> InRenamingFragment(ty1)
  {
    if InRenamingFragment(ty1) {
      forall ty2, m | IsRenaming(m) && UnifyTypes(ty1, ty2, m).0 ensures RenamableTo(m, ty1, ty2) {
        UnifyMeansRenamable(ty1, ty2, m);
      }
      forall ty2, m | IsRenaming(m) && RenamableTo(m, ty1, ty2) ensures UnifyTypes(ty1, ty2, m).0 {
        RenamableUnifies(ty1, ty2, m);
      }
    } else {
      var n := Shift(Params(ty1), 1);
      var ty2 := Rename(n, ty1);
      assert RenamableTo(map[], ty1, ty2) by {
        assert IsRenaming(n) && Extends(map[], n) && SendsTo(n, ty1, ty2);
      }
      if UnifyTypes(ty1, ty2, map[]).0 {
        UnifyBindsVisible(ty1, ty2, map[]);
        HiddenParamsAreNotApplied(n, UnifyTypes(ty1, ty2, map[]).1, ty1);
      }
    }
  }

  // ----- the renaming need not be invertible -----

  lemma {:induction false} ApplyDetermines(m: UnificationMap, n: UnificationMap, ty: Ty)
    ensures Apply(m, ty) == Apply(n, ty) <==> forall i :: i in Visible(ty) ==> Image(m, i) == Image(n, i)
    decreases ty, 1
  {
    match ty
    case Adt(_, args) => ApplyListDetermines(m, n, args);
    case Ref(_, elem, _) => ApplyDetermines(m, n, elem);
    case RawPtr(elem, _) => ApplyDetermines(m, n, elem);
    case Param(i) => assert i in Visible(ty);
    case _ =>
  }

  lemma {:induction false} ApplyListDetermines(m: UnificationMap, n: UnificationMap, args: seq<GenericArg>)
    ensures ApplyList(m, args) == ApplyList(n, args) <==> forall i :: i in VisibleList(args) ==> Image(m, i) == Image(n, i)
    decreases args, 0
  {
    if args != [] {
      assert args decreases to args[0];
      if args[0].TypeArg? { ApplyDetermines(m, n, args[0].ty); }
      ApplyListDetermines(m, n, args[1..]);
      assert ApplyList(m, args)[1..] == ApplyList(m, args[1..]) && ApplyList(n, args)[1..] == ApplyList(n, args[1..]);
      assert ApplyList(m, args)[0] == (if args[0].TypeArg? then TypeArg(Apply(m, args[0].ty)) else args[0]);
      assert ApplyList(n, args)[0] == (if args[0].TypeArg? then TypeArg(Apply(n, args[0].ty)) else args[0]);
    }
  }

  /** First `m`, then `n`, on the parameters `ps`. */
  function Compose(m: UnificationMap, n: UnificationMap, ps: set<nat>): UnificationMap {
    map i | i in ps :: TypeArg(Apply(n, Image(m, i)))
  }

  /** The parameters that `ps` is sent to. */
  function Images(m: UnificationMap, ps: set<nat>): set<nat>
    requires IsRenaming(m)
  {
    set i | i in ps :: if i in m then m[i].ty.index else i
  }

  lemma {:induction false} ApplyTwice(m: UnificationMap, n: UnificationMap, ps: set<nat>, ty: Ty)
    requires IsRenaming(m) && Visible(ty) <= ps
    ensures Apply(n, Apply(m, ty)) == Apply(Compose(m, n, ps), ty)
    decreases ty, 1
  {
    if ty.Adt? {
      ApplyListTwice(m, n, ps, ty.args);
    } else if ty.Ref? || ty.RawPtr? {
      ApplyTwice(m, n, ps, ty.elem);
    } else if ty.Param? {
      assert ty.index in Visible(ty) && Apply(m, ty) == Image(m, ty.index);
    } else {
      assert Apply(m, ty) == ty && Apply(n, ty) == ty;
    }
  }

  lemma {:induction false} ApplyListTwice(m: UnificationMap, n: UnificationMap, ps: set<nat>, args: seq<GenericArg>)
    requires IsRenaming(m) && VisibleList(args) <= ps
    ensures ApplyList(n, ApplyList(m, args)) == ApplyList(Compose(m, n, ps), args)
    decreases args, 0
  {
    if args != [] {
      assert args decreases to args[0];
      if args[0].TypeArg? { ApplyTwice(m, n, ps, args[0].ty); }
      ApplyListTwice(m, n, ps, args[1..]);
      assert ApplyList(m, args)[1..] == ApplyList(m, args[1..]);
    }
  }

  lemma {:induction false} ApplyKeepsShape(m: UnificationMap, ps: set<nat>, ty: Ty)
    requires IsRenaming(m) && Visible(ty) <= ps
    ensures Visible(Apply(m, ty)) <= Images(m, ps) && Matchable(Apply(m, ty)) == Matchable(ty)
    decreases ty, 1
  {
    match ty
    case Adt(_, args) => ApplyListKeepsShape(m, ps, args);
    case Ref(_, elem, _) => ApplyKeepsShape(m, ps, elem);
    case RawPtr(elem, _) => ApplyKeepsShape(m, ps, elem);
    case Param(i) => assert i in Visible(ty);
    case _ =>
  }

  lemma {:induction false} ApplyListKeepsShape(m: UnificationMap, ps: set<nat>, args: seq<GenericArg>)
    requires IsRenaming(m) && VisibleList(args) <= ps
    ensures VisibleList(ApplyList(m, args)) <= Images(m, ps) && MatchableList(ApplyList(m, args)) == MatchableList(args)
    decreases args, 0
  {
    if args != [] {
      assert args decreases to args[0];
      if args[0].TypeArg? { ApplyKeepsShape(m, ps, args[0].ty); }
      ApplyListKeepsShape(m, ps, args[1..]);
      assert ApplyList(m, args)[1..] == ApplyList(m, args[1..]);
    }
  }

  ghost predicate InjectiveOn(m: UnificationMap, ps: set<nat>) {
    forall i, j :: i in ps && j in ps && Image(m, i) == Image(m, j) ==> i == j
  }

  lemma RoundTripIffInverse(m: UnificationMap, n: UnificationMap, ty: Ty)
    requires IsRenaming(m)
    ensures Apply(n, Apply(m, ty)) == ty <==> forall i :: i in Visible(ty) ==> Apply(n, Image(m, i)) == Param(i)
  {
    var ps := Visible(ty);
    ApplyTwice(m, n, ps, ty);
    ApplyIdentity(ty);
    ApplyDetermines(Compose(m, n, ps), map[], ty);
    forall i | i in ps ensures Image(Compose(m, n, ps), i) == Apply(n, Image(m, i)) && Image(map[], i) == Param(i) {
    }
  }

  lemma BackwardMapInverts(ty1: Ty, ty2: Ty, m: UnificationMap, i: nat)
    requires IsRenaming(m) && ty2 == Apply(m, ty1)
    requires UnifyTypes(ty2, ty1, map[]).0 && i in Visible(ty1)
    ensures Apply(UnifyTypes(ty2, ty1, map[]).1, Image(m, i)) == Param(i)
  {
    UnifyBindsVisible(ty2, ty1, map[]);
    RoundTripIffInverse(m, UnifyTypes(ty2, ty1, map[]).1, ty1);
  }

  lemma InverseUnifiesBack(ty1: Ty, ty2: Ty, m: UnificationMap)
    requires IsRenaming(m) && ty2 == Apply(m, ty1) && Matchable(ty1)
    requires Visible(ty1) <= m.Keys && InjectiveOn(m, Visible(ty1))
    ensures UnifyTypes(ty2, ty1, map[]).0
  {
    var ps := Visible(ty1);
    var n := map i | i in ps :: m[i].ty.index := TypeArg(Param(i));
    assert Images(m, ps) <= n.Keys && IsRenaming(n);
    forall i | i in ps ensures Apply(n, Image(m, i)) == Param(i) {
      assert m[i].ty.index in n;
    }
    RoundTripIffInverse(m, n, ty1);
    ApplyKeepsShape(m, ps, ty1);
    RenamedTypeUnifies(ty2, ty1, n);
  }

  lemma RenamedTypeUnifies(ty: Ty, renamed: Ty, n: UnificationMap)
    requires IsRenaming(n) && Matchable(ty) && Visible(ty) <= n.Keys && Apply(n, ty) == renamed
    ensures UnifyTypes(ty, renamed, map[]).0
  {
    MatchesIffApply(n, ty, renamed);
    UnifyComplete(ty, renamed, map[], n);
  }

  /** `m` renames the visible parameters of `ty1` to different ones, and makes it `ty2`. */
  ghost predicate InvertiblyRenames(m: UnificationMap, ty1: Ty, ty2: Ty) {
    IsRenaming(m) && Visible(ty1) <= m.Keys && InjectiveOn(m, Visible(ty1)) && ty2 == Apply(m, ty1)
  }

  lemma BothDirectionsRename(ty1: Ty, ty2: Ty)
    requires UnifyTypes(ty1, ty2, map[]).0 && UnifyTypes(ty2, ty1, map[]).0
    ensures Matchable(ty1) && InvertiblyRenames(UnifyTypes(ty1, ty2, map[]).1, ty1, ty2)
  {
    var m := UnifyTypes(ty1, ty2, map[]).1;
    UnifyBindsVisible(ty1, ty2, map[]);
    forall i, j | i in Visible(ty1) && j in Visible(ty1) && Image(m, i) == Image(m, j) ensures i == j {
      BackwardMapInverts(ty1, ty2, m, i);
      BackwardMapInverts(ty1, ty2, m, j);
    }
  }

  lemma InvertibleRenamingUnifies(m: UnificationMap, ty1: Ty, ty2: Ty)
    requires Matchable(ty1) && InvertiblyRenames(m, ty1, ty2)
    ensures UnifyTypes(ty1, ty2, map[]).0 && UnifyTypes(ty2, ty1, map[]).0
  {
    RenamedTypeUnifies(ty1, ty2, m);
    InverseUnifiesBack(ty1, ty2, m);
  }

  /** Unification is one-way. It succeeds in both directions exactly when the left type can be matched at
      all and the right one is the left one with its visible parameters renamed injectively. */
  lemma UnifiesBackIffInjective(ty1: Ty, ty2: Ty)
    ensures UnifyTypes(ty1, ty2, map[]).0 && UnifyTypes(ty2, ty1, map[]).0 <==>
              Matchable(ty1) && exists m :: InvertiblyRenames(m, ty1, ty2)
  {
    if UnifyTypes(ty1, ty2, map[]).0 && UnifyTypes(ty2, ty1, map[]).0 {
      BothDirectionsRename(ty1, ty2);
    }
    if Matchable(ty1) {
      forall m | InvertiblyRenames(m, ty1, ty2) ensures UnifyTypes(ty1, ty2, map[]).0 && UnifyTypes(ty2, ty1, map[]).0 {
        InvertibleRenamingUnifies(m, ty1, ty2);
      }
    }
  }

  lemma {:induction false} ApplyIdentity(ty: Ty)
    ensures Apply(map[], ty) == ty
    decreases ty, 1
  {
    match ty
    case Adt(_, args) => ApplyIdentityList(args);
    case Ref(_, elem, _) => ApplyIdentity(elem);
    case RawPtr(elem, _) => ApplyIdentity(elem);
    case _ =>
  }

  lemma {:induction false} ApplyIdentityList(args: seq<GenericArg>)
    ensures ApplyList(map[], args) == args
    decreases args, 0
  {
    if args != [] {
      assert args decreases to args[0];
      if args[0].TypeArg? { ApplyIdentity(args[0].ty); }
      ApplyIdentityList(args[1..]);
      assert args == [args[0]] + args[1..];
    }
  }

  /** Concrete inputs on which the code is not "the same modulo renaming". */
  lemma ConstantsAndStaticRegionsNeverUnify()
    ensures !UnifyTypes(Adt(0, [ConstArg(3)]), Adt(0, [ConstArg(3)]), map[]).0
    ensures !UnifyTypes(Ref(ReStatic, Scalar(Bool), false), Ref(ReStatic, Scalar(Bool), false), map[]).0
  {
    assert !UnifyArgs(ConstArg(3), ConstArg(3), map[]).0;
    assert !UnifyGenericArgs([ConstArg(3)], [ConstArg(3)], map[]).0;
  }

  lemma TuplesAreNotRenamed()
    ensures !UnifyTypes(Tuple([Param(0)]), Tuple([Param(1)]), map[]).0
    ensures UnifyTypes(Tuple([Param(0)]), Tuple([Param(0)]), map[0 := TypeArg(Param(1))]).0
  {
    assert [Param(0)][0] != [Param(1)][0];
  }

  lemma RenamingMayMergeParameters()
    ensures var pair := (a: nat, b: nat) => Adt(0, [TypeArg(Param(a)), TypeArg(Param(b))]);
            UnifyTypes(pair(0, 1), pair(5, 5), map[]).0 && !UnifyTypes(pair(5, 5), pair(0, 1), map[]).0
  {
    var p := [TypeArg(Param(0)), TypeArg(Param(1))];
    var q := [TypeArg(Param(5)), TypeArg(Param(5))];
    var m := map[0 := TypeArg(Param(5))];
    assert p[1..] == [TypeArg(Param(1))] && q[1..] == [TypeArg(Param(5))];
    assert UnifyArgs(p[0], q[0], map[]) == (true, m);
    assert UnifyArgs(p[1], q[1], m).0;
    assert UnifyGenericArgs(p[1..], q[1..], m).0;
    assert UnifyGenericArgs(p, q, map[]).0;
    var n := map[5 := TypeArg(Param(0))];
    assert UnifyArgs(q[0], p[0], map[]) == (true, n);
    assert !UnifyArgs(q[1], p[1], n).0;
    assert !UnifyGenericArgs(q[1..], p[1..], n).0;
    assert !UnifyGenericArgs(q, p, map[]).0;
  }
}
