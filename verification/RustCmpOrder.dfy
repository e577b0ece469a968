/** Which of two values the comparators put first: the order that the source documents, stated without
    them. */
module RustCmpOrder {
  import opened Wrappers
  import opened RustTypes
  import opened RustCmp
  import opened RustCmpTheorems

  const LESS: Verdict := Is(Less)

  // ----- paths -----

  /** `a` and `b` agree on their first `k` bytes, and then `a` ends or has the smaller byte. */
  predicate SmallerAt(a: seq<nat>, b: seq<nat>, k: nat) {
    k <= |a| && k < |b| && a[..k] == b[..k] && (k == |a| || a[k] < b[k])
  }

  ghost predicate BytesBefore(a: seq<nat>, b: seq<nat>) {
    exists k: nat :: SmallerAt(a, b, k)
  }

  lemma {:induction false} BytesLessIff(a: seq<nat>, b: seq<nat>)
    ensures CompareBytes(a, b) == LESS <==> BytesBefore(a, b)
  {
    if b != [] && (a == [] || a[0] < b[0]) {
      assert SmallerAt(a, b, 0);
    } else if a != [] && b != [] && a[0] == b[0] {
      BytesLessIff(a[1..], b[1..]);
      if k: nat :| SmallerAt(a[1..], b[1..], k) {
        assert a[..k + 1] == [a[0]] + a[1..][..k] && b[..k + 1] == [b[0]] + b[1..][..k];
        assert SmallerAt(a, b, k + 1);
      }
      if k: nat :| SmallerAt(a, b, k) {
        assert a[1..][..k - 1] == a[..k][1..] && b[1..][..k - 1] == b[..k][1..];
        assert SmallerAt(a[1..], b[1..], k - 1);
      }
    } else if a != [] && b != [] {
      forall k: nat ensures !SmallerAt(a, b, k) {
        if 0 < k <= |a| && k < |b| { assert a[..k][0] == a[0] && b[..k][0] == b[0]; }
      }
    }
  }

  ghost predicate PathBefore(tcx: TyCtxt, a: DefId, b: DefId) {
    BytesBefore(ExportPath(tcx, a), ExportPath(tcx, b))
  }

  /** A definition that stands for an external one goes by the path of that one. */
  lemma ExportPathIs(tcx: TyCtxt, a: DefId)
    ensures tcx.external(a) == None ==> ExportPath(tcx, a) == tcx.defPathStr(a)
    ensures forall e :: tcx.external(a) == Some(e) ==> ExportPath(tcx, a) == tcx.defPathStr(e)
  {
  }

  /** `cmp_defid` puts the definition first whose path comes first. */
  lemma DefIdLessIff(tcx: TyCtxt, a: DefId, b: DefId)
    ensures CmpDefId(tcx, a, b) == LESS <==> PathBefore(tcx, a, b)
  {
    BytesLessIff(ExportPath(tcx, a), ExportPath(tcx, b));
  }

  // ----- regions -----

  /** The kinds of regions in the order of the source. */
  predicate IsRegionKind(k: nat, r: Region) {
    match k
    case 0 => r.ReEarlyParam?
    case 1 => r.ReBound?
    case 2 => r.ReLateParam?
    case 3 => r.ReStatic?
    case 4 => r.ReVar?
    case 5 => r.RePlaceholder?
    case 6 => r.ReErased?
    case 7 => r.ReError?
    case _ => false
  }

  ghost predicate RegionKindBefore(a: Region, b: Region) {
    exists i: nat, j: nat :: i < j && IsRegionKind(i, a) && IsRegionKind(j, b)
  }

  /** The canonical binder comes last, other binders from the inside out. */
  predicate BinderBefore(a: BoundVarIndexKind, b: BoundVarIndexKind) {
    a.Bound? && (b.Canonical? || a.depth < b.depth)
  }

  ghost predicate RegionBefore(a: Region, b: Region) {
    || RegionKindBefore(a, b)
    || (a.ReEarlyParam? && b.ReEarlyParam? && a.index < b.index)
    || (a.ReBound? && b.ReBound? && (BinderBefore(a.binder, b.binder) || (a.binder == b.binder && a.boundVar < b.boundVar)))
    || (a.ReVar? && b.ReVar? && a.vid < b.vid)
  }

  lemma RegionKindIsDiscriminant(k: nat, r: Region)
    ensures IsRegionKind(k, r) <==> RegionDiscriminant(r) == k
  {
  }

  lemma RegionKindBeforeIff(a: Region, b: Region)
    ensures RegionKindBefore(a, b) <==> RegionDiscriminant(a) < RegionDiscriminant(b)
  {
    forall k: nat ensures IsRegionKind(k, a) <==> RegionDiscriminant(a) == k { RegionKindIsDiscriminant(k, a); }
    forall k: nat ensures IsRegionKind(k, b) <==> RegionDiscriminant(b) == k { RegionKindIsDiscriminant(k, b); }
    RegionKindIsDiscriminant(RegionDiscriminant(a), a);
    RegionKindIsDiscriminant(RegionDiscriminant(b), b);
  }

  lemma RegionLessIff(a: Region, b: Region)
    ensures CmpRegion(a, b) == LESS <==> RegionBefore(a, b)
  {
    RegionKindBeforeIff(a, b);
  }

  // ----- types -----

  /** The kinds of types in the order of the source. */
  predicate IsTyKind(k: nat, ty: Ty) {
    match k
    case 0 => ty == Scalar(Bool)
    case 1 => ty == Scalar(Char)
    case 2 => ty.Scalar? && ty.scalar.Int?
    case 3 => ty.Scalar? && ty.scalar.Uint?
    case 4 => ty.Scalar? && ty.scalar.Float?
    case 5 => ty.Adt?
    case 6 => ty.Foreign?
    case 7 => ty == Scalar(Str)
    case 8 => ty.Array?
    case 9 => ty.Slice?
    case 10 => ty.RawPtr?
    case 11 => ty.Ref?
    case 12 => ty.Def? && ty.kind == FnDef
    case 13 => ty.Opaque? && ty.opaque_ == FnPtr
    case 14 => ty.Opaque? && ty.opaque_ == Dynamic
    case 15 => ty.Def? && ty.kind == Closure
    case 16 => ty.Def? && ty.kind == CoroutineClosure
    case 17 => ty.Def? && ty.kind == Coroutine
    case 18 => ty.Def? && ty.kind == CoroutineWitness
    case 19 => ty == Scalar(Never)
    case 20 => ty.Tuple?
    case 21 => ty.Opaque? && ty.opaque_ == Pat
    case 22 => ty.Alias?
    case 23 => ty.Param?
    case 24 => ty.Opaque? && ty.opaque_ == BoundTy
    case 25 => ty.Opaque? && ty.opaque_ == Placeholder
    case 26 => ty.Opaque? && ty.opaque_ == Infer
    case 27 => ty.Opaque? && ty.opaque_ == ErrorTy
    case 28 => ty.Opaque? && ty.opaque_ == UnsafeBinder
    case _ => false
  }

  ghost predicate KindBefore(a: Ty, b: Ty) {
    exists i: nat, j: nat :: i < j && IsTyKind(i, a) && IsTyKind(j, b)
  }

  ghost predicate SameKind(a: Ty, b: Ty) {
    exists i: nat :: IsTyKind(i, a) && IsTyKind(i, b)
  }

  lemma KindIsDiscriminant(k: nat, ty: Ty)
    ensures IsTyKind(k, ty) <==> TyDiscriminant(ty) == k
  {
  }

  lemma KindBeforeIff(a: Ty, b: Ty)
    ensures KindBefore(a, b) <==> TyDiscriminant(a) < TyDiscriminant(b)
  {
    KindIsDiscriminant(TyDiscriminant(a), a);
    KindIsDiscriminant(TyDiscriminant(b), b);
    forall i: nat, j: nat | i < j && IsTyKind(i, a) && IsTyKind(j, b) ensures TyDiscriminant(a) < TyDiscriminant(b) {
      KindIsDiscriminant(i, a);
      KindIsDiscriminant(j, b);
    }
  }

  lemma SameKindIff(a: Ty, b: Ty)
    ensures SameKind(a, b) <==> TyDiscriminant(a) == TyDiscriminant(b)
  {
    KindIsDiscriminant(TyDiscriminant(a), a);
    KindIsDiscriminant(TyDiscriminant(b), b);
    forall i: nat | IsTyKind(i, a) && IsTyKind(i, b) ensures TyDiscriminant(a) == TyDiscriminant(b) {
      KindIsDiscriminant(i, a);
      KindIsDiscriminant(i, b);
    }
  }

  lemma KindsIff(a: Ty, b: Ty)
    ensures KindBefore(a, b) <==> TyDiscriminant(a) < TyDiscriminant(b)
    ensures SameKind(a, b) <==> TyDiscriminant(a) == TyDiscriminant(b)
  {
    KindBeforeIff(a, b);
    SameKindIff(a, b);
  }

  predicate ScalarBefore(a: Scalar, b: Scalar) {
    || (a.Int? && b.Int? && a.width < b.width)
    || (a.Uint? && b.Uint? && a.width < b.width)
    || (a.Float? && b.Float? && a.width < b.width)
  }

  /** Types of one kind are ordered by their components, in the order in which the source looks at them;
      a component counts only where those before it agree. Immutable comes before mutable. */
  ghost predicate TyBefore(tcx: TyCtxt, repaired: bool, a: Ty, b: Ty)
    decreases a, 1
  {
    KindBefore(a, b) || (SameKind(a, b) &&
      match a
      case Scalar(scalar) => b.Scalar? && ScalarBefore(scalar, b.scalar)
      case Adt(did, args) => b.Adt? && DefinedBefore(tcx, repaired, did, args, b.did, b.args)
      case Foreign(did) => b.Foreign? && PathBefore(tcx, did, b.did)
      case Array(elem, _) => b.Array? && TyBefore(tcx, repaired, elem, b.elem)
      case Slice(elem) => b.Slice? && TyBefore(tcx, repaired, elem, b.elem)
      case RawPtr(elem, mutbl) => b.RawPtr? && PointeeBefore(tcx, repaired, elem, mutbl, b.elem, b.mutbl)
      case Ref(r, elem, mutbl) =>
        b.Ref? && (RegionBefore(r, b.region) ||
                   (AgreeRegion(r, b.region) && PointeeBefore(tcx, repaired, elem, mutbl, b.elem, b.mutbl)))
      case Def(_, did, args) => b.Def? && DefinedBefore(tcx, repaired, did, args, b.did, b.args)
      case Tuple(elems) => b.Tuple? && ElemsBefore(tcx, repaired, elems, b.elems)
      case Alias(kind, did, args) =>
        b.Alias? && (kind < b.aliasKind || (kind == b.aliasKind && DefinedBefore(tcx, repaired, did, args, b.did, b.args)))
      case Param(i) => b.Param? && i < b.index
      case Opaque(_, _) => false)
  }

  ghost predicate DefinedBefore(tcx: TyCtxt, repaired: bool, a: DefId, args: seq<GenericArg>, b: DefId, args': seq<GenericArg>)
    decreases args, 4
  {
    PathBefore(tcx, a, b) || (SamePath(tcx, a, b) && ArgsBefore(tcx, repaired, args, args'))
  }

  ghost predicate PointeeBefore(tcx: TyCtxt, repaired: bool, a: Ty, mutA: bool, b: Ty, mutB: bool)
    decreases a, 2
  {
    TyBefore(tcx, repaired, a, b) || (AgreeTy(tcx, a, b) && !mutA && mutB)
  }

  /** The components before `k` agree, and then `a` ends or has the component that comes first. */
  ghost predicate ElemsDecidedAt(tcx: TyCtxt, repaired: bool, a: seq<Ty>, b: seq<Ty>, k: nat)
    decreases a, 0
  {
    && k <= |a| && k < |b| && (forall j :: 0 <= j < k ==> AgreeTy(tcx, a[j], b[j]))
    && (k == |a| || TyBefore(tcx, repaired, a[k], b[k]))
  }

  ghost predicate ElemsBefore(tcx: TyCtxt, repaired: bool, a: seq<Ty>, b: seq<Ty>)
    decreases a, 1
  {
    exists k: nat :: ElemsDecidedAt(tcx, repaired, a, b, k)
  }

  /** A parameter comes before every other type; in the source this is so only when it is on the left. */
  ghost predicate ArgBefore(tcx: TyCtxt, repaired: bool, a: GenericArg, b: GenericArg)
    decreases a, 2
  {
    match (a, b)
    case (TypeArg(t), TypeArg(u)) =>
      if t.Param? then (u.Param? ==> t.index < u.index) else !(repaired && u.Param?) && TyBefore(tcx, repaired, t, u)
    case (LifetimeArg(r), LifetimeArg(s)) => RegionBefore(r, s)
    case _ => false
  }

  ghost predicate ArgsDecidedAt(tcx: TyCtxt, repaired: bool, a: seq<GenericArg>, b: seq<GenericArg>, k: nat)
    decreases a, 0
  {
    && k < |a| == |b| && (forall j :: 0 <= j < k ==> AgreeArg(tcx, a[j], b[j]))
    && assert a decreases to a[k]; ArgBefore(tcx, repaired, a[k], b[k])
  }

  /** The shorter list comes first; lists of one length are decided at the first position that differs. */
  ghost predicate ArgsBefore(tcx: TyCtxt, repaired: bool, a: seq<GenericArg>, b: seq<GenericArg>)
    decreases a, 1
  {
    |a| < |b| || exists k: nat :: ArgsDecidedAt(tcx, repaired, a, b, k)
  }

  // ----- the comparators answer `Less` exactly for what comes first -----

  lemma ElemsDecidedLater(tcx: TyCtxt, repaired: bool, a: seq<Ty>, b: seq<Ty>, k: nat)
    requires a != [] && b != []
    ensures ElemsDecidedAt(tcx, repaired, a, b, k + 1) <==>
              AgreeTy(tcx, a[0], b[0]) && ElemsDecidedAt(tcx, repaired, a[1..], b[1..], k)
  {
    if ElemsDecidedAt(tcx, repaired, a, b, k + 1) {
      forall j | 0 <= j < k ensures AgreeTy(tcx, a[1..][j], b[1..][j]) {
        assert AgreeTy(tcx, a[j + 1], b[j + 1]);
      }
    }
    if AgreeTy(tcx, a[0], b[0]) && ElemsDecidedAt(tcx, repaired, a[1..], b[1..], k) {
      forall j | 0 <= j < k + 1 ensures AgreeTy(tcx, a[j], b[j]) {
        if j > 0 { assert AgreeTy(tcx, a[1..][j - 1], b[1..][j - 1]); }
      }
    }
  }

  lemma ElemsBeforeStep(tcx: TyCtxt, repaired: bool, a: seq<Ty>, b: seq<Ty>)
    requires a != [] && b != []
    ensures ElemsBefore(tcx, repaired, a, b) <==>
              TyBefore(tcx, repaired, a[0], b[0]) ||
              (AgreeTy(tcx, a[0], b[0]) && ElemsBefore(tcx, repaired, a[1..], b[1..]))
  {
    assert ElemsDecidedAt(tcx, repaired, a, b, 0) <==> TyBefore(tcx, repaired, a[0], b[0]);
    if k: nat :| ElemsDecidedAt(tcx, repaired, a, b, k) {
      if k > 0 { ElemsDecidedLater(tcx, repaired, a, b, k - 1); }
    }
    if k: nat :| ElemsDecidedAt(tcx, repaired, a[1..], b[1..], k) {
      ElemsDecidedLater(tcx, repaired, a, b, k);
    }
  }

  lemma ArgsDecidedLater(tcx: TyCtxt, repaired: bool, a: seq<GenericArg>, b: seq<GenericArg>, k: nat)
    requires |a| == |b| && a != []
    ensures ArgsDecidedAt(tcx, repaired, a, b, k + 1) <==>
              AgreeArg(tcx, a[0], b[0]) && ArgsDecidedAt(tcx, repaired, a[1..], b[1..], k)
  {
    if ArgsDecidedAt(tcx, repaired, a, b, k + 1) {
      forall j | 0 <= j < k ensures AgreeArg(tcx, a[1..][j], b[1..][j]) {
        assert AgreeArg(tcx, a[j + 1], b[j + 1]);
      }
    }
    if AgreeArg(tcx, a[0], b[0]) && ArgsDecidedAt(tcx, repaired, a[1..], b[1..], k) {
      forall j | 0 <= j < k + 1 ensures AgreeArg(tcx, a[j], b[j]) {
        if j > 0 { assert AgreeArg(tcx, a[1..][j - 1], b[1..][j - 1]); }
      }
    }
  }

  lemma ArgsBeforeStep(tcx: TyCtxt, repaired: bool, a: seq<GenericArg>, b: seq<GenericArg>)
    requires |a| == |b| && a != []
    ensures ArgsBefore(tcx, repaired, a, b) <==>
              ArgBefore(tcx, repaired, a[0], b[0]) ||
              (AgreeArg(tcx, a[0], b[0]) && ArgsBefore(tcx, repaired, a[1..], b[1..]))
  {
    assert ArgsDecidedAt(tcx, repaired, a, b, 0) <==> ArgBefore(tcx, repaired, a[0], b[0]);
    if k: nat :| ArgsDecidedAt(tcx, repaired, a, b, k) {
      if k > 0 { ArgsDecidedLater(tcx, repaired, a, b, k - 1); }
    }
    if k: nat :| ArgsDecidedAt(tcx, repaired, a[1..], b[1..], k) {
      ArgsDecidedLater(tcx, repaired, a, b, k);
    }
  }

  lemma {:induction false} TyLessInArgs(tcx: TyCtxt, repaired: bool, a: Ty, b: Ty)
    requires TyDiscriminant(a) == TyDiscriminant(b) && (a.Adt? || a.Def? || a.Alias?)
    ensures CmpTy(tcx, repaired, a, b) == LESS <==> TyBefore(tcx, repaired, a, b)
    decreases a, 0
  {
    KindsIff(a, b);
    DefIdLessIff(tcx, a.did, b.did);
    DefIdFlip(tcx, a.did, b.did);
    ArgRefsLessIff(tcx, repaired, a.args, b.args);
  }

  lemma {:induction false} TyLessInElem(tcx: TyCtxt, repaired: bool, a: Ty, b: Ty)
    requires TyDiscriminant(a) == TyDiscriminant(b) && (a.Array? || a.Slice? || a.RawPtr? || a.Ref?)
    ensures CmpTy(tcx, repaired, a, b) == LESS <==> TyBefore(tcx, repaired, a, b)
    decreases a, 0
  {
    KindsIff(a, b);
    TyLessIff(tcx, repaired, a.elem, b.elem);
    TyEqualIffAgree(tcx, repaired, a.elem, b.elem);
    if a.Ref? {
      RegionLessIff(a.region, b.region);
      AgreeRegionIff(a.region, b.region);
    }
  }

  lemma {:induction false} TyLessInLeaf(tcx: TyCtxt, repaired: bool, a: Ty, b: Ty)
    requires TyDiscriminant(a) == TyDiscriminant(b) && IsLeaf(a)
    ensures CmpTy(tcx, repaired, a, b) == LESS <==> TyBefore(tcx, repaired, a, b)
  {
    KindsIff(a, b);
    if a.Foreign? { DefIdLessIff(tcx, a.did, b.did); }
  }

  /** `cmp_ty` answers `Less` exactly for the type that comes first in the documented order. */
  lemma {:induction false} TyLessIff(tcx: TyCtxt, repaired: bool, a: Ty, b: Ty)
    ensures CmpTy(tcx, repaired, a, b) == LESS <==> TyBefore(tcx, repaired, a, b)
    decreases a, 1
  {
    if TyDiscriminant(a) != TyDiscriminant(b) {
      KindsIff(a, b);
    } else if a.Adt? || a.Def? || a.Alias? {
      TyLessInArgs(tcx, repaired, a, b);
    } else if a.Array? || a.Slice? || a.RawPtr? || a.Ref? {
      TyLessInElem(tcx, repaired, a, b);
    } else if a.Tuple? {
      KindsIff(a, b);
      ElemsLessIff(tcx, repaired, a.elems, b.elems);
    } else {
      TyLessInLeaf(tcx, repaired, a, b);
    }
  }

  lemma {:induction false} ElemsLessIff(tcx: TyCtxt, repaired: bool, a: seq<Ty>, b: seq<Ty>)
    ensures CmpElems(tcx, repaired, a, b) == LESS <==> ElemsBefore(tcx, repaired, a, b)
    decreases a, 0
  {
    if a == [] && b != [] {
      assert ElemsDecidedAt(tcx, repaired, a, b, 0);
    } else if a != [] && b != [] {
      TyLessIff(tcx, repaired, a[0], b[0]);
      TyEqualIffAgree(tcx, repaired, a[0], b[0]);
      ElemsLessIff(tcx, repaired, a[1..], b[1..]);
      ElemsBeforeStep(tcx, repaired, a, b);
    }
  }

  lemma {:induction false} ArgLessIff(tcx: TyCtxt, repaired: bool, a: GenericArg, b: GenericArg)
    ensures CmpArgRef(tcx, repaired, a, b) == LESS <==> ArgBefore(tcx, repaired, a, b)
    decreases a, 2
  {
    match (a, b)
    case (TypeArg(t), TypeArg(u)) => TyLessIff(tcx, repaired, t, u);
    case (LifetimeArg(r), LifetimeArg(s)) => RegionLessIff(r, s);
    case _ =>
  }

  /** The same for `cmp_arg_refs`. */
  lemma {:induction false} ArgRefsLessIff(tcx: TyCtxt, repaired: bool, a: seq<GenericArg>, b: seq<GenericArg>)
    ensures CmpArgRefs(tcx, repaired, a, b) == LESS <==> ArgsBefore(tcx, repaired, a, b)
    decreases a, 0
  {
    if |a| == |b| && a != [] {
      assert a decreases to a[0];
      ArgLessIff(tcx, repaired, a[0], b[0]);
      ArgEqualIffAgree(tcx, repaired, a[0], b[0]);
      ArgRefsLessIff(tcx, repaired, a[1..], b[1..]);
      ArgsBeforeStep(tcx, repaired, a, b);
    }
  }

  /** The same for `cmp_tys`: the shorter list comes first. */
  lemma TysLessIff(tcx: TyCtxt, repaired: bool, a: seq<Ty>, b: seq<Ty>)
    ensures CmpTysVerdict(tcx, repaired, a, b) == LESS <==> |a| < |b| || (|a| == |b| && ElemsBefore(tcx, repaired, a, b))
  {
    ElemsLessIff(tcx, repaired, a, b);
  }

  /** The trait being declared comes last; otherwise the paths decide, and then the arguments. */
  ghost predicate TraitRefBefore(tcx: TyCtxt, repaired: bool, decl: Option<DefId>, a: TraitRef, b: TraitRef)
    requires a.HasSelf() && b.HasSelf()
  {
    !IsDeclared(decl, a) && (IsDeclared(decl, b) || DefinedBefore(tcx, repaired, a.did, a.args, b.did, b.args))
  }

  /** The reference `Self: Trait` to the trait whose declaration is translated. */
  predicate IsDeclared(decl: Option<DefId>, a: TraitRef)
    requires a.HasSelf()
  {
    decl == Some(a.did) && a.args[0] == TypeArg(Param(0))
  }

  lemma TraitRefLessIff(tcx: TyCtxt, repaired: bool, decl: Option<DefId>, a: TraitRef, b: TraitRef)
    requires a.HasSelf() && b.HasSelf()
    ensures CmpTraitRef(tcx, repaired, decl, a, b) == LESS <==> TraitRefBefore(tcx, repaired, decl, a, b)
  {
    DefIdLessIff(tcx, a.did, b.did);
    DefIdFlip(tcx, a.did, b.did);
    ArgRefsLessIff(tcx, repaired, a.args, b.args);
  }

  // ----- and `Greater` for what comes last, unless there is a clash -----

  lemma GreaterIff(clash: bool, before: bool, ab: Verdict, ba: Verdict, ab': Verdict, ba': Verdict)
    requires ClashDecides(clash, ab, ba, ab', ba') && ba' == Flip(ab') && (ba' == LESS <==> before)
    ensures ab == Is(Greater) <==> !clash && before
  {
  }

  /** As written, `cmp_ty` answers `Greater` exactly if there is no clash and the other type comes first. */
  lemma TyGreaterIff(tcx: TyCtxt, a: Ty, b: Ty)
    ensures CmpTy(tcx, false, a, b) == Is(Greater) <==> !ClashTy(tcx, a, b) && TyBefore(tcx, true, b, a)
  {
    TyClash(tcx, a, b);
    TyFlip(tcx, a, b);
    TyLessIff(tcx, true, b, a);
    GreaterIff(ClashTy(tcx, a, b), TyBefore(tcx, true, b, a), CmpTy(tcx, false, a, b), CmpTy(tcx, false, b, a),
               CmpTy(tcx, true, a, b), CmpTy(tcx, true, b, a));
  }

  lemma ArgRefsGreaterIff(tcx: TyCtxt, a: seq<GenericArg>, b: seq<GenericArg>)
    ensures CmpArgRefs(tcx, false, a, b) == Is(Greater) <==> !ClashArgElems(tcx, a, b) && ArgsBefore(tcx, true, b, a)
  {
    ArgRefsClash(tcx, a, b);
    ArgRefsFlip(tcx, a, b);
    ArgRefsLessIff(tcx, true, b, a);
  }

  lemma TysGreaterIff(tcx: TyCtxt, a: seq<Ty>, b: seq<Ty>)
    ensures CmpTysVerdict(tcx, false, a, b) == Is(Greater) <==>
              |a| > |b| || (|a| == |b| && !ClashTys(tcx, a, b) && ElemsBefore(tcx, true, b, a))
  {
    ElemsClash(tcx, a, b);
    ElemsFlip(tcx, a, b);
    ElemsLessIff(tcx, true, b, a);
  }

  lemma TraitRefGreaterIff(tcx: TyCtxt, decl: Option<DefId>, a: TraitRef, b: TraitRef)
    requires a.HasSelf() && b.HasSelf()
    ensures CmpTraitRef(tcx, false, decl, a, b) == Is(Greater) <==>
              IsDeclared(decl, a) || (!ClashTraitRef(tcx, decl, a, b) && TraitRefBefore(tcx, true, decl, b, a))
  {
    DefIdLessIff(tcx, b.did, a.did);
    DefIdFlip(tcx, a.did, b.did);
    ArgRefsGreaterIff(tcx, a.args, b.args);
  }
}
