/** Structural comparison of regions, types, generic arguments and trait references. */
module RustCmp {
  import opened Wrappers
  import opened RustTypes

  datatype Ordering = Less | Equal | Greater

  /** The verdict of a comparison; `Panic` for the arms that are `unimplemented!` or `unreachable!`. */
  datatype Verdict = Is(ordering: Ordering) | Panic

  const EQUAL: Verdict := Is(Equal)

  function Compare(a: int, b: int): Verdict {
    if a < b then Is(Less) else if a == b then EQUAL else Is(Greater)
  }

  /** `then_with`: the second verdict is only looked at when the first is equality. */
  function Then(first: Verdict, second: Verdict): Verdict {
    if first == EQUAL then second else first
  }

  function Flip(v: Verdict): Verdict {
    match v
    case Is(Less) => Is(Greater)
    case Is(Greater) => Is(Less)
    case _ => v
  }

  /** The queries about definitions. A path is the byte string of `def_path_str`; `external` is the
      definition that a shim stands for. */
  datatype TyCtxt = TyCtxt(external: DefId -> Option<DefId>, defPathStr: DefId -> seq<nat>)

  function CompareBytes(a: seq<nat>, b: seq<nat>): Verdict {
    if a == [] then (if b == [] then EQUAL else Is(Less))
    else if b == [] then Is(Greater)
    else Then(Compare(a[0], b[0]), CompareBytes(a[1..], b[1..]))
  }

  function ExportPath(tcx: TyCtxt, did: DefId): seq<nat> {
    match tcx.external(did)
    case Some(e) => tcx.defPathStr(e)
    case None => tcx.defPathStr(did)
  }

  function CmpDefId(tcx: TyCtxt, a: DefId, b: DefId): Verdict {
    CompareBytes(ExportPath(tcx, a), ExportPath(tcx, b))
  }

  function RegionDiscriminant(r: Region): nat {
    match r
    case ReEarlyParam(_) => 0
    case ReBound(_, _) => 1
    case ReLateParam(_) => 2
    case ReStatic => 3
    case ReVar(_) => 4
    case RePlaceholder(_) => 5
    case ReErased => 6
    case ReError => 7
  }

  function CmpBoundVarIndexKind(a: BoundVarIndexKind, b: BoundVarIndexKind): Verdict {
    match (a, b)
    case (Canonical, Canonical) => EQUAL
    case (Canonical, _) => Is(Greater)
    case (Bound(d1), Bound(d2)) => Compare(d1, d2)
    case (Bound(_), Canonical) => Is(Less)
  }

  function CmpRegion(a: Region, b: Region): Verdict {
    Then(Compare(RegionDiscriminant(a), RegionDiscriminant(b)),
         match (a, b)
         case (ReEarlyParam(i), ReEarlyParam(j)) => Compare(i, j)
         case (ReBound(d1, v1), ReBound(d2, v2)) => Then(CmpBoundVarIndexKind(d1, d2), Compare(v1, v2))
         case (ReVar(i), ReVar(j)) => Compare(i, j)
         case (ReStatic, ReStatic) => EQUAL
         case (ReErased, ReErased) => EQUAL
         case (ReError, ReError) => EQUAL
         case _ => Panic)
  }

  const PARAM_DISCRIMINANT: nat := 23

  function DefDiscriminant(kind: DefKind): nat {
    match kind
    case FnDef => 12
    case Closure => 15
    case CoroutineClosure => 16
    case Coroutine => 17
    case CoroutineWitness => 18
  }

  function OpaqueDiscriminant(kind: OpaqueKind): nat {
    match kind
    case FnPtr => 13
    case Dynamic => 14
    case Pat => 21
    case BoundTy => 24
    case Placeholder => 25
    case Infer => 26
    case ErrorTy => 27
    case UnsafeBinder => 28
  }

  function ScalarDiscriminant(scalar: Scalar): nat {
    match scalar
    case Bool => 0
    case Char => 1
    case Int(_) => 2
    case Uint(_) => 3
    case Float(_) => 4
    case Str => 7
    case Never => 19
  }

  function TyDiscriminant(ty: Ty): nat {
    match ty
    case Scalar(scalar) => ScalarDiscriminant(scalar)
    case Adt(_, _) => 5
    case Foreign(_) => 6
    case Array(_, _) => 8
    case Slice(_) => 9
    case RawPtr(_, _) => 10
    case Ref(_, _, _) => 11
    case Def(kind, _, _) => DefDiscriminant(kind)
    case Tuple(_) => 20
    case Alias(_, _, _) => 22
    case Param(_) => PARAM_DISCRIMINANT
    case Opaque(kind, _) => OpaqueDiscriminant(kind)
  }

  /** Scalars of one kind are compared by their width. */
  function CmpScalar(a: Scalar, b: Scalar): Verdict {
    match (a, b)
    case (Int(i), Int(j)) => Compare(i, j)
    case (Uint(i), Uint(j)) => Compare(i, j)
    case (Float(i), Float(j)) => Compare(i, j)
    case _ => EQUAL
  }

  function CompareMutability(a: bool, b: bool): Verdict {
    Compare(if a then 1 else 0, if b then 1 else 0)
  }

  /** The comparators as they are for `repaired == false`. With `repaired == true`, comparing generic
      arguments has the arm that is missing in the source: a parameter also comes first when it is
      the second argument. */
  function CmpTy(tcx: TyCtxt, repaired: bool, a: Ty, b: Ty): Verdict
    decreases a, 1
  {
    if TyDiscriminant(a) != TyDiscriminant(b) then Compare(TyDiscriminant(a), TyDiscriminant(b))
    else
      match a
      case Scalar(scalar) => CmpScalar(scalar, b.scalar)
      case Adt(did, args) => Then(CmpDefId(tcx, did, b.did), CmpArgRefs(tcx, repaired, args, b.args))
      case Foreign(did) => CmpDefId(tcx, did, b.did)
      case Array(elem, _) => Then(CmpTy(tcx, repaired, elem, b.elem), Panic)
      case Slice(elem) => CmpTy(tcx, repaired, elem, b.elem)
      case RawPtr(elem, mutbl) => Then(CmpTy(tcx, repaired, elem, b.elem), CompareMutability(mutbl, b.mutbl))
      case Ref(r, elem, mutbl) =>
        Then(CmpRegion(r, b.region), Then(CmpTy(tcx, repaired, elem, b.elem), CompareMutability(mutbl, b.mutbl)))
      case Def(_, did, args) => Then(CmpDefId(tcx, did, b.did), CmpArgRefs(tcx, repaired, args, b.args))
      case Tuple(elems) => CmpElems(tcx, repaired, elems, b.elems)
      case Alias(kind, did, args) =>
        Then(Compare(kind, b.aliasKind), Then(CmpDefId(tcx, did, b.did), CmpArgRefs(tcx, repaired, args, b.args)))
      case Param(i) => Compare(i, b.index)
      case Opaque(_, _) => Panic
  }

  /** `Iterator::cmp_by` on the components of tuples. */
  function CmpElems(tcx: TyCtxt, repaired: bool, a: seq<Ty>, b: seq<Ty>): Verdict
    decreases a, 0
  {
    if a == [] then (if b == [] then EQUAL else Is(Less))
    else if b == [] then Is(Greater)
    else Then(CmpTy(tcx, repaired, a[0], b[0]), CmpElems(tcx, repaired, a[1..], b[1..]))
  }

  function CmpArgRef(tcx: TyCtxt, repaired: bool, a: GenericArg, b: GenericArg): Verdict
    decreases a, 2
  {
    match (a, b)
    case (TypeArg(t), TypeArg(u)) =>
      if t.Param? && u.Param? then Compare(t.index, u.index)
      else if t.Param? then Is(Less)
      else if repaired && u.Param? then Is(Greater)
      else CmpTy(tcx, repaired, t, u)
    case (LifetimeArg(r), LifetimeArg(s)) => CmpRegion(r, s)
    case _ => Panic
  }

  /** The elements of two lists of the same length, up to the first difference. */
  function CmpArgElems(tcx: TyCtxt, repaired: bool, a: seq<GenericArg>, b: seq<GenericArg>): Verdict
    requires |a| == |b|
    decreases a, 0
  {
    if a == [] then EQUAL
    else Then(CmpArgRef(tcx, repaired, a[0], b[0]), CmpArgElems(tcx, repaired, a[1..], b[1..]))
  }

  function CmpArgRefs(tcx: TyCtxt, repaired: bool, a: seq<GenericArg>, b: seq<GenericArg>): Verdict
    decreases a, 3
  {
    if |a| == |b| then CmpArgElems(tcx, repaired, a, b) else Compare(|a|, |b|)
  }

  /** Lists of types: their lengths first, then their elements up to the first difference. */
  function CmpTysVerdict(tcx: TyCtxt, repaired: bool, a: seq<Ty>, b: seq<Ty>): Verdict {
    Then(Compare(|a|, |b|), CmpElems(tcx, repaired, a, b))
  }

  method CmpTys(tcx: TyCtxt, a: seq<Ty>, b: seq<Ty>) returns (v: Verdict)
    ensures v == CmpTysVerdict(tcx, false, a, b)
  {
    v := Compare(|a|, |b|);
    if v != EQUAL { return; }
    for i := 0 to |a|
      invariant CmpElems(tcx, false, a, b) == CmpElems(tcx, false, a[i..], b[i..])
    {
      assert a[i..][0] == a[i] && b[i..][0] == b[i] && a[i..][1..] == a[i + 1..] && b[i..][1..] == b[i + 1..];
      v := CmpTy(tcx, false, a[i], b[i]);
      if v != EQUAL { return; }
    }
    v := EQUAL;
  }

  method CmpArgs(tcx: TyCtxt, a: seq<GenericArg>, b: seq<GenericArg>) returns (v: Verdict)
    ensures v == CmpArgRefs(tcx, false, a, b)
  {
    v := Compare(|a|, |b|);
    if v != EQUAL { return; }
    for i := 0 to |a|
      invariant CmpArgElems(tcx, false, a, b) == CmpArgElems(tcx, false, a[i..], b[i..])
    {
      assert a[i..][0] == a[i] && b[i..][0] == b[i] && a[i..][1..] == a[i + 1..] && b[i..][1..] == b[i + 1..];
      v := CmpArgRef(tcx, false, a[i], b[i]);
      if v != EQUAL { return; }
    }
    v := EQUAL;
  }

  datatype TraitRef = TraitRef(did: DefId, args: seq<GenericArg>) {
    /** Every trait reference has the type that implements the trait as its first argument. */
    predicate HasSelf() {
      args != [] && args[0].TypeArg?
    }
  }

  predicate IsSelfTrait(inTraitDecl: Option<DefId>, a: TraitRef)
    requires a.HasSelf()
  {
    inTraitDecl.Some? && a.did == inTraitDecl.value && a.args[0].ty == Param(0)
  }

  function CmpTraitRef(tcx: TyCtxt, repaired: bool, inTraitDecl: Option<DefId>, a: TraitRef, b: TraitRef): Verdict
    requires a.HasSelf() && b.HasSelf()
  {
    if IsSelfTrait(inTraitDecl, a) then Is(Greater)
    else if IsSelfTrait(inTraitDecl, b) then Is(Less)
    else Then(CmpDefId(tcx, a.did, b.did), CmpArgRefs(tcx, repaired, a.args, b.args))
  }
}
