/** In which sense the comparators are lawful orders, and exactly where they are not. */
module RustCmpTheorems {
  import opened Wrappers
  import opened RustTypes
  import opened RustCmp

  /** `xy`, `yz` and `xz` compare three values pairwise: if the first two are not `Greater` and do not
      panic, then the third does not panic either and is equality only if both are. */
  ghost predicate Transitive(xy: Verdict, yz: Verdict, xz: Verdict) {
    xy in {EQUAL, Is(Less)} && yz in {EQUAL, Is(Less)} ==> xz == Then(xy, yz)
  }

  lemma ThenIsTransitive(x1: Verdict, y1: Verdict, z1: Verdict, x2: Verdict, y2: Verdict, z2: Verdict)
    requires Transitive(x1, y1, z1)
    requires x1 == EQUAL && y1 == EQUAL ==> Transitive(x2, y2, z2)
    ensures Transitive(Then(x1, x2), Then(y1, y2), Then(z1, z2))
  {
  }

  // ----- paths and regions -----

  lemma {:induction false} BytesFlip(a: seq<nat>, b: seq<nat>)
    ensures CompareBytes(b, a) == Flip(CompareBytes(a, b))
    ensures CompareBytes(a, b) == EQUAL ==> a == b
    ensures CompareBytes(a, b) != Panic
  {
    if a != [] && b != [] {
      BytesFlip(a[1..], b[1..]);
      assert a == [a[0]] + a[1..] && b == [b[0]] + b[1..];
    }
  }

  lemma {:induction false} BytesTransitive(a: seq<nat>, b: seq<nat>, c: seq<nat>)
    ensures Transitive(CompareBytes(a, b), CompareBytes(b, c), CompareBytes(a, c))
  {
    if a != [] && b != [] && c != [] {
      BytesTransitive(a[1..], b[1..], c[1..]);
    }
  }

  /** `cmp_region` is a total order on the regions it can compare; a comparison panics in both
      directions or in none. */
  lemma RegionOrder(a: Region, b: Region, c: Region)
    ensures CmpRegion(b, a) == Flip(CmpRegion(a, b))
    ensures CmpRegion(a, b) == EQUAL ==> a == b
    ensures CmpRegion(a, a) == if a.ReLateParam? || a.RePlaceholder? then Panic else EQUAL
    ensures Transitive(CmpRegion(a, b), CmpRegion(b, c), CmpRegion(a, c))
  {
  }

  // ----- the repaired comparators -----

  ghost predicate TyFlips(tcx: TyCtxt, a: Ty, b: Ty) {
    CmpTy(tcx, true, b, a) == Flip(CmpTy(tcx, true, a, b))
  }

  lemma {:induction false} TyFlipInArgs(tcx: TyCtxt, a: Ty, b: Ty)
    requires TyDiscriminant(a) == TyDiscriminant(b) && (a.Adt? || a.Def? || a.Alias?)
    ensures TyFlips(tcx, a, b)
    decreases a, 0
  {
    DefIdFlip(tcx, a.did, b.did);
    ArgRefsFlip(tcx, a.args, b.args);
  }

  lemma {:induction false} TyFlipInElem(tcx: TyCtxt, a: Ty, b: Ty)
    requires TyDiscriminant(a) == TyDiscriminant(b) && (a.Array? || a.Slice? || a.RawPtr? || a.Ref?)
    ensures TyFlips(tcx, a, b)
    decreases a, 0
  {
    TyFlip(tcx, a.elem, b.elem);
    if a.Ref? { RegionOrder(a.region, b.region, a.region); }
  }

  lemma {:induction false} TyFlip(tcx: TyCtxt, a: Ty, b: Ty)
    ensures CmpTy(tcx, true, b, a) == Flip(CmpTy(tcx, true, a, b))
    decreases a, 1
  {
    if TyDiscriminant(a) == TyDiscriminant(b) {
      if a.Adt? || a.Def? || a.Alias? {
        TyFlipInArgs(tcx, a, b);
      } else if a.Array? || a.Slice? || a.RawPtr? || a.Ref? {
        TyFlipInElem(tcx, a, b);
      } else if a.Tuple? {
        ElemsFlip(tcx, a.elems, b.elems);
      } else if a.Foreign? {
        DefIdFlip(tcx, a.did, b.did);
      }
    }
  }

  lemma DefIdFlip(tcx: TyCtxt, a: DefId, b: DefId)
    ensures CmpDefId(tcx, b, a) == Flip(CmpDefId(tcx, a, b))
    ensures CmpDefId(tcx, a, b) == EQUAL <==> ExportPath(tcx, a) == ExportPath(tcx, b)
  {
    BytesFlip(ExportPath(tcx, a), ExportPath(tcx, b));
    BytesFlip(ExportPath(tcx, a), ExportPath(tcx, a));
  }

  lemma {:induction false} ElemsFlip(tcx: TyCtxt, a: seq<Ty>, b: seq<Ty>)
    ensures CmpElems(tcx, true, b, a) == Flip(CmpElems(tcx, true, a, b))
    decreases a, 0
  {
    if a != [] && b != [] {
      TyFlip(tcx, a[0], b[0]);
      ElemsFlip(tcx, a[1..], b[1..]);
    }
  }

  lemma {:induction false} ArgRefFlip(tcx: TyCtxt, a: GenericArg, b: GenericArg)
    ensures CmpArgRef(tcx, true, b, a) == Flip(CmpArgRef(tcx, true, a, b))
    decreases a, 2
  {
    match (a, b)
    case (TypeArg(t), TypeArg(u)) => TyFlip(tcx, t, u);
    case (LifetimeArg(r), LifetimeArg(s)) => RegionOrder(r, s, r);
    case _ =>
  }

  lemma {:induction false} ArgElemsFlip(tcx: TyCtxt, a: seq<GenericArg>, b: seq<GenericArg>)
    requires |a| == |b|
    ensures CmpArgElems(tcx, true, b, a) == Flip(CmpArgElems(tcx, true, a, b))
    decreases a, 0
  {
    if a != [] {
      ArgRefFlip(tcx, a[0], b[0]);
      ArgElemsFlip(tcx, a[1..], b[1..]);
    }
  }

  /** With the missing arm added, comparing in the other order gives the opposite verdict. */
  lemma {:induction false} ArgRefsFlip(tcx: TyCtxt, a: seq<GenericArg>, b: seq<GenericArg>)
    ensures CmpArgRefs(tcx, true, b, a) == Flip(CmpArgRefs(tcx, true, a, b))
    decreases a, 3
  {
    if |a| == |b| { ArgElemsFlip(tcx, a, b); }
  }

  ghost predicate TyTransitiveAt(tcx: TyCtxt, a: Ty, b: Ty, c: Ty) {
    Transitive(CmpTy(tcx, true, a, b), CmpTy(tcx, true, b, c), CmpTy(tcx, true, a, c))
  }

  lemma {:induction false} TyTransitiveInArgs(tcx: TyCtxt, a: Ty, b: Ty, c: Ty)
    requires TyDiscriminant(a) == TyDiscriminant(b) == TyDiscriminant(c) && (a.Adt? || a.Def? || a.Alias?)
    ensures TyTransitiveAt(tcx, a, b, c)
    decreases a, 0
  {
    DefIdTransitive(tcx, a.did, b.did, c.did);
    ArgRefsTransitive(tcx, a.args, b.args, c.args);
  }

  lemma {:induction false} TyTransitiveInRef(tcx: TyCtxt, a: Ty, b: Ty, c: Ty)
    requires a.Ref? && b.Ref? && c.Ref?
    ensures TyTransitiveAt(tcx, a, b, c)
    decreases a, 0
  {
    var v := (x: Ty, y: Ty) requires x.Ref? && y.Ref? => CmpTy(tcx, true, x.elem, y.elem);
    var w := (x: Ty, y: Ty) requires x.Ref? && y.Ref? => CompareMutability(x.mutbl, y.mutbl);
    RegionOrder(a.region, b.region, c.region);
    TyTransitive(tcx, a.elem, b.elem, c.elem);
    ThenIsTransitive(v(a, b), v(b, c), v(a, c), w(a, b), w(b, c), w(a, c));
    ThenIsTransitive(CmpRegion(a.region, b.region), CmpRegion(b.region, c.region), CmpRegion(a.region, c.region),
                     Then(v(a, b), w(a, b)), Then(v(b, c), w(b, c)), Then(v(a, c), w(a, c)));
  }

  lemma {:induction false} TyTransitiveInElem(tcx: TyCtxt, a: Ty, b: Ty, c: Ty)
    requires TyDiscriminant(a) == TyDiscriminant(b) == TyDiscriminant(c) && (a.Array? || a.Slice? || a.RawPtr?)
    ensures TyTransitiveAt(tcx, a, b, c)
    decreases a, 0
  {
    TyTransitive(tcx, a.elem, b.elem, c.elem);
  }

  lemma {:induction false} TyTransitive(tcx: TyCtxt, a: Ty, b: Ty, c: Ty)
    ensures Transitive(CmpTy(tcx, true, a, b), CmpTy(tcx, true, b, c), CmpTy(tcx, true, a, c))
    decreases a, 1
  {
    if TyDiscriminant(a) == TyDiscriminant(b) == TyDiscriminant(c) {
      if a.Adt? || a.Def? || a.Alias? {
        TyTransitiveInArgs(tcx, a, b, c);
      } else if a.Ref? {
        TyTransitiveInRef(tcx, a, b, c);
      } else if a.Array? || a.Slice? || a.RawPtr? {
        TyTransitiveInElem(tcx, a, b, c);
      } else if a.Tuple? {
        ElemsTransitive(tcx, a.elems, b.elems, c.elems);
      } else if a.Foreign? {
        DefIdTransitive(tcx, a.did, b.did, c.did);
      }
    }
  }

  lemma DefIdTransitive(tcx: TyCtxt, a: DefId, b: DefId, c: DefId)
    ensures Transitive(CmpDefId(tcx, a, b), CmpDefId(tcx, b, c), CmpDefId(tcx, a, c))
  {
    BytesTransitive(ExportPath(tcx, a), ExportPath(tcx, b), ExportPath(tcx, c));
  }

  lemma {:induction false} ElemsTransitive(tcx: TyCtxt, a: seq<Ty>, b: seq<Ty>, c: seq<Ty>)
    ensures Transitive(CmpElems(tcx, true, a, b), CmpElems(tcx, true, b, c), CmpElems(tcx, true, a, c))
    decreases a, 0
  {
    if a != [] && b != [] && c != [] {
      TyTransitive(tcx, a[0], b[0], c[0]);
      ElemsTransitive(tcx, a[1..], b[1..], c[1..]);
    }
  }

  lemma {:induction false} ArgRefTransitive(tcx: TyCtxt, a: GenericArg, b: GenericArg, c: GenericArg)
    ensures Transitive(CmpArgRef(tcx, true, a, b), CmpArgRef(tcx, true, b, c), CmpArgRef(tcx, true, a, c))
    decreases a, 2
  {
    match a
    case TypeArg(t) => if b.TypeArg? && c.TypeArg? { TyTransitive(tcx, t, b.ty, c.ty); }
    case LifetimeArg(r) => if b.LifetimeArg? && c.LifetimeArg? { RegionOrder(r, b.lifetime, c.lifetime); }
    case _ =>
  }

  lemma {:induction false} ArgElemsTransitive(tcx: TyCtxt, a: seq<GenericArg>, b: seq<GenericArg>, c: seq<GenericArg>)
    requires |a| == |b| == |c|
    ensures Transitive(CmpArgElems(tcx, true, a, b), CmpArgElems(tcx, true, b, c), CmpArgElems(tcx, true, a, c))
    decreases a, 0
  {
    if a != [] {
      ArgRefTransitive(tcx, a[0], b[0], c[0]);
      ArgElemsTransitive(tcx, a[1..], b[1..], c[1..]);
    }
  }

  lemma {:induction false} ArgRefsTransitive(tcx: TyCtxt, a: seq<GenericArg>, b: seq<GenericArg>, c: seq<GenericArg>)
    ensures Transitive(CmpArgRefs(tcx, true, a, b), CmpArgRefs(tcx, true, b, c), CmpArgRefs(tcx, true, a, c))
    decreases a, 3
  {
    if |a| == |b| == |c| { ArgElemsTransitive(tcx, a, b, c); }
  }

  /** All positions before `k` compare as equal, and the one at `k` gives `v`. */
  ghost predicate DecidedAt(tcx: TyCtxt, repaired: bool, a: seq<GenericArg>, b: seq<GenericArg>, k: nat, v: Verdict)
    requires |a| == |b|
  {
    && k < |a| && CmpArgRef(tcx, repaired, a[k], b[k]) == v
    && forall j :: 0 <= j < k ==> CmpArgRef(tcx, repaired, a[j], b[j]) == EQUAL
  }

  /** The loop answers what the first position that is not equal answers, and equality if there is none. */
  lemma {:induction false} FirstDifferenceDecides(tcx: TyCtxt, repaired: bool, a: seq<GenericArg>,
                                                  b: seq<GenericArg>, v: Verdict)
    requires |a| == |b| && v != EQUAL
    ensures CmpArgRefs(tcx, repaired, a, b) == v <==> exists k: nat :: DecidedAt(tcx, repaired, a, b, k, v)
  {
    if a != [] {
      FirstDifferenceDecides(tcx, repaired, a[1..], b[1..], v);
      if CmpArgRef(tcx, repaired, a[0], b[0]) == EQUAL {
        if k: nat :| DecidedAt(tcx, repaired, a, b, k, v) {
          assert DecidedAt(tcx, repaired, a[1..], b[1..], k - 1, v);
        }
        if k: nat :| DecidedAt(tcx, repaired, a[1..], b[1..], k, v) {
          forall j | 0 <= j < k + 1 ensures CmpArgRef(tcx, repaired, a[j], b[j]) == EQUAL {
            if j > 0 { assert CmpArgRef(tcx, repaired, a[1..][j - 1], b[1..][j - 1]) == EQUAL; }
          }
          assert DecidedAt(tcx, repaired, a, b, k + 1, v);
        }
      } else if CmpArgRef(tcx, repaired, a[0], b[0]) == v {
        assert DecidedAt(tcx, repaired, a, b, 0, v);
      }
    }
  }

  // ----- equality -----

  predicate SupportedRegion(r: Region) {
    !r.ReLateParam? && !r.RePlaceholder?
  }

  /** No unimplemented arm is reached inside the type: no array, no opaque type, no constant argument,
      no late-bound or placeholder region. */
  predicate SupportedTy(a: Ty)
    decreases a, 1
  {
    match a
    case Adt(_, args) => SupportedArgs(args)
    case Array(_, _) => false
    case Slice(elem) => SupportedTy(elem)
    case RawPtr(elem, _) => SupportedTy(elem)
    case Ref(r, elem, _) => SupportedRegion(r) && SupportedTy(elem)
    case Def(_, _, args) => SupportedArgs(args)
    case Tuple(elems) => SupportedTys(elems)
    case Alias(_, _, args) => SupportedArgs(args)
    case Opaque(_, _) => false
    case _ => true
  }

  predicate SupportedTys(a: seq<Ty>)
    decreases a, 0
  {
    a != [] ==> SupportedTy(a[0]) && SupportedTys(a[1..])
  }

  predicate SupportedArg(a: GenericArg)
    decreases a, 2
  {
    match a
    case TypeArg(ty) => SupportedTy(ty)
    case LifetimeArg(r) => SupportedRegion(r)
    case ConstArg(_) => false
  }

  predicate SupportedArgs(a: seq<GenericArg>)
    decreases a, 0
  {
    a != [] ==> SupportedArg(a[0]) && SupportedArgs(a[1..])
  }

  /** The same up to definitions with one path, and without a part that cannot be compared. */
  predicate AgreeTy(tcx: TyCtxt, a: Ty, b: Ty)
    decreases a, 1
  {
    && TyDiscriminant(a) == TyDiscriminant(b)
    && match a
       case Scalar(scalar) => scalar == b.scalar
       case Adt(did, args) => SamePath(tcx, did, b.did) && AgreeArgs(tcx, args, b.args)
       case Foreign(did) => SamePath(tcx, did, b.did)
       case Array(_, _) => false
       case Slice(elem) => AgreeTy(tcx, elem, b.elem)
       case RawPtr(elem, mutbl) => mutbl == b.mutbl && AgreeTy(tcx, elem, b.elem)
       case Ref(r, elem, mutbl) => AgreeRegion(r, b.region) && mutbl == b.mutbl && AgreeTy(tcx, elem, b.elem)
       case Def(_, did, args) => SamePath(tcx, did, b.did) && AgreeArgs(tcx, args, b.args)
       case Tuple(elems) => AgreeElems(tcx, elems, b.elems)
       case Alias(kind, did, args) => kind == b.aliasKind && SamePath(tcx, did, b.did) && AgreeArgs(tcx, args, b.args)
       case Param(i) => i == b.index
       case Opaque(_, _) => false
  }

  predicate SamePath(tcx: TyCtxt, a: DefId, b: DefId) {
    ExportPath(tcx, a) == ExportPath(tcx, b)
  }

  predicate AgreeRegion(r: Region, s: Region) {
    r == s && SupportedRegion(r)
  }

  predicate AgreeElems(tcx: TyCtxt, a: seq<Ty>, b: seq<Ty>)
    decreases a, 0
  {
    |a| == |b| && (a != [] ==> AgreeTy(tcx, a[0], b[0]) && AgreeElems(tcx, a[1..], b[1..]))
  }

  predicate AgreeArg(tcx: TyCtxt, a: GenericArg, b: GenericArg)
    decreases a, 2
  {
    match (a, b)
    case (TypeArg(t), TypeArg(u)) => AgreeTy(tcx, t, u)
    case (LifetimeArg(r), LifetimeArg(s)) => AgreeRegion(r, s)
    case _ => false
  }

  predicate AgreeArgs(tcx: TyCtxt, a: seq<GenericArg>, b: seq<GenericArg>)
    decreases a, 0
  {
    |a| == |b| && (a != [] ==> AgreeArg(tcx, a[0], b[0]) && AgreeArgs(tcx, a[1..], b[1..]))
  }

  lemma AgreeRegionIff(a: Region, b: Region)
    ensures CmpRegion(a, b) == EQUAL <==> AgreeRegion(a, b)
  {
    RegionOrder(a, b, a);
  }

  lemma AgreeTyFromArgs(tcx: TyCtxt, repaired: bool, a: Ty, b: Ty)
    requires TyDiscriminant(a) == TyDiscriminant(b) && (a.Adt? || a.Def? || a.Alias?)
    requires CmpArgRefs(tcx, repaired, a.args, b.args) == EQUAL <==> AgreeArgs(tcx, a.args, b.args)
    ensures CmpTy(tcx, repaired, a, b) == EQUAL <==> AgreeTy(tcx, a, b)
  {
    DefIdFlip(tcx, a.did, b.did);
  }

  lemma AgreeTyFromElem(tcx: TyCtxt, repaired: bool, a: Ty, b: Ty)
    requires TyDiscriminant(a) == TyDiscriminant(b) && (a.Array? || a.Slice? || a.RawPtr? || a.Ref?)
    requires CmpTy(tcx, repaired, a.elem, b.elem) == EQUAL <==> AgreeTy(tcx, a.elem, b.elem)
    ensures CmpTy(tcx, repaired, a, b) == EQUAL <==> AgreeTy(tcx, a, b)
  {
    if a.Ref? { AgreeRegionIff(a.region, b.region); }
  }

  predicate IsLeaf(a: Ty) {
    a.Scalar? || a.Foreign? || a.Param? || a.Opaque?
  }

  lemma AgreeLeaf(tcx: TyCtxt, repaired: bool, a: Ty, b: Ty)
    requires TyDiscriminant(a) == TyDiscriminant(b) && IsLeaf(a)
    ensures CmpTy(tcx, repaired, a, b) == EQUAL <==> AgreeTy(tcx, a, b)
  {
    if a.Foreign? { DefIdFlip(tcx, a.did, b.did); }
  }

  /** Types compare as equal exactly if they are the same up to paths and can be compared. */
  lemma {:induction false} TyEqualIffAgree(tcx: TyCtxt, repaired: bool, a: Ty, b: Ty)
    ensures CmpTy(tcx, repaired, a, b) == EQUAL <==> AgreeTy(tcx, a, b)
    decreases a, 1
  {
    if TyDiscriminant(a) == TyDiscriminant(b) {
      if a.Adt? || a.Def? || a.Alias? {
        ArgRefsEqualIffAgree(tcx, repaired, a.args, b.args);
        AgreeTyFromArgs(tcx, repaired, a, b);
      } else if a.Array? || a.Slice? || a.RawPtr? || a.Ref? {
        TyEqualIffAgree(tcx, repaired, a.elem, b.elem);
        AgreeTyFromElem(tcx, repaired, a, b);
      } else if a.Tuple? {
        ElemsEqualIffAgree(tcx, repaired, a.elems, b.elems);
      } else {
        AgreeLeaf(tcx, repaired, a, b);
      }
    }
  }

  lemma {:induction false} ElemsEqualIffAgree(tcx: TyCtxt, repaired: bool, a: seq<Ty>, b: seq<Ty>)
    ensures CmpElems(tcx, repaired, a, b) == EQUAL <==> AgreeElems(tcx, a, b)
    decreases a, 0
  {
    if a != [] && b != [] {
      TyEqualIffAgree(tcx, repaired, a[0], b[0]);
      ElemsEqualIffAgree(tcx, repaired, a[1..], b[1..]);
    }
  }

  lemma {:induction false} ArgEqualIffAgree(tcx: TyCtxt, repaired: bool, a: GenericArg, b: GenericArg)
    ensures CmpArgRef(tcx, repaired, a, b) == EQUAL <==> AgreeArg(tcx, a, b)
    decreases a, 2
  {
    match (a, b)
    case (TypeArg(t), TypeArg(u)) => TyEqualIffAgree(tcx, repaired, t, u);
    case (LifetimeArg(r), LifetimeArg(s)) => AgreeRegionIff(r, s);
    case _ =>
  }

  lemma {:induction false} ArgRefsEqualIffAgree(tcx: TyCtxt, repaired: bool, a: seq<GenericArg>, b: seq<GenericArg>)
    ensures CmpArgRefs(tcx, repaired, a, b) == EQUAL <==> AgreeArgs(tcx, a, b)
    decreases a, 0
  {
    if |a| == |b| && a != [] {
      assert a decreases to a[0];
      ArgEqualIffAgree(tcx, repaired, a[0], b[0]);
      ArgRefsEqualIffAgree(tcx, repaired, a[1..], b[1..]);
    }
  }

  /** Path strings tell definitions apart. */
  ghost predicate PathsIdentify(tcx: TyCtxt) {
    forall a, b :: ExportPath(tcx, a) == ExportPath(tcx, b) ==> a == b
  }

  lemma {:induction false} AgreeIffSame(tcx: TyCtxt, a: Ty, b: Ty)
    requires PathsIdentify(tcx)
    ensures AgreeTy(tcx, a, b) <==> a == b && SupportedTy(a)
    decreases a, 1
  {
    if TyDiscriminant(a) == TyDiscriminant(b) {
      match a
      case Adt(_, args) => AgreeArgsIffSame(tcx, args, b.args);
      case Slice(elem) => AgreeIffSame(tcx, elem, b.elem);
      case RawPtr(elem, _) => AgreeIffSame(tcx, elem, b.elem);
      case Ref(_, elem, _) => AgreeIffSame(tcx, elem, b.elem);
      case Def(_, _, args) => AgreeArgsIffSame(tcx, args, b.args);
      case Tuple(elems) => AgreeElemsIffSame(tcx, elems, b.elems);
      case Alias(_, _, args) => AgreeArgsIffSame(tcx, args, b.args);
      case _ =>
    }
  }

  lemma {:induction false} AgreeElemsIffSame(tcx: TyCtxt, a: seq<Ty>, b: seq<Ty>)
    requires PathsIdentify(tcx)
    ensures AgreeElems(tcx, a, b) <==> a == b && SupportedTys(a)
    decreases a, 0
  {
    if |a| == |b| && a != [] {
      AgreeIffSame(tcx, a[0], b[0]);
      AgreeElemsIffSame(tcx, a[1..], b[1..]);
      assert a == [a[0]] + a[1..] && b == [b[0]] + b[1..];
    }
  }

  lemma {:induction false} AgreeArgsIffSame(tcx: TyCtxt, a: seq<GenericArg>, b: seq<GenericArg>)
    requires PathsIdentify(tcx)
    ensures AgreeArgs(tcx, a, b) <==> a == b && SupportedArgs(a)
    decreases a, 0
  {
    if |a| == |b| && a != [] {
      assert a decreases to a[0];
      if a[0].TypeArg? && b[0].TypeArg? { AgreeIffSame(tcx, a[0].ty, b[0].ty); }
      AgreeArgsIffSame(tcx, a[1..], b[1..]);
      assert a == [a[0]] + a[1..] && b == [b[0]] + b[1..];
    }
  }

  /** When paths identify definitions, types compare as equal exactly if they are the same and supported. */
  lemma EqualTysAreSame(tcx: TyCtxt, repaired: bool, a: Ty, b: Ty)
    requires PathsIdentify(tcx)
    ensures CmpTy(tcx, repaired, a, b) == EQUAL <==> a == b && SupportedTy(a)
  {
    TyEqualIffAgree(tcx, repaired, a, b);
    AgreeIffSame(tcx, a, b);
  }

  /** The same for argument lists. */
  lemma EqualArgsAreSame(tcx: TyCtxt, repaired: bool, a: seq<GenericArg>, b: seq<GenericArg>)
    requires PathsIdentify(tcx)
    ensures CmpArgRefs(tcx, repaired, a, b) == EQUAL <==> a == b && SupportedArgs(a)
  {
    ArgRefsEqualIffAgree(tcx, repaired, a, b);
    AgreeArgsIffSame(tcx, a, b);
  }

  // ----- the comparators as they are -----

  /** The comparison is decided at a position where a parameter meets a type that is none and that
      comes before parameters in the order of type constructors. */
  predicate ClashArg(tcx: TyCtxt, a: GenericArg, b: GenericArg)
    decreases a, 2
  {
    && a.TypeArg? && b.TypeArg?
    && if a.ty.Param? then TyDiscriminant(b.ty) < PARAM_DISCRIMINANT
       else if b.ty.Param? then TyDiscriminant(a.ty) < PARAM_DISCRIMINANT
       else ClashTy(tcx, a.ty, b.ty)
  }

  predicate ClashArgElems(tcx: TyCtxt, a: seq<GenericArg>, b: seq<GenericArg>)
    decreases a, 0
  {
    && |a| == |b| && a != []
    && (ClashArg(tcx, a[0], b[0]) || (AgreeArg(tcx, a[0], b[0]) && ClashArgElems(tcx, a[1..], b[1..])))
  }

  predicate ClashElems(tcx: TyCtxt, a: seq<Ty>, b: seq<Ty>)
    decreases a, 0
  {
    && a != [] && b != []
    && (ClashTy(tcx, a[0], b[0]) || (AgreeTy(tcx, a[0], b[0]) && ClashElems(tcx, a[1..], b[1..])))
  }

  predicate ClashTy(tcx: TyCtxt, a: Ty, b: Ty)
    decreases a, 1
  {
    && TyDiscriminant(a) == TyDiscriminant(b)
    && match a
       case Adt(did, args) => SamePath(tcx, did, b.did) && ClashArgElems(tcx, args, b.args)
       case Array(elem, _) => ClashTy(tcx, elem, b.elem)
       case Slice(elem) => ClashTy(tcx, elem, b.elem)
       case RawPtr(elem, _) => ClashTy(tcx, elem, b.elem)
       case Ref(r, elem, _) => AgreeRegion(r, b.region) && ClashTy(tcx, elem, b.elem)
       case Def(_, did, args) => SamePath(tcx, did, b.did) && ClashArgElems(tcx, args, b.args)
       case Tuple(elems) => ClashElems(tcx, elems, b.elems)
       case Alias(kind, did, args) =>
         kind == b.aliasKind && SamePath(tcx, did, b.did) && ClashArgElems(tcx, args, b.args)
       case _ => false
  }

  /** A clash makes the comparators answer `Less` in both directions; without one they answer as the
      repaired ones do, in both directions. */
  ghost predicate ClashDecides(clash: bool, ab: Verdict, ba: Verdict, ab': Verdict, ba': Verdict) {
    if clash then ab == Is(Less) && ba == Is(Less) else ab == ab' && ba == ba'
  }

  ghost predicate TyClashDecides(tcx: TyCtxt, a: Ty, b: Ty) {
    ClashDecides(ClashTy(tcx, a, b), CmpTy(tcx, false, a, b), CmpTy(tcx, false, b, a),
                 CmpTy(tcx, true, a, b), CmpTy(tcx, true, b, a))
  }

  lemma {:induction false} TyClashInArgs(tcx: TyCtxt, a: Ty, b: Ty)
    requires TyDiscriminant(a) == TyDiscriminant(b) && (a.Adt? || a.Def? || a.Alias?)
    ensures TyClashDecides(tcx, a, b)
    decreases a, 0
  {
    ArgRefsClash(tcx, a.args, b.args);
    DefIdFlip(tcx, a.did, b.did);
  }

  lemma {:induction false} TyClashInElem(tcx: TyCtxt, a: Ty, b: Ty)
    requires TyDiscriminant(a) == TyDiscriminant(b) && (a.Array? || a.Slice? || a.RawPtr? || a.Ref?)
    ensures TyClashDecides(tcx, a, b)
    decreases a, 0
  {
    TyClash(tcx, a.elem, b.elem);
    if a.Ref? {
      RegionOrder(a.region, b.region, a.region);
      AgreeRegionIff(a.region, b.region);
    }
  }

  lemma {:induction false} TyClashInElems(tcx: TyCtxt, a: Ty, b: Ty)
    requires a.Tuple? && b.Tuple?
    ensures TyClashDecides(tcx, a, b)
    decreases a, 0
  {
    ElemsClash(tcx, a.elems, b.elems);
  }

  lemma LeafDiscriminant(a: Ty, b: Ty)
    requires TyDiscriminant(a) == TyDiscriminant(b)
    ensures IsLeaf(a) <==> IsLeaf(b)
  {
  }

  lemma LeafVerdict(tcx: TyCtxt, a: Ty, b: Ty)
    requires TyDiscriminant(a) != TyDiscriminant(b) || (IsLeaf(a) && IsLeaf(b))
    ensures !ClashTy(tcx, a, b) && CmpTy(tcx, false, a, b) == CmpTy(tcx, true, a, b)
  {
  }

  lemma {:induction false} TyClash(tcx: TyCtxt, a: Ty, b: Ty)
    ensures TyClashDecides(tcx, a, b)
    decreases a, 1
  {
    if TyDiscriminant(a) != TyDiscriminant(b) {
      LeafVerdict(tcx, a, b);
      LeafVerdict(tcx, b, a);
    } else if a.Adt? || a.Def? || a.Alias? {
      TyClashInArgs(tcx, a, b);
    } else if a.Array? || a.Slice? || a.RawPtr? || a.Ref? {
      TyClashInElem(tcx, a, b);
    } else if a.Tuple? {
      TyClashInElems(tcx, a, b);
    } else {
      LeafDiscriminant(a, b);
      LeafVerdict(tcx, a, b);
      LeafVerdict(tcx, b, a);
    }
  }

  lemma {:induction false} ElemsClash(tcx: TyCtxt, a: seq<Ty>, b: seq<Ty>)
    ensures ClashDecides(ClashElems(tcx, a, b), CmpElems(tcx, false, a, b), CmpElems(tcx, false, b, a),
                         CmpElems(tcx, true, a, b), CmpElems(tcx, true, b, a))
    decreases a, 0
  {
    if a != [] && b != [] {
      TyClash(tcx, a[0], b[0]);
      TyFlip(tcx, a[0], b[0]);
      TyEqualIffAgree(tcx, false, a[0], b[0]);
      ElemsClash(tcx, a[1..], b[1..]);
    }
  }

  lemma {:induction false} ArgRefClash(tcx: TyCtxt, a: GenericArg, b: GenericArg)
    ensures ClashDecides(ClashArg(tcx, a, b), CmpArgRef(tcx, false, a, b), CmpArgRef(tcx, false, b, a),
                         CmpArgRef(tcx, true, a, b), CmpArgRef(tcx, true, b, a))
    decreases a, 2
  {
    if a.TypeArg? && b.TypeArg? { TyClash(tcx, a.ty, b.ty); }
  }

  lemma {:induction false} ArgElemsClash(tcx: TyCtxt, a: seq<GenericArg>, b: seq<GenericArg>)
    requires |a| == |b|
    ensures ClashDecides(ClashArgElems(tcx, a, b), CmpArgElems(tcx, false, a, b), CmpArgElems(tcx, false, b, a),
                         CmpArgElems(tcx, true, a, b), CmpArgElems(tcx, true, b, a))
    decreases a, 0
  {
    if a != [] {
      ArgRefClash(tcx, a[0], b[0]);
      ArgRefFlip(tcx, a[0], b[0]);
      ArgEqualIffAgree(tcx, false, a[0], b[0]);
      ArgElemsClash(tcx, a[1..], b[1..]);
    }
  }

  lemma {:induction false} ArgRefsClash(tcx: TyCtxt, a: seq<GenericArg>, b: seq<GenericArg>)
    ensures ClashDecides(ClashArgElems(tcx, a, b), CmpArgRefs(tcx, false, a, b), CmpArgRefs(tcx, false, b, a),
                         CmpArgRefs(tcx, true, a, b), CmpArgRefs(tcx, true, b, a))
    decreases a, 3
  {
    if |a| == |b| { ArgElemsClash(tcx, a, b); }
  }

  /** `cmp_ty` is antisymmetric on a pair of types exactly when the pair has no clash. */
  lemma TyAntisymmetricIff(tcx: TyCtxt, a: Ty, b: Ty)
    ensures CmpTy(tcx, false, b, a) == Flip(CmpTy(tcx, false, a, b)) <==> !ClashTy(tcx, a, b)
  {
    TyClash(tcx, a, b);
    TyFlip(tcx, a, b);
  }

  /** `cmp_arg_refs` is antisymmetric on a pair of lists exactly when the pair has no clash. */
  lemma ArgRefsAntisymmetricIff(tcx: TyCtxt, a: seq<GenericArg>, b: seq<GenericArg>)
    ensures CmpArgRefs(tcx, false, b, a) == Flip(CmpArgRefs(tcx, false, a, b)) <==> !ClashArgElems(tcx, a, b)
  {
    ArgRefsClash(tcx, a, b);
    ArgRefsFlip(tcx, a, b);
  }

  predicate ClashTys(tcx: TyCtxt, a: seq<Ty>, b: seq<Ty>) {
    |a| == |b| && ClashElems(tcx, a, b)
  }

  /** `cmp_tys` is antisymmetric exactly when the lists differ in length or do not clash. */
  lemma TysAntisymmetricIff(tcx: TyCtxt, a: seq<Ty>, b: seq<Ty>)
    ensures CmpTysVerdict(tcx, false, b, a) == Flip(CmpTysVerdict(tcx, false, a, b)) <==> !ClashTys(tcx, a, b)
  {
    ElemsClash(tcx, a, b);
    ElemsFlip(tcx, a, b);
  }

  /** Comparing a type with itself gives equality exactly if the type is supported, and panics otherwise. */
  lemma {:induction false} TyReflexiveIff(tcx: TyCtxt, a: Ty)
    ensures CmpTy(tcx, false, a, a) == if SupportedTy(a) then EQUAL else Panic
    decreases a, 1
  {
    match a
    case Adt(did, args) => DefIdFlip(tcx, did, did); ArgElemsReflexiveIff(tcx, args);
    case Foreign(did) => DefIdFlip(tcx, did, did);
    case Array(elem, _) => TyReflexiveIff(tcx, elem);
    case Slice(elem) => TyReflexiveIff(tcx, elem);
    case RawPtr(elem, _) => TyReflexiveIff(tcx, elem);
    case Ref(r, elem, _) => RegionOrder(r, r, r); TyReflexiveIff(tcx, elem);
    case Def(_, did, args) => DefIdFlip(tcx, did, did); ArgElemsReflexiveIff(tcx, args);
    case Tuple(elems) => ElemsReflexiveIff(tcx, elems);
    case Alias(_, did, args) => DefIdFlip(tcx, did, did); ArgElemsReflexiveIff(tcx, args);
    case _ =>
  }

  lemma {:induction false} ElemsReflexiveIff(tcx: TyCtxt, a: seq<Ty>)
    ensures CmpElems(tcx, false, a, a) == if SupportedTys(a) then EQUAL else Panic
    decreases a, 0
  {
    if a != [] {
      TyReflexiveIff(tcx, a[0]);
      ElemsReflexiveIff(tcx, a[1..]);
    }
  }

  lemma {:induction false} ArgReflexiveIff(tcx: TyCtxt, a: GenericArg)
    ensures CmpArgRef(tcx, false, a, a) == if SupportedArg(a) then EQUAL else Panic
    decreases a, 2
  {
    match a
    case TypeArg(ty) => TyReflexiveIff(tcx, ty);
    case LifetimeArg(r) => RegionOrder(r, r, r);
    case ConstArg(_) =>
  }

  lemma {:induction false} ArgElemsReflexiveIff(tcx: TyCtxt, a: seq<GenericArg>)
    ensures CmpArgElems(tcx, false, a, a) == if SupportedArgs(a) then EQUAL else Panic
    decreases a, 0
  {
    if a != [] {
      ArgReflexiveIff(tcx, a[0]);
      ArgElemsReflexiveIff(tcx, a[1..]);
    }
  }

  /** Comparing a list with itself gives equality exactly if all its arguments are supported. */
  lemma ArgRefsReflexiveIff(tcx: TyCtxt, a: seq<GenericArg>)
    ensures CmpArgRefs(tcx, false, a, a) == if SupportedArgs(a) then EQUAL else Panic
  {
    ArgElemsReflexiveIff(tcx, a);
  }

  // ----- transitivity of the comparators as they are -----

  /** `cmp_arg_refs` as written is transitive on three lists that do not clash pairwise. */
  lemma ArgRefsTransitiveWithoutClash(tcx: TyCtxt, a: seq<GenericArg>, b: seq<GenericArg>, c: seq<GenericArg>)
    requires !ClashArgElems(tcx, a, b) && !ClashArgElems(tcx, b, c) && !ClashArgElems(tcx, a, c)
    ensures Transitive(CmpArgRefs(tcx, false, a, b), CmpArgRefs(tcx, false, b, c), CmpArgRefs(tcx, false, a, c))
  {
    ArgRefsClash(tcx, a, b);
    ArgRefsClash(tcx, b, c);
    ArgRefsClash(tcx, a, c);
    ArgRefsTransitive(tcx, a, b, c);
  }

  ghost predicate ArgRefsTransitiveOn(tcx: TyCtxt, s: set<seq<GenericArg>>) {
    forall a, b, c :: a in s && b in s && c in s ==>
      Transitive(CmpArgRefs(tcx, false, a, b), CmpArgRefs(tcx, false, b, c), CmpArgRefs(tcx, false, a, c))
  }

  /** `cmp_arg_refs` as written is transitive on a set of lists exactly when no two of them clash: two that
      clash are each less than the other, but none is less than itself. */
  lemma ArgRefsTransitiveIff(tcx: TyCtxt, s: set<seq<GenericArg>>)
    ensures ArgRefsTransitiveOn(tcx, s) <==> forall a, b :: a in s && b in s ==> !ClashArgElems(tcx, a, b)
  {
    forall a, b | a in s && b in s && ClashArgElems(tcx, a, b)
      ensures !Transitive(CmpArgRefs(tcx, false, a, b), CmpArgRefs(tcx, false, b, a), CmpArgRefs(tcx, false, a, a))
    {
      ArgRefsClash(tcx, a, b);
      ArgRefsReflexiveIff(tcx, a);
    }
    if forall a, b :: a in s && b in s ==> !ClashArgElems(tcx, a, b) {
      forall a, b, c | a in s && b in s && c in s
        ensures Transitive(CmpArgRefs(tcx, false, a, b), CmpArgRefs(tcx, false, b, c), CmpArgRefs(tcx, false, a, c))
      {
        ArgRefsTransitiveWithoutClash(tcx, a, b, c);
      }
    }
  }

  lemma TyTransitiveWithoutClash(tcx: TyCtxt, a: Ty, b: Ty, c: Ty)
    requires !ClashTy(tcx, a, b) && !ClashTy(tcx, b, c) && !ClashTy(tcx, a, c)
    ensures Transitive(CmpTy(tcx, false, a, b), CmpTy(tcx, false, b, c), CmpTy(tcx, false, a, c))
  {
    TyClash(tcx, a, b);
    TyClash(tcx, b, c);
    TyClash(tcx, a, c);
    TyTransitive(tcx, a, b, c);
  }

  ghost predicate TyTransitiveOn(tcx: TyCtxt, s: set<Ty>) {
    forall a, b, c :: a in s && b in s && c in s ==>
      Transitive(CmpTy(tcx, false, a, b), CmpTy(tcx, false, b, c), CmpTy(tcx, false, a, c))
  }

  /** The same for `cmp_ty`. */
  lemma TyTransitiveIff(tcx: TyCtxt, s: set<Ty>)
    ensures TyTransitiveOn(tcx, s) <==> forall a, b :: a in s && b in s ==> !ClashTy(tcx, a, b)
  {
    forall a, b | a in s && b in s && ClashTy(tcx, a, b)
      ensures !Transitive(CmpTy(tcx, false, a, b), CmpTy(tcx, false, b, a), CmpTy(tcx, false, a, a))
    {
      TyClash(tcx, a, b);
      TyReflexiveIff(tcx, a);
    }
    if forall a, b :: a in s && b in s ==> !ClashTy(tcx, a, b) {
      forall a, b, c | a in s && b in s && c in s
        ensures Transitive(CmpTy(tcx, false, a, b), CmpTy(tcx, false, b, c), CmpTy(tcx, false, a, c))
      {
        TyTransitiveWithoutClash(tcx, a, b, c);
      }
    }
  }

  lemma TysTransitiveWithoutClash(tcx: TyCtxt, a: seq<Ty>, b: seq<Ty>, c: seq<Ty>)
    requires !ClashTys(tcx, a, b) && !ClashTys(tcx, b, c) && !ClashTys(tcx, a, c)
    ensures Transitive(CmpTysVerdict(tcx, false, a, b), CmpTysVerdict(tcx, false, b, c), CmpTysVerdict(tcx, false, a, c))
  {
    ElemsClash(tcx, a, b);
    ElemsClash(tcx, b, c);
    ElemsClash(tcx, a, c);
    ElemsTransitive(tcx, a, b, c);
  }

  ghost predicate TysTransitiveOn(tcx: TyCtxt, s: set<seq<Ty>>) {
    forall a, b, c :: a in s && b in s && c in s ==>
      Transitive(CmpTysVerdict(tcx, false, a, b), CmpTysVerdict(tcx, false, b, c), CmpTysVerdict(tcx, false, a, c))
  }

  /** The same for `cmp_tys`. */
  lemma TysTransitiveIff(tcx: TyCtxt, s: set<seq<Ty>>)
    ensures TysTransitiveOn(tcx, s) <==> forall a, b :: a in s && b in s ==> !ClashTys(tcx, a, b)
  {
    forall a, b | a in s && b in s && ClashTys(tcx, a, b)
      ensures !Transitive(CmpTysVerdict(tcx, false, a, b), CmpTysVerdict(tcx, false, b, a), CmpTysVerdict(tcx, false, a, a))
    {
      ElemsClash(tcx, a, b);
      ElemsReflexiveIff(tcx, a);
    }
    if forall a, b :: a in s && b in s ==> !ClashTys(tcx, a, b) {
      forall a, b, c | a in s && b in s && c in s
        ensures Transitive(CmpTysVerdict(tcx, false, a, b), CmpTysVerdict(tcx, false, b, c), CmpTysVerdict(tcx, false, a, c))
      {
        TysTransitiveWithoutClash(tcx, a, b, c);
      }
    }
  }

  /** A concrete clash: `<T>` and `<bool>` are both less than the other. */
  lemma ParameterAgainstBool(tcx: TyCtxt)
    ensures var p, q := [TypeArg(Param(0))], [TypeArg(Scalar(Bool))];
            && CmpArgRefs(tcx, false, p, q) == Is(Less) && CmpArgRefs(tcx, false, q, p) == Is(Less)
            && CmpArgRefs(tcx, true, p, q) == Is(Less) && CmpArgRefs(tcx, true, q, p) == Is(Greater)
  {
    assert CmpArgRef(tcx, false, TypeArg(Scalar(Bool)), TypeArg(Param(0))) == Is(Less);
    assert CmpArgRef(tcx, true, TypeArg(Scalar(Bool)), TypeArg(Param(0))) == Is(Greater);
  }

  // ----- trait references -----

  /** Neither is the trait being declared, and the arguments decide and clash. */
  predicate ClashTraitRef(tcx: TyCtxt, decl: Option<DefId>, a: TraitRef, b: TraitRef)
    requires a.HasSelf() && b.HasSelf()
  {
    !IsSelfTrait(decl, a) && !IsSelfTrait(decl, b) && SamePath(tcx, a.did, b.did) && ClashArgElems(tcx, a.args, b.args)
  }

  /** `cmp_trait_ref` is antisymmetric on a pair exactly when not both are the trait being declared and
      the pair does not clash. Two references to the declared trait are each greater than the other. */
  lemma TraitRefAntisymmetricIff(tcx: TyCtxt, decl: Option<DefId>, a: TraitRef, b: TraitRef)
    requires a.HasSelf() && b.HasSelf()
    ensures CmpTraitRef(tcx, false, decl, b, a) == Flip(CmpTraitRef(tcx, false, decl, a, b)) <==>
              !(IsSelfTrait(decl, a) && IsSelfTrait(decl, b)) && !ClashTraitRef(tcx, decl, a, b)
  {
    DefIdFlip(tcx, a.did, b.did);
    ArgRefsClash(tcx, a.args, b.args);
    ArgRefsFlip(tcx, a.args, b.args);
  }

  /** The declared trait is greater even than itself; any other reference equals itself exactly if its
      arguments are supported, and panics otherwise. */
  lemma TraitRefReflexiveIff(tcx: TyCtxt, decl: Option<DefId>, a: TraitRef)
    requires a.HasSelf()
    ensures CmpTraitRef(tcx, false, decl, a, a) ==
              if IsSelfTrait(decl, a) then Is(Greater) else if SupportedArgs(a.args) then EQUAL else Panic
  {
    DefIdFlip(tcx, a.did, a.did);
    ArgRefsReflexiveIff(tcx, a.args);
  }

  /** With the missing arm added, `cmp_trait_ref` is transitive. */
  lemma TraitRefTransitive(tcx: TyCtxt, decl: Option<DefId>, a: TraitRef, b: TraitRef, c: TraitRef)
    requires a.HasSelf() && b.HasSelf() && c.HasSelf()
    ensures Transitive(CmpTraitRef(tcx, true, decl, a, b), CmpTraitRef(tcx, true, decl, b, c),
                       CmpTraitRef(tcx, true, decl, a, c))
  {
    DefIdTransitive(tcx, a.did, b.did, c.did);
    ArgRefsTransitive(tcx, a.args, b.args, c.args);
  }

  lemma TraitRefClash(tcx: TyCtxt, decl: Option<DefId>, a: TraitRef, b: TraitRef)
    requires a.HasSelf() && b.HasSelf()
    ensures ClashDecides(ClashTraitRef(tcx, decl, a, b),
                         CmpTraitRef(tcx, false, decl, a, b), CmpTraitRef(tcx, false, decl, b, a),
                         CmpTraitRef(tcx, true, decl, a, b), CmpTraitRef(tcx, true, decl, b, a))
  {
    DefIdFlip(tcx, a.did, b.did);
    ArgRefsClash(tcx, a.args, b.args);
  }

  ghost predicate TraitRefTransitiveOn(tcx: TyCtxt, decl: Option<DefId>, s: set<TraitRef>)
    requires forall a :: a in s ==> a.HasSelf()
  {
    forall a, b, c :: a in s && b in s && c in s ==>
      Transitive(CmpTraitRef(tcx, false, decl, a, b), CmpTraitRef(tcx, false, decl, b, c), CmpTraitRef(tcx, false, decl, a, c))
  }

  /** `cmp_trait_ref` as written is transitive on a set of trait references exactly when no two clash. */
  lemma TraitRefTransitiveIff(tcx: TyCtxt, decl: Option<DefId>, s: set<TraitRef>)
    requires forall a :: a in s ==> a.HasSelf()
    ensures TraitRefTransitiveOn(tcx, decl, s) <==> forall a, b :: a in s && b in s ==> !ClashTraitRef(tcx, decl, a, b)
  {
    forall a, b | a in s && b in s && ClashTraitRef(tcx, decl, a, b)
      ensures !Transitive(CmpTraitRef(tcx, false, decl, a, b), CmpTraitRef(tcx, false, decl, b, a),
                          CmpTraitRef(tcx, false, decl, a, a))
    {
      TraitRefClash(tcx, decl, a, b);
      TraitRefReflexiveIff(tcx, decl, a);
    }
    if forall a, b :: a in s && b in s ==> !ClashTraitRef(tcx, decl, a, b) {
      forall a, b, c | a in s && b in s && c in s
        ensures Transitive(CmpTraitRef(tcx, false, decl, a, b), CmpTraitRef(tcx, false, decl, b, c),
                           CmpTraitRef(tcx, false, decl, a, c))
      {
        TraitRefClash(tcx, decl, a, b);
        TraitRefClash(tcx, decl, b, c);
        TraitRefClash(tcx, decl, a, c);
        TraitRefTransitive(tcx, decl, a, b, c);
      }
    }
  }
}
