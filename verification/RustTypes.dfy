/** The types of rustc that unification and comparison look into. Names of parameters are left out:
    inside one definition the index determines them. */
module RustTypes {

  type DefId = nat

  datatype BoundVarIndexKind = Canonical | Bound(depth: nat)

  datatype Region =
    | ReEarlyParam(index: nat)
    | ReBound(binder: BoundVarIndexKind, boundVar: nat)
    | ReLateParam(late: nat)
    | ReStatic
    | ReVar(vid: nat)
    | RePlaceholder(placeholder: nat)
    | ReErased
    | ReError

  datatype DefKind = FnDef | Closure | CoroutineClosure | Coroutine | CoroutineWitness

  datatype OpaqueKind = FnPtr | Dynamic | Pat | BoundTy | Placeholder | Infer | ErrorTy | UnsafeBinder

  /** The kinds of types that have no components. */
  datatype Scalar = Bool | Char | Str | Never | Int(width: nat) | Uint(width: nat) | Float(width: nat)

  datatype Ty =
    | Scalar(scalar: Scalar)
    | Adt(did: DefId, args: seq<GenericArg>)
    | Foreign(did: DefId)
    | Array(elem: Ty, len: nat)
    | Slice(elem: Ty)
    | RawPtr(elem: Ty, mutbl: bool)
    | Ref(region: Region, elem: Ty, mutbl: bool)
    | Def(kind: DefKind, did: DefId, args: seq<GenericArg>)
    | Tuple(elems: seq<Ty>)
    | Alias(aliasKind: nat, did: DefId, args: seq<GenericArg>)
    | Param(index: nat)
    | Opaque(opaque_: OpaqueKind, args: seq<GenericArg>)

  /** A constant is a value that is only ever compared as a whole. */
  datatype GenericArg =
    | TypeArg(ty: Ty)
    | LifetimeArg(lifetime: Region)
    | ConstArg(constant: nat)
}
