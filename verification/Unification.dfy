/** One-way unification of types: parameters of the first type are bound to parameters of the second. */
module Unification {
  import opened Wrappers
  import opened RustTypes

  type UnificationMap = map<nat, GenericArg>

  // ----- what the procedures compute -----

  function UnifyRegions(r1: Region, r2: Region): bool {
    r1.ReEarlyParam? && r2.ReEarlyParam? && r1.index == r2.index
  }

  /** The verdict and the map afterwards; a failing attempt keeps the bindings it made. */
  function UnifyTypes(ty1: Ty, ty2: Ty, m: UnificationMap): (bool, UnificationMap)
    decreases ty1, 1
  {
    match ty1
    case Adt(did, args1) =>
      if ty2.Adt? && did == ty2.did then UnifyGenericArgs(args1, ty2.args, m) else (false, m)
    case Ref(r1, elem, mutbl) =>
      if ty2.Ref? && mutbl == ty2.mutbl && UnifyRegions(r1, ty2.region) then UnifyTypes(elem, ty2.elem, m) else (false, m)
    case RawPtr(elem, mutbl) =>
      if ty2.RawPtr? && mutbl == ty2.mutbl then UnifyTypes(elem, ty2.elem, m) else (false, m)
    case Param(i) =>
      if !ty2.Param? then (false, m)
      else if i in m then (m[i] == TypeArg(Param(ty2.index)), m)
      else (true, m[i := TypeArg(ty2)])
    case _ => (ty1 == ty2, m)
  }

  function UnifyArgs(arg1: GenericArg, arg2: GenericArg, m: UnificationMap): (bool, UnificationMap)
    decreases arg1, 2
  {
    match arg1
    case TypeArg(ty1) => if arg2.TypeArg? then UnifyTypes(ty1, arg2.ty, m) else (false, m)
    case ConstArg(_) => (false, m)
    case LifetimeArg(r1) => (arg2.LifetimeArg? && UnifyRegions(r1, arg2.lifetime), m)
  }

  function UnifyGenericArgs(args1: seq<GenericArg>, args2: seq<GenericArg>, m: UnificationMap): (bool, UnificationMap)
    decreases args1, 0
  {
    if |args1| != |args2| then (false, m)
    else if args1 == [] then (true, m)
    else
      var (ok, m') := UnifyArgs(args1[0], args2[0], m);
      if ok then UnifyGenericArgs(args1[1..], args2[1..], m') else (false, m')
  }

  function ArgsUnifyTypes(reference: seq<GenericArg>, compare: seq<Option<GenericArg>>, m: UnificationMap): (bool,
                          UnificationMap)
  {
    if |reference| != |compare| then (false, m)
    else if reference == [] then (true, m)
    else if !reference[0].TypeArg? then ArgsUnifyTypes(reference[1..], compare[1..], m)
    else if !(compare[0].Some? && compare[0].value.TypeArg?) then (false, m)
    else
      var (ok, m') := UnifyTypes(reference[0].ty, compare[0].value.ty, m);
      if ok then ArgsUnifyTypes(reference[1..], compare[1..], m') else (false, m')
  }

  // ----- the imperative procedures -----

  class Unifier {
    var mapping: UnificationMap

    constructor (m: UnificationMap)
      ensures mapping == m
    {
      mapping := m;
    }

    method Types(ty1: Ty, ty2: Ty) returns (ok: bool)
      modifies this
      ensures (ok, mapping) == UnifyTypes(ty1, ty2, old(mapping))
      decreases ty1, 1
    {
      match ty1
      case Adt(did, args1) =>
        if !ty2.Adt? { return false; }
        if did != ty2.did { return false; }
        ok := GenericArgs(args1, ty2.args);
      case Ref(r1, elem, mutbl) =>
        if !ty2.Ref? { return false; }
        if mutbl != ty2.mutbl { return false; }
        if !UnifyRegions(r1, ty2.region) { return false; }
        ok := Types(elem, ty2.elem);
      case RawPtr(elem, mutbl) =>
        if !ty2.RawPtr? { return false; }
        if mutbl != ty2.mutbl { return false; }
        ok := Types(elem, ty2.elem);
      case Param(i) =>
        if !ty2.Param? { return false; }
        if i in mapping {
          var bound := mapping[i];
          return bound.TypeArg? && bound.ty.Param? && bound.ty.index == ty2.index;
        }
        mapping := mapping[i := TypeArg(ty2)];
        ok := true;
      case _ =>
        ok := ty1 == ty2;
    }

    method Args(arg1: GenericArg, arg2: GenericArg) returns (ok: bool)
      modifies this
      ensures (ok, mapping) == UnifyArgs(arg1, arg2, old(mapping))
      decreases arg1, 2
    {
      match arg1
      case TypeArg(ty1) =>
        if !arg2.TypeArg? { return false; }
        ok := Types(ty1, arg2.ty);
      case ConstArg(_) =>
        ok := false;
      case LifetimeArg(r1) =>
        if !arg2.LifetimeArg? { return false; }
        ok := UnifyRegions(r1, arg2.lifetime);
    }

    method GenericArgs(args1: seq<GenericArg>, args2: seq<GenericArg>) returns (ok: bool)
      modifies this
      ensures (ok, mapping) == UnifyGenericArgs(args1, args2, old(mapping))
      decreases args1, 0
    {
      if |args1| != |args2| { return false; }
      for i := 0 to |args1|
        invariant UnifyGenericArgs(args1, args2, old(mapping)) == UnifyGenericArgs(args1[i..], args2[i..], mapping)
      {
        assert args1[i] in args1 && args1[i..][0] == args1[i] && args2[i..][0] == args2[i];
        assert args1[i..][1..] == args1[i + 1..] && args2[i..][1..] == args2[i + 1..];
        var same := Args(args1[i], args2[i]);
        if !same { return false; }
      }
      ok := true;
    }

    method TypePositions(reference: seq<GenericArg>, compare: seq<Option<GenericArg>>) returns (ok: bool)
      modifies this
      ensures (ok, mapping) == ArgsUnifyTypes(reference, compare, old(mapping))
    {
      if |reference| != |compare| { return false; }
      for i := 0 to |reference|
        invariant ArgsUnifyTypes(reference, compare, old(mapping)) == ArgsUnifyTypes(reference[i..], compare[i..], mapping)
      {
        assert reference[i..][0] == reference[i] && compare[i..][0] == compare[i];
        assert reference[i..][1..] == reference[i + 1..] && compare[i..][1..] == compare[i + 1..];
        if !reference[i].TypeArg? { continue; }
        if compare[i].None? { return false; }
        if !compare[i].value.TypeArg? { return false; }
        var same := Types(reference[i].ty, compare[i].value.ty);
        if !same { return false; }
      }
      ok := true;
    }
  }
}
