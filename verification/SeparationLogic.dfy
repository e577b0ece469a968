/** Separation-logic propositions, the pure terms they may be turned into, and what both mean. */
module SeparationLogic {
  import opened Wrappers

  datatype Binder = Binder(name: string, sort: string)

  /** Rocq terms, as far as pure propositions need them; a literal is arbitrary text. */
  datatype Term =
    | Literal(text: string)
    | Infix(op: string, terms: seq<Term>)
    | AllTerm(binders: seq<Binder>, body: Term)

  datatype IProp =
    | True
    | Atom(text: string)
    | Pure(term: Term)
    | Sep(props: seq<IProp>)
    | Disj(props: seq<IProp>)
    | Conj(props: seq<IProp>)
    | Wand(premise: IProp, conclusion: IProp)
    | Exists(binders: seq<Binder>, body: IProp)
    | All(binders: seq<Binder>, body: IProp)

  // ----- the code -----

  function TryToPure(p: IProp): Option<Term>
    decreases p, 1
  {
    match p
    case True => Some(Literal("True"))
    case Pure(t) => Some(t)
    case Sep(props) =>
      (match TryAllToPure(props) case Some(ts) => Some(Infix("\U{2227}", ts)) case None => None)
    case Conj(props) =>
      (match TryAllToPure(props) case Some(ts) => Some(Infix("\U{2227}", ts)) case None => None)
    case Disj(props) =>
      (match TryAllToPure(props) case Some(ts) => Some(Infix("\U{2228}", ts)) case None => None)
    case All(binders, body) =>
      (match TryToPure(body) case Some(t) => Some(AllTerm(binders, t)) case None => None)
    case _ => None
  }

  function TryAllToPure(props: seq<IProp>): (r: Option<seq<Term>>)
    ensures r.Some? ==> |r.value| == |props|
    decreases props, 0
  {
    if props == [] then Some([])
    else
      match (TryToPure(props[0]), TryAllToPure(props[1..]))
      case (Some(t), Some(ts)) => Some([t] + ts)
      case _ => None
  }

  function Purify(p: IProp): IProp {
    match TryToPure(p)
    case Some(t) => Pure(t)
    case None => p
  }

  // ----- meaning -----

  /** A model: values for variables, resources with a partial composition, and the meaning of the
      text that the code treats as opaque. */
  datatype Model<!V, !R> = Model(
    literal: (string, map<string, V>) -> bool,
    infix: (string, seq<Term>, map<string, V>) -> bool,
    atom: (string, map<string, V>, R) -> bool,
    hasSort: (V, string) -> bool,
    compose: (R, R) -> Option<R>)

  ghost predicate Composes<V, R>(m: Model<V, R>, x: R, y: R, r: R) {
    m.compose(x, y) == Some(r)
  }

  /** The text `True` is true, and every resource can be split, say into itself and a unit. Pure
      propositions own nothing and hold of every resource. */
  ghost predicate EveryResourceSplits<V(!new), R(!new)>(m: Model<V, R>) {
    && (forall env :: m.literal("True", env))
    && (forall r :: Splits(m, r))
  }

  ghost predicate Splits<V, R(!new)>(m: Model<V, R>, r: R) {
    exists x, y :: Composes(m, x, y, r)
  }

  /** The signs that Rocq reads as conjunction and disjunction. */
  const AND := "\U{2227}"
  const OR := "\U{2228}"

  /** A term as it prints; an infix operator without operands prints as `True`. */
  ghost predicate TermHolds<V(!new), R(!new)>(m: Model<V, R>, t: Term, env: map<string, V>)
    decreases t, 0
  {
    match t
    case Literal(text) => m.literal(text, env)
    case Infix(op, terms) =>
      terms == [] ||
      if op == AND then forall i :: 0 <= i < |terms| ==> TermHolds(m, terms[i], env)
      else if op == OR then exists i :: 0 <= i < |terms| && TermHolds(m, terms[i], env)
      else m.infix(op, terms, env)
    case AllTerm(binders, body) => AllTermHolds(m, binders, body, env)
  }

  ghost predicate AllTermHolds<V(!new), R(!new)>(m: Model<V, R>, binders: seq<Binder>, body: Term, env: map<string, V>)
    decreases body, 1, |binders|
  {
    if binders == [] then TermHolds(m, body, env)
    else forall v :: m.hasSort(v, binders[0].sort) ==> AllTermHolds(m, binders[1..], body, env[binders[0].name := v])
  }

  /** A proposition as it prints; a connective without operands prints as `True`. */
  ghost predicate Holds<V(!new), R(!new)>(m: Model<V, R>, p: IProp, env: map<string, V>, r: R)
    decreases p, 1, 0
  {
    match p
    case True => true
    case Atom(text) => m.atom(text, env, r)
    case Pure(t) => TermHolds(m, t, env)
    case Sep(props) => SepHolds(m, props, env, r)
    case Disj(props) => props == [] || exists i :: 0 <= i < |props| && Holds(m, props[i], env, r)
    case Conj(props) => forall i :: 0 <= i < |props| ==> Holds(m, props[i], env, r)
    case Wand(premise, conclusion) =>
      forall x, y :: Composes(m, r, x, y) && Holds(m, premise, env, x) ==> Holds(m, conclusion, env, y)
    case Exists(binders, body) => ExistsHolds(m, binders, body, env, r)
    case All(binders, body) => AllHolds(m, binders, body, env, r)
  }

  /** Separating conjunction associates to the right; one operand stands for itself. */
  ghost predicate SepHolds<V(!new), R(!new)>(m: Model<V, R>, props: seq<IProp>, env: map<string, V>, r: R)
    decreases props, 0, 0
  {
    if props == [] then true
    else if |props| == 1 then Holds(m, props[0], env, r)
    else exists x, y :: Composes(m, x, y, r) && Holds(m, props[0], env, x) && SepHolds(m, props[1..], env, y)
  }

  ghost predicate AllHolds<V(!new), R(!new)>(m: Model<V, R>, binders: seq<Binder>, body: IProp, env: map<string, V>, r: R)
    decreases body, 2, |binders|
  {
    if binders == [] then Holds(m, body, env, r)
    else forall v :: m.hasSort(v, binders[0].sort) ==> AllHolds(m, binders[1..], body, env[binders[0].name := v], r)
  }

  ghost predicate ExistsHolds<V(!new), R(!new)>(m: Model<V, R>, binders: seq<Binder>, body: IProp, env: map<string, V>, r: R)
    decreases body, 2, |binders|
  {
    if binders == [] then Holds(m, body, env, r)
    else exists v :: m.hasSort(v, binders[0].sort) && ExistsHolds(m, binders[1..], body, env[binders[0].name := v], r)
  }

  // ----- purification preserves meaning -----

  lemma {:induction false} PureFormHasSameMeaning<V(!new), R(!new)>(m: Model<V, R>, p: IProp, env: map<string, V>, r: R)
    requires EveryResourceSplits(m) && TryToPure(p).Some?
    ensures Holds(m, p, env, r) <==> TermHolds(m, TryToPure(p).value, env)
    decreases p, 1, 0
  {
    match p
    case Sep(props) => SepOfPure(m, props, env, r);
    case Conj(props) =>
      forall i | 0 <= i < |props|
        ensures Holds(m, props[i], env, r) <==> TermHolds(m, TryAllToPure(props).value[i], env)
      {
        PureOperand(props, i);
        PureFormHasSameMeaning(m, props[i], env, r);
      }
    case Disj(props) =>
      forall i | 0 <= i < |props|
        ensures Holds(m, props[i], env, r) <==> TermHolds(m, TryAllToPure(props).value[i], env)
      {
        PureOperand(props, i);
        PureFormHasSameMeaning(m, props[i], env, r);
      }
    case All(binders, body) => AllOfPure(m, binders, body, env, r);
    case _ =>
  }

  lemma {:induction false} PureOperand(props: seq<IProp>, i: nat)
    requires TryAllToPure(props).Some? && i < |props|
    ensures TryToPure(props[i]) == Some(TryAllToPure(props).value[i])
  {
    if i > 0 { PureOperand(props[1..], i - 1); }
  }

  ghost predicate AllTermsHold<V(!new), R(!new)>(m: Model<V, R>, ts: seq<Term>, env: map<string, V>) {
    forall i :: 0 <= i < |ts| ==> TermHolds(m, ts[i], env)
  }

  lemma AllTermsHoldStep<V(!new), R(!new)>(m: Model<V, R>, t: Term, ts: seq<Term>, env: map<string, V>)
    ensures AllTermsHold(m, [t] + ts, env) <==> TermHolds(m, t, env) && AllTermsHold(m, ts, env)
  {
    var all := [t] + ts;
    if AllTermsHold(m, all, env) {
      assert TermHolds(m, all[0], env);
      forall i | 0 <= i < |ts| ensures TermHolds(m, ts[i], env) { assert TermHolds(m, all[i + 1], env); }
    }
  }

  /** Pure propositions need no resources, so separating them is conjoining them. */
  lemma {:induction false} SepOfPure<V(!new), R(!new)>(m: Model<V, R>, props: seq<IProp>, env: map<string, V>, r: R)
    requires EveryResourceSplits(m) && TryAllToPure(props).Some?
    ensures SepHolds(m, props, env, r) <==> AllTermsHold(m, TryAllToPure(props).value, env)
    decreases props, 0, 0
  {
    if props != [] {
      var t, rest := TryToPure(props[0]).value, TryAllToPure(props[1..]).value;
      AllTermsHoldStep(m, t, rest, env);
      assert Splits(m, r);
      var x, y :| Composes(m, x, y, r);
      forall z, w | Composes(m, z, w, r) && Holds(m, props[0], env, z) && SepHolds(m, props[1..], env, w)
        ensures TermHolds(m, t, env) && AllTermsHold(m, rest, env)
      {
        PureFormHasSameMeaning(m, props[0], env, z);
        SepOfPure(m, props[1..], env, w);
      }
      PureFormHasSameMeaning(m, props[0], env, x);
      PureFormHasSameMeaning(m, props[0], env, r);
      SepOfPure(m, props[1..], env, y);
    }
  }

  lemma {:induction false} AllOfPure<V(!new), R(!new)>(m: Model<V, R>, binders: seq<Binder>, body: IProp,
                                                       env: map<string, V>, r: R)
    requires EveryResourceSplits(m) && TryToPure(body).Some?
    ensures AllHolds(m, binders, body, env, r) <==> AllTermHolds(m, binders, TryToPure(body).value, env)
    decreases body, 2, |binders|
  {
    if binders == [] {
      PureFormHasSameMeaning(m, body, env, r);
    } else {
      forall v | m.hasSort(v, binders[0].sort)
        ensures AllHolds(m, binders[1..], body, env[binders[0].name := v], r) <==>
                AllTermHolds(m, binders[1..], TryToPure(body).value, env[binders[0].name := v])
      {
        AllOfPure(m, binders[1..], body, env[binders[0].name := v], r);
      }
    }
  }

  /** `purify` preserves meaning where every resource splits, for every valuation and every resource, and is
      idempotent. */
  lemma PurifyPreservesMeaning<V(!new), R(!new)>(m: Model<V, R>, p: IProp, env: map<string, V>, r: R)
    requires EveryResourceSplits(m)
    ensures Holds(m, Purify(p), env, r) <==> Holds(m, p, env, r)
    ensures Purify(Purify(p)) == Purify(p)
  {
    if TryToPure(p).Some? { PureFormHasSameMeaning(m, p, env, r); }
  }

  ghost predicate PreservesAll<V(!new), R(!new)>(m: Model<V, R>) {
    forall p, env, r :: Holds(m, Purify(p), env, r) <==> Holds(m, p, env, r)
  }

  /** That is not only enough but needed: `purify` preserves the meaning of all propositions exactly in
      the models in which every resource splits and `True` is true. `r0` says that the model has resources at all. */
  lemma PurifyPreservesMeaningIff<V(!new), R(!new)>(m: Model<V, R>, r0: R)
    ensures PreservesAll(m) <==> EveryResourceSplits(m)
  {
    if PreservesAll(m) {
      forall env ensures m.literal("True", env) {
        assert Holds(m, Purify(True), env, r0) <==> Holds(m, True, env, r0);
      }
      forall r ensures Splits(m, r) {
        SplitFromSep(m, r);
      }
    }
    if EveryResourceSplits(m) {
      forall p, env, r ensures Holds(m, Purify(p), env, r) <==> Holds(m, p, env, r) {
        PurifyPreservesMeaning(m, p, env, r);
      }
    }
  }

  lemma SplitFromSep<V(!new), R(!new)>(m: Model<V, R>, r: R)
    requires PreservesAll(m) && forall env :: m.literal("True", env)
    ensures Splits(m, r)
  {
    var env: map<string, V> := map[];
    var p := Sep([True, True]);
    var t := Literal("True");
    assert [True, True][1..] == [True] && [True][1..] == [];
    assert TryToPure(True) == Some(t) && TryAllToPure([]) == Some([]);
    assert TryAllToPure([True]) == Some([t] + []);
    assert TryAllToPure([True, True]) == Some([t] + ([t] + []));
    assert Holds(m, Purify(p), env, r) <==> Holds(m, p, env, r);
  }

  /** No atom, wand or existential quantifier occurs. */
  predicate PureShaped(p: IProp)
    decreases p, 1
  {
    match p
    case Sep(props) => AllPureShaped(props)
    case Conj(props) => AllPureShaped(props)
    case Disj(props) => AllPureShaped(props)
    case All(_, body) => PureShaped(body)
    case True => true
    case Pure(_) => true
    case _ => false
  }

  predicate AllPureShaped(props: seq<IProp>)
    decreases props, 0
  {
    props != [] ==> PureShaped(props[0]) && AllPureShaped(props[1..])
  }

  /** `purify` gives a pure proposition exactly for those built without atoms, wands and existentials. */
  lemma {:induction false} PurifiesIffPureShaped(p: IProp)
    ensures Purify(p).Pure? <==> PureShaped(p)
    ensures TryToPure(p).Some? <==> PureShaped(p)
    decreases p, 1
  {
    match p
    case Sep(props) => AllPurifyIffPureShaped(props);
    case Conj(props) => AllPurifyIffPureShaped(props);
    case Disj(props) => AllPurifyIffPureShaped(props);
    case All(_, body) => PurifiesIffPureShaped(body);
    case _ =>
  }

  lemma {:induction false} AllPurifyIffPureShaped(props: seq<IProp>)
    ensures TryAllToPure(props).Some? <==> AllPureShaped(props)
    decreases props, 0
  {
    if props != [] {
      PurifiesIffPureShaped(props[0]);
      AllPurifyIffPureShaped(props[1..]);
    }
  }
}
