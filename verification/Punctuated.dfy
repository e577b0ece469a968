/** Sequences of items with punctuation between them: how they are built, parsed and iterated. */
module Punctuated {
  import opened Wrappers

  type TokenKind = nat
  type Span = nat

  datatype TokenTree = Token(kind: TokenKind, span: Span) | Delimited(delimSpan: Span, stream: nat)

  datatype Error =
    | EOF
    | WrongTokenKind(expected: TokenKind, got: TokenKind, at: Span)
    | UnexpectedDelim(at: Span)
    | ItemError(code: nat)

  // ----- the token buffer -----

  class Buffer {
    const trees: seq<TokenTree>
    var index: nat

    constructor (trees: seq<TokenTree>)
      ensures this.trees == trees && index == 0
    {
      this.trees, index := trees, 0;
    }

    predicate IsEmpty()
      reads this
    {
      index >= |trees|
    }

    predicate PeekToken(kind: TokenKind)
      reads this
    {
      IsTokenAt(trees, index, kind)
    }

    method ExpectToken(kind: TokenKind) returns (r: Result<Span, Error>)
      modifies this
      ensures r == TokenAt(trees, old(index), kind)
      ensures r.Ok? <==> IsTokenAt(trees, old(index), kind)
      ensures r.Ok? ==> r.value == trees[old(index)].span
      ensures r.Err? ==> IsMismatch(trees, old(index), kind, r.error)
      ensures index == if r.Ok? then old(index) + 1 else old(index)
    {
      if index >= |trees| { return Err(EOF); }
      match trees[index]
      case Token(k, span) =>
        if k == kind {
          index := index + 1;
          r := Ok(span);
        } else {
          r := Err(WrongTokenKind(kind, k, span));
        }
      case Delimited(span, _) =>
        r := Err(UnexpectedDelim(span));
    }
  }

  predicate IsTokenAt(trees: seq<TokenTree>, i: nat, kind: TokenKind) {
    i < |trees| && trees[i].Token? && trees[i].kind == kind
  }

  /** The error where a token of the kind `kind` was expected: which kind was found, and where. */
  predicate IsMismatch(trees: seq<TokenTree>, i: nat, kind: TokenKind, e: Error) {
    match e
    case EOF => i >= |trees|
    case WrongTokenKind(expected, got, at) =>
      i < |trees| && trees[i].Token? && expected == kind && got == trees[i].kind != kind && at == trees[i].span
    case UnexpectedDelim(at) => i < |trees| && trees[i].Delimited? && at == trees[i].delimSpan
    case ItemError(_) => false
  }

  function TokenAt(trees: seq<TokenTree>, i: nat, kind: TokenKind): Result<Span, Error> {
    if i >= |trees| then Err(EOF)
    else
      match trees[i]
      case Token(k, span) => if k == kind then Ok(span) else Err(WrongTokenKind(kind, k, span))
      case Delimited(span, _) => Err(UnexpectedDelim(span))
  }

  // ----- the sequence -----

  class Sequence<T> {
    var inner: seq<(T, Span)>
    var last: Option<T>

    constructor ()
      ensures inner == [] && last == None
    {
      inner, last := [], None;
    }

    predicate EmptyOrTrailing()
      reads this
    {
      last.None?
    }

    function Len(): nat
      reads this
    {
      |inner| + if last.Some? then 1 else 0
    }

    ghost function Items(): (s: seq<T>)
      reads this
      ensures |s| == Len()
    {
      Firsts(inner) + OptionToSeq(last)
    }

    /** The source asserts the precondition. */
    method PushValue(value: T)
      requires EmptyOrTrailing()
      modifies this
      ensures inner == old(inner) && last == Some(value)
    {
      last := Some(value);
    }

    /** The source asserts the precondition. */
    method PushPunct(punctuation: Span)
      requires last.Some?
      modifies this
      ensures inner == old(inner) + [(old(last).value, punctuation)] && last == None
    {
      inner, last := inner + [(last.value, punctuation)], None;
    }

    method Push(value: T, defaultPunctuation: Span)
      modifies this
      ensures Items() == old(Items()) + [value] && last == Some(value)
      ensures inner == old(inner) + if old(last).Some? then [(old(last).value, defaultPunctuation)] else []
    {
      FirstsSnoc(inner, last, defaultPunctuation);
      if !EmptyOrTrailing() {
        PushPunct(defaultPunctuation);
      }
      PushValue(value);
    }
  }

  function Firsts<T>(inner: seq<(T, Span)>): (s: seq<T>)
    ensures |s| == |inner|
  {
    seq(|inner|, i requires 0 <= i < |inner| => inner[i].0)
  }

  function OptionToSeq<T>(o: Option<T>): seq<T> {
    if o.Some? then [o.value] else []
  }

  lemma FirstsSnoc<T>(inner: seq<(T, Span)>, last: Option<T>, punctuation: Span)
    ensures last.Some? ==> Firsts(inner + [(last.value, punctuation)]) == Firsts(inner) + [last.value]
  {
  }

  // ----- parsing -----

  datatype ItemResult<T> = Item(value: T, next: nat) | NoItem(error: Error)

  /** What is parsed: tokens, the parser of one item as a function of the position, and the kind of
      token that separates items. */
  datatype Grammar<!T> = Grammar(trees: seq<TokenTree>, item: nat -> ItemResult<T>, punct: TokenKind) {

    /** An item parser never moves back, nor past the end; it may consume nothing. */
    ghost predicate Valid() {
      forall i: nat :: i <= |trees| && item(i).Item? ==> i <= item(i).next <= |trees|
    }

    predicate PunctAt(i: nat) {
      IsTokenAt(trees, i, punct)
    }

    /** From `i` on, the tokens are the items of `segs` with a separator after each, except that after
        the last one it may be missing. */
    ghost predicate Splits(i: nat, segs: seq<Segment<T>>)
      decreases segs
    {
      if i >= |trees| then segs == []
      else
        && segs != [] && segs[0].from == i && item(i) == Item(segs[0].value, segs[0].to)
        && if segs[0].to >= |trees| then segs[1..] == []
           else PunctAt(segs[0].to) && Splits(segs[0].to + 1, segs[1..])
    }

    /** The items that the loop of `parse_terminated_with` reads from `i` on. */
    function ParseTerminated(i: nat): Result<seq<Segment<T>>, Error>
      requires Valid() && i <= |trees|
      decreases |trees| - i
    {
      if i >= |trees| then Ok([])
      else
        match item(i)
        case NoItem(e) => Err(e)
        case Item(v, to) =>
          if to >= |trees| then Ok([Segment(v, i, to)])
          else
            match TokenAt(trees, to, punct)
            case Err(e) => Err(e)
            case Ok(_) =>
              match ParseTerminated(to + 1)
              case Err(e) => Err(e)
              case Ok(segs) => Ok([Segment(v, i, to)] + segs)
    }

    /** Parsing succeeds with exactly the decomposition of the remaining tokens, if there is one. */
    lemma {:induction false} ParseTerminatedIffSplits(i: nat, segs: seq<Segment<T>>)
      requires Valid() && i <= |trees|
      ensures ParseTerminated(i) == Ok(segs) <==> Splits(i, segs)
      decreases |segs|
    {
      if i < |trees| && item(i).Item? {
        var to := item(i).next;
        var seg := Segment(item(i).value, i, to);
        if segs != [] {
          assert segs == [seg] + segs[1..] <==> segs[0] == seg by { assert segs == [segs[0]] + segs[1..]; }
        }
        if to < |trees| && PunctAt(to) {
          if segs != [] { ParseTerminatedIffSplits(to + 1, segs[1..]); }
          if ParseTerminated(to + 1).Ok? {
            var rest := ParseTerminated(to + 1).value;
            assert ([seg] + rest)[1..] == rest && ([seg] + rest)[0] == seg;
          }
        } else if segs != [] {
          assert segs[0] == seg && segs[1..] == [] <==> segs == [seg];
        }
      }
    }

    /** From `i` on, `n` items with separators can be read; then there is no item, or an item without the
        separator that should follow it. */
    ghost predicate FailsAfter(i: nat, n: nat, e: Error)
      decreases n
    {
      && i < |trees|
      && if n == 0 then
        || item(i) == NoItem(e)
        || (item(i).Item? && item(i).next < |trees| && IsMismatch(trees, item(i).next, punct, e))
      else
        item(i).Item? && PunctAt(item(i).next) && FailsAfter(item(i).next + 1, n - 1, e)
    }

    ghost predicate Fails(i: nat, e: Error) {
      exists n: nat :: FailsAfter(i, n, e)
    }

    /** Parsing fails with an error exactly if it is the one of the first place where no item or no
        separator can be read. */
    lemma {:induction false} ParseTerminatedFailsIff(i: nat, e: Error)
      requires Valid() && i <= |trees|
      ensures ParseTerminated(i) == Err(e) <==> Fails(i, e)
      decreases |trees| - i
    {
      if i < |trees| {
        if ParseTerminated(i) == Err(e) && !(item(i).Item? && PunctAt(item(i).next)) { assert FailsAfter(i, 0, e); }
        if item(i).Item? && PunctAt(item(i).next) {
          var rest := item(i).next + 1;
          ParseTerminatedFailsIff(rest, e);
          if n: nat :| FailsAfter(rest, n, e) { assert FailsAfter(i, n + 1, e); }
          if n: nat :| FailsAfter(i, n, e) { assert n > 0 && FailsAfter(rest, n - 1, e); }
        }
      }
    }

    /** From `i` on, `n` items with separators can be read, and then there is no item. */
    ghost predicate NoItemAfter(i: nat, n: nat, e: Error)
      decreases n
    {
      if n == 0 then item(i) == NoItem(e)
      else item(i).Item? && PunctAt(item(i).next) && NoItemAfter(item(i).next + 1, n - 1, e)
    }

    ghost predicate FailsNonempty(i: nat, e: Error) {
      exists n: nat :: NoItemAfter(i, n, e)
    }

    lemma {:induction false} ParseNonemptyFailsIff(i: nat, e: Error)
      requires Valid() && i <= |trees|
      ensures ParseNonempty(i) == Err(e) <==> FailsNonempty(i, e)
      decreases |trees| - i
    {
      assert NoItemAfter(i, 0, e) <==> item(i) == NoItem(e);
      if item(i).Item? && PunctAt(item(i).next) {
        var rest := item(i).next + 1;
        ParseNonemptyFailsIff(rest, e);
        if n: nat :| NoItemAfter(rest, n, e) { assert NoItemAfter(i, n + 1, e); }
        if n: nat :| NoItemAfter(i, n, e) { assert n > 0 && NoItemAfter(rest, n - 1, e); }
      }
    }

    /** The pairs and the last item that the pushes make of `segs`. */
    function Pairs(segs: seq<Segment<T>>): seq<(T, Span)> {
      if segs == [] then []
      else if PunctAt(segs[0].to) then [(segs[0].value, trees[segs[0].to].span)] + Pairs(segs[1..])
      else []
    }

    function Last(segs: seq<Segment<T>>): Option<T> {
      if segs == [] then None
      else if PunctAt(segs[0].to) then Last(segs[1..])
      else Some(segs[0].value)
    }

    /** The tokens of a punctuated sequence, given the tokens of an item. */
    function Flatten(unparse: T -> seq<TokenTree>, inner: seq<(T, Span)>, last: Option<T>): seq<TokenTree> {
      if inner == [] then (if last.Some? then unparse(last.value) else [])
      else unparse(inner[0].0) + [Token(punct, inner[0].1)] + Flatten(unparse, inner[1..], last)
    }

    /** `unparse` gives back the tokens that an item was read from. */
    ghost predicate Unparses(unparse: T -> seq<TokenTree>) {
      forall i: nat :: i <= |trees| && item(i).Item? && i <= item(i).next <= |trees| ==>
                    unparse(item(i).value) == trees[i..item(i).next]
    }

    lemma {:induction false} FlattenFirst(unparse: T -> seq<TokenTree>, segs: seq<Segment<T>>)
      requires segs != [] && PunctAt(segs[0].to)
      ensures Flatten(unparse, Pairs(segs), Last(segs)) ==
              unparse(segs[0].value) + [trees[segs[0].to]] + Flatten(unparse, Pairs(segs[1..]), Last(segs[1..]))
    {
      assert Pairs(segs)[1..] == Pairs(segs[1..]);
    }

    /** Flattening the result gives back exactly the tokens that were parsed. */
    lemma {:induction false} FlattenGivesTokensBack(unparse: T -> seq<TokenTree>, i: nat, segs: seq<Segment<T>>)
      requires Valid() && Unparses(unparse) && i <= |trees| && Splits(i, segs)
      ensures Flatten(unparse, Pairs(segs), Last(segs)) == trees[i..]
      decreases segs
    {
      if i < |trees| {
        var to := segs[0].to;
        assert unparse(segs[0].value) == trees[i..to];
        if to < |trees| {
          FlattenGivesTokensBack(unparse, to + 1, segs[1..]);
          FlattenFirst(unparse, segs);
          assert trees[i..] == trees[i..to] + [trees[to]] + trees[to + 1..];
        }
      }
    }

    /** From `i` on, one or more items with separators between them; after the last one there is none. */
    ghost predicate SplitsNonempty(i: nat, segs: seq<Segment<T>>, end: nat)
      decreases segs
    {
      && segs != [] && segs[0].from == i && item(i) == Item(segs[0].value, segs[0].to)
      && if PunctAt(segs[0].to) then SplitsNonempty(segs[0].to + 1, segs[1..], end)
         else segs[1..] == [] && end == segs[0].to
    }

    function ParseNonempty(i: nat): Result<(seq<Segment<T>>, nat), Error>
      requires Valid() && i <= |trees|
      decreases |trees| - i
    {
      match item(i)
      case NoItem(e) => Err(e)
      case Item(v, to) =>
        if !PunctAt(to) then Ok(([Segment(v, i, to)], to))
        else
          match ParseNonempty(to + 1)
          case Err(e) => Err(e)
          case Ok((segs, end)) => Ok(([Segment(v, i, to)] + segs, end))
    }

    lemma {:induction false} ParseNonemptyIffSplits(i: nat, segs: seq<Segment<T>>, end: nat)
      requires Valid() && i <= |trees|
      ensures ParseNonempty(i) == Ok((segs, end)) <==> SplitsNonempty(i, segs, end)
      decreases |segs|
    {
      if item(i).Item? {
        var to := item(i).next;
        var seg := Segment(item(i).value, i, to);
        if segs != [] {
          assert segs == [seg] + segs[1..] <==> segs[0] == seg by { assert segs == [segs[0]] + segs[1..]; }
        }
        if PunctAt(to) {
          if segs != [] { ParseNonemptyIffSplits(to + 1, segs[1..], end); }
          if ParseNonempty(to + 1).Ok? {
            var rest := ParseNonempty(to + 1).value.0;
            assert ([seg] + rest)[1..] == rest && ([seg] + rest)[0] == seg;
          }
        } else if segs != [] {
          assert segs[0] == seg && segs[1..] == [] <==> segs == [seg];
        }
      }
    }

    /** Every item of `segs` is followed by a separator. */
    ghost predicate AllPunctuated(segs: seq<Segment<T>>) {
      forall k :: 0 <= k < |segs| ==> PunctAt(segs[k].to)
    }

    lemma {:induction false} PairsAppend(segs: seq<Segment<T>>, rest: seq<Segment<T>>)
      requires AllPunctuated(segs)
      ensures Pairs(segs + rest) == Pairs(segs) + Pairs(rest) && Last(segs + rest) == Last(rest)
    {
      if segs == [] {
        assert segs + rest == rest;
      } else {
        assert (segs + rest)[1..] == segs[1..] + rest && (segs + rest)[0] == segs[0];
        PairsAppend(segs[1..], rest);
        assert PunctAt(segs[0].to);
        var first := [(segs[0].value, trees[segs[0].to].span)];
        assert Pairs(segs) == first + Pairs(segs[1..]);
        assert Pairs(segs + rest) == first + Pairs(segs[1..] + rest);
      }
    }

    /** An item and the separator after it extend what has been built. */
    lemma PairsSnoc(segs: seq<Segment<T>>, seg: Segment<T>)
      requires AllPunctuated(segs)
      ensures PunctAt(seg.to) ==> AllPunctuated(segs + [seg]) && Pairs(segs + [seg]) == Pairs(segs) + [(seg.value, trees[seg.to].span)]
      ensures !PunctAt(seg.to) ==> Pairs(segs + [seg]) == Pairs(segs) && Last(segs + [seg]) == Some(seg.value)
    {
      PairsAppend(segs, [seg]);
      assert [seg][1..] == [];
    }
  }

  datatype Segment<T> = Segment(value: T, from: nat, to: nat)

  ghost predicate CanSplit<T(!new)>(g: Grammar<T>, i: nat) {
    exists s :: g.Splits(i, s)
  }

  lemma DecidesSplits<T(!new)>(g: Grammar<T>, i: nat)
    requires g.Valid() && i <= |g.trees|
    ensures g.ParseTerminated(i).Ok? <==> CanSplit(g, i)
  {
    if CanSplit(g, i) {
      var s :| g.Splits(i, s);
      g.ParseTerminatedIffSplits(i, s);
    }
    if g.ParseTerminated(i).Ok? {
      var s := g.ParseTerminated(i).value;
      g.ParseTerminatedIffSplits(i, s);
      assert g.Splits(i, s);
    }
  }

  function Prepend<T>(segs: seq<Segment<T>>, r: Result<seq<Segment<T>>, Error>): Result<seq<Segment<T>>, Error> {
    match r
    case Ok(s) => Ok(segs + s)
    case Err(e) => Err(e)
  }

  lemma PrependSnoc<T>(segs: seq<Segment<T>>, seg: Segment<T>, r: Result<seq<Segment<T>>, Error>)
    ensures Prepend(segs, Prepend([seg], r)) == Prepend(segs + [seg], r)
  {
    if r.Ok? { assert segs + ([seg] + r.value) == segs + [seg] + r.value; }
  }

  lemma ParseStep<T>(g: Grammar<T>, i: nat)
    requires g.Valid() && i < |g.trees| && g.item(i).Item? && g.PunctAt(g.item(i).next)
    ensures g.ParseTerminated(i) ==
            Prepend([Segment(g.item(i).value, i, g.item(i).next)], g.ParseTerminated(g.item(i).next + 1))
  {
  }

  /** Succeeds exactly when the remaining tokens split into items and separators, and then holds those;
      none of its internal assertions fires, and it terminates even if items consume nothing. */
  method ParseTerminatedWith<T(!new)>(input: Buffer, g: Grammar<T>)
    returns (r: Result<Sequence<T>, Error>, ghost segs: seq<Segment<T>>)
    requires g.Valid() && g.trees == input.trees && input.index <= |g.trees|
    modifies input
    ensures r.Ok? <==> CanSplit(g, old(input.index))
    ensures r.Err? ==> g.ParseTerminated(old(input.index)) == Err(r.error) && g.Fails(old(input.index), r.error)
    ensures r.Ok? ==>
              && input.index == |g.trees| && g.Splits(old(input.index), segs) && fresh(r.value)
              && r.value.inner == g.Pairs(segs) && r.value.last == g.Last(segs)
  {
    var punctuated := new Sequence<T>();
    segs := [];
    ghost var start := input.index;
    ghost var spec := g.ParseTerminated(start);
    DecidesSplits(g, start);
    if spec.Err? { g.ParseTerminatedFailsIff(start, spec.error); }
    assert spec == Prepend(segs, spec) by { if spec.Ok? { assert [] + spec.value == spec.value; } }
    while !input.IsEmpty()
      invariant input.index <= |g.trees| && punctuated.EmptyOrTrailing() && fresh(punctuated)
      invariant spec == Prepend(segs, g.ParseTerminated(input.index))
      invariant g.AllPunctuated(segs) && punctuated.inner == g.Pairs(segs)
      decreases |g.trees| - input.index
    {
      var value := g.item(input.index);
      if value.NoItem? {
        assert spec == Err(value.error);
        return Err(value.error), segs;
      }
      ghost var seg := Segment(value.value, input.index, value.next);
      input.index := value.next;
      punctuated.PushValue(value.value);
      g.PairsSnoc(segs, seg);
      if input.IsEmpty() {
        g.ParseTerminatedIffSplits(start, segs + [seg]);
        return Ok(punctuated), segs + [seg];
      }
      var punct := input.ExpectToken(g.punct);
      if punct.Err? { return Err(punct.error), segs; }
      punctuated.PushPunct(punct.value);
      ParseStep(g, seg.from);
      PrependSnoc(segs, seg, g.ParseTerminated(input.index));
      segs := segs + [seg];
    }
    g.PairsAppend(segs, []);
    assert segs + [] == segs;
    g.ParseTerminatedIffSplits(start, segs);
    r := Ok(punctuated);
  }

  function PrependPair<T>(segs: seq<Segment<T>>,
                          r: Result<(seq<Segment<T>>, nat), Error>): Result<(seq<Segment<T>>, nat), Error> {
    match r
    case Ok((s, end)) => Ok((segs + s, end))
    case Err(e) => Err(e)
  }

  lemma PrependPairSnoc<T>(segs: seq<Segment<T>>, seg: Segment<T>, r: Result<(seq<Segment<T>>, nat), Error>)
    ensures PrependPair(segs, PrependPair([seg], r)) == PrependPair(segs + [seg], r)
  {
    if r.Ok? { assert segs + ([seg] + r.value.0) == segs + [seg] + r.value.0; }
  }

  /** No trailing separator is accepted, and tokens may be left over. */
  method ParseSeparatedNonemptyWith<T>(input: Buffer, g: Grammar<T>)
    returns (r: Result<Sequence<T>, Error>, ghost segs: seq<Segment<T>>)
    requires g.Valid() && g.trees == input.trees && input.index <= |g.trees|
    modifies input
    ensures r.Err? ==> g.ParseNonempty(old(input.index)) == Err(r.error) && g.FailsNonempty(old(input.index), r.error)
    ensures r.Ok? ==>
              && g.SplitsNonempty(old(input.index), segs, input.index) && fresh(r.value)
              && r.value.inner == g.Pairs(segs) && r.value.last == g.Last(segs)
  {
    var punctuated := new Sequence<T>();
    segs := [];
    ghost var start := input.index;
    ghost var spec := g.ParseNonempty(start);
    if spec.Err? { g.ParseNonemptyFailsIff(start, spec.error); }
    assert spec == PrependPair(segs, spec) by { if spec.Ok? { assert [] + spec.value.0 == spec.value.0; } }
    while true
      invariant input.index <= |g.trees| && punctuated.EmptyOrTrailing() && fresh(punctuated)
      invariant spec == PrependPair(segs, g.ParseNonempty(input.index))
      invariant g.AllPunctuated(segs) && punctuated.inner == g.Pairs(segs)
      decreases |g.trees| - input.index
    {
      var value := g.item(input.index);
      if value.NoItem? { return Err(value.error), segs; }
      ghost var seg := Segment(value.value, input.index, value.next);
      input.index := value.next;
      punctuated.PushValue(value.value);
      g.PairsSnoc(segs, seg);
      if !input.PeekToken(g.punct) {
        g.ParseNonemptyIffSplits(start, segs + [seg], input.index);
        return Ok(punctuated), segs + [seg];
      }
      var punct := input.ExpectToken(g.punct);
      // having peeked at the separator, the parse cannot fail
      punctuated.PushPunct(punct.value);
      PrependPairSnoc(segs, seg, g.ParseNonempty(input.index));
      segs := segs + [seg];
    }
  }

  // ----- the double-ended iterator -----

  class PrivateIter<T> {
    var inner: seq<(T, Span)>
    var last: Option<T>

    constructor (s: Sequence<T>)
      ensures Remaining() == s.Items()
    {
      inner, last := s.inner, s.last;
    }

    ghost function Remaining(): seq<T>
      reads this
    {
      Firsts(inner) + OptionToSeq(last)
    }

    function Len(): (n: nat)
      reads this
      ensures n == |Remaining()|
    {
      |inner| + if last.Some? then 1 else 0
    }

    method Next() returns (r: Option<T>)
      modifies this
      ensures r == if old(Remaining()) == [] then None else Some(old(Remaining())[0])
      ensures Remaining() == if old(Remaining()) == [] then [] else old(Remaining())[1..]
    {
      if inner != [] {
        r := Some(inner[0].0);
        inner := inner[1..];
      } else {
        r := last;
        last := None;
      }
    }

    method NextBack() returns (r: Option<T>)
      modifies this
      ensures var s := old(Remaining()); r == if s == [] then None else Some(s[|s| - 1])
      ensures var s := old(Remaining()); Remaining() == if s == [] then [] else s[..|s| - 1]
    {
      if last.Some? {
        r := last;
        last := None;
      } else if inner != [] {
        r := Some(inner[|inner| - 1].0);
        inner := inner[..|inner| - 1];
      } else {
        r := None;
      }
    }

    /** Any interleaving of `next` (for `true`) and `next_back`: each element comes out once, the ones
        from the front in order, the ones from the back in reverse, and none is skipped. */
    method Interleave(calls: seq<bool>) returns (front: seq<T>, back: seq<T>)
      modifies this
      ensures front + Remaining() + back == old(Remaining())
      ensures |front| + |back| == if |calls| <= |old(Remaining())| then |calls| else |old(Remaining())|
    {
      front, back := [], [];
      ghost var all := Remaining();
      for i := 0 to |calls|
        invariant front + Remaining() + back == all
        invariant |front| + |back| == if i <= |all| then i else |all|
      {
        ghost var rest := Remaining();
        var r: Option<T>;
        if calls[i] {
          r := Next();
          if r.Some? {
            TakeFront(front, rest, back);
            front := front + [r.value];
          }
        } else {
          r := NextBack();
          if r.Some? {
            TakeBack(front, rest, back);
            back := [r.value] + back;
          }
        }
      }
    }
  }
  lemma TakeFront<T>(front: seq<T>, rest: seq<T>, back: seq<T>)
    requires rest != []
    ensures front + rest + back == front + [rest[0]] + rest[1..] + back
  {
  }

  lemma TakeBack<T>(front: seq<T>, rest: seq<T>, back: seq<T>)
    requires rest != []
    ensures front + rest + back == front + rest[..|rest| - 1] + ([rest[|rest| - 1]] + back)
  {
  }
}
