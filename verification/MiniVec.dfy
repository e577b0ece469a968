/** The growable vector of the `minivec` case study on raw memory. */
module MiniVec {
  import opened Wrappers
  import opened PowersOfTwo
  import opened RawMemory

  // ----- the abstract vector -----

  /** Element size in bytes and `isize::MAX`. A zero-sized type has one value. */
  datatype Layout<T> = Layout(elemSize: nat, maxISize: nat, zeroSized: T) {

    const maxUSize: nat := 2 * maxISize + 1

    ghost predicate Valid()
    {
      elemSize <= maxISize
    }

    /** `Layout::array`: an array may not take more than `isize::MAX` bytes. */
    predicate ArrayFits(n: nat) {
      Bytes(n) <= maxISize
    }

    function Bytes(n: nat): nat {
      n * elemSize
    }
  }

  /** A vector without its memory: its elements, its capacity, how many elements reallocations have
      moved so far, and the greatest length it ever had. */
  datatype Abstract<T> = Abstract(contents: seq<T>, cap: nat, moved: nat, maxLen: nat)

  function NewVec<T>(l: Layout<T>): Abstract<T> {
    Abstract([], if l.elemSize == 0 then l.maxUSize else 0, 0, 0)
  }

  function NewCap(cap: nat): nat {
    if cap == 0 then 1 else 2 * cap
  }

  /** `None` stands for a panic. */
  function Grown<T>(l: Layout<T>, a: Abstract<T>): Option<Abstract<T>> {
    if l.elemSize == 0 || !l.ArrayFits(NewCap(a.cap)) then None
    else Some(a.(cap := NewCap(a.cap), moved := a.moved + a.cap))
  }

  function Inserted<T>(l: Layout<T>, a: Abstract<T>, i: nat, x: T): Option<Abstract<T>> {
    if i > |a.contents| then None
    else
      match if |a.contents| == a.cap then Grown(l, a) else Some(a)
      case None => None
      case Some(g) =>
        Some(g.(contents := a.contents[..i] + [x] + a.contents[i..],
                maxLen := if |a.contents| < a.maxLen then a.maxLen else |a.contents| + 1))
  }

  function Removed<T>(a: Abstract<T>, i: nat): Option<Abstract<T>> {
    if i >= |a.contents| then None
    else Some(a.(contents := a.contents[..i] + a.contents[i + 1..]))
  }

  datatype Op<T> =
    | Push(elem: T)
    | Pop
    | Insert(index: nat, elem: T)
    | Remove(index: nat)
    | Get(index: nat)
    | Assign(index: nat, elem: T)

  /** The vector after an operation; one that panics or finds nothing leaves it as it is. */
  function Step<T>(l: Layout<T>, a: Abstract<T>, op: Op<T>): Abstract<T> {
    var result :=
      match op
      case Push(x) => Inserted(l, a, |a.contents|, x)
      case Pop => if |a.contents| == 0 then None else Removed(a, |a.contents| - 1)
      case Insert(i, x) => Inserted(l, a, i, x)
      case Remove(i) => Removed(a, i)
      case Get(i) => None
      case Assign(i, x) => if i < |a.contents| then Some(a.(contents := a.contents[i := x])) else None;
    if result.Some? then result.value else a
  }

  function Run<T>(l: Layout<T>, ops: seq<Op<T>>): Abstract<T> {
    if ops == [] then NewVec(l) else Step(l, Run(l, ops[..|ops| - 1]), ops[|ops| - 1])
  }

  ghost predicate Invariant<T>(l: Layout<T>, a: Abstract<T>) {
    && |a.contents| <= a.cap && |a.contents| <= a.maxLen
    && if l.elemSize == 0 then
      a.cap == l.maxUSize && a.moved == 0
    else
      && l.ArrayFits(a.cap)
      && (a.cap == 0 || IsPowerOfTwo(a.cap))
      && a.cap <= 2 * a.maxLen
      && a.moved == if a.cap == 0 then 0 else a.cap - 1
  }

  lemma GrowKeepsPowerOfTwo(cap: nat)
    requires cap == 0 || IsPowerOfTwo(cap)
    ensures IsPowerOfTwo(NewCap(cap))
  {
    if cap == 0 {
      assert 1 == Pow2(0);
    } else {
      var k: nat :| cap == Pow2(k);
      assert NewCap(cap) == Pow2(k + 1);
    }
  }

  lemma GrownKeepsInvariant<T>(l: Layout<T>, a: Abstract<T>)
    requires l.Valid() && l.elemSize != 0 && Invariant(l, a) && |a.contents| == a.cap && l.ArrayFits(NewCap(a.cap))
    ensures var g := Grown(l, a).value;
            && |a.contents| + 1 <= g.cap && l.ArrayFits(g.cap) && IsPowerOfTwo(g.cap)
            && g.cap <= 2 * (|a.contents| + 1) && g.moved == g.cap - 1
  {
    GrowKeepsPowerOfTwo(a.cap);
  }

  lemma InsertKeepsInvariant<T>(l: Layout<T>, a: Abstract<T>, i: nat, x: T)
    requires l.Valid() && Invariant(l, a) && Inserted(l, a, i, x).Some?
    ensures Invariant(l, Inserted(l, a, i, x).value)
  {
    if |a.contents| == a.cap { GrownKeepsInvariant(l, a); }
    assert |a.contents[..i] + [x] + a.contents[i..]| == |a.contents| + 1;
  }

  lemma RemoveKeepsInvariant<T>(l: Layout<T>, a: Abstract<T>, i: nat)
    requires l.Valid() && Invariant(l, a) && Removed(a, i).Some?
    ensures Invariant(l, Removed(a, i).value)
  {
  }

  lemma StepKeepsInvariant<T>(l: Layout<T>, a: Abstract<T>, op: Op<T>)
    requires l.Valid() && Invariant(l, a)
    ensures Invariant(l, Step(l, a, op))
  {
    match op
    case Push(x) => if Inserted(l, a, |a.contents|, x).Some? { InsertKeepsInvariant(l, a, |a.contents|, x); }
    case Pop => if a.contents != [] { RemoveKeepsInvariant(l, a, |a.contents| - 1); }
    case Insert(i, x) => if Inserted(l, a, i, x).Some? { InsertKeepsInvariant(l, a, i, x); }
    case Remove(i) => if i < |a.contents| { RemoveKeepsInvariant(l, a, i); }
    case _ =>
  }

  /** After any run, whatever panics on the way: the allocation stays within `isize::MAX` bytes, a
      zero-sized element never makes the vector grow, the capacity is 0 or a power of two, and all
      reallocations together moved fewer elements than twice the greatest length. */
  lemma {:induction false} RunInvariant<T>(l: Layout<T>, ops: seq<Op<T>>)
    requires l.Valid()
    ensures var a := Run(l, ops);
            && Invariant(l, a)
            && (l.elemSize != 0 ==> a.cap * l.elemSize <= l.maxISize && (a.cap == 0 || IsPowerOfTwo(a.cap)))
            && (l.elemSize == 0 ==> a.cap == l.maxUSize)
            && (a.moved == 0 || a.moved < 2 * a.maxLen)
            && (a.maxLen == 0 ==> a.moved == 0)
  {
    if ops != [] {
      RunInvariant(l, ops[..|ops| - 1]);
      StepKeepsInvariant(l, Run(l, ops[..|ops| - 1]), ops[|ops| - 1]);
    }
  }

  /** The doubling of the capacity does not overflow, and one more element can be counted. */
  lemma NoOverflow<T>(l: Layout<T>, a: Abstract<T>)
    requires l.Valid() && Invariant(l, a)
    ensures l.elemSize != 0 ==> NewCap(a.cap) <= l.maxUSize
    ensures |a.contents| < a.cap ==> |a.contents| + 1 <= l.maxUSize
  {
    if l.elemSize != 0 {
      CapAtMost(a.cap, l.elemSize, l.maxISize);
    }
  }

  lemma CapAtMost(cap: nat, size: nat, max: nat)
    requires size > 0 && cap * size <= max
    ensures cap <= max
  {
    assert cap * size >= cap * 1;
  }

  /** Pushing cannot panic while twice the length still fits. */
  lemma PushSucceeds<T>(l: Layout<T>, a: Abstract<T>, x: T)
    requires l.Valid() && Invariant(l, a)
    requires |a.contents| < l.maxUSize && l.ArrayFits(2 * |a.contents|)
    ensures Inserted(l, a, |a.contents|, x).Some?
  {
    if |a.contents| == 0 { assert l.ArrayFits(1); }
  }

  /** Removing what was just inserted gives back the elements, at any position. */
  lemma RemoveUndoesInsert<T>(l: Layout<T>, a: Abstract<T>, i: nat, x: T)
    requires Inserted(l, a, i, x).Some?
    ensures var b := Inserted(l, a, i, x).value;
            b.contents[i] == x && Removed(b, i).Some? && Removed(b, i).value.contents == a.contents
  {
    var b := Inserted(l, a, i, x).value;
    assert b.contents[..i] == a.contents[..i];
    assert b.contents[i + 1..] == a.contents[i..];
  }

  // ----- operations, element by element -----

  /** `s'` is `s` with `x` in front of the element at `i`, and everything else in place. */
  ghost predicate InsertedAt<T>(s: seq<T>, s': seq<T>, i: nat, x: T) {
    && i <= |s| && |s'| == |s| + 1 && s'[i] == x
    && forall k {:trigger s[k]} :: 0 <= k < |s| ==> s[k] == s'[if k < i then k else k + 1]
  }

  /** `s'` is `s` with `x` at `i`, and everything else as it was. */
  ghost predicate AssignedAt<T>(s: seq<T>, s': seq<T>, i: nat, x: T) {
    && i < |s| == |s'| && s'[i] == x
    && (forall k :: 0 <= k < |s| && k != i ==> s'[k] == s[k])
  }

  /** All slots are taken, and there cannot be twice as many. */
  predicate CannotGrow<T>(l: Layout<T>, a: Abstract<T>) {
    |a.contents| == a.cap && (l.elemSize == 0 || !l.ArrayFits(if a.cap == 0 then 1 else 2 * a.cap))
  }

  lemma InsertElementwise<T>(s: seq<T>, i: nat, x: T)
    requires i <= |s|
    ensures InsertedAt(s, s[..i] + [x] + s[i..], i, x)
  {
  }

  lemma RemoveElementwise<T>(s: seq<T>, i: nat)
    requires i < |s|
    ensures InsertedAt(s[..i] + s[i + 1..], s, i, s[i])
  {
  }

  /** What each operation does to the elements, and when it does nothing. */
  lemma StepElementwise<T>(l: Layout<T>, a: Abstract<T>, op: Op<T>)
    ensures var s, s' := a.contents, Step(l, a, op).contents;
            match op
            case Push(x) => if CannotGrow(l, a) then s' == s else InsertedAt(s, s', |s|, x)
            case Pop => if s == [] then s' == s else InsertedAt(s', s, |s| - 1, s[|s| - 1])
            case Insert(i, x) => if i > |s| || CannotGrow(l, a) then s' == s else InsertedAt(s, s', i, x)
            case Remove(i) => if i >= |s| then s' == s else InsertedAt(s', s, i, s[i])
            case Get(_) => s' == s
            case Assign(i, x) => if i >= |s| then s' == s else AssignedAt(s, s', i, x)
  {
    var s := a.contents;
    match op
    case Push(x) => InsertElementwise(s, |s|, x);
    case Pop => if s != [] { RemoveElementwise(s, |s| - 1); }
    case Insert(i, x) => if i <= |s| { InsertElementwise(s, i, x); }
    case Remove(i) => if i < |s| { RemoveElementwise(s, i); }
    case _ =>
  }

  ghost predicate Grows<T>(l: Layout<T>, a: Abstract<T>, op: Op<T>) {
    (op.Push? || (op.Insert? && op.index <= |a.contents|)) && |a.contents| == a.cap && !CannotGrow(l, a)
  }

  lemma GrownCapacity<T>(l: Layout<T>, a: Abstract<T>)
    requires |a.contents| == a.cap
    ensures Grown(l, a) == if CannotGrow(l, a) then None
                           else Some(a.(cap := if a.cap == 0 then 1 else 2 * a.cap, moved := a.moved + a.cap))
  {
    assert NewCap(a.cap) == if a.cap == 0 then 1 else 2 * a.cap;
  }

  /** What each operation does to the capacity and to the count of moves: only a push or an insertion into
      a full vector doubles it, and that moves all elements. */
  lemma StepCapacity<T>(l: Layout<T>, a: Abstract<T>, op: Op<T>)
    ensures Step(l, a, op).cap == if !Grows(l, a, op) then a.cap else if a.cap == 0 then 1 else 2 * a.cap
    ensures Step(l, a, op).moved == if Grows(l, a, op) then a.moved + a.cap else a.moved
  {
    if |a.contents| == a.cap { GrownCapacity(l, a); }
  }

  /** An insertion goes through exactly if the index is in range and there is or can be room. */
  lemma InsertedIff<T>(l: Layout<T>, a: Abstract<T>, i: nat, x: T)
    ensures Inserted(l, a, i, x).Some? <==> i <= |a.contents| && !CannotGrow(l, a)
    ensures Inserted(l, a, i, x).Some? ==> InsertedAt(a.contents, Inserted(l, a, i, x).value.contents, i, x)
  {
    if |a.contents| == a.cap { GrownCapacity(l, a); }
    if i <= |a.contents| { InsertElementwise(a.contents, i, x); }
  }

  // ----- overlapping moves -----

  /** The first slots are initialised with `elems`. */
  ghost predicate Holds<T>(s: seq<Slot<T>>, elems: seq<T>) {
    |elems| <= |s| && forall k :: 0 <= k < |elems| ==> s[k] == Init(elems[k])
  }

  /** Moving everything from `i` on up by one slot and writing `x` into the gap inserts `x`. */
  lemma CopyOpensGap<T>(s: seq<Slot<T>>, elems: seq<T>, i: nat, x: T)
    requires Holds(s, elems) && i <= |elems| < |s|
    ensures Holds(CopyResult(s, i, i + 1, |elems| - i)[i := Init(x)], elems[..i] + [x] + elems[i..])
  {
    var s' := CopyResult(s, i, i + 1, |elems| - i)[i := Init(x)];
    var elems' := elems[..i] + [x] + elems[i..];
    forall k | 0 <= k < |elems'| ensures s'[k] == Init(elems'[k]) {
      if k > i { assert s'[k] == s[k - 1] && elems'[k] == elems[k - 1]; }
    }
  }

  /** Moving everything after `i` down by one slot removes the element at `i`. */
  lemma CopyClosesGap<T>(s: seq<Slot<T>>, elems: seq<T>, i: nat)
    requires Holds(s, elems) && i < |elems|
    ensures Holds(CopyResult(s, i + 1, i, |elems| - 1 - i), elems[..i] + elems[i + 1..])
  {
    var s' := CopyResult(s, i + 1, i, |elems| - 1 - i);
    var elems' := elems[..i] + elems[i + 1..];
    forall k | 0 <= k < |elems'| ensures s'[k] == Init(elems'[k]) {
      if k >= i { assert s'[k] == s[k + 1] && elems'[k] == elems[k + 1]; }
    }
  }

  // ----- the vector on raw memory -----

  class RawVec<T> {
    const heap: Heap<T>
    const layout: Layout<T>
    /** `None` is the dangling pointer of an empty or zero-sized allocation. */
    var ptr: Option<BlockId>
    var cap: nat
    ghost var moved: nat

    ghost predicate Valid()
      reads this, heap
    {
      && heap.Valid() && layout.Valid()
      && if layout.elemSize == 0 || cap == 0 then ptr == None
         else ptr.Some? && ptr.value in heap.blocks && |heap.blocks[ptr.value]| == cap
    }

    /** The slots that the vector owns. */
    ghost function Slots(): seq<Slot<T>>
      requires Valid()
      reads this, heap
    {
      if ptr.Some? then heap.blocks[ptr.value] else []
    }

    /** All other memory. */
    ghost function Rest(): map<BlockId, seq<Slot<T>>>
      reads this, heap
    {
      if ptr.Some? then heap.blocks - {ptr.value} else heap.blocks
    }

    constructor (heap: Heap<T>, layout: Layout<T>)
      requires heap.Valid() && layout.Valid()
      ensures Valid() && this.heap == heap && this.layout == layout
      ensures cap == NewVec(layout).cap && moved == 0 && Rest() == heap.blocks
    {
      this.heap, this.layout := heap, layout;
      cap := if layout.elemSize == 0 then layout.maxUSize else 0;
      ptr := None;
      moved := 0;
    }

    /** `false` stands for a panic, which leaves everything as it was. */
    method Grow() returns (ok: bool)
      requires Valid() && (layout.elemSize != 0 ==> layout.ArrayFits(cap))
      modifies this, heap
      ensures Valid() && Rest() == old(Rest())
      ensures ok <==> layout.elemSize != 0 && layout.ArrayFits(NewCap(old(cap)))
      ensures ok ==> cap == if old(cap) == 0 then 1 else 2 * old(cap)
      ensures ok ==> cap == NewCap(old(cap)) && moved == old(moved) + old(cap)
      ensures ok ==> |Slots()| == cap && Slots()[..old(cap)] == old(Slots())
      ensures !ok ==> cap == old(cap) && moved == old(moved) && ptr == old(ptr) && heap.blocks == old(heap.blocks)
    {
      if layout.elemSize == 0 { return false; }
      CapAtMost(cap, layout.elemSize, layout.maxISize);
      var newCap := if cap == 0 then 1 else 2 * cap;
      assert newCap <= layout.maxUSize;
      if !layout.ArrayFits(newCap) { return false; }
      var newPtr: BlockId;
      if cap == 0 {
        newPtr := heap.Alloc(newCap);
      } else {
        newPtr := heap.Realloc(cap, newCap, ptr.value);
        moved := moved + cap;
      }
      ptr, cap := Some(newPtr), newCap;
      ok := true;
    }
  }

  ghost predicate IsTheValue<T>(x: T, value: T) {
    x == value
  }

  class Vec<T(!new)> {
    const buf: RawVec<T>
    var len: nat
    ghost var elems: seq<T>
    ghost var maxLen: nat

    /** The vector that the memory represents. */
    ghost function Value(): Abstract<T>
      reads this, buf
    {
      Abstract(elems, buf.cap, buf.moved, maxLen)
    }

    ghost predicate Valid()
      reads this, buf, buf.heap
    {
      && buf.Valid() && len == |elems|
      && Invariant(buf.layout, Value())
      && if buf.layout.elemSize == 0 then forall x :: IsTheValue(x, buf.layout.zeroSized) else Holds(buf.Slots(), elems)
    }

    constructor (heap: Heap<T>, layout: Layout<T>)
      requires heap.Valid() && layout.Valid()
      requires layout.elemSize == 0 ==> forall x :: IsTheValue(x, layout.zeroSized)
      ensures Valid() && fresh(buf) && buf.heap == heap && buf.layout == layout
      ensures Value() == NewVec(layout) && buf.Rest() == heap.blocks
    {
      buf := new RawVec(heap, layout);
      len, maxLen, elems := 0, 0, [];
    }

    /** `ptr::write` at an index below the capacity; nothing happens in memory for a zero-sized type. */
    method WriteSlot(i: nat, x: T)
      requires buf.Valid() && i < buf.cap
      modifies buf.heap
      ensures buf.Valid() && buf.Rest() == old(buf.Rest())
      ensures buf.layout.elemSize != 0 ==> buf.Slots() == old(buf.Slots())[i := Init(x)]
    {
      if buf.layout.elemSize != 0 {
        buf.heap.Write(buf.ptr.value, i, x);
      }
    }

    /** `ptr::read` of an initialised slot. */
    method ReadSlot(i: nat) returns (x: T)
      requires buf.Valid() && i < buf.cap
      requires buf.layout.elemSize != 0 ==> buf.Slots()[i].Init?
      ensures x == if buf.layout.elemSize == 0 then buf.layout.zeroSized else buf.Slots()[i].value
    {
      if buf.layout.elemSize == 0 {
        x := buf.layout.zeroSized;
      } else {
        x := buf.heap.Read(buf.ptr.value, i);
      }
    }

    /** `ptr::copy` inside the allocation. */
    method MoveSlots(src: nat, dst: nat, n: nat)
      requires buf.Valid() && src + n <= buf.cap && dst + n <= buf.cap && buf.cap != 0
      modifies buf.heap
      ensures buf.Valid() && buf.Rest() == old(buf.Rest())
      ensures buf.layout.elemSize != 0 ==> buf.Slots() == CopyResult(old(buf.Slots()), src, dst, n)
    {
      if buf.layout.elemSize != 0 {
        buf.heap.Copy(buf.ptr.value, src, dst, n);
      }
    }

    /** Make room for one more element, or panic and change nothing. */
    method Reserve() returns (ok: bool)
      requires Valid()
      modifies buf, buf.heap
      ensures Valid'() && buf.Rest() == old(buf.Rest())
      ensures ok <==> (len == old(buf.cap) ==> Grown(buf.layout, old(Value())).Some?)
      ensures ok ==> len < buf.cap && len + 1 <= buf.layout.maxUSize
      ensures Value() == if ok && len == old(buf.cap) then Grown(buf.layout, old(Value())).value else old(Value())
      ensures !ok ==> Valid()
    {
      NoOverflow(buf.layout, Value());
      ok := true;
      if len == buf.cap {
        ghost var slots := buf.Slots();
        ok := buf.Grow();
        if ok && buf.layout.elemSize != 0 {
          assert forall k :: 0 <= k < |elems| ==> buf.Slots()[k] == buf.Slots()[..|slots|][k];
        }
      }
    }

    /** `Valid` without the bounds that only hold again once the element is in. */
    ghost predicate Valid'()
      reads this, buf, buf.heap
    {
      && buf.Valid() && len == |elems| <= buf.cap
      && if buf.layout.elemSize == 0 then forall x :: IsTheValue(x, buf.layout.zeroSized) else Holds(buf.Slots(), elems)
    }

    method Push(elem: T) returns (ok: bool)
      requires Valid()
      modifies this, buf, buf.heap
      ensures Valid() && buf.Rest() == old(buf.Rest())
      ensures ok <==> Inserted(buf.layout, old(Value()), old(len), elem).Some?
      ensures ok <==> !CannotGrow(buf.layout, old(Value()))
      ensures if ok then elems == old(elems) + [elem] else elems == old(elems)
      ensures Value() == if ok then Inserted(buf.layout, old(Value()), old(len), elem).value else old(Value())
    {
      InsertedIff(buf.layout, Value(), len, elem);
      ok := PushOrPanic(elem);
      assert elems == Value().contents;
    }

    method PushOrPanic(elem: T) returns (ok: bool)
      requires Valid()
      modifies this, buf, buf.heap
      ensures Valid() && buf.Rest() == old(buf.Rest())
      ensures ok <==> Inserted(buf.layout, old(Value()), old(len), elem).Some?
      ensures Value() == if ok then Inserted(buf.layout, old(Value()), old(len), elem).value else old(Value())
    {
      StepKeepsInvariant(buf.layout, Value(), Op.Push(elem));
      ok := Reserve();
      if !ok { return; }
      WriteAtEnd(elem);
      len := len + 1;
    }

    method WriteAtEnd(elem: T)
      requires Valid'() && len < buf.cap
      modifies this`elems, this`maxLen, buf.heap
      ensures buf.Valid() && buf.Rest() == old(buf.Rest())
      ensures elems == old(elems)[..len] + [elem] + old(elems)[len..]
      ensures maxLen == if len < old(maxLen) then old(maxLen) else len + 1
      ensures buf.layout.elemSize != 0 ==> Holds(buf.Slots(), elems)
    {
      WriteSlot(len, elem);
      elems := elems + [elem];
      assert elems == old(elems)[..len] + [elem] + old(elems)[len..];
      maxLen := if len < maxLen then maxLen else len + 1;
    }

    method Pop() returns (r: Option<T>)
      requires Valid()
      modifies this
      ensures Valid() && buf.Rest() == old(buf.Rest())
      ensures r == if old(elems) == [] then None else Some(old(elems)[|old(elems)| - 1])
      ensures elems == if old(elems) == [] then [] else old(elems)[..|old(elems)| - 1]
      ensures Value() == Step(buf.layout, old(Value()), Op.Pop)
    {
      StepKeepsInvariant(buf.layout, Value(), Op.Pop);
      if len == 0 {
        r := None;
      } else {
        len := len - 1;
        assert IsTheValue(elems[len], buf.layout.zeroSized) || buf.layout.elemSize != 0;
        elems := elems[..len] + elems[len + 1..];
        var x := ReadSlot(len);
        r := Some(x);
      }
    }

    method Insert(index: nat, elem: T) returns (ok: bool)
      requires Valid()
      modifies this, buf, buf.heap
      ensures Valid() && buf.Rest() == old(buf.Rest())
      ensures ok <==> Inserted(buf.layout, old(Value()), index, elem).Some?
      ensures ok <==> index <= |old(elems)| && !CannotGrow(buf.layout, old(Value()))
      ensures if ok then InsertedAt(old(elems), elems, index, elem) else elems == old(elems)
      ensures Value() == if ok then Inserted(buf.layout, old(Value()), index, elem).value else old(Value())
    {
      InsertedIff(buf.layout, Value(), index, elem);
      ok := InsertOrPanic(index, elem);
    }

    method InsertOrPanic(index: nat, elem: T) returns (ok: bool)
      requires Valid()
      modifies this, buf, buf.heap
      ensures Valid() && buf.Rest() == old(buf.Rest())
      ensures ok <==> Inserted(buf.layout, old(Value()), index, elem).Some?
      ensures Value() == if ok then Inserted(buf.layout, old(Value()), index, elem).value else old(Value())
    {
      if !(index <= len) { return false; }
      StepKeepsInvariant(buf.layout, Value(), Op.Insert(index, elem));
      ok := Reserve();
      if !ok { return; }
      OpenGapAndWrite(index, elem);
      len := len + 1;
    }

    method OpenGapAndWrite(index: nat, elem: T)
      requires Valid'() && index <= len < buf.cap
      modifies this`elems, this`maxLen, buf.heap
      ensures buf.Valid() && buf.Rest() == old(buf.Rest())
      ensures elems == old(elems)[..index] + [elem] + old(elems)[index..]
      ensures maxLen == if len < old(maxLen) then old(maxLen) else len + 1
      ensures buf.layout.elemSize != 0 ==> Holds(buf.Slots(), elems)
    {
      if buf.layout.elemSize != 0 { CopyOpensGap(buf.Slots(), elems, index, elem); }
      MoveSlots(index, index + 1, len - index);
      WriteSlot(index, elem);
      elems := elems[..index] + [elem] + elems[index..];
      maxLen := if len < maxLen then maxLen else len + 1;
    }

    /** `None` stands for a panic. */
    method Remove(index: nat) returns (r: Option<T>)
      requires Valid()
      modifies this, buf.heap
      ensures Valid() && buf.Rest() == old(buf.Rest())
      ensures r == if index < |old(elems)| then Some(old(elems)[index]) else None
      ensures if r.Some? then InsertedAt(elems, old(elems), index, r.value) else elems == old(elems)
      ensures Value() == Step(buf.layout, old(Value()), Op.Remove(index))
    {
      if !(index < len) { return None; }
      RemoveElementwise(elems, index);
      StepKeepsInvariant(buf.layout, Value(), Op.Remove(index));
      len := len - 1;
      var result := CloseGap(index);
      r := Some(result);
    }

    method CloseGap(index: nat) returns (result: T)
      requires buf.Valid() && index < |elems| == len + 1 <= buf.cap
      requires if buf.layout.elemSize == 0 then forall x :: IsTheValue(x, buf.layout.zeroSized) else Holds(buf.Slots(), elems)
      modifies this`elems, buf.heap
      ensures buf.Valid() && buf.Rest() == old(buf.Rest())
      ensures result == old(elems)[index] && elems == old(elems)[..index] + old(elems)[index + 1..]
      ensures buf.layout.elemSize != 0 ==> Holds(buf.Slots(), elems)
    {
      assert IsTheValue(elems[index], buf.layout.zeroSized) || buf.layout.elemSize != 0;
      if buf.layout.elemSize != 0 { CopyClosesGap(buf.Slots(), elems, index); }
      result := ReadSlot(index);
      MoveSlots(index + 1, index, len - index);
      elems := elems[..index] + elems[index + 1..];
    }

    method Get(index: nat) returns (r: Option<T>)
      requires Valid()
      ensures r == if index < |elems| then Some(elems[index]) else None
    {
      if index < len {
        assert IsTheValue(elems[index], buf.layout.zeroSized) || buf.layout.elemSize != 0;
        var x := ReadSlot(index);
        r := Some(x);
      } else {
        r := None;
      }
    }

    /** `get_mut` followed by an assignment through the reference. */
    method GetMutAssign(index: nat, elem: T) returns (found: bool)
      requires Valid()
      modifies this, buf.heap
      ensures Valid() && buf.Rest() == old(buf.Rest())
      ensures found <==> index < |elems|
      ensures if found then AssignedAt(old(elems), elems, index, elem) else elems == old(elems)
      ensures Value() == Step(buf.layout, old(Value()), Assign(index, elem))
    {
      found := index < len;
      if found {
        WriteSlot(index, elem);
        elems := elems[index := elem];
      }
    }

    /** Any run of operations on this vector ends where the run on the abstract vector ends. */
    method Execute(ops: seq<Op<T>>)
      requires Valid() && Value() == NewVec(buf.layout)
      modifies this, buf, buf.heap
      ensures Valid() && buf.Rest() == old(buf.Rest())
      ensures Value() == Run(buf.layout, ops)
    {
      for i := 0 to |ops|
        invariant Valid() && buf.Rest() == old(buf.Rest())
        invariant Value() == Run(buf.layout, ops[..i])
      {
        assert ops[..i + 1][..i] == ops[..i];
        Perform(ops[i]);
      }
      assert ops[..|ops|] == ops;
    }

    method Perform(op: Op<T>)
      requires Valid()
      modifies this, buf, buf.heap
      ensures Valid() && buf.Rest() == old(buf.Rest())
      ensures Value() == Step(buf.layout, old(Value()), op)
    {
      match op
      case Push(x) => var _ := Push(x);
      case Pop => var _ := Pop();
      case Insert(j, x) => var _ := Insert(j, x);
      case Remove(j) => var _ := Remove(j);
      case Get(j) => var _ := Get(j);
      case Assign(j, x) => var _ := GetMutAssign(j, x);
    }
  }
}
