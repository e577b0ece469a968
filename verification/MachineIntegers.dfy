/** Stepping, differences and bit tests of machine integers, for every width. */
module MachineIntegers {
  import opened Wrappers
  import opened PowersOfTwo

  // ----- wrapping -----

  /** The value modulo 2^bits, read as an unsigned number. */
  function WrapUnsigned(bits: nat, x: int): nat {
    x % Pow2(bits)
  }

  /** The value modulo 2^bits, read as a signed number. */
  function WrapSigned(bits: nat, x: int): int
    requires bits > 0
  {
    (x + Pow2(bits - 1)) % Pow2(bits) - Pow2(bits - 1)
  }

  predicate InUnsigned(bits: nat, x: int) {
    0 <= x < Pow2(bits)
  }

  predicate InSigned(bits: nat, x: int)
    requires bits > 0
  {
    0 - Pow2(bits - 1) <= x < Pow2(bits - 1)
  }

  lemma ModNearby(x: int, m: int)
    requires m > 0
    ensures 0 <= x < m ==> x % m == x
    ensures m <= x < 2 * m ==> x % m == x - m
    ensures -m <= x < 0 ==> x % m == x + m
  {
    if m <= x < 2 * m {
      assert x == m * 1 + (x - m);
      ModUnique(x, m, 1, x - m);
    } else if -m <= x < 0 {
      assert x == m * (-1) + (x + m);
      ModUnique(x, m, -1, x + m);
    }
  }

  lemma ModUnique(x: int, m: int, q: int, r: int)
    requires m > 0 && 0 <= r < m && x == m * q + r
    ensures x % m == r
  {
    var d := x / m - q;
    assert x == m * (x / m) + x % m;
    assert m * d == r - x % m by { assert m * d == m * (x / m) - m * q; }
    MulGrows(m, d);
  }

  lemma MulGrows(m: int, d: int)
    requires m > 0
    ensures d >= 1 ==> m * d >= m
    ensures d <= -1 ==> m * d <= -m
  {
    if d >= 1 { assert m * d == m + m * (d - 1); }
    if d <= -1 { assert m * d == -m + m * (d + 1); }
  }

  lemma WrapUnsignedNearby(bits: nat, x: int)
    ensures var m: int := Pow2(bits);
            && (0 <= x < m ==> WrapUnsigned(bits, x) == x)
            && (m <= x < 2 * m ==> WrapUnsigned(bits, x) == x - m)
            && (-m <= x < 0 ==> WrapUnsigned(bits, x) == x + m)
  {
    ModNearby(x, Pow2(bits));
  }

  lemma WrapSignedNearby(bits: nat, x: int)
    requires bits > 0
    ensures var h: int := Pow2(bits - 1);
            && (-h <= x < h ==> WrapSigned(bits, x) == x)
            && (h <= x < 3 * h ==> WrapSigned(bits, x) == x - 2 * h)
            && (-3 * h <= x < -h ==> WrapSigned(bits, x) == x + 2 * h)
  {
    ModNearby(x + Pow2(bits - 1), Pow2(bits));
  }

  // ----- Step -----

  /** An integer type on a machine whose `usize` has `usizeBits` bits. */
  datatype IntType = IntType(bits: nat, signed: bool, usizeBits: nat) {

    predicate Valid() {
      bits > 0 && usizeBits > 0
    }

    predicate InRange(x: int)
      requires Valid()
    {
      if signed then InSigned(bits, x) else InUnsigned(bits, x)
    }

    predicate InUsize(n: int) {
      InUnsigned(usizeBits, n)
    }

    const usizeMax: nat := Pow2(usizeBits) - 1

    function Checked(x: int): Option<int>
      requires Valid()
    {
      if InRange(x) then Some(x) else None
    }

    /** Narrow signed types add in the wrapping arithmetic of the type and look whether that went up;
        the others add with an overflow check. */
    function ForwardChecked(start: int, n: nat): Option<int>
      requires Valid()
    {
      if bits <= usizeBits then
        if !InUnsigned(bits, n) then None
        else if signed then
          var wrapped := WrapSigned(bits, start + WrapSigned(bits, n));
          if wrapped >= start then Some(wrapped) else None
        else
          Checked(start + n)
      else if signed then Checked(start + WrapSigned(bits, n))
      else Checked(start + WrapUnsigned(bits, n))
    }

    function BackwardChecked(start: int, n: nat): Option<int>
      requires Valid()
    {
      if bits <= usizeBits then
        if !InUnsigned(bits, n) then None
        else if signed then
          var wrapped := WrapSigned(bits, start - WrapSigned(bits, n));
          if wrapped <= start then Some(wrapped) else None
        else
          Checked(start - n)
      else if signed then Checked(start - WrapSigned(bits, n))
      else Checked(start - WrapUnsigned(bits, n))
    }

    /** Narrow signed types subtract in wrapping `isize` arithmetic and cast to `usize`. */
    function StepsBetween(start: int, end: int): (nat, Option<nat>)
      requires Valid()
    {
      if start > end then (0, None)
      else if bits <= usizeBits then
        var steps := if signed then WrapUnsigned(usizeBits, WrapSigned(usizeBits, end - start))
                     else WrapUnsigned(usizeBits, end - start);
        (steps, Some(steps))
      else if InRange(end - start) && InUsize(end - start) then (end - start, Some(end - start))
      else (usizeMax, None)
    }

    lemma NarrowForwardIsChecked(start: int, n: nat)
      requires Valid() && InRange(start) && InUsize(n) && bits <= usizeBits
      ensures ForwardChecked(start, n) == if InRange(start + n) then Some(start + n) else None
    {
      if signed && InUnsigned(bits, n) {
        WrapSignedNearby(bits, n);
        WrapSignedNearby(bits, start + WrapSigned(bits, n));
      }
    }

    lemma WideForwardIsChecked(start: int, n: nat)
      requires Valid() && InRange(start) && InUsize(n) && bits > usizeBits
      ensures ForwardChecked(start, n) == if InRange(start + n) then Some(start + n) else None
    {
      Pow2Monotone(usizeBits, bits);
      WrapSignedNearby(bits, n);
      WrapUnsignedNearby(bits, n);
    }

    /** For every width, stepping forward gives the sum if it is in range, and nothing otherwise. */
    lemma ForwardIsChecked(start: int, n: nat)
      requires Valid() && InRange(start) && InUsize(n)
      ensures ForwardChecked(start, n) == if InRange(start + n) then Some(start + n) else None
    {
      if bits <= usizeBits { NarrowForwardIsChecked(start, n); } else { WideForwardIsChecked(start, n); }
    }

    lemma NarrowBackwardIsChecked(start: int, n: nat)
      requires Valid() && InRange(start) && InUsize(n) && bits <= usizeBits
      ensures BackwardChecked(start, n) == if InRange(start - n) then Some(start - n) else None
    {
      if signed && InUnsigned(bits, n) {
        WrapSignedNearby(bits, n);
        WrapSignedNearby(bits, start - WrapSigned(bits, n));
      }
    }

    lemma WideBackwardIsChecked(start: int, n: nat)
      requires Valid() && InRange(start) && InUsize(n) && bits > usizeBits
      ensures BackwardChecked(start, n) == if InRange(start - n) then Some(start - n) else None
    {
      Pow2Monotone(usizeBits, bits);
      WrapSignedNearby(bits, n);
      WrapUnsignedNearby(bits, n);
    }

    lemma BackwardIsChecked(start: int, n: nat)
      requires Valid() && InRange(start) && InUsize(n)
      ensures BackwardChecked(start, n) == if InRange(start - n) then Some(start - n) else None
    {
      if bits <= usizeBits { NarrowBackwardIsChecked(start, n); } else { WideBackwardIsChecked(start, n); }
    }

    /** Narrow types always know the distance; wide ones saturate exactly when it exceeds `usize`. */
    lemma StepsBetweenIsDistance(start: int, end: int)
      requires Valid() && InRange(start) && InRange(end)
      ensures StepsBetween(start, end) ==
              if start > end then (0, None)
              else if InUsize(end - start) then (end - start, Some(end - start))
              else (usizeMax, None)
      ensures bits <= usizeBits && start <= end ==> InUsize(end - start)
    {
      if bits <= usizeBits {
        Pow2Monotone(bits, usizeBits);
        if start <= end {
          var d := end - start;
          WrapSignedNearby(usizeBits, d);
          WrapUnsignedNearby(usizeBits, d);
          WrapUnsignedNearby(usizeBits, WrapSigned(usizeBits, d));
        }
      } else {
        Pow2Monotone(usizeBits, bits);
      }
    }

    /** Stepping forward and stepping backward undo each other. */
    lemma StepsAreInverse(start: int, end: int, n: nat)
      requires Valid() && InRange(start) && InRange(end) && InUsize(n)
      ensures ForwardChecked(start, n) == Some(end) <==> BackwardChecked(end, n) == Some(start)
    {
      ForwardIsChecked(start, n);
      BackwardIsChecked(end, n);
    }

    lemma ForwardComposes(start: int, m: nat, n: nat)
      requires Valid() && InRange(start) && InUsize(m + n)
      ensures ForwardChecked(start, m + n) ==
              match ForwardChecked(start, m)
              case Some(mid) => ForwardChecked(mid, n)
              case None => None
    {
      ForwardIsChecked(start, m + n);
      ForwardIsChecked(start, m);
      if InRange(start + m) { ForwardIsChecked(start + m, n); }
    }

    lemma BackwardComposes(start: int, m: nat, n: nat)
      requires Valid() && InRange(start) && InUsize(m + n)
      ensures BackwardChecked(start, m + n) ==
              match BackwardChecked(start, m)
              case Some(mid) => BackwardChecked(mid, n)
              case None => None
    {
      BackwardIsChecked(start, m + n);
      BackwardIsChecked(start, m);
      if InRange(start - m) { BackwardIsChecked(start - m, n); }
    }

    /** Stepping by a sum is stepping twice; if the sum can be reached then so can the way to it. */
    lemma StepsCompose(start: int, m: nat, n: nat)
      requires Valid() && InRange(start) && InUsize(m + n)
      ensures ForwardChecked(start, m + n) ==
              match ForwardChecked(start, m)
              case Some(mid) => ForwardChecked(mid, n)
              case None => None
      ensures BackwardChecked(start, m + n) ==
              match BackwardChecked(start, m)
              case Some(mid) => BackwardChecked(mid, n)
              case None => None
    {
      ForwardComposes(start, m, n);
      BackwardComposes(start, m, n);
    }

    /** The distance is exactly the number of steps that leads from one end to the other. */
    lemma DistanceIffReached(start: int, end: int, n: nat)
      requires Valid() && InRange(start) && InRange(end) && InUsize(n)
      ensures StepsBetween(start, end) == (n, Some(n)) <==> ForwardChecked(start, n) == Some(end)
    {
      StepsBetweenIsDistance(start, end);
      ForwardIsChecked(start, n);
    }
  }

  // ----- abs_diff -----

  function UnsignedAbsDiff(x: int, y: int): int {
    if x < y then y - x else x - y
  }

  /** Both casts and the subtraction wrap. */
  function SignedAbsDiff(bits: nat, x: int, y: int): nat {
    if x < y then WrapUnsigned(bits, WrapUnsigned(bits, y) - WrapUnsigned(bits, x))
    else WrapUnsigned(bits, WrapUnsigned(bits, x) - WrapUnsigned(bits, y))
  }

  /** The wrapping computation gives the distance exactly, and it fits the unsigned type. */
  lemma SignedAbsDiffIsDistance(bits: nat, x: int, y: int)
    requires bits > 0 && InSigned(bits, x) && InSigned(bits, y)
    ensures SignedAbsDiff(bits, x, y) == UnsignedAbsDiff(x, y)
    ensures InUnsigned(bits, UnsignedAbsDiff(x, y))
  {
    WrapUnsignedNearby(bits, x);
    WrapUnsignedNearby(bits, y);
    WrapUnsignedNearby(bits, WrapUnsigned(bits, x) - WrapUnsigned(bits, y));
    WrapUnsignedNearby(bits, WrapUnsigned(bits, y) - WrapUnsigned(bits, x));
  }

  // ----- bits -----

  function CountOnes(x: nat): nat {
    if x == 0 then 0 else x % 2 + CountOnes(x / 2)
  }

  function BitAnd(x: nat, y: nat): nat {
    if x == 0 || y == 0 then 0 else (x % 2) * (y % 2) + 2 * BitAnd(x / 2, y / 2)
  }

  predicate CountsOne(x: nat) {
    CountOnes(x) == 1
  }

  lemma {:induction false} CountOnesOfPow2(k: nat)
    ensures CountOnes(Pow2(k)) == 1
  {
    if k > 0 { CountOnesOfPow2(k - 1); }
  }

  lemma {:induction false} NoOnesMeansZero(x: nat)
    requires CountOnes(x) == 0
    ensures x == 0
  {
    if x != 0 { NoOnesMeansZero(x / 2); }
  }

  /** A number has exactly one bit set exactly when it is a power of two. */
  lemma {:induction false} IsPowerOfTwoIffOneBit(x: nat)
    ensures CountsOne(x) <==> IsPowerOfTwo(x)
  {
    if CountsOne(x) {
      if x % 2 == 1 {
        NoOnesMeansZero(x / 2);
        assert x == Pow2(0);
      } else {
        IsPowerOfTwoIffOneBit(x / 2);
        var k: nat :| x / 2 == Pow2(k);
        assert x == Pow2(k + 1);
      }
    }
    if IsPowerOfTwo(x) {
      var k: nat :| x == Pow2(k);
      CountOnesOfPow2(k);
    }
  }

  lemma RemainderOfDouble(x: nat, m: nat)
    requires m > 0
    ensures x % (2 * m) == x % 2 + 2 * ((x / 2) % m)
  {
    var q, r := (x / 2) / m, (x / 2) % m;
    assert x / 2 == m * q + r;
    assert (2 * m) * q == 2 * (m * q);
    ModUnique(x, 2 * m, q, 2 * r + x % 2);
  }

  lemma BitAndOddMask(x: nat, m: nat)
    requires m > 0
    ensures BitAnd(x, 2 * m - 1) == x % 2 + 2 * BitAnd(x / 2, m - 1)
  {
    assert (2 * m - 1) % 2 == 1 && (2 * m - 1) / 2 == m - 1;
  }

  lemma {:induction false} MaskIsRemainder(x: nat, k: nat)
    ensures BitAnd(x, Pow2(k) - 1) == x % Pow2(k)
  {
    if k > 0 {
      MaskIsRemainder(x / 2, k - 1);
      BitAndOddMask(x, Pow2(k - 1));
      RemainderOfDouble(x, Pow2(k - 1));
    }
  }

  /** `None` stands for the panic of `is_aligned_to`. */
  function IsAlignedTo(addr: nat, align: nat): Option<bool> {
    if !CountsOne(align) then None else Some(BitAnd(addr, align - 1) == 0)
  }

  /** The mask test decides divisibility, for every address and every power of two; it panics exactly
      on the other alignments. */
  lemma IsAlignedToIffDivides(addr: nat, align: nat)
    ensures IsAlignedTo(addr, align) == None <==> !IsPowerOfTwo(align)
    ensures IsPowerOfTwo(align) ==> IsAlignedTo(addr, align) == Some(addr % align == 0)
  {
    IsPowerOfTwoIffOneBit(align);
    if IsPowerOfTwo(align) {
      var k: nat :| align == Pow2(k);
      MaskIsRemainder(addr, k);
    }
  }
}
