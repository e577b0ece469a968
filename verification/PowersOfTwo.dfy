/** Powers of two, and the bits of a natural number. */
module PowersOfTwo {

  function Pow2(k: nat): (r: nat)
    ensures r > 0
  {
    if k == 0 then 1 else 2 * Pow2(k - 1)
  }

  ghost predicate IsPowerOfTwo(n: nat) {
    exists k: nat :: n == Pow2(k)
  }

  lemma {:induction false} Pow2Monotone(j: nat, k: nat)
    requires j <= k
    ensures Pow2(j) <= Pow2(k)
    ensures j < k ==> 2 * Pow2(j) <= Pow2(k)
    decreases k
  {
    if j < k { Pow2Monotone(j, k - 1); }
  }
}
