/** Notions about sequences and sets that several models share. */
module Collections {

  ghost predicate NoDuplicates<T>(s: seq<T>) {
    forall i, j :: 0 <= i < j < |s| ==> s[i] != s[j]
  }

  predicate IsNatBelow(x: nat, n: nat) {
    x < n
  }

  /** The numbers below `n`. */
  function NatsBelow(n: nat): set<nat> {
    set x: nat | x < n && IsNatBelow(x, n)
  }

  lemma {:induction false} CountNatsBelow(n: nat)
    ensures |NatsBelow(n)| == n
  {
    if n == 0 {
      assert NatsBelow(0) == {};
    } else {
      CountNatsBelow(n - 1);
      forall x: nat ensures x in NatsBelow(n) <==> x in NatsBelow(n - 1) + {n - 1} {
        assert IsNatBelow(x, n) <==> IsNatBelow(x, n - 1) || x == n - 1;
      }
      assert NatsBelow(n) == NatsBelow(n - 1) + {n - 1};
    }
  }
}
