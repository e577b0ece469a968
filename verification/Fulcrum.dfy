/** The fulcrum of a list: where to cut it so that both sides have most nearly the same sum. */
module Fulcrum {
  import opened Wrappers

  const U32_MAX: nat := 0xFFFF_FFFF

  newtype u32 = x: int | 0 <= x <= 0xFFFF_FFFF

  function Sum(s: seq<u32>): nat {
    if s == [] then 0 else Sum(s[..|s| - 1]) + s[|s| - 1] as nat
  }

  function Abs(x: int): nat {
    if x < 0 then -x else x
  }

  /** The quantity to be minimised, as its definition says: both sums afresh for every cut. */
  function Imbalance(s: seq<u32>, i: nat): nat
    requires i <= |s|
  {
    Abs(Sum(s[..i]) - Sum(s[i..]))
  }

  lemma {:induction false} SumSplits(s: seq<u32>, i: nat)
    requires i <= |s|
    ensures Sum(s) == Sum(s[..i]) + Sum(s[i..])
  {
    if i == |s| {
      assert s[..i] == s && s[i..] == [];
    } else {
      SumSplits(s[..|s| - 1], i);
      assert s[..|s| - 1][..i] == s[..i] && s[..|s| - 1][i..] == s[i..][..|s[i..]| - 1];
    }
  }

  lemma ImbalanceFromPrefix(s: seq<u32>, i: nat)
    requires i <= |s|
    ensures Sum(s[..i]) <= Sum(s) && Imbalance(s, i) == Abs(Sum(s[..i]) - (Sum(s) - Sum(s[..i])))
  {
    SumSplits(s, i);
  }

  function AbsDiff(x: u32, y: u32): u32 {
    if x < y then y - x else x - y
  }

  /** `None` stands for the overflow of the running total. */
  method Total(s: seq<u32>) returns (r: Option<u32>)
    ensures r == None <==> Sum(s) > U32_MAX
    ensures r.Some? ==> r.value as nat == Sum(s)
  {
    var total: u32 := 0;
    for i := 0 to |s|
      invariant total as nat == Sum(s[..i])
    {
      assert s[..i + 1][..i] == s[..i];
      if total as nat + s[i] as nat > U32_MAX {
        ImbalanceFromPrefix(s, i + 1);
        return None;
      }
      total := total + s[i];
    }
    assert s[..|s|] == s;
    r := Some(total);
  }

  /** The least index that minimises the imbalance. Only the running total can overflow. */
  method FindFulcrum(s: seq<u32>) returns (r: Option<nat>)
    ensures r == None <==> Sum(s) > U32_MAX
    ensures r.Some? && s != [] ==>
              && r.value < |s|
              && (forall i :: 0 <= i < |s| ==> Imbalance(s, r.value) <= Imbalance(s, i))
              && (forall i :: 0 <= i < r.value ==> Imbalance(s, r.value) < Imbalance(s, i))
    ensures s == [] ==> r == Some(0)
  {
    var t := Total(s);
    if t == None { return None; }
    var total := t.value;
    var minI: nat := 0;
    var minDist := total;
    var sum: u32 := 0;
    ImbalanceFromPrefix(s, 0);
    for i := 0 to |s|
      invariant sum as nat == Sum(s[..i])
      invariant minI < |s| || s == []
      invariant minI <= i && (s == [] ==> minI == 0)
      invariant minDist as nat == Imbalance(s, minI)
      invariant forall j :: 0 <= j < i ==> minDist as nat <= Imbalance(s, j)
      invariant forall j :: 0 <= j < minI ==> (minDist as nat) < Imbalance(s, j)
    {
      ImbalanceFromPrefix(s, i);
      var dist := AbsDiff(sum, total - sum);
      assert dist as nat == Imbalance(s, i);
      if dist < minDist {
        minI := i;
        minDist := dist;
      }
      PrefixGrows(s, i);
      sum := sum + s[i];
    }
    r := Some(minI);
  }

  lemma PrefixGrows(s: seq<u32>, i: nat)
    requires i < |s|
    ensures Sum(s[..i + 1]) == Sum(s[..i]) + s[i] as nat && Sum(s[..i + 1]) <= Sum(s)
  {
    assert s[..i + 1][..i] == s[..i];
    ImbalanceFromPrefix(s, i + 1);
  }
}
