/**
 * What findFit's search picks, stated on the sizes of one free list, read
 * from its head.
 *
 * The search walks the list from its head and stops once it has seen more
 * than FindThres blocks that fit (so at most FindThres + 1 of them) or is
 * back at the head. Of the fitting blocks it has seen, it picks the smallest,
 * and of equally small ones the first.
 */
module MallocFit {
  import opened MallocWords

  /** How many of the sizes S are at least need. */
  function CountFits(S: seq<nat>, need: nat): (c: nat)
    ensures c <= |S|
  {
    if |S| == 0 then 0 else CountFits(S[..|S| - 1], need) + (if S[|S| - 1] >= need then 1 else 0)
  }

  /** Counting one more size. */
  lemma CountFitsStep(S: seq<nat>, need: nat, k: nat)
    requires k < |S|
    ensures CountFits(S[..k + 1], need) == CountFits(S[..k], need) + (if S[k] >= need then 1 else 0)
  {
    assert S[..k + 1][..k] == S[..k];
  }

  /** From position k on, where the search stops: the first position whose prefix holds more than FindThres fits, or the end. */
  function ScanFrom(S: seq<nat>, need: nat, k: nat): (K: nat)
    requires k <= |S|
    ensures k <= K <= |S|
    decreases |S| - k
  {
    if k == |S| || CountFits(S[..k], need) > FindThres then k else ScanFrom(S, need, k + 1)
  }

  /** Where the search of the whole list stops. */
  function ScanEnd(S: seq<nat>, need: nat): (K: nat)
    ensures K <= |S|
  {
    ScanFrom(S, need, 0)
  }

  /** r is the search's pick among the first K sizes: it fits, none of them that fits is smaller, and every earlier one that fits is larger. */
  predicate BestFit(S: seq<nat>, need: nat, K: nat, r: nat)
  {
    r < K <= |S| && S[r] >= need &&
    (forall m | 0 <= m < K && S[m] >= need :: S[r] <= S[m]) &&
    (forall m | 0 <= m < r && S[m] >= need :: S[r] < S[m])
  }

  /** The pick is determined: two picks are the same position. */
  lemma BestFitUnique(S: seq<nat>, need: nat, K: nat, r1: nat, r2: nat)
    requires BestFit(S, need, K, r1) && BestFit(S, need, K, r2)
    ensures r1 == r2
  {
    if r1 != r2 {
      assert false;
    }
  }

  /** Counting fits is monotone in the prefix. */
  lemma {:induction false} CountFitsMono(S: seq<nat>, need: nat, a: nat, b: nat)
    requires a <= b <= |S|
    ensures CountFits(S[..a], need) <= CountFits(S[..b], need)
    decreases b - a
  {
    if a < b {
      CountFitsStep(S, need, b - 1);
      CountFitsMono(S, need, a, b - 1);
    }
  }

  /** The search stops as soon as it has more than FindThres fits, and never sees more than FindThres + 1. */
  lemma {:induction false} ScanFromBound(S: seq<nat>, need: nat, k: nat)
    requires k <= |S| && CountFits(S[..k], need) <= FindThres + 1
    ensures CountFits(S[..ScanFrom(S, need, k)], need) <= FindThres + 1
    ensures ScanFrom(S, need, k) < |S| ==> CountFits(S[..ScanFrom(S, need, k)], need) == FindThres + 1
    decreases |S| - k
  {
    if k < |S| && CountFits(S[..k], need) <= FindThres {
      CountFitsStep(S, need, k);
      ScanFromBound(S, need, k + 1);
    }
  }

  /** The search looks at FindThres + 1 fitting blocks at most, and stops early only when it has seen that many. */
  lemma ScanEndBound(S: seq<nat>, need: nat)
    ensures CountFits(S[..ScanEnd(S, need)], need) <= FindThres + 1
    ensures ScanEnd(S, need) < |S| ==> CountFits(S[..ScanEnd(S, need)], need) == FindThres + 1
  {
    assert S[..0] == [];
    ScanFromBound(S, need, 0);
  }

  /** No size in the prefix fits when none is counted. */
  lemma {:induction false} CountFitsZero(S: seq<nat>, need: nat, k: nat)
    requires k <= |S| && CountFits(S[..k], need) == 0
    ensures forall m | 0 <= m < k :: S[m] < need
  {
    if k > 0 {
      CountFitsStep(S, need, k - 1);
      CountFitsMono(S, need, k - 1, k);
      CountFitsZero(S, need, k - 1);
    }
  }

  /** A search that finds nothing has looked at the whole list, and nothing in it fits. */
  lemma NothingFits(S: seq<nat>, need: nat)
    requires CountFits(S[..ScanEnd(S, need)], need) == 0
    ensures forall m | 0 <= m < |S| :: S[m] < need
  {
    ScanEndBound(S, need);
    assert ScanEnd(S, need) == |S|;
    CountFitsZero(S, need, |S|);
  }
}
