/**
 * What findFit returns, stated on the ghost lists of a heap.
 *
 * A request of 16 bytes takes the head of the small list when there is one.
 * Otherwise the bucket of the request is searched with the capped best-fit
 * scan of MallocFit; when nothing in it fits, the first non-empty bucket
 * above it is scanned with every block counted as fitting, and when there is
 * none the search fails.
 */
module MallocSearch {
  import opened MallocWords
  import opened MallocLayout
  import opened MallocLists
  import opened MallocFreeList
  import opened MallocFit

  /** The sizes of the blocks of L, read from their headers. */
  function SizesOf(M: seq<nat>, L: seq<nat>): (S: seq<nat>)
    ensures |S| == |L|
    ensures forall k | 0 <= k < |L| :: S[k] == if L[k] < |M| then BlockSize(M[L[k]]) else 0
  {
    seq(|L|, k requires 0 <= k < |L| => if L[k] < |M| then BlockSize(M[L[k]]) else 0)
  }

  /** The position the scan of the first K sizes keeps: a fitting size replaces the kept one when it is the first or strictly smaller. */
  function Pick(S: seq<nat>, need: nat, K: nat): (r: nat)
    requires K <= |S|
    ensures K == 0 || r < K
  {
    if K == 0 then 0
    else
      var r := Pick(S, need, K - 1);
      if S[K - 1] >= need && (CountFits(S[..K - 1], need) == 0 || S[K - 1] < S[r]) then K - 1 else r
  }

  /** When anything among the first K sizes fits, Pick is the best fit among them. */
  lemma {:induction false} PickBest(S: seq<nat>, need: nat, K: nat)
    requires K <= |S| && CountFits(S[..K], need) > 0
    ensures BestFit(S, need, K, Pick(S, need, K))
  {
    CountFitsStep(S, need, K - 1);
    var c := CountFits(S[..K - 1], need);
    if c == 0 {
      CountFitsZero(S, need, K - 1);
    } else {
      PickBest(S, need, K - 1);
    }
  }

  /** Before the scan has looked at anything, it has counted nothing and stops where the whole search stops. */
  lemma ScanStart(S: seq<nat>, need: nat)
    ensures CountFits(S[..0], need) == 0 && ScanFrom(S, need, 0) == ScanEnd(S, need)
  {
    assert S[..0] == [];
  }

  /** One more block looked at by the scan: the count, where the scan stops and the kept position, one step on. */
  lemma ScanStep(S: seq<nat>, need: nat, k: nat, find: nat)
    requires k < |S| && find == CountFits(S[..k], need) && find <= FindThres && ScanFrom(S, need, k) == ScanEnd(S, need)
    ensures CountFits(S[..k + 1], need) == find + (if S[k] >= need then 1 else 0)
    ensures ScanFrom(S, need, k + 1) == ScanEnd(S, need)
    ensures Pick(S, need, k + 1) == if S[k] >= need && (find == 0 || S[k] < S[Pick(S, need, k)]) then k else Pick(S, need, k)
  {
    CountFitsStep(S, need, k);
  }

  /** The scan stops at k once more than FindThres fitting blocks are counted or the list is done. */
  lemma ScanExit(S: seq<nat>, need: nat, k: nat)
    requires k <= |S| && ScanFrom(S, need, k) == ScanEnd(S, need)
    requires CountFits(S[..k], need) > FindThres || k == |S|
    ensures ScanEnd(S, need) == k
  {
  }

  /** The first bucket from b on that is not empty, or SegNum. */
  function FirstNonEmpty(lists: seq<seq<nat>>, b: nat): (c: nat)
    requires b <= SegNum && |lists| == ListCount
    ensures b <= c <= SegNum && (c < SegNum ==> 0 < |lists[c]|)
    ensures forall i | b <= i < c :: |lists[i]| == 0
    decreases SegNum - b
  {
    if b == SegNum || 0 < |lists[b]| then b else FirstNonEmpty(lists, b + 1)
  }

  /** Where findFit finds a block: position k of list j; the small list is list SegNum. */
  datatype Fit = NoFit | FitAt(j: nat, k: nat)

  /** The block findFit(sz) returns, as a position in the lists. */
  function FindFitSpec(M: seq<nat>, lists: seq<seq<nat>>, sz: nat): Fit
    requires |lists| == ListCount
  {
    if sz == SmallSize && 0 < |lists[SegNum]| then FitAt(SegNum, 0)
    else
      var idx := GetFreeListIndex(sz);
      var S := SizesOf(M, lists[idx]);
      if CountFits(S[..ScanEnd(S, sz)], sz) > 0 then FitAt(idx, Pick(S, sz, ScanEnd(S, sz)))
      else AboveFit(M, lists, idx)
  }

  /** The block findFit falls back on when nothing in bucket idx fits: the scan of the first non-empty bucket above it, with every block fitting. */
  function AboveFit(M: seq<nat>, lists: seq<seq<nat>>, idx: nat): Fit
    requires |lists| == ListCount && idx < SegNum
  {
    var b := FirstNonEmpty(lists, idx + 1);
    if b == SegNum then NoFit
    else
      var T := SizesOf(M, lists[b]);
      FitAt(b, Pick(T, 0, ScanEnd(T, 0)))
  }

  /** A listed block of bucket j is at least as large as the bucket's lower bound. */
  lemma ListedSize(M: seq<nat>, beg: nat, end: nat, blocks: seq<nat>, heads: seq<int>, lists: seq<seq<nat>>,
                   P: set<nat>, j: nat, k: nat)
    requires HeapOk(M, beg, end, blocks, heads, lists, P) && j < SegNum && k < |lists[j]|
    ensures lists[j][k] < |M| && !IsSmall(M[lists[j][k]])
    ensures BucketLow(j) <= BlockSize(M[lists[j][k]])
    ensures j + 1 < SegNum ==> BlockSize(M[lists[j][k]]) < BucketLow(j + 1)
  {
    assert ListedOk(M, blocks, P, j, lists[j][k]);
    BucketRange(BlockSize(M[lists[j][k]]), j);
  }

  /**
   * findFit's block is a listed block of at least sz bytes, from the small
   * list exactly when the request is for 16 bytes and that list is not empty.
   */
  lemma FindFitFits(M: seq<nat>, beg: nat, end: nat, blocks: seq<nat>, heads: seq<int>, lists: seq<seq<nat>>,
                    P: set<nat>, sz: nat)
    requires HeapOk(M, beg, end, blocks, heads, lists, P)
    ensures FindFitSpec(M, lists, sz).FitAt? ==>
              var f := FindFitSpec(M, lists, sz);
              f.j < ListCount && f.k < |lists[f.j]| && lists[f.j][f.k] < |M| &&
              BlockSize(M[lists[f.j][f.k]]) >= sz &&
              (f.j == SegNum <==> sz == SmallSize && 0 < |lists[SegNum]|)
  {
    if sz == SmallSize && 0 < |lists[SegNum]| {
      ListedFacts0(M, beg, end, blocks, heads, lists, P, SegNum, 0);
    } else {
      var idx := GetFreeListIndex(sz);
      var S := SizesOf(M, lists[idx]);
      var K := ScanEnd(S, sz);
      if CountFits(S[..K], sz) > 0 {
        FindFitBest(M, beg, end, blocks, heads, lists, P, sz);
        ListedFacts0(M, beg, end, blocks, heads, lists, P, idx, Pick(S, sz, K));
      } else if FirstNonEmpty(lists, idx + 1) < SegNum {
        FindFitAbove(M, beg, end, blocks, heads, lists, P, sz, FirstNonEmpty(lists, idx + 1));
      }
    }
  }

  /** In the request's own bucket, findFit's block is the best fit among the blocks the scan looked at. */
  lemma FindFitBest(M: seq<nat>, beg: nat, end: nat, blocks: seq<nat>, heads: seq<int>, lists: seq<seq<nat>>,
                    P: set<nat>, sz: nat)
    requires HeapOk(M, beg, end, blocks, heads, lists, P)
    requires sz != SmallSize || |lists[SegNum]| == 0
    requires var S := SizesOf(M, lists[GetFreeListIndex(sz)]); CountFits(S[..ScanEnd(S, sz)], sz) > 0
    ensures var S := SizesOf(M, lists[GetFreeListIndex(sz)]);
            FindFitSpec(M, lists, sz) == FitAt(GetFreeListIndex(sz), Pick(S, sz, ScanEnd(S, sz))) &&
            BestFit(S, sz, ScanEnd(S, sz), Pick(S, sz, ScanEnd(S, sz)))
  {
    var S := SizesOf(M, lists[GetFreeListIndex(sz)]);
    PickBest(S, sz, ScanEnd(S, sz));
  }

  /** From a bucket above the request's, findFit's block is at least sz bytes. */
  lemma FindFitAbove(M: seq<nat>, beg: nat, end: nat, blocks: seq<nat>, heads: seq<int>, lists: seq<seq<nat>>,
                     P: set<nat>, sz: nat, b: nat)
    requires HeapOk(M, beg, end, blocks, heads, lists, P)
    requires GetFreeListIndex(sz) < b < SegNum && 0 < |lists[b]|
    ensures var T := SizesOf(M, lists[b]);
            Pick(T, 0, ScanEnd(T, 0)) < |lists[b]| && lists[b][Pick(T, 0, ScanEnd(T, 0))] < |M| &&
            BlockSize(M[lists[b][Pick(T, 0, ScanEnd(T, 0))]]) >= sz
  {
    var T := SizesOf(M, lists[b]);
    PickInRange(T);
    ListedSize(M, beg, end, blocks, heads, lists, P, b, Pick(T, 0, ScanEnd(T, 0)));
    HigherBucket(sz, b, BlockSize(M[lists[b][Pick(T, 0, ScanEnd(T, 0))]]));
  }

  /** The block at a findFit outcome, or NULL. */
  function FitBlock(lists: seq<seq<nat>>, f: Fit): int
  {
    if f.FitAt? && f.j < |lists| && f.k < |lists[f.j]| then lists[f.j][f.k] else NULL
  }

  /** With every block fitting, the scan of a non-empty list counts at least one. */
  lemma AllFit(T: seq<nat>)
    requires 0 < |T|
    ensures CountFits(T[..ScanEnd(T, 0)], 0) > 0
  {
    ScanEndBound(T, 0);
    assert T[..0] == [];
    if ScanEnd(T, 0) == |T| {
      CountFitsStep(T, 0, 0);
      CountFitsMono(T, 0, 1, |T|);
      assert T[..1] == [T[0]];
    }
  }

  /** The scan of a non-empty list with every block fitting keeps one of its positions. */
  lemma PickInRange(T: seq<nat>)
    requires 0 < |T|
    ensures Pick(T, 0, ScanEnd(T, 0)) < |T|
  {
    ScanEndBound(T, 0);
    assert T[..0] == [];
  }

  /** A block of a bucket above the request's bucket is larger than the request. */
  lemma HigherBucket(sz: nat, b: nat, size: nat)
    requires GetFreeListIndex(sz) < b < SegNum && BucketLow(b) <= size
    ensures sz < size
  {
    BucketRange(sz, GetFreeListIndex(sz));
    BucketLowMono(GetFreeListIndex(sz) + 1, b);
  }

  /** The bucket bounds grow with the bucket. */
  lemma BucketLowMono(a: nat, b: nat)
    requires a <= b < SegNum
    ensures BucketLow(a) <= BucketLow(b)
  {
    assert Pow2(1) == 2 && Pow2(2) == 4 && Pow2(3) == 8 && Pow2(4) == 16;
    assert Pow2(5) == 32 && Pow2(6) == 64 && Pow2(7) == 128;
  }

  /** A member of a list is a block of the memory with the list's kind and size class. */
  lemma ListedFacts0(M: seq<nat>, beg: nat, end: nat, blocks: seq<nat>, heads: seq<int>, lists: seq<seq<nat>>,
                     P: set<nat>, j: nat, k: nat)
    requires HeapOk(M, beg, end, blocks, heads, lists, P) && j < ListCount && k < |lists[j]|
    ensures lists[j][k] < |M| && ListOf(M, lists[j][k]) == j
  {
    assert ListedOk(M, blocks, P, j, lists[j][k]);
  }

  /** When findFit finds nothing, no listed free block has sz bytes or more. */
  lemma NoFitNoBlock(M: seq<nat>, beg: nat, end: nat, blocks: seq<nat>, heads: seq<int>, lists: seq<seq<nat>>,
                     P: set<nat>, sz: nat, j: nat, k: nat)
    requires HeapOk(M, beg, end, blocks, heads, lists, P) && FindFitSpec(M, lists, sz) == NoFit && sz >= SmallSize
    requires j < ListCount && k < |lists[j]|
    ensures lists[j][k] < |M| && BlockSize(M[lists[j][k]]) < sz
  {
    var idx := GetFreeListIndex(sz);
    ListedFacts0(M, beg, end, blocks, heads, lists, P, j, k);
    var q := lists[j][k];
    if j == SegNum {
      assert IsSmall(M[q]);
    } else if j < idx {
      ListedSize(M, beg, end, blocks, heads, lists, P, j, k);
      BucketLowMono(j + 1, idx);
      BucketRange(sz, idx);
    } else if j == idx {
      var S := SizesOf(M, lists[idx]);
      NothingFits(S, sz);
      assert S[k] < sz;
    } else {
      assert false;
    }
  }
}
