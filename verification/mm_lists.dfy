/**
 * The allocator's free lists, read from the heap's words.
 *
 * There are nine circular doubly linked lists: the eight buckets of blocks of
 * 32 bytes or more, and the list of 16-byte blocks, which comes last here. A
 * large block keeps its prev and next pointers in its second and third
 * words; a 16-byte block keeps them in its two words, above the flag bits.
 * Each list is described by a ghost sequence that starts at its head and
 * follows the next pointers; the heads are NULL exactly when the list is
 * empty.
 */
module MallocLists {
  import opened MallocWords
  import opened MallocLayout

  /** The eight buckets and the list of 16-byte blocks. */
  const ListCount: nat := SegNum + 1

  /** The list a free block belongs in: its bucket, or the last list when it is small. */
  function ListOf(M: seq<nat>, q: nat): (j: nat)
    requires q < |M|
    ensures j < ListCount
    ensures j == SegNum <==> IsSmall(M[q])
  {
    if IsSmall(M[q]) then SegNum else GetFreeListIndex(BlockSize(M[q]))
  }

  /** getNext: the next block of q's free list. */
  function NextOf(M: seq<nat>, q: nat): int
  {
    if q + 2 < |M| then (if IsSmall(M[q]) then LinkTarget(M[q + 1]) else M[q + 2] / WordSize) else NULL
  }

  /** getPrev: the previous block of q's free list. */
  function PrevOf(M: seq<nat>, q: nat): int
  {
    if q + 2 < |M| then (if IsSmall(M[q]) then LinkTarget(M[q]) else M[q + 1] / WordSize) else NULL
  }

  /** The position after k in a ring of n. */
  function Succ(n: nat, k: nat): (s: nat)
    requires k < n
    ensures s < n
  {
    if k + 1 < n then k + 1 else 0
  }

  /** The position before k in a ring of n. */
  function Pred(n: nat, k: nat): (s: nat)
    requires k < n
    ensures s < n && Succ(n, s) == k
  {
    if k == 0 then n - 1 else k - 1
  }

  /** Only the position before k has k as its successor. */
  lemma SuccInjective(n: nat, m: nat, k: nat)
    requires m < n && k < n
    ensures Succ(n, m) == k <==> m == Pred(n, k)
  {
  }

  predicate Distinct(L: seq<nat>)
  {
    forall a, b | 0 <= a < b < |L| :: L[a] != L[b]
  }

  /** The blocks of L, from the head, linked in a circle both ways. */
  predicate Ring(M: seq<nat>, L: seq<nat>, head: int)
  {
    head == (if |L| == 0 then NULL else L[0]) && Distinct(L) &&
    forall k | 0 <= k < |L| :: NextOf(M, L[k]) == L[Succ(|L|, k)] && PrevOf(M, L[Succ(|L|, k)]) == L[k]
  }

  predicate Rings(M: seq<nat>, heads: seq<int>, lists: seq<seq<nat>>)
  {
    |heads| == ListCount && |lists| == ListCount &&
    forall j | 0 <= j < ListCount :: Ring(M, lists[j], heads[j])
  }

  /** A member of list j: a free block of the heap whose list is j and which is not set aside. */
  predicate ListedOk(M: seq<nat>, blocks: seq<nat>, pending: set<nat>, j: nat, q: nat)
  {
    q in blocks && q < |M| && !IsAlloc(M[q]) && ListOf(M, q) == j && q !in pending
  }

  /**
   * The lists hold exactly the free blocks, each in the list for its size,
   * except the pending blocks: free blocks an operation has taken off the
   * lists and not yet put back or allocated.
   */
  predicate Members(M: seq<nat>, blocks: seq<nat>, lists: seq<seq<nat>>, pending: set<nat>)
  {
    |lists| == ListCount &&
    (forall j, k | 0 <= j < ListCount && 0 <= k < |lists[j]| :: ListedOk(M, blocks, pending, j, lists[j][k])) &&
    (forall i | 0 <= i < |blocks| ::
       blocks[i] < |M| && (IsAlloc(M[blocks[i]]) || blocks[i] in pending || blocks[i] in lists[ListOf(M, blocks[i])])) &&
    (forall q | q in pending :: q in blocks && q < |M| && !IsAlloc(M[q]))
  }

  /* ---------------------------------------------------------------------- */
  /* Rewriting links                                                          */

  /** q's links are the same in M and M2. */
  predicate Kept(M: seq<nat>, M2: seq<nat>, q: nat)
  {
    NextOf(M2, q) == NextOf(M, q) && PrevOf(M2, q) == PrevOf(M, q)
  }

  /** M2 keeps the flags and size of the block at q, its footer when it is free and large, and its second word's flags when it is small. */
  predicate KeptBlock(M: seq<nat>, M2: seq<nat>, q: nat)
    requires q < |M| && |M2| == |M|
  {
    Flags(M2[q]) == Flags(M[q]) && BlockSize(M2[q]) == BlockSize(M[q]) &&
    (FreeBig(M[q]) && 0 < Len(M, q) && q + Len(M, q) - 1 < |M| ==> M2[q + Len(M, q) - 1] == M[q + Len(M, q) - 1]) &&
    (IsSmall(M[q]) && q + 1 < |M| ==> M2[q + 1] % 8 == M[q + 1] % 8 && (IsAlloc(M[q]) ==> M2[q + 1] == M[q + 1]))
  }

  /** M2 keeps the shape of every block and the epilogue: only links differ. */
  predicate ShapeKept(M: seq<nat>, M2: seq<nat>, blocks: seq<nat>, end: nat)
  {
    |M2| == |M| && end < |M| && M2[end] == M[end] &&
    forall i | 0 <= i < |blocks| :: blocks[i] < |M| && KeptBlock(M, M2, blocks[i])
  }

  lemma ShapeKeptTrans(M: seq<nat>, M2: seq<nat>, M3: seq<nat>, blocks: seq<nat>, end: nat)
    requires ShapeKept(M, M2, blocks, end) && ShapeKept(M2, M3, blocks, end)
    ensures ShapeKept(M, M3, blocks, end)
  {
    forall i | 0 <= i < |blocks|
      ensures KeptBlock(M, M3, blocks[i])
    {
      var q := blocks[i];
      assert KeptBlock(M, M2, q) && KeptBlock(M2, M3, q);
      SameFlags(M[q], M2[q]);
    }
  }

  /** Rewriting links keeps the layout. */
  lemma LayoutKept(M: seq<nat>, M2: seq<nat>, beg: nat, end: nat, blocks: seq<nat>)
    requires Layout(M, beg, end, blocks) && ShapeKept(M, M2, blocks, end)
    ensures Layout(M2, beg, end, blocks)
  {
    assert KeptBlock(M, M2, blocks[0]);
    SameFlags(M[beg], M2[beg]);
    forall i | 0 <= i < |blocks|
      ensures BlockOk(M2, blocks, end, i)
    {
      var q := blocks[i];
      assert BlockOk(M, blocks, end, i) && KeptBlock(M, M2, q);
      SameFlags(M[q], M2[q]);
      var a := After(blocks, end, i);
      if i + 1 < |blocks| {
        assert KeptBlock(M, M2, blocks[i + 1]);
      }
      SameFlags(M[a], M2[a]);
    }
  }

  /** Rewriting links keeps list membership. */
  lemma MembersKept(M: seq<nat>, M2: seq<nat>, beg: nat, end: nat, blocks: seq<nat>, lists: seq<seq<nat>>, pending: set<nat>)
    requires Layout(M, beg, end, blocks) && Members(M, blocks, lists, pending) && ShapeKept(M, M2, blocks, end)
    ensures Members(M2, blocks, lists, pending)
  {
    forall q | q in blocks
      ensures q < |M| && IsAlloc(M2[q]) == IsAlloc(M[q]) && ListOf(M2, q) == ListOf(M, q)
    {
      var i :| 0 <= i < |blocks| && blocks[i] == q;
      assert KeptBlock(M, M2, q);
      SameFlags(M[q], M2[q]);
    }
  }

  /** A list whose every member keeps its links stays a ring. */
  lemma RingKept(M: seq<nat>, M2: seq<nat>, L: seq<nat>, head: int)
    requires Ring(M, L, head)
    requires forall k | 0 <= k < |L| :: Kept(M, M2, L[k])
    ensures Ring(M2, L, head)
  {
    forall k | 0 <= k < |L|
      ensures NextOf(M2, L[k]) == L[Succ(|L|, k)] && PrevOf(M2, L[Succ(|L|, k)]) == L[k]
    {
      assert Kept(M, M2, L[Succ(|L|, k)]);
    }
  }

  /** The words after q's next link is made to point at b (setNext, or dk->next = b). */
  function WithNext(M: seq<nat>, q: nat, b: nat): seq<nat>
    requires q + 2 < |M|
  {
    if IsSmall(M[q]) then M[q + 1 := LinkWord(M[q + 1], b)] else M[q + 2 := WordSize * b]
  }

  /** The words after q's prev link is made to point at b (setPrev, or dk->prev = b). */
  function WithPrev(M: seq<nat>, q: nat, b: nat): seq<nat>
    requires q + 2 < |M|
  {
    if IsSmall(M[q]) then M[q := LinkWord(M[q], b)] else M[q + 1 := WordSize * b]
  }

  /** The words a link write may touch: those of a free block's own links. */
  lemma LinkWordApart(M: seq<nat>, beg: nat, end: nat, blocks: seq<nat>, i: nat, r: nat, w: nat)
    requires Layout(M, beg, end, blocks) && i < |blocks| && r < |blocks| && r != i
    requires blocks[i] <= w <= blocks[i] + 2 && (IsSmall(M[blocks[i]]) ==> w <= blocks[i] + 1)
    ensures w != blocks[r] && w != blocks[r] + 1 && (!IsSmall(M[blocks[r]]) ==> w != blocks[r] + 2)
    ensures FreeBig(M[blocks[r]]) ==> w != blocks[r] + Len(M, blocks[r]) - 1
    ensures w != end
  {
    LenBounds(M, blocks, end, i);
    LenBounds(M, blocks, end, r);
    InBounds(M, beg, end, blocks, i);
    Apart(M, beg, end, blocks, i, r, w);
  }

  /** Setting a free block's next link: it points at b, its prev link stays, every other block keeps its links, and every block keeps its shape. */
  lemma WithNextFacts(M: seq<nat>, beg: nat, end: nat, blocks: seq<nat>, i: nat, b: nat)
    requires Layout(M, beg, end, blocks) && i < |blocks| && !IsAlloc(M[blocks[i]])
    ensures blocks[i] + 2 < |M|
    ensures var M2 := WithNext(M, blocks[i], b);
            ShapeKept(M, M2, blocks, end) && NextOf(M2, blocks[i]) == b && PrevOf(M2, blocks[i]) == PrevOf(M, blocks[i]) &&
            IsSmall(M2[blocks[i]]) == IsSmall(M[blocks[i]]) &&
            forall r | 0 <= r < |blocks| && r != i :: Kept(M, M2, blocks[r])
  {
    var q := blocks[i];
    LenBounds(M, blocks, end, i);
    InBounds(M, beg, end, blocks, i);
    var w := if IsSmall(M[q]) then q + 1 else q + 2;
    var M2 := WithNext(M, q, b);
    assert M2 == M[w := M2[w]];
    forall r | 0 <= r < |blocks| && r != i
      ensures KeptBlock(M, M2, blocks[r]) && Kept(M, M2, blocks[r])
    {
      LinkWordApart(M, beg, end, blocks, i, r, w);
    }
    assert KeptBlock(M, M2, q);
    assert M2[end] == M[end];
  }

  /** Setting a free block's prev link: it points at b, its next link stays, every other block keeps its links, and every block keeps its shape. */
  lemma WithPrevFacts(M: seq<nat>, beg: nat, end: nat, blocks: seq<nat>, i: nat, b: nat)
    requires Layout(M, beg, end, blocks) && i < |blocks| && !IsAlloc(M[blocks[i]])
    ensures blocks[i] + 2 < |M|
    ensures var M2 := WithPrev(M, blocks[i], b);
            ShapeKept(M, M2, blocks, end) && PrevOf(M2, blocks[i]) == b && NextOf(M2, blocks[i]) == NextOf(M, blocks[i]) &&
            IsSmall(M2[blocks[i]]) == IsSmall(M[blocks[i]]) &&
            forall r | 0 <= r < |blocks| && r != i :: Kept(M, M2, blocks[r])
  {
    var q := blocks[i];
    LenBounds(M, blocks, end, i);
    InBounds(M, beg, end, blocks, i);
    var w := if IsSmall(M[q]) then q else q + 1;
    var M2 := WithPrev(M, q, b);
    assert M2 == M[w := M2[w]];
    if IsSmall(M[q]) {
      SameFlags(M[q], M2[q]);
    }
    forall r | 0 <= r < |blocks| && r != i
      ensures KeptBlock(M, M2, blocks[r]) && Kept(M, M2, blocks[r])
    {
      LinkWordApart(M, beg, end, blocks, i, r, w);
    }
    assert KeptBlock(M, M2, q);
    assert M2[end] == M[end];
  }

  /* ---------------------------------------------------------------------- */
  /* Splicing a ring                                                          */

  /**
   * Putting p in front of the ring L: p's links point at the old head and the
   * old tail, the tail's next and the head's prev point at p, and every other
   * link is kept. The result is the ring [p] + L headed by p.
   */
  lemma RingPrepend(M: seq<nat>, M2: seq<nat>, L: seq<nat>, head: int, p: nat)
    requires Ring(M, L, head) && p !in L
    requires NextOf(M2, p) == (if |L| == 0 then p else L[0])
    requires PrevOf(M2, p) == (if |L| == 0 then p else L[|L| - 1])
    requires |L| > 0 ==> NextOf(M2, L[|L| - 1]) == p && PrevOf(M2, L[0]) == p
    requires forall k | 0 <= k < |L| - 1 :: NextOf(M2, L[k]) == NextOf(M, L[k])
    requires forall k | 0 < k < |L| :: PrevOf(M2, L[k]) == PrevOf(M, L[k])
    ensures Ring(M2, [p] + L, p)
  {
    var L2 := [p] + L;
    var n := |L|;
    forall k | 0 <= k < |L2|
      ensures NextOf(M2, L2[k]) == L2[Succ(|L2|, k)] && PrevOf(M2, L2[Succ(|L2|, k)]) == L2[k]
    {
      if 0 < k < n {
        assert L2[k] == L[k - 1] && L2[k + 1] == L[k];
        assert Succ(n, k - 1) == k;
      }
    }
    PrependDistinct(L, p);
  }

  /** Putting a new element in front keeps the sequence distinct. */
  lemma PrependDistinct(L: seq<nat>, p: nat)
    requires Distinct(L) && p !in L
    ensures Distinct([p] + L)
  {
    var L2 := [p] + L;
    forall a, b | 0 <= a < b < |L2|
      ensures L2[a] != L2[b]
    {
      if a > 0 {
        assert L2[a] == L[a - 1] && L2[b] == L[b - 1];
      } else {
        assert L2[b] == L[b - 1];
      }
    }
  }

  /** The sequence L without its element at k. */
  function RemoveAt(L: seq<nat>, k: nat): (r: seq<nat>)
    requires k < |L|
    ensures |r| == |L| - 1
    ensures forall i | 0 <= i < k :: r[i] == L[i]
    ensures forall i | k <= i < |r| :: r[i] == L[i + 1]
  {
    L[..k] + L[k + 1..]
  }

  /** The positions of RemoveAt(L, k) in L. */
  function Skip(k: nat, i: nat): nat
  {
    if i < k then i else i + 1
  }

  /** The link facts of one position of RemoveAt(L, k). */
  lemma RemoveStep(M: seq<nat>, M2: seq<nat>, L: seq<nat>, head: int, k: nat, k2: nat)
    requires Ring(M, L, head) && 2 <= |L| && k < |L| && k2 < |L| - 1
    requires NextOf(M2, L[Pred(|L|, k)]) == L[Succ(|L|, k)]
    requires PrevOf(M2, L[Succ(|L|, k)]) == L[Pred(|L|, k)]
    requires forall m | 0 <= m < |L| && m != k && m != Pred(|L|, k) :: NextOf(M2, L[m]) == NextOf(M, L[m])
    requires forall m | 0 <= m < |L| && m != k && m != Succ(|L|, k) :: PrevOf(M2, L[m]) == PrevOf(M, L[m])
    ensures var L2 := RemoveAt(L, k);
            NextOf(M2, L2[k2]) == L2[Succ(|L2|, k2)] && PrevOf(M2, L2[Succ(|L2|, k2)]) == L2[k2]
  {
    var n := |L|;
    var L2 := RemoveAt(L, k);
    var m := Skip(k, k2);
    var s2 := Succ(n - 1, k2);
    assert L2[k2] == L[m];
    assert L2[s2] == L[Skip(k, s2)];
    if m == Pred(n, k) {
      assert Skip(k, s2) == Succ(n, k);
    } else {
      SuccInjective(n, m, k);
      assert Skip(k, s2) == Succ(n, m);
      assert Succ(n, m) != Succ(n, k);
    }
  }

  /**
   * Taking L[k] out of a ring of two or more: its predecessor's next and its
   * successor's prev point at each other, and every other link is kept. The
   * result is the ring without L[k], headed by L's successor head when L[k]
   * was the head.
   */
  lemma RingRemove(M: seq<nat>, M2: seq<nat>, L: seq<nat>, head: int, k: nat)
    requires Ring(M, L, head) && 2 <= |L| && k < |L|
    requires NextOf(M2, L[Pred(|L|, k)]) == L[Succ(|L|, k)]
    requires PrevOf(M2, L[Succ(|L|, k)]) == L[Pred(|L|, k)]
    requires forall m | 0 <= m < |L| && m != k && m != Pred(|L|, k) :: NextOf(M2, L[m]) == NextOf(M, L[m])
    requires forall m | 0 <= m < |L| && m != k && m != Succ(|L|, k) :: PrevOf(M2, L[m]) == PrevOf(M, L[m])
    ensures Ring(M2, RemoveAt(L, k), if k == 0 then L[1] else L[0])
  {
    var L2 := RemoveAt(L, k);
    forall k2 | 0 <= k2 < |L2|
      ensures NextOf(M2, L2[k2]) == L2[Succ(|L2|, k2)] && PrevOf(M2, L2[Succ(|L2|, k2)]) == L2[k2]
    {
      RemoveStep(M, M2, L, head, k, k2);
    }
    RemoveAtDistinct(L, k);
  }

  /** Removing an element keeps the rest distinct. */
  lemma RemoveAtDistinct(L: seq<nat>, k: nat)
    requires Distinct(L) && k < |L|
    ensures Distinct(RemoveAt(L, k))
  {
    var L2 := RemoveAt(L, k);
    forall a, b | 0 <= a < b < |L2|
      ensures L2[a] != L2[b]
    {
      assert L2[a] == L[Skip(k, a)] && L2[b] == L[Skip(k, b)];
    }
  }
}
