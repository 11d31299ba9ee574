/**
 * The allocator of mm.c: a heap of 8-byte words grown with mem_sbrk, eight
 * segregated free lists of blocks of 32 bytes or more and one list of
 * 16-byte blocks, and malloc, free, realloc and calloc over them.
 *
 * Pointers are word indices into the memory the allocator obtains from
 * mem_sbrk; a block is named by its header word and the pointer handed out
 * is the word after it. Link words hold byte addresses (eight times the word
 * index), as the code stores pointers. The ghost fields blocks and lists
 * describe the heap the words encode: the headers of its blocks in address
 * order and each free list from its head.
 */
module Malloc {
  import opened Arith
  import opened MallocWords
  import opened MallocLayout
  import opened MallocLists
  import opened MallocFreeList
  import opened MallocWindow
  import opened MallocSteps
  import opened MallocMerge
  import opened MallocFit
  import opened MallocSearch

  /** What a member of list j is and where its neighbours are. */
  lemma ListedFacts(M: seq<nat>, beg: nat, end: nat, blocks: seq<nat>, heads: seq<int>, lists: seq<seq<nat>>,
                    P: set<nat>, j: nat, k: nat)
    requires HeapOk(M, beg, end, blocks, heads, lists, P) && j < ListCount && k < |lists[j]|
    ensures lists[j][k] in blocks && lists[j][k] + 2 < |M| && !IsAlloc(M[lists[j][k]]) && lists[j][k] !in P
    ensures ListOf(M, lists[j][k]) == j && IsSmall(M[lists[j][k]]) == (j == SegNum)
    ensures NextOf(M, lists[j][k]) == lists[j][Succ(|lists[j]|, k)]
    ensures PrevOf(M, lists[j][k]) == lists[j][Pred(|lists[j]|, k)]
    ensures heads[j] == lists[j][0]
  {
    var q := lists[j][k];
    assert ListedOk(M, blocks, P, j, q);
    var i :| 0 <= i < |blocks| && blocks[i] == q;
    LenBounds(M, blocks, end, i);
    InBounds(M, beg, end, blocks, i);
    assert Ring(M, lists[j], heads[j]);
  }

  /** A list's head links to itself exactly when it is alone in its list. */
  lemma SelfLinked(M: seq<nat>, L: seq<nat>, head: int)
    requires Ring(M, L, head) && 0 < |L|
    ensures PrevOf(M, L[0]) == L[0] <==> |L| == 1
    ensures NextOf(M, L[0]) == L[0] <==> |L| == 1
  {
    assert PrevOf(M, L[Succ(|L|, |L| - 1)]) == L[|L| - 1];
    if |L| > 1 {
      assert L[0] != L[|L| - 1] && L[0] != L[1];
    }
  }

  /** The same for the head of list j of a heap. */
  lemma HeadSelfLinked(M: seq<nat>, heads: seq<int>, lists: seq<seq<nat>>, j: nat)
    ensures Rings(M, heads, lists) && j < ListCount && 0 < |lists[j]| ==>
              (PrevOf(M, heads[j]) == heads[j] <==> |lists[j]| == 1) &&
              (NextOf(M, heads[j]) == heads[j] <==> |lists[j]| == 1)
  {
    if Rings(M, heads, lists) && j < ListCount && 0 < |lists[j]| {
      assert Ring(M, lists[j], heads[j]);
      SelfLinked(M, lists[j], heads[j]);
    }
  }

  /** A block's header is not inside another block's first words. */
  lemma HeaderApart(M: seq<nat>, beg: nat, end: nat, blocks: seq<nat>, a: nat, b: nat)
    requires Layout(M, beg, end, blocks) && a in blocks && b in blocks
    ensures a != b + 1 && (!IsSmall(M[b]) ==> a != b + 2)
  {
    var ia := IndexOf(M, beg, end, blocks, a);
    var ib := IndexOf(M, beg, end, blocks, b);
    assert BlockOk(M, blocks, end, ia) && BlockOk(M, blocks, end, ib);
    LenBounds(M, blocks, end, ia);
    LenBounds(M, blocks, end, ib);
    if ia != ib {
      Apart(M, beg, end, blocks, ib, ia, b + 1);
      if !IsSmall(M[b]) {
        Apart(M, beg, end, blocks, ib, ia, b + 2);
      }
    }
  }

  /** Where the neighbours of L[k] are when its list holds two or more; neither's header is a link word of the other. */
  lemma UnlinkPlan(M: seq<nat>, beg: nat, end: nat, blocks: seq<nat>, heads: seq<int>, lists: seq<seq<nat>>,
                   P: set<nat>, j: nat, k: nat)
    requires HeapOk(M, beg, end, blocks, heads, lists, P) && j < ListCount && k < |lists[j]| && 1 < |lists[j]|
    ensures PrevOf(M, lists[j][k]) == lists[j][Pred(|lists[j]|, k)] && NextOf(M, lists[j][k]) == lists[j][Succ(|lists[j]|, k)]
    ensures lists[j][Pred(|lists[j]|, k)] + 2 < |M| && lists[j][Succ(|lists[j]|, k)] + 2 < |M|
    ensures IsSmall(M[lists[j][Pred(|lists[j]|, k)]]) == (j == SegNum) && IsSmall(M[lists[j][Succ(|lists[j]|, k)]]) == (j == SegNum)
    ensures lists[j][Succ(|lists[j]|, k)] != lists[j][Pred(|lists[j]|, k)] + 1
    ensures lists[j][Pred(|lists[j]|, k)] != lists[j][Succ(|lists[j]|, k)] + 1
    ensures heads[j] == lists[j][0] && (lists[j][k] == lists[j][0] <==> k == 0)
  {
    var L := lists[j];
    var n := |L|;
    ListedFacts(M, beg, end, blocks, heads, lists, P, j, k);
    ListedFacts(M, beg, end, blocks, heads, lists, P, j, Pred(n, k));
    ListedFacts(M, beg, end, blocks, heads, lists, P, j, Succ(n, k));
    assert Ring(M, L, heads[j]);
    HeaderApart(M, beg, end, blocks, L[Succ(n, k)], L[Pred(n, k)]);
    HeaderApart(M, beg, end, blocks, L[Pred(n, k)], L[Succ(n, k)]);
  }

  /**
   * Unlinking L[k] keeps the heap invariant with L[k] pending: from a list of
   * one no word is written, from a longer one the two link writes come in
   * either order (small lists write the next link first).
   */
  lemma UnlinkDone(M: seq<nat>, M1: seq<nat>, M2: seq<nat>, beg: nat, end: nat, blocks: seq<nat>, heads: seq<int>,
                   lists: seq<seq<nat>>, P: set<nat>, j: nat, k: nat, heads2: seq<int>, lists2: seq<seq<nat>>, P2: set<nat>)
    requires HeapOk(M, beg, end, blocks, heads, lists, P) && j < ListCount && k < |lists[j]|
    requires |lists[j]| == 1 ==> M2 == M
    requires 1 < |lists[j]| && j == SegNum ==>
               M1 == WithNext(M, lists[j][Pred(|lists[j]|, k)], lists[j][Succ(|lists[j]|, k)]) &&
               M2 == WithPrev(M1, lists[j][Succ(|lists[j]|, k)], lists[j][Pred(|lists[j]|, k)])
    requires 1 < |lists[j]| && j != SegNum ==>
               M1 == WithPrev(M, lists[j][Succ(|lists[j]|, k)], lists[j][Pred(|lists[j]|, k)]) &&
               M2 == WithNext(M1, lists[j][Pred(|lists[j]|, k)], lists[j][Succ(|lists[j]|, k)])
    requires heads2 == heads[j := NewHead(lists[j], k)] && lists2 == lists[j := RemoveAt(lists[j], k)] && P2 == P + {lists[j][k]}
    ensures ShapeKept(M, M2, blocks, end)
    ensures HeapOk(M2, beg, end, blocks, heads2, lists2, P2)
  {
    var L := lists[j];
    var n := |L|;
    if n == 1 {
      RemoveSole(M, beg, end, blocks, L);
    } else {
      ListedFacts(M, beg, end, blocks, heads, lists, P, j, Pred(n, k));
      ListedFacts(M, beg, end, blocks, heads, lists, P, j, Succ(n, k));
      if j == SegNum {
        RemoveSmall(M, M1, M2, beg, end, blocks, L, k);
      } else {
        RemoveBig(M, M1, M2, beg, end, blocks, L, k);
      }
    }
    DeletePreserves(M, M2, beg, end, blocks, heads, lists, P, j, k);
  }

  /**
   * What adding the pending block p needs: where its list's head and tail
   * are, that they are free blocks of the same kind as p, and that no header
   * of the three is a link word of another.
   */
  lemma AddPlan(M: seq<nat>, beg: nat, end: nat, blocks: seq<nat>, heads: seq<int>, lists: seq<seq<nat>>,
                P: set<nat>, p: nat, j: nat)
    requires HeapOk(M, beg, end, blocks, heads, lists, P) && p in P && p < |M| && j == ListOf(M, p)
    ensures p + 2 < |M| && !IsAlloc(M[p]) && p !in lists[j]
    ensures heads[j] == NULL <==> |lists[j]| == 0
    ensures 0 < |lists[j]| ==>
              heads[j] == lists[j][0] && PrevOf(M, lists[j][0]) == lists[j][|lists[j]| - 1] &&
              lists[j][0] + 2 < |M| && lists[j][|lists[j]| - 1] + 2 < |M| &&
              IsSmall(M[lists[j][0]]) == IsSmall(M[p]) && IsSmall(M[lists[j][|lists[j]| - 1]]) == IsSmall(M[p]) &&
              HeadersApart(M, p, lists[j][0], lists[j][|lists[j]| - 1])
  {
    var L := lists[j];
    assert p in blocks;
    var i := IndexOf(M, beg, end, blocks, p);
    assert BlockOk(M, blocks, end, i);
    LenBounds(M, blocks, end, i);
    InBounds(M, beg, end, blocks, i);
    PendingUnlisted(M, blocks, lists, P, j, p);
    assert Ring(M, L, heads[j]);
    if 0 < |L| {
      var n := |L|;
      ListedFacts(M, beg, end, blocks, heads, lists, P, j, 0);
      ListedFacts(M, beg, end, blocks, heads, lists, P, j, n - 1);
      HeaderApart(M, beg, end, blocks, p, L[0]);
      HeaderApart(M, beg, end, blocks, p, L[n - 1]);
      HeaderApart(M, beg, end, blocks, L[0], p);
      HeaderApart(M, beg, end, blocks, L[0], L[n - 1]);
      HeaderApart(M, beg, end, blocks, L[n - 1], p);
      HeaderApart(M, beg, end, blocks, L[n - 1], L[0]);
    }
  }

  /** No header of a, b and c is a link word of another of them. */
  predicate HeadersApart(M: seq<nat>, a: nat, b: nat, c: nat)
    requires a < |M| && b < |M| && c < |M|
  {
    Apart2(M, a, b) && Apart2(M, a, c) && Apart2(M, b, a) && Apart2(M, b, c) && Apart2(M, c, a) && Apart2(M, c, b)
  }

  /** The header a is not a link word of the block b. */
  predicate Apart2(M: seq<nat>, a: nat, b: nat)
    requires b < |M|
  {
    a != b + 1 && (!IsSmall(M[b]) ==> a != b + 2)
  }

  /**
   * Putting the pending block p in front of list j keeps the heap invariant
   * with p no longer pending. The link writes come in the orders of
   * addToFreeList (large) and xAddToFreeList (small), onto an empty list or
   * between its tail and its head.
   */
  lemma AddDone(M: seq<nat>, M1: seq<nat>, M2: seq<nat>, M3: seq<nat>, M4: seq<nat>, beg: nat, end: nat,
                blocks: seq<nat>, heads: seq<int>, lists: seq<seq<nat>>, P: set<nat>, p: nat, j: nat,
                heads2: seq<int>, lists2: seq<seq<nat>>, P2: set<nat>)
    requires HeapOk(M, beg, end, blocks, heads, lists, P) && p in P && p < |M| && j == ListOf(M, p)
    requires p + 2 < |M| && (0 < |lists[j]| ==> lists[j][0] + 2 < |M| && lists[j][|lists[j]| - 1] + 2 < |M|)
    requires |lists[j]| == 0 && j == SegNum ==> M1 == WithNext(M, p, p) && M4 == WithPrev(M1, p, p)
    requires |lists[j]| == 0 && j != SegNum ==> M1 == WithPrev(M, p, p) && M4 == WithNext(M1, p, p)
    requires 0 < |lists[j]| && j == SegNum ==>
               M1 == WithNext(M, p, lists[j][0]) && M2 == WithNext(M1, lists[j][|lists[j]| - 1], p) &&
               M3 == WithPrev(M2, lists[j][0], p) && M4 == WithPrev(M3, p, lists[j][|lists[j]| - 1])
    requires 0 < |lists[j]| && j != SegNum ==>
               M1 == WithPrev(M, p, lists[j][|lists[j]| - 1]) && M2 == WithNext(M1, p, lists[j][0]) &&
               M3 == WithNext(M2, lists[j][|lists[j]| - 1], p) && M4 == WithPrev(M3, lists[j][0], p)
    requires heads2 == heads[j := p] && lists2 == lists[j := [p] + lists[j]] && P2 == P - {p}
    ensures ShapeKept(M, M4, blocks, end)
    ensures HeapOk(M4, beg, end, blocks, heads2, lists2, P2)
  {
    var L := lists[j];
    AddPlan(M, beg, end, blocks, heads, lists, P, p, j);
    assert p in blocks;
    if |L| == 0 {
      if j == SegNum {
        AddEmptySmall(M, M1, M4, beg, end, blocks, p);
      } else {
        AddEmptyBig(M, M1, M4, beg, end, blocks, p);
      }
    } else {
      ListedFacts(M, beg, end, blocks, heads, lists, P, j, 0);
      ListedFacts(M, beg, end, blocks, heads, lists, P, j, |L| - 1);
      if j == SegNum {
        AddSmall(M, M1, M2, M3, M4, beg, end, blocks, p, L);
      } else {
        AddBig(M, M1, M2, M3, M4, beg, end, blocks, p, L);
      }
    }
    AddPreserves(M, M4, beg, end, blocks, heads, lists, P, p);
  }

  /** The sizes of the heap's list tables. */
  lemma HeapSizes(M: seq<nat>, beg: nat, end: nat, blocks: seq<nat>, heads: seq<int>, lists: seq<seq<nat>>, P: set<nat>)
    requires HeapOk(M, beg, end, blocks, heads, lists, P)
    ensures |heads| == ListCount && |lists| == ListCount && 0 < |blocks| && end < |M|
    ensures Rings(M, heads, lists)
  {
  }

  /** A list is empty exactly when its head is NULL. */
  lemma EmptyHeads(M: seq<nat>, heads: seq<int>, lists: seq<seq<nat>>)
    requires Rings(M, heads, lists)
    ensures forall b | 0 <= b < ListCount :: heads[b] == NULL <==> |lists[b]| == 0
  {
    forall b | 0 <= b < ListCount
      ensures heads[b] == NULL <==> |lists[b]| == 0
    {
      assert Ring(M, lists[b], heads[b]);
    }
  }

  /** One step of a walk around list b from its head: the block, its size and its successor. */
  lemma WalkStep(M: seq<nat>, beg: nat, end: nat, blocks: seq<nat>, heads: seq<int>, lists: seq<seq<nat>>,
                 P: set<nat>, b: nat, k: nat)
    requires HeapOk(M, beg, end, blocks, heads, lists, P) && b < ListCount && k < |lists[b]|
    ensures lists[b][k] < |M| && SizesOf(M, lists[b])[k] == BlockSize(M[lists[b][k]])
    ensures NextOf(M, lists[b][k]) == lists[b][Succ(|lists[b]|, k)]
    ensures lists[b][Succ(|lists[b]|, k)] == lists[b][0] <==> k + 1 == |lists[b]|
  {
    ListedFacts(M, beg, end, blocks, heads, lists, P, b, k);
    assert Ring(M, lists[b], heads[b]);
  }

  /** Changing the last of the heads. */
  lemma LastHeadSet(A: seq<int>, x: int, y: int)
    ensures A + [y] == (A + [x])[|A| := y]
  {
  }

  /** Changing one of the first heads. */
  lemma HeadSet(A: seq<int>, x: int, i: nat, y: int)
    requires i < |A|
    ensures A[i := y] + [x] == (A + [x])[i := y]
  {
  }

  /** A free block not pending sits in the list for its size. */
  lemma ListedIndex(M: seq<nat>, beg: nat, end: nat, blocks: seq<nat>, heads: seq<int>, lists: seq<seq<nat>>,
                    P: set<nat>, q: nat) returns (k: nat)
    requires HeapOk(M, beg, end, blocks, heads, lists, P) && q in blocks && q < |M| && !IsAlloc(M[q]) && q !in P
    ensures k < |lists[ListOf(M, q)]| && lists[ListOf(M, q)][k] == q
  {
    var i :| 0 <= i < |blocks| && blocks[i] == q;
    assert q in lists[ListOf(M, q)];
    k :| 0 <= k < |lists[ListOf(M, q)]| && lists[ListOf(M, q)][k] == q;
  }

  /** The layout part of the heap invariant. */
  lemma HeapLayout(M: seq<nat>, beg: nat, end: nat, blocks: seq<nat>, heads: seq<int>, lists: seq<seq<nat>>, P: set<nat>)
    requires HeapOk(M, beg, end, blocks, heads, lists, P)
    ensures Layout(M, beg, end, blocks)
  {
  }

  /** The word after a block's header is 16-byte aligned: headers sit at odd word indices. */
  lemma PayloadAligned(M: seq<nat>, end: nat, blocks: seq<nat>, heads: seq<int>, lists: seq<seq<nat>>, i: nat)
    requires HeapOk(M, FirstBlock, end, blocks, heads, lists, {}) && i < |blocks|
    ensures (blocks[i] + 1) % 2 == 0
  {
    BlockOdd(M, FirstBlock, end, blocks, i);
  }

  /** Block k of the heap is free. */
  predicate FreeAt(M: seq<nat>, blocks: seq<nat>, k: int)
  {
    0 <= k < |blocks| && blocks[k] < |M| && !IsAlloc(M[blocks[k]])
  }

  /** Block k of the heap is free and large. */
  predicate FreeBigAt(M: seq<nat>, blocks: seq<nat>, k: int)
  {
    0 <= k < |blocks| && blocks[k] < |M| && FreeBig(M[blocks[k]])
  }

  /** Freeing block i in place leaves every block's size, and every other block's state, as it was. */
  lemma FreedHeaders(M: seq<nat>, M1: seq<nat>, beg: nat, end: nat, blocks: seq<nat>, i: nat)
    requires Layout(M, beg, end, blocks) && i < |blocks| && blocks[i] < |M|
    requires Rewritten(M, M1, blocks[i], BlockSize(M[blocks[i]]), false)
    ensures |M1| == |M|
    ensures forall k | 0 <= k < |blocks| :: blocks[k] < |M| && BlockSize(M1[blocks[k]]) == BlockSize(M[blocks[k]])
    ensures forall k | 0 <= k < |blocks| && k != i ::
              IsAlloc(M1[blocks[k]]) == IsAlloc(M[blocks[k]]) && FreeBig(M1[blocks[k]]) == FreeBig(M[blocks[k]])
  {
    NextHeader(M, beg, end, blocks, i);
    forall k | 0 <= k < |blocks|
      ensures blocks[k] < |M| && BlockSize(M1[blocks[k]]) == BlockSize(M[blocks[k]])
      ensures k != i ==> IsAlloc(M1[blocks[k]]) == IsAlloc(M[blocks[k]]) && FreeBig(M1[blocks[k]]) == FreeBig(M[blocks[k]])
    {
      InBounds(M, beg, end, blocks, k);
      if k < i {
        Ascending(M, beg, end, blocks, k, i);
        LenBounds(M, blocks, end, k);
      } else if k == i + 1 {
        SameButPrevFields(M[blocks[k]], M1[blocks[k]]);
      } else if k > i + 1 {
        Ascending(M, beg, end, blocks, i + 1, k);
        assert BlockOk(M, blocks, end, i + 1);
        LenBounds(M, blocks, end, i + 1);
      }
    }
  }

  /** After the run a..b-1 is merged into its first block, a block of the run is a block of the heap only as that first block. */
  lemma MergedAway(M: seq<nat>, beg: nat, end: nat, B: seq<nat>, a: nat, i: nat, b: nat, blocks: seq<nat>)
    requires Layout(M, beg, end, B) && a <= i < b <= |B| && blocks == B[..a] + [B[a]] + B[b..]
    ensures B[i] in blocks ==> B[i] == B[a]
  {
    if B[i] in blocks && B[i] != B[a] {
      var k :| 0 <= k < |blocks| && blocks[k] == B[i];
      if k < a {
        Unique(M, beg, end, B, k, i);
      } else {
        Unique(M, beg, end, B, k - a - 1 + b, i);
      }
    }
  }

  /** On the heap mm_init leaves, findFit finds no block exactly when the request exceeds the first chunk. */
  lemma FirstHeapFit(M: seq<nat>, end: nat, heads: seq<int>, sz: nat)
    requires HeapOk(M, FirstBlock, end, [FirstBlock], heads, NoLists()[SegNum - 1 := [FirstBlock]], {})
    requires FirstBlock < |M| && BlockSize(M[FirstBlock]) == ChunkSize && SmallSize <= sz
    ensures FindFitSpec(M, NoLists()[SegNum - 1 := [FirstBlock]], sz) == NoFit <==> ChunkSize < sz
  {
    var L := NoLists()[SegNum - 1 := [FirstBlock]];
    FindFitFits(M, FirstBlock, end, [FirstBlock], heads, L, {}, sz);
    if FindFitSpec(M, L, sz) == NoFit {
      NoFitNoBlock(M, FirstBlock, end, [FirstBlock], heads, L, {}, sz, SegNum - 1, 0);
    } else {
      var f := FindFitSpec(M, L, sz);
      assert f.j == SegNum - 1 && L[f.j][f.k] == FirstBlock;
    }
  }

  /**
   * The first malloc of sz bytes, which runs mm_init on a memory of capacity
   * words, fails: either mm_init fails, or the request exceeds the first
   * chunk and the heap cannot grow by it.
   */
  predicate FirstMallocFails(capacity: nat, sz: nat)
  {
    capacity <= FirstEnd || (ChunkSize < sz && FirstEnd + 1 + sz / WordSize > capacity)
  }

  /** Coalescing the block appended last merges it, at most, into the block before it. */
  lemma MergedTail(B: seq<nat>, x: nat, B3: seq<nat>, B4: seq<nat>, a: nat, b: nat, r: nat)
    requires B3 == B + [x] && |B| - 1 <= a <= |B| < b <= |B3|
    requires r == B3[a] && B4 == B3[..a] + [r] + B3[b..]
    ensures (r == x && B4 == B + [r]) || (0 < |B| && r == B[|B| - 1] && B4 == B)
  {
    if a == |B| - 1 {
      assert B3[..a] + [r] == B;
    }
  }

  /** After free's writes to block i, its neighbours read as before, and so does the size of any run. */
  lemma FreedNeighbours(M: seq<nat>, M1: seq<nat>, blocks: seq<nat>, i: nat, a: nat, b: nat)
    requires i < |blocks| && a <= b <= |blocks| && |M1| == |M|
    requires forall k | 0 <= k < |blocks| :: blocks[k] < |M| && BlockSize(M1[blocks[k]]) == BlockSize(M[blocks[k]])
    requires forall k | 0 <= k < |blocks| && k != i ::
               IsAlloc(M1[blocks[k]]) == IsAlloc(M[blocks[k]]) && FreeBig(M1[blocks[k]]) == FreeBig(M[blocks[k]])
    ensures 0 < i ==> (FreeAt(M, blocks, i - 1) <==> !IsAlloc(M1[blocks[i - 1]]))
    ensures 0 < i ==> (FreeBigAt(M, blocks, i - 1) <==> FreeBig(M1[blocks[i - 1]]))
    ensures FreeAt(M, blocks, i + 1) <==> i + 1 < |blocks| && !IsAlloc(M1[blocks[i + 1]])
    ensures RunSize(M1, blocks, a, b) == RunSize(M, blocks, a, b)
  {
    RunSizeSame(M, M1, blocks, a, b);
  }

  lemma {:induction false} RunSizeSame(M: seq<nat>, M1: seq<nat>, blocks: seq<nat>, a: nat, b: nat)
    requires a <= b <= |blocks|
    requires forall k | a <= k < b :: blocks[k] < |M| && blocks[k] < |M1| && BlockSize(M1[blocks[k]]) == BlockSize(M[blocks[k]])
    ensures RunSize(M1, blocks, a, b) == RunSize(M, blocks, a, b)
    decreases b - a
  {
    if a < b {
      RunSizeSame(M, M1, blocks, a + 1, b);
    }
  }

  /** A pending block is a free block of the heap. */
  lemma PendingFacts(M: seq<nat>, beg: nat, end: nat, blocks: seq<nat>, heads: seq<int>, lists: seq<seq<nat>>,
                     P: set<nat>, q: nat)
    requires HeapOk(M, beg, end, blocks, heads, lists, P) && q in P
    ensures q in blocks && q < |M| && !IsAlloc(M[q])
  {
  }

  /** A block keeps its state, size, kind and list when only links are rewritten. */
  lemma ShapeOf(M: seq<nat>, M2: seq<nat>, blocks: seq<nat>, end: nat, q: nat)
    requires ShapeKept(M, M2, blocks, end) && q in blocks
    ensures q < |M| == |M2| && IsAlloc(M2[q]) == IsAlloc(M[q]) && IsSmall(M2[q]) == IsSmall(M[q])
    ensures BlockSize(M2[q]) == BlockSize(M[q]) && ListOf(M2, q) == ListOf(M, q)
  {
    StateKept(M, M2, blocks, end, q);
    var i :| 0 <= i < |blocks| && blocks[i] == q;
    assert KeptBlock(M, M2, q);
    SameFlags(M[q], M2[q]);
  }

  /** An exception for a block that was free anyway is no exception. */
  lemma AllocKeptFree(M: seq<nat>, b: seq<nat>, M2: seq<nat>, b2: seq<nat>, x: nat)
    requires AllocKept(M, b, M2, b2, x) && x < |M| && !IsAlloc(M[x])
    ensures AllocKept(M, b, M2, b2, NULL)
  {
  }

  /** mm_init's list heads: the last bucket holds the first block, every other list is empty. */
  lemma InitHeads(A: seq<int>, x: int)
    requires |A| == SegNum && A[SegNum - 1] == FirstBlock && x == NULL
    requires forall m | 0 <= m < SegNum - 1 :: A[m] == NULL
    ensures A + [x] == NoHeads()[SegNum - 1 := FirstBlock]
  {
  }

  /** During mm_init, getHeapNext of the first block, once its header is written, is the epilogue. */
  lemma InitNext(M: seq<nat>)
    requires FirstEnd < |M|
    ensures var M2 := PrevBit(HFR(HF(M, 0, 0, true), FirstBlock, ChunkSize, false), FirstBlock, true);
            HeapNext(M2, FirstBlock) == FirstEnd
  {
    var M1 := HFR(HF(M, 0, 0, true), FirstBlock, ChunkSize, false);
    HFRFacts(HF(M, 0, 0, true), FirstBlock, ChunkSize, false);
    SetPrevWordFields(M1[FirstBlock], true);
  }

  /** mm_init's heap: one free chunk, alone on the last bucket, with every other list empty. */
  lemma InitDone(M: seq<nat>, M5: seq<nat>, M6: seq<nat>, M7: seq<nat>)
    requires FirstEnd < |M| && M5 == InitWords(M)
    requires FirstBlock + 2 < |M| && M6 == WithPrev(M5, FirstBlock, FirstBlock) && M7 == WithNext(M6, FirstBlock, FirstBlock)
    ensures HeapOk(M7, FirstBlock, FirstEnd, [FirstBlock], NoHeads()[SegNum - 1 := FirstBlock],
                   NoLists()[SegNum - 1 := [FirstBlock]], {})
    ensures FreeBig(M7[FirstBlock]) && BlockSize(M7[FirstBlock]) == ChunkSize
  {
    InitHeap(M, M5);
    assert ListOf(M5, FirstBlock) == SegNum - 1;
    assert {FirstBlock} - {FirstBlock} == {} && [FirstBlock] + NoLists()[SegNum - 1] == [FirstBlock];
    AddDone(M5, M6, M5, M5, M7, FirstBlock, FirstEnd, [FirstBlock], NoHeads(), NoLists(), {FirstBlock},
            FirstBlock, SegNum - 1, NoHeads()[SegNum - 1 := FirstBlock], NoLists()[SegNum - 1 := [FirstBlock]], {});
    ShapeOf(M5, M7, [FirstBlock], FirstEnd, FirstBlock);
  }

  /* ---------------------------------------------------------------------- */
  /* mm_checkheap's checks                                                    */

  /**
   * in_heap: the byte address p lies between mem_heap_lo, the first byte
   * mem_sbrk handed out, and mem_heap_hi, the last byte below the break.
   */
  predicate InHeap(p: int, brk: nat)
  {
    0 <= p <= WordSize * brk - 1
  }

  /** getNext(getPrev(q)) == getPrev(getNext(q)): the test of q's links. */
  predicate LinksAgree(M: seq<nat>, q: nat)
  {
    var p := PrevOf(M, q);
    var n := NextOf(M, q);
    0 <= p && 0 <= n && NextOf(M, p) == PrevOf(M, n)
  }

  /** mm_checkheap's checks of a block q of the small list. */
  predicate SmallChecks(M: seq<nat>, brk: nat, q: nat)
  {
    InHeap(WordSize * q, brk) && q < |M| && !IsAlloc(M[q]) && BlockSize(M[q]) == SmallSize && IsSmall(M[q]) &&
    LinksAgree(M, q)
  }

  /** mm_checkheap's checks of a block q of bucket i. */
  predicate BucketChecks(M: seq<nat>, brk: nat, q: nat, i: nat)
  {
    InHeap(WordSize * q, brk) && q < |M| && !IsAlloc(M[q]) && BlockSize(M[q]) >= 32 && !IsSmall(M[q]) &&
    GetFreeListIndex(BlockSize(M[q])) == i && LinksAgree(M, q)
  }

  /** Every block on a list of a consistent heap passes mm_checkheap's checks for that list. */
  lemma ListedPassChecks(M: seq<nat>, end: nat, blocks: seq<nat>, heads: seq<int>, lists: seq<seq<nat>>, P: set<nat>,
                         brk: nat, j: nat, k: nat)
    requires HeapOk(M, FirstBlock, end, blocks, heads, lists, P) && end < brk && j < ListCount && k < |lists[j]|
    ensures j == SegNum ==> SmallChecks(M, brk, lists[j][k])
    ensures j < SegNum ==> BucketChecks(M, brk, lists[j][k], j)
  {
    var L := lists[j];
    var q := L[k];
    assert ListedOk(M, blocks, P, j, q);
    assert Ring(M, L, heads[j]);
    var n := |L|;
    var pk := Pred(n, k);
    assert PrevOf(M, L[Succ(n, pk)]) == L[pk] && NextOf(M, L[pk]) == L[Succ(n, pk)];
    assert NextOf(M, q) == L[Succ(n, k)] && PrevOf(M, L[Succ(n, k)]) == q;
    var i :| 0 <= i < |blocks| && blocks[i] == q;
    assert BlockOk(M, blocks, end, i);
  }

  /** The payload of every block of a consistent heap passes in_heap and aligned. */
  lemma PayloadChecks(M: seq<nat>, end: nat, blocks: seq<nat>, heads: seq<int>, lists: seq<seq<nat>>, P: set<nat>,
                      brk: nat, i: nat)
    requires HeapOk(M, FirstBlock, end, blocks, heads, lists, P) && end < brk && i < |blocks|
    requires WordSize * (blocks[i] + 1) < SizeMod
    ensures InHeap(WordSize * (blocks[i] + 1), brk) && Aligned(WordSize * (blocks[i] + 1))
  {
    BlockOdd(M, FirstBlock, end, blocks, i);
    assert blocks[i] < end;
  }

  class Heap {
    /** The memory mem_sbrk hands out, as words; its length is what mem_sbrk can reach. */
    var mem: array<nat>
    /** mem_sbrk's break, in words. */
    var brk: nat
    /** freeListHead: the heads of the eight buckets, NULL when empty. */
    var freeListHead: array<int>
    /** xFreeListHead: the head of the list of 16-byte blocks. */
    var xFreeListHead: int
    /** heapBeg: the first block's header, NULL before mm_init. */
    var heapBeg: int
    /** heapEnd: the epilogue word. */
    var heapEnd: nat
    ghost var blocks: seq<nat>
    ghost var lists: seq<seq<nat>>

    /** The nine list heads, the small list last. */
    function Heads(): seq<int>
      reads this, freeListHead
    {
      freeListHead[..] + [xFreeListHead]
    }

    /** The heap invariant, with the blocks P pending (free and off every list). */
    ghost predicate Inv(P: set<nat>)
      reads this, mem, freeListHead
    {
      freeListHead.Length == SegNum && heapBeg == FirstBlock && heapEnd + 1 == brk <= mem.Length &&
      HeapOk(mem[..], FirstBlock, heapEnd, blocks, Heads(), lists, P)
    }

    /** Before mm_init: no heap, nothing obtained from mem_sbrk, every list empty. */
    ghost predicate Unset()
      reads this, freeListHead
    {
      freeListHead.Length == SegNum && heapBeg == NULL && brk == 0 && Heads() == NoHeads()
    }

    ghost predicate Valid()
      reads this, mem, freeListHead
    {
      Unset() || Inv({})
    }

    /** The allocator before its first call, over a memory of capacity words. */
    constructor (capacity: nat)
      ensures Valid() && Unset() && mem.Length == capacity && fresh(mem)
    {
      mem := new nat[capacity];
      brk := 0;
      freeListHead := new int[SegNum](_ => NULL);
      xFreeListHead := NULL;
      heapBeg := NULL;
      heapEnd := 0;
      blocks := [];
      lists := NoLists();
      new;
      assert Heads() == NoHeads();
    }

    /* -------------------------------------------------------------------- */
    /* mem_sbrk                                                               */

    /** mem_sbrk of n bytes: the old break, or NULL when the memory cannot grow that far. */
    method Sbrk(n: nat) returns (r: int)
      modifies this`brk
      ensures old(brk) + n / WordSize <= mem.Length ==> r == old(brk) && brk == old(brk) + n / WordSize
      ensures old(brk) + n / WordSize > mem.Length ==> r == NULL && brk == old(brk)
    {
      if brk + n / WordSize > mem.Length {
        return NULL;
      }
      r := brk;
      brk := brk + n / WordSize;
    }

    /* -------------------------------------------------------------------- */
    /* mm_init                                                                */

    /**
     * mm_init: two words from mem_sbrk (the prologue and the first block's
     * header), then a chunk; the chunk becomes one free block, alone on the
     * last bucket, and every other list is emptied. It fails when mem_sbrk
     * does, after the first call leaving heapBeg set.
     */
    method MmInit() returns (ok: bool)
      requires brk == 0 && freeListHead.Length == SegNum
      modifies this`brk, this`heapBeg, this`heapEnd, this`xFreeListHead, this`blocks, this`lists, mem, freeListHead
      ensures ok <==> FirstEnd < mem.Length
      ensures ok ==> Inv({}) && blocks == [FirstBlock] && lists == NoLists()[SegNum - 1 := [FirstBlock]]
      ensures ok ==> FreeBig(mem[FirstBlock]) && BlockSize(mem[FirstBlock]) == ChunkSize && brk == FirstEnd + 1
      ensures !ok ==> Heads() == old(Heads()) && heapBeg == if mem.Length < 2 then old(heapBeg) else FirstBlock
    {
      hide HeapOk, Rings, ShapeKept, Layout, Members;
      var beg := Sbrk(16);
      if beg == NULL {
        return false;
      }
      heapBeg := beg + 1;
      ghost var M := mem[..];
      TianHF(beg, 0, true);
      var ext := Sbrk(ChunkSize);
      if ext == NULL {
        return false;
      }
      InitChunk(M);
      return true;
    }

    /** The rest of mm_init, once mem_sbrk has given the chunk: its block, the epilogue, and the lists. */
    method InitChunk(ghost M: seq<nat>)
      requires freeListHead.Length == SegNum && heapBeg == FirstBlock && brk == FirstEnd + 1 <= mem.Length
      requires |M| == mem.Length && mem[..] == HF(M, 0, 0, true)
      modifies this`heapEnd, this`xFreeListHead, this`blocks, this`lists, mem, freeListHead
      ensures Inv({}) && blocks == [FirstBlock] && lists == NoLists()[SegNum - 1 := [FirstBlock]]
      ensures FreeBig(mem[FirstBlock]) && BlockSize(mem[FirstBlock]) == ChunkSize
    {
      hide HeapOk, Rings, ShapeKept, Layout, Members;
      SetHead(SegNum - 1, heapBeg);
      assert freeListHead[SegNum - 1] == Heads()[SegNum - 1] == FirstBlock;
      heapEnd := heapBeg + ChunkSize / WordSize;
      InitBlock(M);
      ghost var M5 := InitWords(M);
      ghost var M7 := mem[..];
      InitDone(M, M5, WithPrev(M5, FirstBlock, FirstBlock), M7);
      xFreeListHead := NULL;
      ClearLowerHeads();
      blocks := [FirstBlock];
      lists := NoLists()[SegNum - 1 := [FirstBlock]];
      InitHeads(freeListHead[..], xFreeListHead);
      assert mem[..] == M7 && heapEnd == FirstEnd;
    }

    /** mm_init's words: the chunk becomes one free block, listed alone, with the epilogue after it. */
    method InitBlock(ghost M: seq<nat>)
      requires heapBeg == FirstBlock && heapEnd == FirstEnd < mem.Length
      requires |M| == mem.Length && mem[..] == HF(M, 0, 0, true)
      modifies mem
      ensures mem[..] == WithNext(WithPrev(InitWords(M), FirstBlock, FirstBlock), FirstBlock, FirstBlock)
    {
      TianHFR(heapBeg, ChunkSize, false);
      SetPrevMalloced(heapBeg, true);
      InitNext(M);
      SetPrevMalloced(HeapNext(mem[..], heapBeg), false);
      TianHF(heapEnd, 0, true);
      ghost var M5 := mem[..];
      InitHeap(M, M5);
      SetPrevBig(heapBeg, heapBeg);
      assert mem[heapBeg] == M5[heapBeg];
      SetNextBig(heapBeg, heapBeg);
    }

    /** mm_init's last loop: every bucket head but the last becomes NULL. */
    method ClearLowerHeads()
      requires freeListHead.Length == SegNum
      modifies freeListHead
      ensures freeListHead[SegNum - 1] == old(freeListHead[SegNum - 1])
      ensures forall m | 0 <= m < SegNum - 1 :: freeListHead[m] == NULL
    {
      for i := 0 to SegNum - 1
        invariant freeListHead[SegNum - 1] == old(freeListHead[SegNum - 1])
        invariant forall m | 0 <= m < i :: freeListHead[m] == NULL
      {
        freeListHead[i] := NULL;
      }
    }

    /* -------------------------------------------------------------------- */
    /* Header, footer and flag writes                                         */

    /** tianHF: word k becomes the size sz, the allocated bit isM and its own old prev-allocated bit. */
    method TianHF(k: nat, sz: nat, isM: bool)
      requires k < mem.Length
      modifies mem
      ensures mem[..] == HF(old(mem[..]), k, sz, isM)
    {
      var prv := (mem[k] / 2) % 2;
      mem[k] := sz - sz % 16 + (if isM then 1 else 0) + prv * 2;
    }

    /** tianHFR: tianH on the header, then tianF on the footer sz bytes on. */
    method TianHFR(dk: nat, sz: nat, isM: bool)
      requires 8 <= sz && FooterAt(dk, sz) < mem.Length
      modifies mem
      ensures mem[..] == HFR(old(mem[..]), dk, sz, isM)
    {
      TianHF(dk, sz, isM);
      TianHF(FooterAt(dk, sz), sz, isM);
    }

    /** setPrevMalloced: bit 1 of the header becomes isMalloced. */
    method SetPrevMalloced(dk: nat, isMalloced: bool)
      requires dk < mem.Length
      modifies mem
      ensures mem[..] == PrevBit(old(mem[..]), dk, isMalloced)
    {
      if (mem[dk] / 2) % 2 == 1 {
        mem[dk] := mem[dk] - 2;
      }
      if isMalloced {
        mem[dk] := mem[dk] + 2;
      }
    }

    /** setSmallBlock: bit 2 is set in both words of the block. */
    method SetSmallBlock(dk: nat)
      requires dk + 1 < mem.Length
      modifies mem
      ensures mem[..] == SmallBits(old(mem[..]), dk)
    {
      if (mem[dk] / 4) % 2 == 0 {
        mem[dk] := mem[dk] + 4;
      }
      if (mem[dk + 1] / 4) % 2 == 0 {
        mem[dk + 1] := mem[dk + 1] + 4;
      }
    }

    /** setMalloced: a free small block's two words go up by one. */
    method SetMalloced(xk: nat)
      requires xk + 1 < mem.Length
      modifies mem
      ensures mem[..] == MallocedBits(old(mem[..]), xk)
    {
      if mem[xk] % 2 == 1 {
        return;
      }
      mem[xk] := mem[xk] + 1;
      mem[xk + 1] := mem[xk + 1] + 1;
    }

    /** setFree: an allocated small block's two words go down by one (the second wrapping at zero). */
    method SetFree(xk: nat)
      requires xk + 1 < mem.Length
      modifies mem
      ensures mem[..] == FreedBits(old(mem[..]), xk)
    {
      if mem[xk] % 2 == 0 {
        return;
      }
      mem[xk] := mem[xk] - 1;
      mem[xk + 1] := Dec(mem[xk + 1]);
    }

    /** setNext: the small block a's next link becomes b, its low bits kept. */
    method SetNext(a: nat, b: nat)
      requires a + 2 < mem.Length && IsSmall(mem[a])
      modifies mem
      ensures mem[..] == WithNext(old(mem[..]), a, b)
    {
      var offset := mem[a + 1] % 8;
      mem[a + 1] := WordSize * b + offset;
    }

    /** setPrev: the small block a's prev link becomes b, its low bits kept. */
    method SetPrev(a: nat, b: nat)
      requires a + 2 < mem.Length && IsSmall(mem[a])
      modifies mem
      ensures mem[..] == WithPrev(old(mem[..]), a, b)
    {
      var offset := mem[a] % 8;
      mem[a] := WordSize * b + offset;
    }

    /** dk->next = b on a large block. */
    method SetNextBig(dk: nat, b: nat)
      requires dk + 2 < mem.Length && !IsSmall(mem[dk])
      modifies mem
      ensures mem[..] == WithNext(old(mem[..]), dk, b)
    {
      mem[dk + 2] := WordSize * b;
    }

    /** dk->prev = b on a large block. */
    method SetPrevBig(dk: nat, b: nat)
      requires dk + 2 < mem.Length && !IsSmall(mem[dk])
      modifies mem
      ensures mem[..] == WithPrev(old(mem[..]), dk, b)
    {
      mem[dk + 1] := WordSize * b;
    }

    /* -------------------------------------------------------------------- */
    /* The free lists                                                         */

    /** onlyOneFree: the head of bucket idx is its own predecessor, which holds exactly when it is alone. */
    predicate OnlyOneFree(idx: nat)
      reads this, mem, freeListHead
      requires idx < freeListHead.Length && 0 <= freeListHead[idx] < mem.Length
      ensures Rings(mem[..], Heads(), lists) && idx < SegNum && 0 < |lists[idx]| ==>
                (OnlyOneFree(idx) <==> |lists[idx]| == 1)
    {
      HeadSelfLinked(mem[..], Heads(), lists, idx);
      PrevOf(mem[..], freeListHead[idx]) == freeListHead[idx]
    }

    /** xOnlyOneFree: the head of the small list is its own successor, which holds exactly when it is alone. */
    predicate XOnlyOneFree()
      reads this, mem, freeListHead
      requires 0 <= xFreeListHead < mem.Length
      ensures Rings(mem[..], Heads(), lists) && 0 < |lists[SegNum]| ==>
                (XOnlyOneFree() <==> |lists[SegNum]| == 1)
    {
      HeadSelfLinked(mem[..], Heads(), lists, SegNum);
      NextOf(mem[..], xFreeListHead) == xFreeListHead
    }

    /**
     * xDeleteFromFreeList: the small block lists[SegNum][k] leaves the small
     * list and becomes pending; its neighbours are linked to each other.
     */
    method XDeleteFromFreeList(xk: nat, ghost P: set<nat>, ghost k: nat)
      requires Inv(P) && k < |lists[SegNum]| && lists[SegNum][k] == xk
      modifies mem, this`xFreeListHead, this`lists
      ensures Inv(P + {xk})
      ensures lists == old(lists)[SegNum := RemoveAt(old(lists)[SegNum], k)]
      ensures Heads() == old(Heads())[SegNum := NewHead(old(lists)[SegNum], k)]
      ensures ShapeKept(old(mem[..]), mem[..], blocks, heapEnd)
    {
      hide HeapOk, Rings, ShapeKept;
      ghost var M0, M1 := mem[..], mem[..];
      ghost var L0, H0 := lists, Heads();
      HeapSizes(M0, FirstBlock, heapEnd, blocks, H0, lists, P);
      ghost var L := lists[SegNum];
      ListedFacts(M0, FirstBlock, heapEnd, blocks, H0, lists, P, SegNum, 0);
      assert H0[SegNum] == xFreeListHead;
      if XOnlyOneFree() {
        xFreeListHead := NULL;
      } else {
        UnlinkPlan(M0, FirstBlock, heapEnd, blocks, H0, lists, P, SegNum, k);
        if xFreeListHead == xk {
          xFreeListHead := NextOf(mem[..], xk);
        }
        var pv, nx := PrevOf(mem[..], xk), NextOf(mem[..], xk);
        SetNext(pv, nx);
        M1 := mem[..];
        SetPrev(nx, pv);
      }
      lists := lists[SegNum := RemoveAt(L, k)];
      LastHeadSet(freeListHead[..], old(xFreeListHead), xFreeListHead);
      UnlinkDone(M0, M1, mem[..], FirstBlock, heapEnd, blocks, H0, L0, P, SegNum, k, Heads(), lists, P + {xk});
      assert Inv(P + {xk});
    }
    /** freeListHead[idx] = h. */
    method SetHead(idx: nat, h: int)
      requires idx < freeListHead.Length == SegNum
      modifies freeListHead
      ensures Heads() == old(Heads())[idx := h]
    {
      freeListHead[idx] := h;
      HeadSet(old(freeListHead[..]), xFreeListHead, idx, h);
    }

    /**
     * deleteFromFreeList: the free block lists[j][k] leaves its list, found
     * from its header, and becomes pending. A small block goes through
     * xDeleteFromFreeList.
     */
    method DeleteFromFreeList(dk: nat, ghost P: set<nat>, ghost j: nat, ghost k: nat)
      requires Inv(P) && j < ListCount && k < |lists[j]| && lists[j][k] == dk
      modifies mem, freeListHead, this`xFreeListHead, this`lists
      ensures Inv(P + {dk})
      ensures lists == old(lists)[j := RemoveAt(old(lists)[j], k)]
      ensures Heads() == old(Heads())[j := NewHead(old(lists)[j], k)]
      ensures ShapeKept(old(mem[..]), mem[..], blocks, heapEnd)
    {
      hide HeapOk, Rings, ShapeKept, Layout, Members;
      HeapSizes(mem[..], FirstBlock, heapEnd, blocks, Heads(), lists, P);
      ListedFacts(mem[..], FirstBlock, heapEnd, blocks, Heads(), lists, P, j, k);
      if IsSmall(mem[dk]) {
        XDeleteFromFreeList(dk, P, k);
      } else {
        DeleteBigFromFreeList(dk, P, j, k);
      }
    }

    /** The large-block part of deleteFromFreeList: the bucket comes from the size in the header. */
    method DeleteBigFromFreeList(dk: nat, ghost P: set<nat>, ghost j: nat, ghost k: nat)
      requires Inv(P) && j < SegNum && k < |lists[j]| && lists[j][k] == dk
      modifies mem, freeListHead, this`lists
      ensures Inv(P + {dk})
      ensures lists == old(lists)[j := RemoveAt(old(lists)[j], k)]
      ensures Heads() == old(Heads())[j := NewHead(old(lists)[j], k)]
      ensures ShapeKept(old(mem[..]), mem[..], blocks, heapEnd)
    {
      hide HeapOk, Rings, ShapeKept, Layout, Members;
      ghost var M0, M1 := mem[..], mem[..];
      ghost var L0, H0 := lists, Heads();
      HeapSizes(M0, FirstBlock, heapEnd, blocks, H0, lists, P);
      ListedFacts(M0, FirstBlock, heapEnd, blocks, H0, lists, P, j, k);
      var idx := GetFreeListIndex(BlockSize(mem[dk]));
      ghost var L := lists[j];
      ListedFacts(M0, FirstBlock, heapEnd, blocks, H0, lists, P, j, 0);
      assert H0[j] == freeListHead[idx];
      if OnlyOneFree(idx) {
        SetHead(idx, NULL);
      } else {
        M1 := UnlinkBig(dk, idx, P, k);
      }
      lists := lists[j := RemoveAt(L, k)];
      UnlinkDone(M0, M1, mem[..], FirstBlock, heapEnd, blocks, H0, L0, P, j, k, Heads(), lists, P + {dk});
      assert Inv(P + {dk});
    }
    /**
     * deleteFromFreeList on a bucket of two or more: the neighbours of dk in
     * the ring are linked to each other, and the head moves on when dk was it.
     */
    method UnlinkBig(dk: nat, idx: nat, ghost P: set<nat>, ghost k: nat) returns (ghost M1: seq<nat>)
      requires Inv(P) && idx < SegNum && 1 < |lists[idx]| && k < |lists[idx]| && lists[idx][k] == dk
      modifies mem, freeListHead
      ensures M1 == WithPrev(old(mem[..]), lists[idx][Succ(|lists[idx]|, k)], lists[idx][Pred(|lists[idx]|, k)])
      ensures mem[..] == WithNext(M1, lists[idx][Pred(|lists[idx]|, k)], lists[idx][Succ(|lists[idx]|, k)])
      ensures Heads() == old(Heads())[idx := NewHead(lists[idx], k)]
    {
      hide HeapOk, Rings, ShapeKept, Layout, Members;
      ghost var M0, H0 := mem[..], Heads();
      HeapSizes(M0, FirstBlock, heapEnd, blocks, H0, lists, P);
      UnlinkPlan(M0, FirstBlock, heapEnd, blocks, H0, lists, P, idx, k);
      assert H0[idx] == freeListHead[idx];
      if dk == freeListHead[idx] {
        SetHead(idx, NextOf(mem[..], dk));
      }
      var pv, nx := PrevOf(mem[..], dk), NextOf(mem[..], dk);
      SetPrevBig(nx, pv);
      M1 := mem[..];
      SetNextBig(pv, nx);
    }

    /** xAddToFreeList: the pending small block xk goes in front of the small list and becomes its head. */
    method XAddToFreeList(xk: nat, ghost P: set<nat>)
      requires Inv(P) && xk in P && xk < mem.Length && IsSmall(mem[xk])
      modifies mem, this`xFreeListHead, this`lists
      ensures Inv(P - {xk})
      ensures lists == old(lists)[SegNum := [xk] + old(lists)[SegNum]]
      ensures Heads() == old(Heads())[SegNum := xk]
      ensures ShapeKept(old(mem[..]), mem[..], blocks, heapEnd)
    {
      hide HeapOk, Rings, ShapeKept, Layout, Members;
      ghost var M0, M1, M2, M3 := mem[..], mem[..], mem[..], mem[..];
      ghost var L0, H0 := lists, Heads();
      HeapSizes(M0, FirstBlock, heapEnd, blocks, H0, lists, P);
      ghost var L := lists[SegNum];
      AddPlan(M0, FirstBlock, heapEnd, blocks, H0, lists, P, xk, SegNum);
      assert H0[SegNum] == xFreeListHead;
      if xFreeListHead == NULL {
        SetNext(xk, xk);
        M1 := mem[..];
        SetPrev(xk, xk);
      } else {
        var pv, nx := PrevOf(mem[..], xFreeListHead), xFreeListHead;
        SetNext(xk, nx);
        M1 := mem[..];
        SetNext(pv, xk);
        M2 := mem[..];
        SetPrev(nx, xk);
        M3 := mem[..];
        SetPrev(xk, pv);
      }
      xFreeListHead := xk;
      lists := lists[SegNum := [xk] + L];
      LastHeadSet(freeListHead[..], old(xFreeListHead), xFreeListHead);
      AddDone(M0, M1, M2, M3, mem[..], FirstBlock, heapEnd, blocks, H0, L0, P, xk, SegNum, Heads(), lists, P - {xk});
      assert Inv(P - {xk});
    }
    /**
     * addToFreeList: the pending free block dk goes in front of the list for
     * its size, read from its header, and becomes its head. A small block
     * goes through xAddToFreeList.
     */
    method AddToFreeList(dk: nat, ghost P: set<nat>, ghost j: nat)
      requires Inv(P) && dk in P && dk < mem.Length && j == ListOf(mem[..], dk)
      modifies mem, freeListHead, this`xFreeListHead, this`lists
      ensures Inv(P - {dk})
      ensures lists == old(lists)[j := [dk] + old(lists)[j]]
      ensures Heads() == old(Heads())[j := dk]
      ensures ShapeKept(old(mem[..]), mem[..], blocks, heapEnd)
    {
      if IsSmall(mem[dk]) {
        XAddToFreeList(dk, P);
      } else {
        AddBigToFreeList(dk, P, j);
      }
    }

    /** The large-block part of addToFreeList: the bucket comes from the size in the header. */
    method AddBigToFreeList(dk: nat, ghost P: set<nat>, ghost j: nat)
      requires Inv(P) && dk in P && dk < mem.Length && j == ListOf(mem[..], dk) && !IsSmall(mem[dk])
      modifies mem, freeListHead, this`lists
      ensures Inv(P - {dk})
      ensures lists == old(lists)[j := [dk] + old(lists)[j]]
      ensures Heads() == old(Heads())[j := dk]
      ensures ShapeKept(old(mem[..]), mem[..], blocks, heapEnd)
    {
      hide HeapOk, Rings, ShapeKept, Layout, Members;
      ghost var M0, M1, M2, M3 := mem[..], mem[..], mem[..], mem[..];
      ghost var L0, H0 := lists, Heads();
      HeapSizes(M0, FirstBlock, heapEnd, blocks, H0, lists, P);
      ghost var L := lists[j];
      AddPlan(M0, FirstBlock, heapEnd, blocks, H0, lists, P, dk, j);
      var idx := GetFreeListIndex(BlockSize(mem[dk]));
      assert H0[j] == freeListHead[idx];
      if freeListHead[idx] == NULL {
        SetPrevBig(dk, dk);
        M1 := mem[..];
        SetNextBig(dk, dk);
      } else {
        var pv, nx := PrevOf(mem[..], freeListHead[idx]), freeListHead[idx];
        SetPrevBig(dk, pv);
        M1 := mem[..];
        SetNextBig(dk, nx);
        M2 := mem[..];
        SetNextBig(pv, dk);
        M3 := mem[..];
        SetPrevBig(nx, dk);
      }
      SetHead(idx, dk);
      lists := lists[j := [dk] + L];
      AddDone(M0, M1, M2, M3, mem[..], FirstBlock, heapEnd, blocks, H0, L0, P, dk, j, Heads(), lists, P - {dk});
      assert Inv(P - {dk});
    }
    /** setBigBlock: a small block's header and last word lose bit 2; any other block is left alone. */
    method SetBigBlock(dk: nat)
      requires dk < mem.Length && (IsSmall(mem[dk]) ==> 0 < dk + SizeField(mem[dk] - 4) / WordSize <= mem.Length)
      modifies mem
      ensures mem[..] == BigBits(old(mem[..]), dk)
    {
      if (mem[dk] / 4) % 2 != 1 {
        return;
      }
      mem[dk] := mem[dk] - 4;
      var sz := mem[dk] / 16 * 16;
      var f := dk + sz / WordSize - 1;
      mem[f] := if mem[f] >= 4 then mem[f] - 4 else mem[f] + SizeMod - 4;
    }

    /* -------------------------------------------------------------------- */
    /* coalesce                                                               */

    /**
     * The end of coalesce's cases 1 to 3: the pending blocks i..j-1 become one
     * free block of newSz bytes at dk (tianHFR, then setBigBlock, which finds
     * the small bit already clear), and it goes on the list for its size.
     */
    method MergeFree(dk: nat, newSz: nat, ghost i: nat, ghost j: nat, ghost P: set<nat>)
      requires Inv(P) && i + 1 < j <= |blocks| && blocks[i] == dk
      requires forall m | i <= m < j :: blocks[m] in P
      requires forall q | q in P :: q in blocks[i..j]
      requires newSz == WordSize * (After(blocks, heapEnd, j - 1) - dk)
      modifies mem, freeListHead, this`xFreeListHead, this`lists, this`blocks
      ensures Inv({})
      ensures blocks == old(blocks[..i]) + [dk] + old(blocks[j..])
      ensures dk < mem.Length && FreeBig(mem[dk]) && BlockSize(mem[dk]) == newSz
      ensures dk in lists[ListOf(mem[..], dk)]
      ensures AllocKept(old(mem[..]), old(blocks), mem[..], blocks, NULL)
    {
      hide HeapOk, Rings, ShapeKept, Layout, Members;
      ghost var M, B := mem[..], blocks;
      MergeWrite(dk, newSz, i, j, P);
      ghost var M2 := mem[..];
      ListMerged(dk);
      AllocKeptTrans(M, B, M2, blocks, mem[..], blocks, NULL, NULL);
    }

    /** tianHFR over the pending blocks i..j-1: one free block of newSz bytes at dk, the only one pending. */
    method MergeWrite(dk: nat, newSz: nat, ghost i: nat, ghost j: nat, ghost P: set<nat>)
      requires Inv(P) && i + 1 < j <= |blocks| && blocks[i] == dk
      requires forall m | i <= m < j :: blocks[m] in P
      requires forall q | q in P :: q in blocks[i..j]
      requires newSz == WordSize * (After(blocks, heapEnd, j - 1) - dk)
      modifies mem, this`blocks
      ensures Inv({dk})
      ensures blocks == old(blocks[..i]) + [dk] + old(blocks[j..])
      ensures dk < mem.Length && FreeBig(mem[dk]) && BlockSize(mem[dk]) == newSz
      ensures AllocKept(old(mem[..]), old(blocks), mem[..], blocks, NULL)
    {
      hide HeapOk, Rings, ShapeKept, Layout, Members;
      ghost var M := mem[..];
      HeapSizes(M, FirstBlock, heapEnd, blocks, Heads(), lists, P);
      HeapLayout(M, FirstBlock, heapEnd, blocks, Heads(), lists, P);
      RunSpan(M, FirstBlock, heapEnd, blocks, i, j);
      ghost var span := After(blocks, heapEnd, j - 1) - dk;
      assert span % 2 == 0 && span >= 4;
      assert newSz % 16 == 0 && newSz >= 32 && newSz / WordSize == span;
      TianHFR(dk, newSz, false);
      RestWordsFacts(M, mem[..], dk, newSz);
      MergeBlocks(M, mem[..], FirstBlock, heapEnd, blocks, Heads(), lists, i, j, P, newSz);
      blocks := blocks[..i] + [dk] + blocks[j..];
    }

    /** The merged block, pending, gets setBigBlock and goes on the list for its size. */
    method ListMerged(dk: nat)
      requires Inv({dk}) && dk < mem.Length && FreeBig(mem[dk])
      modifies mem, freeListHead, this`xFreeListHead, this`lists
      ensures Inv({})
      ensures dk < mem.Length && FreeBig(mem[dk]) && BlockSize(mem[dk]) == BlockSize(old(mem[dk]))
      ensures dk in lists[ListOf(mem[..], dk)]
      ensures AllocKept(old(mem[..]), blocks, mem[..], blocks, NULL)
    {
      hide HeapOk, Rings, ShapeKept, Layout, Members;
      ghost var M2 := mem[..];
      PendingFacts(M2, FirstBlock, heapEnd, blocks, Heads(), lists, {dk}, dk);
      SetBigBlock(dk);
      assert mem[..] == M2;
      HeapSizes(M2, FirstBlock, heapEnd, blocks, Heads(), lists, {dk});
      AddToFreeList(dk, {dk}, ListOf(M2, dk));
      assert {dk} - {dk} == {};
      ShapeOf(M2, mem[..], blocks, heapEnd, dk);
      assert lists[ListOf(M2, dk)][0] == dk;
      AllocKeptShape(M2, mem[..], blocks, heapEnd);
    }

    /** coalesce's case 0: a small block gets setSmallBlock, and the block goes on the list for its size. */
    method CoalesceAlone(dk: nat, ghost i: nat)
      requires Inv({dk}) && i < |blocks| && blocks[i] == dk
      modifies mem, freeListHead, this`xFreeListHead, this`lists
      ensures Inv({})
      ensures dk < mem.Length && !IsAlloc(mem[dk]) && BlockSize(mem[dk]) == BlockSize(old(mem[dk]))
      ensures dk in lists[ListOf(mem[..], dk)]
      ensures AllocKept(old(mem[..]), blocks, mem[..], blocks, NULL)
    {
      hide HeapOk, Rings, ShapeKept, Layout, Members;
      ghost var M := mem[..];
      HeapSizes(M, FirstBlock, heapEnd, blocks, Heads(), lists, {dk});
      HeapLayout(M, FirstBlock, heapEnd, blocks, Heads(), lists, {dk});
      PendingFacts(M, FirstBlock, heapEnd, blocks, Heads(), lists, {dk}, dk);
      NextHeader(M, FirstBlock, heapEnd, blocks, i);
      if (mem[dk] / 4) % 2 == 1 {
        assert BlockOk(M, blocks, heapEnd, i);
        SetSmallBlock(dk);
        MarkWords(M, mem[..], dk);
        RewriteBlock(M, mem[..], FirstBlock, heapEnd, blocks, Heads(), lists, i, {dk}, false);
        AllocKeptFree(M, blocks, mem[..], blocks, dk);
      } else {
        AllocKeptShape(M, M, blocks, heapEnd) by {
          ShapeKeptRefl(M, FirstBlock, heapEnd, blocks);
        }
      }
      ghost var M1 := mem[..];
      AddToFreeList(dk, {dk}, ListOf(mem[..], dk));
      assert {dk} - {dk} == {};
      ShapeOf(M1, mem[..], blocks, heapEnd, dk);
      AllocKeptShape(M1, mem[..], blocks, heapEnd);
      AllocKeptTrans(M, blocks, M1, blocks, mem[..], blocks, NULL, NULL);
    }

    /** coalesce's case 1: the free block after dk leaves its list and the two merge at dk. */
    method CoalesceNext(dk: nat, hNext: nat, ghost i: nat)
      requires Inv({dk}) && i + 1 < |blocks| && blocks[i] == dk && blocks[i + 1] == hNext
      requires hNext < mem.Length && !IsAlloc(mem[hNext])
      modifies mem, freeListHead, this`xFreeListHead, this`lists, this`blocks
      ensures Inv({})
      ensures blocks == old(blocks[..i]) + [dk] + old(blocks[i + 2..])
      ensures dk < mem.Length && FreeBig(mem[dk]) && BlockSize(mem[dk]) == RunSize(old(mem[..]), old(blocks), i, i + 2)
      ensures dk in lists[ListOf(mem[..], dk)]
      ensures AllocKept(old(mem[..]), old(blocks), mem[..], blocks, NULL)
    {
      hide HeapOk, Rings, ShapeKept, Layout, Members;
      ghost var M, B := mem[..], blocks;
      HeapSizes(M, FirstBlock, heapEnd, blocks, Heads(), lists, {dk});
      HeapLayout(M, FirstBlock, heapEnd, blocks, Heads(), lists, {dk});
      NextHeader(M, FirstBlock, heapEnd, blocks, i);
      var newSz := BlockSize(mem[dk]) + BlockSize(mem[hNext]);
      SpanIsRunSize(M, FirstBlock, heapEnd, blocks, i, i + 2);
      assert RunSize(M, blocks, i, i + 2) == newSz + RunSize(M, blocks, i + 2, i + 2);
      ghost var k := ListedIndex(M, FirstBlock, heapEnd, blocks, Heads(), lists, {dk}, hNext);
      DeleteFromFreeList(hNext, {dk}, ListOf(M, hNext), k);
      ghost var M1 := mem[..];
      assert {dk} + {hNext} == {dk, hNext};
      assert blocks[i..i + 2] == [dk, hNext];
      MergeFree(dk, newSz, i, i + 2, {dk, hNext});
      AllocKeptShape(M, M1, B, heapEnd);
      AllocKeptTrans(M, B, M1, B, mem[..], blocks, NULL, NULL);
    }

    /** coalesce's case 2: the free block before dk leaves its list and the two merge at it. */
    method CoalescePrev(dk: nat, hPrev: nat, ghost i: nat)
      requires Inv({dk}) && 0 < i < |blocks| && blocks[i] == dk && blocks[i - 1] == hPrev
      requires hPrev < mem.Length && !IsAlloc(mem[hPrev])
      modifies mem, freeListHead, this`xFreeListHead, this`lists, this`blocks
      ensures Inv({})
      ensures blocks == old(blocks[..i - 1]) + [hPrev] + old(blocks[i + 1..])
      ensures hPrev < mem.Length && FreeBig(mem[hPrev]) && BlockSize(mem[hPrev]) == RunSize(old(mem[..]), old(blocks), i - 1, i + 1)
      ensures hPrev in lists[ListOf(mem[..], hPrev)]
      ensures AllocKept(old(mem[..]), old(blocks), mem[..], blocks, NULL)
    {
      hide HeapOk, Rings, ShapeKept, Layout, Members;
      ghost var M, B := mem[..], blocks;
      HeapSizes(M, FirstBlock, heapEnd, blocks, Heads(), lists, {dk});
      HeapLayout(M, FirstBlock, heapEnd, blocks, Heads(), lists, {dk});
      var newSz := BlockSize(mem[dk]) + BlockSize(mem[hPrev]);
      SpanIsRunSize(M, FirstBlock, heapEnd, blocks, i - 1, i + 1);
      assert RunSize(M, blocks, i - 1, i + 1) == newSz + RunSize(M, blocks, i + 1, i + 1);
      assert BlockOk(M, blocks, heapEnd, i - 1);
      LenBounds(M, blocks, heapEnd, i - 1);
      ghost var k := ListedIndex(M, FirstBlock, heapEnd, blocks, Heads(), lists, {dk}, hPrev);
      DeleteFromFreeList(hPrev, {dk}, ListOf(M, hPrev), k);
      ghost var M1 := mem[..];
      assert {dk} + {hPrev} == {hPrev, dk};
      assert blocks[i - 1..i + 1] == [hPrev, dk];
      MergeFree(hPrev, newSz, i - 1, i + 1, {hPrev, dk});
      AllocKeptShape(M, M1, B, heapEnd);
      AllocKeptTrans(M, B, M1, B, mem[..], blocks, NULL, NULL);
    }

    /** deleteFromFreeList on a listed free block q of the heap, wherever it is listed; only links change. */
    method Unlist(q: nat, ghost P: set<nat>)
      requires Inv(P) && q in blocks && q < mem.Length && !IsAlloc(mem[q]) && q !in P
      modifies mem, freeListHead, this`xFreeListHead, this`lists
      ensures Inv(P + {q})
      ensures ShapeKept(old(mem[..]), mem[..], blocks, heapEnd)
      ensures AllocKept(old(mem[..]), blocks, mem[..], blocks, NULL)
    {
      hide HeapOk, Rings, ShapeKept, Layout, Members;
      ghost var M := mem[..];
      HeapSizes(M, FirstBlock, heapEnd, blocks, Heads(), lists, P);
      ghost var k := ListedIndex(M, FirstBlock, heapEnd, blocks, Heads(), lists, P, q);
      DeleteFromFreeList(q, P, ListOf(M, q), k);
      AllocKeptShape(M, mem[..], blocks, heapEnd);
    }

    /** coalesce's case 3: the free blocks on both sides leave their lists and the three merge at the one before. */
    method CoalesceBoth(dk: nat, hPrev: nat, hNext: nat, ghost i: nat)
      requires Inv({dk}) && 0 < i && i + 1 < |blocks| && blocks[i] == dk
      requires blocks[i - 1] == hPrev && blocks[i + 1] == hNext
      requires hPrev < mem.Length && !IsAlloc(mem[hPrev]) && hNext < mem.Length && !IsAlloc(mem[hNext])
      modifies mem, freeListHead, this`xFreeListHead, this`lists, this`blocks
      ensures Inv({})
      ensures blocks == old(blocks[..i - 1]) + [hPrev] + old(blocks[i + 2..])
      ensures hPrev < mem.Length && FreeBig(mem[hPrev]) && BlockSize(mem[hPrev]) == RunSize(old(mem[..]), old(blocks), i - 1, i + 2)
      ensures hPrev in lists[ListOf(mem[..], hPrev)]
      ensures AllocKept(old(mem[..]), old(blocks), mem[..], blocks, NULL)
    {
      hide HeapOk, Rings, ShapeKept, Members;
      ghost var M, B := mem[..], blocks;
      HeapSizes(M, FirstBlock, heapEnd, blocks, Heads(), lists, {dk});
      HeapLayout(M, FirstBlock, heapEnd, blocks, Heads(), lists, {dk});
      var newSz := BlockSize(mem[dk]) + BlockSize(mem[hPrev]) + BlockSize(mem[hNext]);
      SpanIsRunSize(M, FirstBlock, heapEnd, blocks, i - 1, i + 2);
      assert RunSize(M, blocks, i + 1, i + 2) == BlockSize(M[hNext]) + RunSize(M, blocks, i + 2, i + 2);
      assert RunSize(M, blocks, i, i + 2) == BlockSize(M[dk]) + RunSize(M, blocks, i + 1, i + 2);
      UnlistBoth(dk, hPrev, hNext, i);
      ghost var M2 := mem[..];
      assert blocks[i - 1..i + 2] == [hPrev, dk, hNext];
      MergeFree(hPrev, newSz, i - 1, i + 2, {hPrev, dk, hNext});
      AllocKeptTrans(M, B, M2, B, mem[..], blocks, NULL, NULL);
    }

    /** Case 3's unlinking: the free blocks on both sides of dk leave their lists. */
    method UnlistBoth(dk: nat, hPrev: nat, hNext: nat, ghost i: nat)
      requires Inv({dk}) && 0 < i && i + 1 < |blocks| && blocks[i] == dk
      requires blocks[i - 1] == hPrev && blocks[i + 1] == hNext
      requires hPrev < mem.Length && !IsAlloc(mem[hPrev]) && hNext < mem.Length && !IsAlloc(mem[hNext])
      modifies mem, freeListHead, this`xFreeListHead, this`lists
      ensures Inv({hPrev, dk, hNext})
      ensures AllocKept(old(mem[..]), blocks, mem[..], blocks, NULL)
    {
      hide HeapOk, Rings, ShapeKept, Members;
      ghost var M := mem[..];
      HeapLayout(M, FirstBlock, heapEnd, blocks, Heads(), lists, {dk});
      assert BlockOk(M, blocks, heapEnd, i - 1) && BlockOk(M, blocks, heapEnd, i);
      LenBounds(M, blocks, heapEnd, i - 1);
      LenBounds(M, blocks, heapEnd, i);
      assert hPrev < dk < hNext && hPrev in blocks && hNext in blocks;
      Unlist(hPrev, {dk});
      ghost var M1 := mem[..];
      ShapeOf(M, M1, blocks, heapEnd, hNext);
      ghost var P1: set<nat> := {dk} + {hPrev};
      assert hNext !in P1 && !IsAlloc(mem[hNext]);
      Unlist(hNext, P1);
      assert P1 + {hNext} == {hPrev, dk, hNext};
      AllocKeptTrans(M, blocks, M1, blocks, mem[..], blocks, NULL, NULL);
    }

    /**
     * coalesce: the pending free block dk merges with the free block after
     * it, and with the one before it when getHeapPrev finds that one; the
     * result goes on the list for its size and is returned. Every free
     * block after dk and every free large block before it is merged.
     */
    method Coalesce(dk: nat, ghost i: nat) returns (r: nat, ghost a: nat, ghost b: nat)
      requires Inv({dk}) && i < |blocks| && blocks[i] == dk
      modifies mem, freeListHead, this`xFreeListHead, this`lists, this`blocks
      ensures 0 < dk < old(mem.Length)
      ensures i - 1 <= a <= i < b <= |old(blocks)| && r == old(blocks)[a]
      ensures a < i <==> HeapPrev(old(mem[..]), dk) != NULL
      ensures 0 < i && FreeBig(old(mem[blocks[i - 1]])) ==> a == i - 1
      ensures b == if i + 1 < |old(blocks)| && !IsAlloc(old(mem[blocks[i + 1]])) then i + 2 else i + 1
      ensures blocks == old(blocks[..a]) + [r] + old(blocks[b..])
      ensures Inv({})
      ensures r < mem.Length && !IsAlloc(mem[r]) && BlockSize(mem[r]) == RunSize(old(mem[..]), old(blocks), a, b)
      ensures !IsAlloc(old(mem[r]))
      ensures r in lists[ListOf(mem[..], r)]
      ensures AllocKept(old(mem[..]), old(blocks), mem[..], blocks, NULL)
    {
      hide HeapOk, Rings, ShapeKept, Layout, Members;
      ghost var M, B := mem[..], blocks;
      HeapSizes(M, FirstBlock, heapEnd, blocks, Heads(), lists, {dk});
      PendingFacts(M, FirstBlock, heapEnd, blocks, Heads(), lists, {dk}, dk);
      HeapLayout(M, FirstBlock, heapEnd, blocks, Heads(), lists, {dk});
      HeapPrevSound(M, FirstBlock, heapEnd, blocks, i);
      HeapNextIsAfter(M, FirstBlock, heapEnd, blocks, i);
      var hPrev := HeapPrev(mem[..], dk);
      var hNext := HeapNext(mem[..], dk);
      var nextFree := IsFreeWord(mem[hNext]);
      r := if hPrev == NULL then dk else hPrev;
      if hPrev == NULL && !nextFree {
        a, b := i, i + 1;
        assert RunSize(M, B, i, i + 1) == BlockSize(M[dk]) + RunSize(M, B, i + 1, i + 1);
        assert B[..i] + [dk] + B[i + 1..] == B;
        CoalesceAlone(dk, i);
      } else if hPrev == NULL {
        a, b := i, i + 2;
        CoalesceNext(dk, hNext, i);
      } else if !nextFree {
        a, b := i - 1, i + 1;
        CoalescePrev(dk, hPrev, i);
      } else {
        a, b := i - 1, i + 2;
        CoalesceBoth(dk, hPrev, hNext, i);
      }
    }

    /* -------------------------------------------------------------------- */
    /* malloc                                                                 */

    /**
     * malloc: NULL for a request of no bytes; otherwise, after mm_init on
     * the first call, a block of MallocSize(size) bytes — the small list's
     * head for a 16-byte block when there is one, else findFit's block, else
     * one from a grown heap — and the word after its header. NULL when
     * mm_init or mem_sbrk fails.
     */
    method Malloc(size: nat) returns (r: int, ghost fit: int)
      requires Valid() && size < SizeMod
      modifies this`brk, this`heapBeg, this`heapEnd, this`xFreeListHead, this`blocks, this`lists, mem, freeListHead
      ensures size == 0 ==> r == NULL && unchanged(this, mem, freeListHead)
      ensures Valid() || (old(Unset()) && r == NULL && mem.Length <= FirstEnd)
      ensures r != NULL ==>
                Inv({}) && r == fit + 1 && fit in blocks && fit < mem.Length && IsAlloc(mem[fit]) &&
                BlockSize(mem[fit]) == MallocSize(size) && WordSize * r + size <= WordSize * fit + BlockSize(mem[fit]) &&
                r % 2 == 0
      ensures old(Inv({})) && r != NULL ==> !(fit in old(blocks) && IsAlloc(old(mem[fit])))
      ensures old(Inv({})) ==> AllocKept(old(mem[..]), old(blocks), mem[..], blocks, NULL)
      ensures old(Inv({})) && size > 0 && old(FindFitSpec(mem[..], lists, MallocSize(size))).FitAt? ==>
                fit == old(FitBlock(lists, FindFitSpec(mem[..], lists, MallocSize(size)))) && r == fit + 1
      ensures old(Inv({})) && size > 0 && r == NULL ==>
                old(FindFitSpec(mem[..], lists, MallocSize(size))) == NoFit && unchanged(this, mem, freeListHead)
      ensures old(Inv({})) && size > 0 ==>
                (r == NULL <==>
                 old(FindFitSpec(mem[..], lists, MallocSize(size))) == NoFit &&
                 old(brk) + (if ChunkSize > MallocSize(size) then ChunkSize else MallocSize(size)) / WordSize > mem.Length)
      ensures old(Unset()) && size > 0 ==> (r == NULL <==> FirstMallocFails(mem.Length, MallocSize(size)))
    {
      hide HeapOk, Rings, ShapeKept, Layout, Members;
      fit := NULL;
      if size == 0 {
        return NULL, fit;
      }
      if heapBeg == NULL {
        var ok := MmInit();
        if !ok {
          return NULL, fit;
        }
        MallocSizeShape(size);
        FirstHeapFit(mem[..], heapEnd, Heads(), MallocSize(size));
      }
      r, fit := Allocate(size);
    }

    /**
     * malloc on an initialised heap for a request of at least one byte: the
     * block found or made for MallocSize(size) bytes, and the word after its
     * header, which is 16-byte aligned.
     */
    method Allocate(size: nat) returns (r: int, ghost fit: int)
      requires Inv({}) && 0 < size < SizeMod
      modifies this`brk, this`heapEnd, this`xFreeListHead, this`blocks, this`lists, mem, freeListHead
      ensures Inv({})
      ensures r != NULL ==>
                r == fit + 1 && fit in blocks && fit < mem.Length && IsAlloc(mem[fit]) &&
                BlockSize(mem[fit]) == MallocSize(size) && WordSize * r + size <= WordSize * fit + BlockSize(mem[fit]) &&
                r % 2 == 0
      ensures r != NULL ==> !(fit in old(blocks) && IsAlloc(old(mem[fit])))
      ensures AllocKept(old(mem[..]), old(blocks), mem[..], blocks, NULL)
      ensures old(FindFitSpec(mem[..], lists, MallocSize(size))).FitAt? ==>
                r != NULL && fit == old(FitBlock(lists, FindFitSpec(mem[..], lists, MallocSize(size))))
      ensures r == NULL ==>
                old(FindFitSpec(mem[..], lists, MallocSize(size))) == NoFit && unchanged(this, mem, freeListHead)
      ensures r == NULL <==>
                old(FindFitSpec(mem[..], lists, MallocSize(size))) == NoFit &&
                old(brk) + (if ChunkSize > MallocSize(size) then ChunkSize else MallocSize(size)) / WordSize > mem.Length
    {
      hide HeapOk, Rings, ShapeKept, Layout, Members;
      fit := NULL;
      var sz := MallocSize(size);
      MallocSizeShape(size);
      var f, i := TakeFit(sz);
      if f == NULL {
        return NULL, fit;
      }
      PayloadAligned(mem[..], heapEnd, blocks, Heads(), lists, i);
      fit := f;
      r := f + 1;
    }

    /**
     * The body of malloc once the block size is known: findFit, then either
     * the small block at the head of the XFL taken whole, or the block found
     * placed, or the heap grown and its last block placed.
     */
    method TakeFit(sz: nat) returns (f: int, ghost i: nat)
      requires Inv({}) && (sz == SmallSize || (32 <= sz && sz % 16 == 0))
      modifies this`brk, this`heapEnd, this`xFreeListHead, this`blocks, this`lists, mem, freeListHead
      ensures Inv({})
      ensures f != NULL ==>
                i < |blocks| && blocks[i] == f && f < mem.Length && IsAlloc(mem[f]) && BlockSize(mem[f]) == sz &&
                !(f in old(blocks) && IsAlloc(old(mem[f])))
      ensures AllocKept(old(mem[..]), old(blocks), mem[..], blocks, NULL)
      ensures old(FindFitSpec(mem[..], lists, sz)).FitAt? ==> f == old(FitBlock(lists, FindFitSpec(mem[..], lists, sz)))
      ensures f == NULL ==> old(FindFitSpec(mem[..], lists, sz)) == NoFit && unchanged(this, mem, freeListHead)
      ensures f == NULL <==>
                old(FindFitSpec(mem[..], lists, sz)) == NoFit &&
                old(brk) + (if ChunkSize > sz then ChunkSize else sz) / WordSize > mem.Length
    {
      hide HeapOk, Rings, ShapeKept, Layout, Members;
      ghost var M, B := mem[..], blocks;
      HeapSizes(M, FirstBlock, heapEnd, blocks, Heads(), lists, {});
      HeapLayout(M, FirstBlock, heapEnd, blocks, Heads(), lists, {});
      FindFitFits(M, FirstBlock, heapEnd, blocks, Heads(), lists, {}, sz);
      var status;
      f, status := FindFit(sz, {});
      if status == 1 {
        ListedFacts(M, FirstBlock, heapEnd, blocks, Heads(), lists, {}, SegNum, 0);
        SmallFit(f);
        i :| 0 <= i < |blocks| && blocks[i] == f;
      } else if f == NULL {
        f, i := GrowPlace(sz);
      } else {
        ghost var fs := FindFitSpec(M, lists, sz);
        ListedFacts(M, FirstBlock, heapEnd, blocks, Heads(), lists, {}, fs.j, fs.k);
        i :| 0 <= i < |blocks| && blocks[i] == f;
        Place(f, sz, i);
      }
    }

    /**
     * malloc when findFit fails: the heap grows by at least sz bytes and the
     * free block at its end is placed as in the other cases.
     */
    method GrowPlace(sz: nat) returns (f: int, ghost i: nat)
      requires Inv({}) && (sz == SmallSize || (32 <= sz && sz % 16 == 0))
      modifies mem, freeListHead, this`xFreeListHead, this`lists, this`blocks, this`brk, this`heapEnd
      ensures f == NULL <==> old(brk) + (if ChunkSize > sz then ChunkSize else sz) / WordSize > mem.Length
      ensures f == NULL ==> unchanged(this, mem, freeListHead)
      ensures Inv({})
      ensures f != NULL ==> i < |blocks| && blocks[i] == f && f < mem.Length && IsAlloc(mem[f]) && BlockSize(mem[f]) == sz &&
                            !(f in old(blocks) && IsAlloc(old(mem[f])))
      ensures f != NULL ==> brk == old(brk) + (if ChunkSize > sz then ChunkSize else sz) / WordSize
      ensures f != NULL ==> f == old(heapEnd) || (0 < |old(blocks)| && f == old(blocks)[|old(blocks)| - 1])
      ensures f != NULL && old(freeListHead[SegNum - 1]) == NULL ==> f == old(heapEnd)
      ensures AllocKept(old(mem[..]), old(blocks), mem[..], blocks, NULL)
    {
      hide HeapOk, Rings, ShapeKept, Layout, Members;
      f, i := Grow(sz);
      if f == NULL {
        return;
      }
      ghost var M3, B3 := mem[..], blocks;
      Place(f, sz, i);
      AllocKeptTrans(old(mem[..]), old(blocks), M3, B3, mem[..], blocks, NULL, NULL);
    }

    /* -------------------------------------------------------------------- */
    /* free                                                                   */

    /**
     * free: nothing for NULL; otherwise the block whose payload ptr is, block
     * i of the heap, is marked free and coalesced with a free neighbour on
     * either side; the merged block is listed. Every other allocated block
     * keeps its place and size.
     */
    method Free(ptr: int, ghost i: nat) returns (ghost a: nat, ghost b: nat)
      requires Inv({})
      requires ptr != NULL ==> i < |blocks| && ptr == blocks[i] + 1 && blocks[i] < mem.Length && IsAlloc(mem[blocks[i]])
      modifies mem, freeListHead, this`xFreeListHead, this`lists, this`blocks
      ensures Inv({})
      ensures ptr == NULL ==> unchanged(this, mem, freeListHead)
      ensures ptr != NULL ==>
                i - 1 <= a <= i < b <= |old(blocks)| && blocks == old(blocks[..a]) + [old(blocks)[a]] + old(blocks[b..])
      ensures ptr != NULL && a < i ==> FreeAt(old(mem[..]), old(blocks), i - 1)
      ensures ptr != NULL && FreeBigAt(old(mem[..]), old(blocks), i - 1) ==> a == i - 1
      ensures ptr != NULL ==> b == if FreeAt(old(mem[..]), old(blocks), i + 1) then i + 2 else i + 1
      ensures ptr != NULL ==>
                FreeAt(mem[..], blocks, a) && BlockSize(mem[blocks[a]]) == RunSize(old(mem[..]), old(blocks), a, b) &&
                blocks[a] in lists[ListOf(mem[..], blocks[a])]
      ensures ptr != NULL ==> !(ptr - 1 in blocks && IsAlloc(mem[ptr - 1]))
      ensures AllocKept(old(mem[..]), old(blocks), mem[..], blocks, ptr - 1)
    {
      hide HeapOk, Rings, ShapeKept, Layout, Members;
      if ptr == NULL {
        HeapLayout(mem[..], FirstBlock, heapEnd, blocks, Heads(), lists, {});
        ShapeKeptRefl(mem[..], FirstBlock, heapEnd, blocks);
        AllocKeptShape(mem[..], mem[..], blocks, heapEnd);
        return 0, 0;
      }
      var p := ptr - 1;
      ghost var M, B := mem[..], blocks;
      HeapLayout(M, FirstBlock, heapEnd, B, Heads(), lists, {});
      FreeBlock(p, i);
      ghost var M1 := mem[..];
      HeapLayout(M1, FirstBlock, heapEnd, blocks, Heads(), lists, {p});
      HeapPrevSound(M1, FirstBlock, heapEnd, blocks, i);
      var r;
      r, a, b := Coalesce(p, i);
      FreedNeighbours(M, M1, B, i, a, b);
      assert blocks[a] == r && r < mem.Length && BlockSize(mem[r]) == RunSize(M, B, a, b);
      MergedAway(M, FirstBlock, heapEnd, B, a, i, b, blocks);
      AllocKeptTrans(M, B, M1, B, mem[..], blocks, p, NULL);
    }

    /**
     * free's writes, before coalesce: the block at p is marked free (header
     * and footer for a large block, both words for a small one) and the
     * header after it reads its predecessor free.
     */
    method FreeBlock(p: nat, ghost i: nat)
      requires Inv({}) && i < |blocks| && blocks[i] == p && p < mem.Length && IsAlloc(mem[p])
      modifies mem
      ensures Inv({p}) && p < mem.Length && !IsAlloc(mem[p])
      ensures forall k | 0 <= k < |blocks| :: blocks[k] < mem.Length && BlockSize(mem[blocks[k]]) == BlockSize(old(mem[blocks[k]]))
      ensures forall k | 0 <= k < |blocks| && k != i ::
                IsAlloc(mem[blocks[k]]) == IsAlloc(old(mem[blocks[k]])) && FreeBig(mem[blocks[k]]) == FreeBig(old(mem[blocks[k]]))
      ensures AllocKept(old(mem[..]), blocks, mem[..], blocks, p)
    {
      hide HeapOk, Rings, ShapeKept, Layout, Members, Rewritten;
      ghost var M := mem[..];
      HeapLayout(M, FirstBlock, heapEnd, blocks, Heads(), lists, {});
      FreeWords(p, i);
      RewriteBlock(M, mem[..], FirstBlock, heapEnd, blocks, Heads(), lists, i, {}, false);
      FreedHeaders(M, mem[..], FirstBlock, heapEnd, blocks, i);
    }

    /** The writes themselves: tianHFR or setFree, then setPrevMalloced on the header after the block. */
    method FreeWords(p: nat, ghost i: nat)
      requires Inv({}) && i < |blocks| && blocks[i] == p && p < mem.Length && IsAlloc(mem[p])
      modifies mem
      ensures Rewritten(old(mem[..]), mem[..], p, BlockSize(old(mem[p])), false)
    {
      hide HeapOk, Rings, ShapeKept, Layout, Members, Rewritten;
      ghost var M := mem[..];
      HeapLayout(M, FirstBlock, heapEnd, blocks, Heads(), lists, {});
      NextHeader(M, FirstBlock, heapEnd, blocks, i);
      var sz := BlockSize(mem[p]);
      if sz >= 32 {
        TianHFR(p, sz, false);
        HFRFacts(M, p, sz, false);
        SetPrevMalloced(HeapNext(mem[..], p), false);
        FreeBigWords(M, mem[..], p);
      } else {
        SetFree(p);
        assert HeapNext(mem[..], p) == p + 2;
        SetPrevMalloced(HeapNext(mem[..], p), false);
        FreeSmallWords(M, mem[..], p);
      }
    }

    /* -------------------------------------------------------------------- */
    /* realloc and calloc                                                     */

    /**
     * realloc: malloc for NULL; free and NULL for a request of no bytes;
     * otherwise a block from malloc, into which the smaller of size and the
     * old payload (the old block less its header) is copied before the old
     * block is freed. When malloc fails the old block stays allocated.
     * copied is how many bytes memcpy copies.
     */
    method Realloc(oldptr: int, size: nat, ghost i: nat) returns (r: int, copied: nat)
      requires size < SizeMod
      requires oldptr == NULL ==> Valid()
      requires oldptr != NULL ==>
                 Inv({}) && i < |blocks| && oldptr == blocks[i] + 1 && blocks[i] < mem.Length && IsAlloc(mem[blocks[i]])
      modifies this`brk, this`heapBeg, this`heapEnd, this`xFreeListHead, this`blocks, this`lists, mem, freeListHead
      ensures Valid() || (oldptr == NULL && r == NULL)
      ensures oldptr != NULL ==> Inv({})
      ensures r != NULL ==>
                0 < r <= mem.Length && r - 1 in blocks && IsAlloc(mem[r - 1]) && BlockSize(mem[r - 1]) == MallocSize(size)
      ensures oldptr == NULL || size == 0 || r == NULL ==> copied == 0
      ensures oldptr != NULL && size == 0 ==> r == NULL && !(oldptr - 1 in blocks && IsAlloc(mem[oldptr - 1]))
      ensures oldptr != NULL && size > 0 && r == NULL ==>
                oldptr - 1 in blocks && IsAlloc(mem[oldptr - 1]) && BlockSize(mem[oldptr - 1]) == BlockSize(old(mem[oldptr - 1]))
      ensures oldptr != NULL && size > 0 && r != NULL ==>
                !(oldptr - 1 in blocks && IsAlloc(mem[oldptr - 1])) &&
                copied == if size > BlockSize(old(mem[oldptr - 1])) - WordSize then BlockSize(old(mem[oldptr - 1])) - WordSize else size
      ensures old(Inv({})) ==> AllocKept(old(mem[..]), old(blocks), mem[..], blocks, oldptr - 1)
      ensures oldptr == NULL && size == 0 ==> r == NULL && unchanged(this, mem, freeListHead)
      ensures old(Inv({})) && size > 0 ==>
                (r == NULL <==>
                 old(FindFitSpec(mem[..], lists, MallocSize(size))) == NoFit &&
                 old(brk) + (if ChunkSize > MallocSize(size) then ChunkSize else MallocSize(size)) / WordSize > mem.Length)
      ensures oldptr == NULL && old(Unset()) && size > 0 ==> (r == NULL <==> FirstMallocFails(mem.Length, MallocSize(size)))
    {
      hide HeapOk, Rings, ShapeKept, Layout, Members;
      copied := 0;
      ghost var fit;
      if oldptr == NULL {
        r, fit := Malloc(size);
        return;
      }
      if size == 0 {
        ghost var a, b := Free(oldptr, i);
        return NULL, 0;
      }
      r, copied := ReallocMove(oldptr, size, i);
    }

    /** realloc of a block to a request of some bytes: malloc, the copy's length, and free of the old block. */
    method ReallocMove(oldptr: int, size: nat, ghost i: nat) returns (r: int, copied: nat)
      requires 0 < size < SizeMod
      requires Inv({}) && i < |blocks| && oldptr == blocks[i] + 1 && blocks[i] < mem.Length && IsAlloc(mem[blocks[i]])
      modifies this`brk, this`heapBeg, this`heapEnd, this`xFreeListHead, this`blocks, this`lists, mem, freeListHead
      ensures Inv({})
      ensures r != NULL ==>
                0 < r <= mem.Length && r - 1 in blocks && IsAlloc(mem[r - 1]) && BlockSize(mem[r - 1]) == MallocSize(size)
      ensures r == NULL ==>
                copied == 0 && oldptr - 1 in blocks && IsAlloc(mem[oldptr - 1]) &&
                BlockSize(mem[oldptr - 1]) == BlockSize(old(mem[oldptr - 1]))
      ensures r != NULL ==>
                !(oldptr - 1 in blocks && IsAlloc(mem[oldptr - 1])) &&
                copied == if size > BlockSize(old(mem[oldptr - 1])) - WordSize then BlockSize(old(mem[oldptr - 1])) - WordSize else size
      ensures AllocKept(old(mem[..]), old(blocks), mem[..], blocks, oldptr - 1)
      ensures r == NULL <==>
                old(FindFitSpec(mem[..], lists, MallocSize(size))) == NoFit &&
                 old(brk) + (if ChunkSize > MallocSize(size) then ChunkSize else MallocSize(size)) / WordSize > mem.Length
    {
      hide HeapOk, Rings, ShapeKept, Layout, Members;
      copied := 0;
      ghost var M, B := mem[..], blocks;
      HeapLayout(M, FirstBlock, heapEnd, B, Heads(), lists, {});
      NextHeader(M, FirstBlock, heapEnd, B, i);
      ghost var fit;
      r, fit := Malloc(size);
      if r == NULL {
        return;
      }
      ghost var M1, B1 := mem[..], blocks;
      var p := oldptr - 1;
      var oldSize := BlockSize(mem[p]) - WordSize;
      copied := if size > oldSize then oldSize else size;
      ghost var j :| 0 <= j < |blocks| && blocks[j] == p;
      ghost var a, b := Free(oldptr, j);
      AllocKeptTrans(M, B, M1, B1, mem[..], blocks, p, p);
    }

    /**
     * calloc: NULL when nmemb * size overflows 64 bits; otherwise malloc of
     * the product, whose payload memset clears. zeroed is how many bytes
     * memset clears. (The test is taken with a zero count first; as written
     * it divides by nmemb.)
     */
    method Calloc(nmemb: nat, size: nat) returns (r: int, zeroed: nat)
      requires Valid() && nmemb < SizeMod && size < SizeMod
      modifies this`brk, this`heapBeg, this`heapEnd, this`xFreeListHead, this`blocks, this`lists, mem, freeListHead
      ensures nmemb * size >= SizeMod ==> r == NULL && unchanged(this, mem, freeListHead)
      ensures Valid() || (old(Unset()) && r == NULL)
      ensures r == NULL ==> zeroed == 0
      ensures r != NULL ==>
                nmemb * size < SizeMod && zeroed == nmemb * size && 0 < r <= mem.Length && r - 1 in blocks &&
                IsAlloc(mem[r - 1]) && BlockSize(mem[r - 1]) == MallocSize(nmemb * size)
      ensures old(Inv({})) ==> AllocKept(old(mem[..]), old(blocks), mem[..], blocks, NULL)
      ensures nmemb * size == 0 ==> r == NULL && unchanged(this, mem, freeListHead)
      ensures old(Inv({})) && 0 < nmemb * size < SizeMod ==>
                (r == NULL <==>
                 old(FindFitSpec(mem[..], lists, MallocSize(nmemb * size))) == NoFit &&
                 old(brk) + (if ChunkSize > MallocSize(nmemb * size) then ChunkSize else MallocSize(nmemb * size)) / WordSize > mem.Length)
      ensures old(Unset()) && 0 < nmemb * size < SizeMod ==>
                (r == NULL <==> FirstMallocFails(mem.Length, MallocSize(nmemb * size)))
    {
      hide HeapOk, Rings, ShapeKept, Layout, Members;
      zeroed := 0;
      if CallocOverflows(nmemb, size) {
        return NULL, 0;
      }
      var asize := nmemb * size;
      ghost var fit;
      r, fit := Malloc(asize);
      if r == NULL {
        return NULL, 0;
      }
      zeroed := asize;
    }

    /**
     * malloc's small-list case: the head of the small list leaves it, is
     * marked allocated, and the header after it reads its predecessor
     * allocated.
     */
    method SmallFit(xk: nat)
      requires Inv({}) && 0 < |lists[SegNum]| && lists[SegNum][0] == xk
      modifies mem, this`xFreeListHead, this`lists
      ensures Inv({}) && xk in blocks && xk < mem.Length
      ensures IsAlloc(mem[xk]) && IsSmall(mem[xk]) && BlockSize(mem[xk]) == SmallSize
      ensures lists == old(lists)[SegNum := old(lists)[SegNum][1..]]
      ensures AllocKept(old(mem[..]), blocks, mem[..], blocks, NULL)
    {
      hide HeapOk, Rings, ShapeKept, Layout, Members, Rewritten, SmallWordOk;
      ghost var M := mem[..];
      ghost var i := SmallUnlist(xk);
      ghost var M1 := mem[..];
      SmallMark(xk, i);
      AllocKeptTrans(M, blocks, M1, blocks, mem[..], blocks, NULL, NULL);
    }

    /** The small-list head xk leaves the list, still free, as the pending block of the heap. */
    method SmallUnlist(xk: nat) returns (ghost i: nat)
      requires Inv({}) && 0 < |lists[SegNum]| && lists[SegNum][0] == xk
      modifies mem, this`xFreeListHead, this`lists
      ensures Inv({xk}) && i < |blocks| && blocks[i] == xk && xk < mem.Length
      ensures IsSmall(mem[xk]) && !IsAlloc(mem[xk])
      ensures lists == old(lists)[SegNum := old(lists)[SegNum][1..]]
      ensures AllocKept(old(mem[..]), blocks, mem[..], blocks, NULL)
    {
      hide HeapOk, Rings, ShapeKept, Layout, Members, Rewritten, SmallWordOk;
      ghost var M := mem[..];
      HeapSizes(M, FirstBlock, heapEnd, blocks, Heads(), lists, {});
      ListedFacts(M, FirstBlock, heapEnd, blocks, Heads(), lists, {}, SegNum, 0);
      i :| 0 <= i < |blocks| && blocks[i] == xk;
      XDeleteFromFreeList(xk, {}, 0);
      assert {} + {xk} == {xk};
      assert RemoveAt(old(lists)[SegNum], 0) == old(lists)[SegNum][1..];
      ShapeOf(M, mem[..], blocks, heapEnd, xk);
      AllocKeptShape(M, mem[..], blocks, heapEnd);
    }

    /** The pending small block xk is marked allocated, and the header after it reads its predecessor allocated. */
    method SmallMark(xk: nat, ghost i: nat)
      requires Inv({xk}) && i < |blocks| && blocks[i] == xk && xk < mem.Length
      requires IsSmall(mem[xk]) && !IsAlloc(mem[xk])
      modifies mem
      ensures Inv({}) && IsAlloc(mem[xk]) && IsSmall(mem[xk]) && BlockSize(mem[xk]) == SmallSize
      ensures AllocKept(old(mem[..]), blocks, mem[..], blocks, NULL)
    {
      hide HeapOk, Rings, ShapeKept, Layout, Members, Rewritten, SmallWordOk;
      ghost var M1 := mem[..];
      HeapLayout(M1, FirstBlock, heapEnd, blocks, Heads(), lists, {xk});
      NextHeader(M1, FirstBlock, heapEnd, blocks, i);
      IncFields(M1[xk]);
      SetMalloced(xk);
      assert mem[xk] == M1[xk] + 1 && HeapNext(mem[..], xk) == xk + 2;
      ghost var M2 := mem[..];
      SetPrevMalloced(HeapNext(mem[..], xk), true);
      assert M2 == MallocedBits(M1, xk);
      SmallFitWords(M1, mem[..], xk);
      RewriteBlock(M1, mem[..], FirstBlock, heapEnd, blocks, Heads(), lists, i, {xk}, true);
      AllocKeptFree(M1, blocks, mem[..], blocks, xk);
    }

    /**
     * malloc when findFit finds nothing: the heap grows by the larger of a
     * chunk and sz, and the new free block goes alone on the last bucket
     * when that one is empty, and through coalesce otherwise. NULL, with
     * nothing changed, when mem_sbrk fails.
     */
    method Grow(sz: nat) returns (r: int, ghost i: nat)
      requires Inv({}) && 16 <= sz && sz % 16 == 0
      modifies mem, freeListHead, this`xFreeListHead, this`lists, this`blocks, this`brk, this`heapEnd
      ensures r == NULL <==> old(brk) + (if ChunkSize > sz then ChunkSize else sz) / WordSize > mem.Length
      ensures r == NULL ==> unchanged(this, mem, freeListHead)
      ensures Inv({})
      ensures r != NULL ==> 0 <= r && i < |blocks| && blocks[i] == r && r < mem.Length && !IsAlloc(mem[r]) &&
                            BlockSize(mem[r]) >= (if ChunkSize > sz then ChunkSize else sz) &&
                            r in lists[ListOf(mem[..], r)] &&
                            (r in old(blocks) ==> !IsAlloc(old(mem[r])))
      ensures r != NULL ==> brk == old(brk) + (if ChunkSize > sz then ChunkSize else sz) / WordSize
      ensures r != NULL ==>
                (r == old(heapEnd) && blocks == old(blocks) + [r]) ||
                (0 < |old(blocks)| && r == old(blocks)[|old(blocks)| - 1] && blocks == old(blocks))
      ensures r != NULL && old(freeListHead[SegNum - 1]) == NULL ==> r == old(heapEnd) && blocks == old(blocks) + [r]
      ensures AllocKept(old(mem[..]), old(blocks), mem[..], blocks, NULL)
    {
      hide HeapOk, Rings, ShapeKept, Layout, Members;
      var brkSize := if ChunkSize > sz then ChunkSize else sz;
      var newDK := Extend(brkSize);
      if newDK == NULL {
        return NULL, 0;
      }
      i := |blocks| - 1;
      ghost var M3, B3 := mem[..], blocks;
      HeapSizes(M3, FirstBlock, heapEnd, blocks, Heads(), lists, {newDK});
      if freeListHead[SegNum - 1] == NULL {
        assert ListOf(M3, newDK) == SegNum - 1;
        AddBigToFreeList(newDK, {newDK}, SegNum - 1);
        assert {newDK} - {newDK} == {};
        ShapeOf(M3, mem[..], blocks, heapEnd, newDK);
        AllocKeptShape(M3, mem[..], blocks, heapEnd);
        r := newDK;
      } else {
        var c, a, b := Coalesce(newDK, i);
        RunSizeCovers(M3, B3, a, b, i);
        MergedTail(old(blocks), newDK, B3, blocks, a, b, c);
        r, i := c, a;
      }
      assert !IsAlloc(M3[r]);
      AllocKeptTrans(old(mem[..]), old(blocks), M3, B3, mem[..], blocks, NULL, NULL);
    }

    /**
     * The growth itself: mem_sbrk of brkSize bytes; the old epilogue becomes
     * the header of a pending free block over the new words, and a new
     * epilogue follows it, reading its predecessor free.
     */
    method Extend(brkSize: nat) returns (r: int)
      requires Inv({}) && 32 <= brkSize && brkSize % 16 == 0
      modifies mem, this`blocks, this`brk, this`heapEnd
      ensures r == NULL <==> old(brk) + brkSize / WordSize > mem.Length
      ensures r == NULL ==> unchanged(this, mem)
      ensures r != NULL ==> brk == old(brk) + brkSize / WordSize
      ensures r != NULL ==> r == old(heapEnd) && blocks == old(blocks) + [r] && Inv({r}) &&
                            r < mem.Length && FreeBig(mem[r]) && BlockSize(mem[r]) == brkSize
      ensures AllocKept(old(mem[..]), old(blocks), mem[..], blocks, NULL)
    {
      hide HeapOk, Rings, ShapeKept, Layout, Members;
      ghost var M := mem[..];
      HeapSizes(M, FirstBlock, heapEnd, blocks, Heads(), lists, {});
      var ext := Sbrk(brkSize);
      if ext == NULL {
        return NULL;
      }
      ghost var e := heapEnd;
      heapEnd := heapEnd + brkSize / WordSize;
      var newDK: nat := ext - 1;
      TianHFR(newDK, brkSize, false);
      TianHF(heapEnd, 0, true);
      HFRFacts(M, newDK, brkSize, false);
      assert HeapNext(mem[..], newDK) == heapEnd;
      SetPrevMalloced(HeapNext(mem[..], newDK), false);
      GrowHeap(M, mem[..], FirstBlock, e, blocks, Heads(), lists, brkSize);
      GrowWordsFacts(M, mem[..], e, brkSize);
      blocks := blocks + [newDK];
      r := newDK;
    }

    /**
     * The writes that allocate sz bytes at the free block p: tianHFR for a
     * block of 32 bytes or more, setSmallBlock then setMalloced for a
     * 16-byte one; then setPrevMalloced on the header after it.
     */
    method WriteTake(p: nat, sz: nat)
      requires sz == SmallSize || (32 <= sz && sz % 16 == 0)
      requires p + sz / WordSize < mem.Length && !IsAlloc(mem[p])
      modifies mem
      ensures mem[..] == TakeWords(old(mem[..]), p, sz)
      ensures HeapNext(mem[..], p) == p + sz / WordSize
    {
      if sz >= 32 {
        TianHFR(p, sz, true);
        HFRFacts(old(mem[..]), p, sz, true);
      } else {
        SetSmallBlock(p);
        SetSmallWordFields(old(mem[p]));
        IncFields(mem[p]);
        SetMalloced(p);
      }
      assert HeapNext(mem[..], p) == p + sz / WordSize;
      SetPrevMalloced(HeapNext(mem[..], p), true);
    }

    /** The writes that make the r bytes at q a free block: setSmallBlock then setFree for 16 bytes, tianHFR otherwise. */
    method WriteRest(q: nat, r: nat)
      requires 16 <= r && q + r / WordSize <= mem.Length && q + 1 < mem.Length
      modifies mem
      ensures mem[..] == RestWords(old(mem[..]), q, r)
    {
      if r == SmallSize {
        SetSmallBlock(q);
        SetFree(q);
      } else {
        TianHFR(q, r, false);
      }
    }

    /**
     * The end of malloc: the free block fit at position i leaves its list
     * and its first sz bytes are allocated; any rest becomes a free block
     * after it, on the small list when it is 16 bytes and on the list for
     * its size otherwise. (malloc writes this out twice, for sz of 32 bytes
     * or more and for 16; the two differ only in the writes of WriteTake
     * and in the order in which they test the rest's size.)
     */
    method Place(fit: nat, sz: nat, ghost i: nat)
      requires Inv({}) && i < |blocks| && blocks[i] == fit && fit < mem.Length
      requires !IsAlloc(mem[fit]) && !IsSmall(mem[fit]) && sz <= BlockSize(mem[fit])
      requires sz == SmallSize || (32 <= sz && sz % 16 == 0)
      modifies mem, freeListHead, this`xFreeListHead, this`lists, this`blocks
      ensures Inv({})
      ensures fit < mem.Length && IsAlloc(mem[fit]) && BlockSize(mem[fit]) == sz && i < |blocks| && blocks[i] == fit
      ensures blocks == if BlockSize(old(mem[fit])) == sz then old(blocks)
                        else old(blocks[..i]) + [fit, fit + sz / WordSize] + old(blocks[i + 1..])
      ensures BlockSize(old(mem[fit])) > sz ==>
                fit + sz / WordSize < mem.Length && !IsAlloc(mem[fit + sz / WordSize]) &&
                BlockSize(mem[fit + sz / WordSize]) == BlockSize(old(mem[fit])) - sz &&
                fit + sz / WordSize in lists[ListOf(mem[..], fit + sz / WordSize)]
      ensures AllocKept(old(mem[..]), old(blocks), mem[..], blocks, NULL)
    {
      hide HeapOk, Rings, ShapeKept, Layout, Members;
      ghost var M0 := mem[..];
      HeapSizes(M0, FirstBlock, heapEnd, blocks, Heads(), lists, {});
      var fitSize := BlockSize(mem[fit]);
      var leftSize := fitSize - sz;
      ghost var k := ListedIndex(M0, FirstBlock, heapEnd, blocks, Heads(), lists, {}, fit);
      DeleteFromFreeList(fit, {}, ListOf(M0, fit), k);
      assert {} + {fit} == {fit};
      ghost var M := mem[..];
      ShapeOf(M0, M, blocks, heapEnd, fit);
      AllocKeptShape(M0, M, blocks, heapEnd);
      if leftSize == 0 {
        TakeWhole(fit, i);
      } else {
        TakeSplit(fit, sz, i);
      }
      AllocKeptTrans(M0, old(blocks), M, old(blocks), mem[..], blocks, NULL, NULL);
    }

    /** Place when the block is exactly sz bytes: it is allocated whole. */
    method TakeWhole(fit: nat, ghost i: nat)
      requires Inv({fit}) && i < |blocks| && blocks[i] == fit && fit < mem.Length && !IsAlloc(mem[fit])
      requires !IsSmall(mem[fit]) || BlockSize(mem[fit]) == SmallSize
      modifies mem
      ensures Inv({}) && fit < mem.Length && IsAlloc(mem[fit]) && BlockSize(mem[fit]) == BlockSize(old(mem[fit]))
      ensures AllocKept(old(mem[..]), blocks, mem[..], blocks, NULL)
    {
      hide HeapOk, Rings, ShapeKept, Layout, Members;
      ghost var M := mem[..];
      HeapLayout(M, FirstBlock, heapEnd, blocks, Heads(), lists, {fit});
      NextHeader(M, FirstBlock, heapEnd, blocks, i);
      WordsOfSize(M, fit);
      var sz := BlockSize(mem[fit]);
      WriteTake(fit, sz);
      TakeWordsFacts(M, mem[..], fit, sz);
      RewriteBlock(M, mem[..], FirstBlock, heapEnd, blocks, Heads(), lists, i, {fit}, true);
      AllocKeptFree(M, blocks, mem[..], blocks, fit);
    }

    /** Place when the block is larger than sz: its first sz bytes are allocated and the rest is listed as a free block. */
    method TakeSplit(fit: nat, sz: nat, ghost i: nat)
      requires Inv({fit}) && i < |blocks| && blocks[i] == fit && fit < mem.Length
      requires !IsAlloc(mem[fit]) && !IsSmall(mem[fit]) && sz < BlockSize(mem[fit])
      requires sz == SmallSize || (32 <= sz && sz % 16 == 0)
      modifies mem, freeListHead, this`xFreeListHead, this`lists, this`blocks
      ensures Inv({})
      ensures fit < mem.Length && IsAlloc(mem[fit]) && BlockSize(mem[fit]) == sz
      ensures blocks == old(blocks[..i]) + [fit, fit + sz / WordSize] + old(blocks[i + 1..])
      ensures fit + sz / WordSize < mem.Length && !IsAlloc(mem[fit + sz / WordSize]) &&
              BlockSize(mem[fit + sz / WordSize]) == BlockSize(old(mem[fit])) - sz &&
              fit + sz / WordSize in lists[ListOf(mem[..], fit + sz / WordSize)]
      ensures AllocKept(old(mem[..]), old(blocks), mem[..], blocks, NULL)
    {
      hide HeapOk, Rings, ShapeKept, Layout, Members;
      var leftSize := BlockSize(mem[fit]) - sz;
      var q := SplitOff(fit, sz, i);
      ghost var M2 := mem[..];
      HeapSizes(M2, FirstBlock, heapEnd, blocks, Heads(), lists, {q});
      if leftSize == SmallSize {
        assert ListOf(M2, q) == SegNum;
        XAddToFreeList(q, {q});
      } else {
        AddToFreeList(q, {q}, ListOf(mem[..], q));
      }
      assert lists[ListOf(M2, q)][0] == q;
      assert {q} - {q} == {};
      assert fit in blocks && q in blocks;
      ShapeOf(M2, mem[..], blocks, heapEnd, q);
      ShapeOf(M2, mem[..], blocks, heapEnd, fit);
      AllocKeptShape(M2, mem[..], blocks, heapEnd);
      AllocKeptTrans(old(mem[..]), old(blocks), M2, blocks, mem[..], blocks, NULL, NULL);
    }

    /** The writes of TakeSplit: an allocated block of sz bytes at fit, and the rest a pending free block q after it. */
    method SplitOff(fit: nat, sz: nat, ghost i: nat) returns (q: nat)
      requires Inv({fit}) && i < |blocks| && blocks[i] == fit && fit < mem.Length
      requires !IsAlloc(mem[fit]) && !IsSmall(mem[fit]) && sz < BlockSize(mem[fit])
      requires sz == SmallSize || (32 <= sz && sz % 16 == 0)
      modifies mem, this`blocks
      ensures q == fit + sz / WordSize && blocks == old(blocks[..i]) + [fit, q] + old(blocks[i + 1..]) && Inv({q})
      ensures q < mem.Length && IsAlloc(mem[fit]) && BlockSize(mem[fit]) == sz
      ensures !IsAlloc(mem[q]) && BlockSize(mem[q]) == BlockSize(old(mem[fit])) - sz
      ensures IsSmall(mem[q]) <==> BlockSize(mem[q]) == SmallSize
      ensures AllocKept(old(mem[..]), old(blocks), mem[..], blocks, NULL)
    {
      hide HeapOk, Rings, ShapeKept, Layout, Members, TakeWords, RestWords;
      ghost var M := mem[..];
      HeapLayout(M, FirstBlock, heapEnd, blocks, Heads(), lists, {fit});
      NextHeader(M, FirstBlock, heapEnd, blocks, i);
      WordsOfSize(M, fit);
      q := SplitWrite(fit, sz);
      SplitBlock(M, mem[..], FirstBlock, heapEnd, blocks, Heads(), lists, i, q, sz);
      blocks := blocks[..i] + [blocks[i], q] + blocks[i + 1..];
    }

    /** The header and footer words SplitOff writes: sz allocated bytes at fit, the rest free at q. */
    method SplitWrite(fit: nat, sz: nat) returns (q: nat)
      requires fit < mem.Length && !IsAlloc(mem[fit]) && !IsSmall(mem[fit]) && sz < BlockSize(mem[fit])
      requires fit + BlockSize(mem[fit]) / WordSize < mem.Length
      requires sz == SmallSize || (32 <= sz && sz % 16 == 0)
      modifies mem
      ensures SplitDone(old(mem[..]), mem[..], fit, q, sz, BlockSize(old(mem[fit])))
    {
      hide TakeWords, RestWords, SplitDone;
      ghost var M := mem[..];
      var fitSize := BlockSize(mem[fit]);
      var leftSize := fitSize - sz;
      SizeDiff(fitSize, sz);
      WriteTake(fit, sz);
      q := HeapNext(mem[..], fit);
      assert q + leftSize / WordSize == fit + fitSize / WordSize;
      WriteRest(q, leftSize);
      SplitWords(M, mem[..], fit, q, sz, fitSize);
    }

    /** mm_checkheap's per-block checks, over every block of every list. */
    ghost predicate ListsPassChecks()
      reads this, mem
    {
      |lists| == ListCount &&
      forall j, k | 0 <= j < ListCount && 0 <= k < |lists[j]| ::
        (j == SegNum ==> SmallChecks(mem[..], brk, lists[j][k])) && (j < SegNum ==> BucketChecks(mem[..], brk, lists[j][k], j))
    }

    /** A consistent heap passes them. */
    lemma InvPassesChecks()
      requires Inv({})
      ensures ListsPassChecks()
    {
      HeapSizes(mem[..], FirstBlock, heapEnd, blocks, Heads(), lists, {});
      forall j, k | 0 <= j < ListCount && 0 <= k < |lists[j]|
        ensures (j == SegNum ==> SmallChecks(mem[..], brk, lists[j][k])) && (j < SegNum ==> BucketChecks(mem[..], brk, lists[j][k], j))
      {
        ListedPassChecks(mem[..], heapEnd, blocks, Heads(), lists, {}, brk, j, k);
      }
    }

    /**
     * findFit(sz): the head of the small list for a 16-byte request when
     * there is one (status 1); otherwise (status 0) the capped best-fit scan
     * of the request's bucket, then of the first non-empty bucket above it,
     * or NULL.
     */
    method FindFit(sz: nat, ghost P: set<nat>) returns (r: int, status: int)
      requires Inv(P)
      ensures status == if sz == SmallSize && 0 < |lists[SegNum]| then 1 else 0
      ensures r == FitBlock(lists, FindFitSpec(mem[..], lists, sz))
    {
      hide HeapOk, Rings;
      HeapSizes(mem[..], FirstBlock, heapEnd, blocks, Heads(), lists, P);
      EmptyHeads(mem[..], Heads(), lists);
      assert Heads()[SegNum] == xFreeListHead;
      if sz == SmallSize {
        if xFreeListHead != NULL {
          ListedFacts(mem[..], FirstBlock, heapEnd, blocks, Heads(), lists, P, SegNum, 0);
          return xFreeListHead, 1;
        }
      }
      status := 0;
      var idx := GetFreeListIndex(sz);
      assert Heads()[idx] == freeListHead[idx];
      r := NULL;
      var find := 0;
      ghost var S := SizesOf(mem[..], lists[idx]);
      if freeListHead[idx] != NULL {
        r, find := ScanBucket(idx, sz, P);
      } else {
        assert S[..ScanEnd(S, sz)] == [];
      }
      if find > 0 {
        return;
      }
      r := FindAbove(idx, P);
    }

    /**
     * The second half of findFit: the first non-empty bucket above idx is
     * scanned with every block fitting; with none, the search fails.
     */
    method FindAbove(idx: nat, ghost P: set<nat>) returns (r: int)
      requires Inv(P) && idx < SegNum
      ensures r == FitBlock(lists, AboveFit(mem[..], lists, idx))
    {
      hide HeapOk, Rings;
      HeapSizes(mem[..], FirstBlock, heapEnd, blocks, Heads(), lists, P);
      EmptyHeads(mem[..], Heads(), lists);
      var largeIdx := idx + 1;
      if largeIdx >= SegNum {
        return NULL;
      }
      while largeIdx < SegNum
        invariant idx + 1 <= largeIdx <= SegNum
        invariant FirstNonEmpty(lists, idx + 1) == FirstNonEmpty(lists, largeIdx)
        decreases SegNum - largeIdx
      {
        assert Heads()[largeIdx] == freeListHead[largeIdx];
        if freeListHead[largeIdx] != NULL {
          break;
        }
        largeIdx := largeIdx + 1;
      }
      if largeIdx == SegNum {
        return NULL;
      }
      AllFit(SizesOf(mem[..], lists[largeIdx]));
      var find;
      r, find := ScanBucket(largeIdx, 0, P);
    }

    /**
     * The scan loop of findFit over bucket b: from the head, stop once more
     * than FindThres blocks of at least need bytes have been seen or the walk
     * is back at the head; keep the first of the smallest of them.
     */
    method ScanBucket(b: nat, need: nat, ghost P: set<nat>) returns (result: int, find: nat)
      requires Inv(P) && b < SegNum && 0 < |lists[b]|
      ensures find == CountFits(SizesOf(mem[..], lists[b])[..ScanEnd(SizesOf(mem[..], lists[b]), need)], need)
      ensures find > 0 ==> result == lists[b][Pick(SizesOf(mem[..], lists[b]), need, ScanEnd(SizesOf(mem[..], lists[b]), need))]
      ensures find == 0 ==> result == NULL
    {
      hide HeapOk, Rings, CountFits, ScanFrom, Pick, ScanEnd;
      ghost var M := mem[..];
      HeapSizes(M, FirstBlock, heapEnd, blocks, Heads(), lists, P);
      ghost var L := lists[b];
      ghost var S := SizesOf(M, L);
      ListedFacts(M, FirstBlock, heapEnd, blocks, Heads(), lists, P, b, 0);
      assert Heads()[b] == freeListHead[b];
      var head := freeListHead[b];
      var start := head;
      ghost var k: nat := 0;
      result, find := NULL, 0;
      var curSize: nat := 0;
      ScanStart(S, need);
      while true
        invariant k < |L| && start == L[k]
        invariant find == CountFits(S[..k], need) && find <= FindThres + 1
        invariant ScanFrom(S, need, k) == ScanEnd(S, need)
        invariant find > 0 ==> result == L[Pick(S, need, k)] && curSize == S[Pick(S, need, k)]
        invariant find == 0 ==> result == NULL
        decreases |L| - k
      {
        WalkStep(M, FirstBlock, heapEnd, blocks, Heads(), lists, P, b, k);
        var cSize := BlockSize(mem[start]);
        if find > FindThres {
          ScanExit(S, need, k);
          break;
        }
        ScanStep(S, need, k, find);
        if cSize >= need {
          if find == 0 {
            curSize := cSize;
            result := start;
          } else if cSize < curSize {
            curSize := cSize;
            result := start;
          }
          find := find + 1;
        }
        start := NextOf(mem[..], start);
        k := k + 1;
        if start == head {
          ScanExit(S, need, k);
          break;
        }
      }
    }
  }
}
