/**
 * Coalescing, heap growth and the first heap, as rewrites of runs of blocks.
 *
 * coalesce merges a pending free block with the free blocks next to it:
 * once they are all off their lists, one tianHFR over the whole run makes a
 * single free block of it. Growing the heap turns the old epilogue into the
 * header of a new free block and writes a new epilogue after it. mm_init
 * writes the prologue, the first free block and the epilogue.
 */
module MallocMerge {
  import opened Arith
  import opened MallocWords
  import opened MallocLayout
  import opened MallocLists
  import opened MallocFreeList
  import opened MallocWindow
  import opened MallocSteps

  /* ---------------------------------------------------------------------- */
  /* Finding the neighbours                                                   */

  /**
   * getHeapPrev: NULL when the prev-allocated bit is set; otherwise the
   * word before p is read as the footer of the block before it: a small
   * block's second word (16 bytes back unless its allocated bit is set), or
   * a large block's footer (its size back unless that is zero or the
   * allocated bit is set).
   */
  function HeapPrev(M: seq<nat>, p: nat): int
    requires 0 < p < |M|
  {
    if IsPrevAlloc(M[p]) then NULL
    else
      var f := M[p - 1];
      if IsSmall(f) then (if IsAlloc(f) then NULL else p - 2)
      else if f / 16 == 0 || IsAlloc(f) then NULL
      else p - SizeField(f) / WordSize
  }

  /**
   * getHeapPrev never names a wrong block: it gives NULL or the free block
   * before p, and it always finds a free large block before p. (A free small
   * block before p whose second word reads allocated is missed; coalesce then
   * leaves the two free blocks apart.)
   */
  lemma HeapPrevSound(M: seq<nat>, beg: nat, end: nat, blocks: seq<nat>, i: nat)
    requires Layout(M, beg, end, blocks) && 0 < beg && i < |blocks|
    ensures 0 < blocks[i] < |M|
    ensures HeapPrev(M, blocks[i]) == NULL ||
            (0 < i && HeapPrev(M, blocks[i]) == blocks[i - 1] && !IsAlloc(M[blocks[i - 1]]))
    ensures 0 < i && FreeBig(M[blocks[i - 1]]) ==> HeapPrev(M, blocks[i]) == blocks[i - 1]
  {
    var p := blocks[i];
    InBounds(M, beg, end, blocks, i);
    if i > 0 {
      var q := blocks[i - 1];
      assert BlockOk(M, blocks, end, i - 1);
      LenBounds(M, blocks, end, i - 1);
      InBounds(M, beg, end, blocks, i - 1);
      assert After(blocks, end, i - 1) == p;
      if !IsPrevAlloc(M[p]) {
        var f := M[p - 1];
        if IsSmall(M[q]) {
          assert p - 1 == q + 1;
          FlagsOfLow(f, f / 8, f % 8);
        } else {
          assert p - 1 == q + Len(M, q) - 1;
          var s := BlockSize(M[q]);
          assert SizeField(f) == s && s >= 32;
          assert f / 16 * 16 == s;
        }
      }
    } else {
      assert IsPrevAlloc(M[p]);
    }
  }

  /** Block i's neighbours, as getHeapNext finds them: its end is the next block's header or the epilogue. */
  lemma HeapNextIsAfter(M: seq<nat>, beg: nat, end: nat, blocks: seq<nat>, i: nat)
    requires Layout(M, beg, end, blocks) && i < |blocks|
    ensures blocks[i] < |M| && HeapNext(M, blocks[i]) == After(blocks, end, i) < |M|
    ensures IsFreeWord(M[After(blocks, end, i)]) <==> i + 1 < |blocks| && !IsAlloc(M[blocks[i + 1]])
    ensures i + 1 < |blocks| ==> After(blocks, end, i) == blocks[i + 1]
  {
    assert BlockOk(M, blocks, end, i);
    if i + 1 < |blocks| {
      assert BlockOk(M, blocks, end, i + 1);
    }
  }

  /** getHeapNext: the word after the block at p, by its size. */
  function HeapNext(M: seq<nat>, p: nat): nat
    requires p < |M|
  {
    p + BlockSize(M[p]) / WordSize
  }

  /** isFree: the word heads a block of some size that is not allocated (the epilogue reads size zero). */
  predicate IsFreeWord(w: nat)
  {
    BlockSize(w) != 0 && !IsAlloc(w)
  }

  /* ---------------------------------------------------------------------- */
  /* Merging a run of free blocks                                             */

  /** A run of blocks spans an even number of words, two at least per block, and ends at or before the epilogue. */
  lemma {:induction false} RunSpan(M: seq<nat>, beg: nat, end: nat, blocks: seq<nat>, i: nat, j: nat)
    requires Layout(M, beg, end, blocks) && i < j <= |blocks|
    ensures blocks[i] + 2 * (j - i) <= After(blocks, end, j - 1) <= end
    ensures (After(blocks, end, j - 1) - blocks[i]) % 2 == 0
    decreases j - i
  {
    assert BlockOk(M, blocks, end, i);
    LenBounds(M, blocks, end, i);
    if i + 1 < j {
      RunSpan(M, beg, end, blocks, i + 1, j);
    }
  }

  /** The sizes of the blocks a..b-1 added up. */
  function RunSize(M: seq<nat>, blocks: seq<nat>, a: nat, b: nat): nat
    requires a <= b <= |blocks|
    decreases b - a
  {
    if a == b then 0 else (if blocks[a] < |M| then BlockSize(M[blocks[a]]) else 0) + RunSize(M, blocks, a + 1, b)
  }

  /** Every header of a heap that starts at an odd word is at an odd word, so every payload is 16-byte aligned. */
  lemma {:induction false} BlockOdd(M: seq<nat>, beg: nat, end: nat, blocks: seq<nat>, i: nat)
    requires Layout(M, beg, end, blocks) && beg % 2 == 1 && i < |blocks|
    ensures blocks[i] % 2 == 1
  {
    hide FooterOk, SmallWordOk, IsPrevAlloc;
    if i > 0 {
      BlockOdd(M, beg, end, blocks, i - 1);
      assert BlockOk(M, blocks, end, i - 1);
      LenBounds(M, blocks, end, i - 1);
      assert blocks[i] == blocks[i - 1] + Len(M, blocks[i - 1]);
    }
  }

  /** A run is at least as large as any block in it. */
  lemma {:induction false} RunSizeCovers(M: seq<nat>, blocks: seq<nat>, a: nat, b: nat, m: nat)
    requires a <= m < b <= |blocks| && blocks[m] < |M|
    ensures BlockSize(M[blocks[m]]) <= RunSize(M, blocks, a, b)
    decreases b - a
  {
    if a < m {
      RunSizeCovers(M, blocks, a + 1, b, m);
    }
  }

  /** coalesce's newSz: the sizes of neighbouring blocks add up to the bytes they span. */
  lemma {:induction false} SpanIsRunSize(M: seq<nat>, beg: nat, end: nat, blocks: seq<nat>, a: nat, b: nat)
    requires Layout(M, beg, end, blocks) && a < b <= |blocks|
    ensures WordSize * (After(blocks, end, b - 1) - blocks[a]) == RunSize(M, blocks, a, b)
    decreases b - a
  {
    assert BlockOk(M, blocks, end, a);
    WordsOfSize(M, blocks[a]);
    if a + 1 < b {
      SpanIsRunSize(M, beg, end, blocks, a + 1, b);
      RunSpan(M, beg, end, blocks, a + 1, b);
    }
  }

  /** A block's size is eight bytes per word of its length. */
  lemma WordsOfSize(M: seq<nat>, q: nat)
    requires q < |M|
    ensures WordSize * Len(M, q) == BlockSize(M[q])
  {
    var s := BlockSize(M[q]);
    DivMod(s, 8, 2 * (s / 16), 0);
  }

  /** tianHFR over a run of free blocks leaves one well-formed free block in their place. */
  lemma MergeRun(M: seq<nat>, M2: seq<nat>, beg: nat, end: nat, blocks: seq<nat>, i: nat, j: nat, S: nat)
    requires Layout(M, beg, end, blocks) && i + 1 < j <= |blocks|
    requires forall m | i <= m < j :: !IsAlloc(M[blocks[m]])
    requires S == WordSize * (After(blocks, end, j - 1) - blocks[i])
    requires Fresh(M2, blocks[i], S, false) && Outside(M, M2, blocks[i], blocks[i] + S / WordSize - 1)
    requires IsPrevAlloc(M2[blocks[i]]) == IsPrevAlloc(M[blocks[i]])
    ensures RunOk(M, M2, beg, end, end, blocks, i, j, [blocks[i]], blocks[..i] + [blocks[i]] + blocks[j..])
  {
    var p := blocks[i];
    var n := After(blocks, end, j - 1);
    var blocks2 := blocks[..i] + [p] + blocks[j..];
    RunSpan(M, beg, end, blocks, i, j);
    assert p + S / WordSize == n;
    assert blocks2[i] == p;
    assert After(blocks2, end, i) == n;
    assert BlockOk(M, blocks, end, j - 1);
    assert M2[n] == M[n];
    NextHeader(M, beg, end, blocks, i);
    assert BlockOk(M2, blocks2, end, i);
    forall k | i <= k < j
      ensures blocks[k] < |M|
    {
      assert BlockOk(M, blocks, end, k);
    }
  }

  /**
   * coalesce's cases 1 to 3: once the blocks i..j-1 (two or three of them)
   * are all pending, writing one free block over them keeps the heap
   * invariant with only the merged block pending, and every allocated block
   * is kept.
   */
  lemma MergeBlocks(M: seq<nat>, M2: seq<nat>, beg: nat, end: nat, blocks: seq<nat>, heads: seq<int>,
                    lists: seq<seq<nat>>, i: nat, j: nat, P: set<nat>, S: nat)
    requires i + 1 < j <= |blocks| && HeapOk(M, beg, end, blocks, heads, lists, P)
    requires forall m | i <= m < j :: blocks[m] in P
    requires forall q | q in P :: q in blocks[i..j]
    requires S == WordSize * (After(blocks, end, j - 1) - blocks[i])
    requires Fresh(M2, blocks[i], S, false) && Outside(M, M2, blocks[i], blocks[i] + S / WordSize - 1)
    requires IsPrevAlloc(M2[blocks[i]]) == IsPrevAlloc(M[blocks[i]])
    ensures HeapOk(M2, beg, end, blocks[..i] + [blocks[i]] + blocks[j..], heads, lists, {blocks[i]})
    ensures AllocKept(M, blocks, M2, blocks[..i] + [blocks[i]] + blocks[j..], NULL)
  {
    var p := blocks[i];
    forall m | i <= m < j
      ensures !IsAlloc(M[blocks[m]])
    {
      assert blocks[m] in P;
    }
    MergeRun(M, M2, beg, end, blocks, i, j, S);
    WindowHeap(M, M2, beg, end, end, blocks, i, j, [p], blocks[..i] + [p] + blocks[j..], heads, lists, P, {p}, NULL);
  }

  /* ---------------------------------------------------------------------- */
  /* Growing the heap                                                         */

  /**
   * The writes of malloc after mem_sbrk of B bytes: tianHFR makes the old
   * epilogue e the header of a free block of B bytes, tianHF writes the new
   * epilogue after it, and setPrevMalloced clears the new epilogue's
   * prev-allocated bit.
   */
  function GrowWords(M: seq<nat>, e: nat, B: nat): seq<nat>
    requires 8 <= B && e + B / WordSize < |M|
  {
    PrevBit(HF(HFR(M, e, B, false), e + B / WordSize, 0, true), e + B / WordSize, false)
  }

  /** After GrowWords the words from e on hold a free block of B bytes and an epilogue. */
  lemma GrowWordsFacts(M: seq<nat>, M3: seq<nat>, e: nat, B: nat)
    requires 32 <= B && B % 16 == 0 && e + B / WordSize < |M| && M3 == GrowWords(M, e, B)
    ensures Outside(M, M3, e, e + B / WordSize) && Fresh(M3, e, B, false) && IsPrevAlloc(M3[e]) == IsPrevAlloc(M[e])
    ensures BlockSize(M3[e + B / WordSize]) == 0 && IsAlloc(M3[e + B / WordSize]) && !IsPrevAlloc(M3[e + B / WordSize])
  {
    var e2 := e + B / WordSize;
    var a := B / 16;
    assert B / WordSize == 2 * a;
    var M1 := HFR(M, e, B, false);
    HFRFacts(M, e, B, false);
    var M2 := HF(M1, e2, 0, true);
    TianHFFields(M1[e2], 0, true);
    SetPrevWordFields(M2[e2], false);
    FlagsOfLow(M3[e2], M3[e2] / 8, M3[e2] % 8);
    assert M3[e2] / 8 == M2[e2] / 8 && M2[e2] % 16 < 4;
    assert M3[e] == M1[e] && M3[e2 - 1] == M1[e2 - 1];
  }

  /** The grown run: the new block in place of the old epilogue. */
  lemma GrowRun(M: seq<nat>, M3: seq<nat>, beg: nat, end: nat, blocks: seq<nat>, B: nat)
    requires Layout(M, beg, end, blocks) && 32 <= B && B % 16 == 0
    requires end + B / WordSize < |M3|
    requires Outside(M, M3, end, end + B / WordSize) && Fresh(M3, end, B, false) && IsPrevAlloc(M3[end]) == IsPrevAlloc(M[end])
    requires BlockSize(M3[end + B / WordSize]) == 0 && IsAlloc(M3[end + B / WordSize]) && !IsPrevAlloc(M3[end + B / WordSize])
    ensures RunOk(M, M3, beg, end, end + B / WordSize, blocks, |blocks|, |blocks|, [end], blocks + [end])
  {
    var n := |blocks|;
    var e2 := end + B / WordSize;
    var blocks2 := blocks + [end];
    assert blocks[..n] + [end] + blocks[n..] == blocks2;
    assert BlockOk(M, blocks, end, n - 1);
    assert After(blocks2, e2, n) == e2;
    assert BlockOk(M3, blocks2, e2, n);
  }

  /**
   * Growing the heap by B bytes keeps the heap invariant: the old epilogue
   * is the header of a new free block at the end of the heap, pending, the
   * epilogue moves B bytes on, and every allocated block is kept.
   */
  lemma GrowHeap(M: seq<nat>, M3: seq<nat>, beg: nat, end: nat, blocks: seq<nat>, heads: seq<int>,
                 lists: seq<seq<nat>>, B: nat)
    requires HeapOk(M, beg, end, blocks, heads, lists, {}) && 32 <= B && B % 16 == 0
    requires end + B / WordSize < |M| && M3 == GrowWords(M, end, B)
    ensures HeapOk(M3, beg, end + B / WordSize, blocks + [end], heads, lists, {end})
    ensures AllocKept(M, blocks, M3, blocks + [end], NULL)
  {
    var n := |blocks|;
    GrowWordsFacts(M, M3, end, B);
    GrowRun(M, M3, beg, end, blocks, B);
    WindowHeap(M, M3, beg, end, end + B / WordSize, blocks, n, n, [end], blocks + [end], heads, lists, {}, {end}, NULL);
  }

  /* ---------------------------------------------------------------------- */
  /* The first heap                                                           */

  /** The first block's header, after the prologue word. */
  const FirstBlock: nat := 1

  /** The first epilogue: one chunk of words after the first block. */
  const FirstEnd: nat := FirstBlock + ChunkSize / WordSize

  /** Every list empty. */
  function NoHeads(): (h: seq<int>)
    ensures |h| == ListCount && forall j | 0 <= j < ListCount :: h[j] == NULL
  {
    seq(ListCount, _ => NULL)
  }

  function NoLists(): (l: seq<seq<nat>>)
    ensures |l| == ListCount && forall j | 0 <= j < ListCount :: l[j] == []
  {
    seq(ListCount, _ => [])
  }

  /**
   * The header and footer writes of mm_init: tianHF on the prologue word,
   * tianHFR over a free chunk at the first block, setPrevMalloced on it
   * (set) and on the epilogue word (cleared), then tianHF on the epilogue.
   */
  function InitWords(M: seq<nat>): seq<nat>
    requires FirstEnd < |M|
  {
    var M1 := HFR(HF(M, 0, 0, true), FirstBlock, ChunkSize, false);
    HF(PrevBit(PrevBit(M1, FirstBlock, true), FirstEnd, false), FirstEnd, 0, true)
  }

  /** mm_init's words hold one free block of a chunk, pending, between the prologue and the epilogue. */
  lemma InitHeap(M: seq<nat>, M5: seq<nat>)
    requires FirstEnd < |M| && M5 == InitWords(M)
    ensures HeapOk(M5, FirstBlock, FirstEnd, [FirstBlock], NoHeads(), NoLists(), {FirstBlock})
    ensures FreeBig(M5[FirstBlock]) && BlockSize(M5[FirstBlock]) == ChunkSize
  {
    var M0 := HF(M, 0, 0, true);
    var M1 := HFR(M0, FirstBlock, ChunkSize, false);
    HFRFacts(M0, FirstBlock, ChunkSize, false);
    var M2 := PrevBit(M1, FirstBlock, true);
    SetPrevWordFields(M1[FirstBlock], true);
    var M3 := PrevBit(M2, FirstEnd, false);
    SetPrevWordFields(M2[FirstEnd], false);
    TianHFFields(M3[FirstEnd], 0, true);
    assert M5[FirstBlock] == M2[FirstBlock] && M5[FirstEnd - 1] == M1[FirstEnd - 1];
    SameButPrevFields(M1[FirstBlock], M5[FirstBlock]);
    assert BlockOk(M5, [FirstBlock], FirstEnd, 0);
  }
}
