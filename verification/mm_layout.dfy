/**
 * The physical layout of the allocator's heap, read from its words.
 *
 * Addresses are word indices into the heap's memory. A block is named by the
 * index of its header word; its length in words is its size over 8. The
 * blocks tile the heap from heapBeg up to heapEnd, where the epilogue word
 * (size 0, allocated) sits. The checks are the per-block checks of the
 * heap checker, and the facts the allocator relies on when it reads a
 * neighbour: the prev-allocated bit, the footer of a free large block and the
 * flag bits of a small block's second word.
 */
module MallocLayout {
  import opened MallocWords

  /** The null pointer. */
  const NULL: int := -1

  /** The length in words of the block whose header is word p. */
  function Len(M: seq<nat>, p: nat): nat
    requires p < |M|
  {
    BlockSize(M[p]) / WordSize
  }

  /** Where block i ends: the header of the next block, or the epilogue after the last one. */
  function After(blocks: seq<nat>, end: nat, i: nat): nat
    requires i < |blocks|
  {
    if i + 1 < |blocks| then blocks[i + 1] else end
  }

  /** A free block of 32 bytes or more: the only kind that has a footer. */
  predicate FreeBig(w: nat)
  {
    !IsAlloc(w) && !IsSmall(w)
  }

  /** The footer of the block at q: its last word repeats the size and reads free and not small. */
  predicate FooterOk(M: seq<nat>, q: nat)
    requires q < |M|
  {
    var f := q + Len(M, q) - 1;
    q < f < |M| && SizeField(M[f]) == BlockSize(M[q]) && !IsAlloc(M[f]) && !IsSmall(M[f])
  }

  /**
   * The second word of a small block at q. Free, its flag bits read at least
   * 3; allocated, the word is positive and the flag bits of one less read at
   * least 3, so that freeing it (which subtracts one) gives a free reading.
   */
  predicate SmallWordOk(M: seq<nat>, q: nat)
    requires q < |M|
  {
    q + 1 < |M| &&
    if IsAlloc(M[q]) then M[q + 1] >= 1 && (M[q + 1] - 1) % 8 >= 3 else M[q + 1] % 8 >= 3
  }

  /**
   * Block i is well formed: a small block or one of 32 bytes or more, ending
   * where the next block starts, with the next header's prev-allocated bit
   * telling its state, a footer when it is free and large, and a well-formed
   * second word when it is small.
   */
  predicate BlockOk(M: seq<nat>, blocks: seq<nat>, end: nat, i: nat)
    requires i < |blocks|
  {
    var q := blocks[i];
    q < end < |M| &&
    (IsSmall(M[q]) || BlockSize(M[q]) >= 32) &&
    q + Len(M, q) == After(blocks, end, i) && After(blocks, end, i) <= end &&
    IsPrevAlloc(M[After(blocks, end, i)]) == IsAlloc(M[q]) &&
    (FreeBig(M[q]) ==> FooterOk(M, q)) &&
    (IsSmall(M[q]) ==> SmallWordOk(M, q))
  }

  /** The heap from beg to the epilogue at end is tiled by well-formed blocks; the first one's predecessor (the prologue) reads allocated. */
  predicate Layout(M: seq<nat>, beg: nat, end: nat, blocks: seq<nat>)
  {
    |blocks| > 0 && blocks[0] == beg && beg < end < |M| &&
    BlockSize(M[end]) == 0 && IsAlloc(M[end]) && IsPrevAlloc(M[beg]) &&
    (forall i | 0 <= i < |blocks| :: blocks[i] < end) &&
    forall i | 0 <= i < |blocks| :: BlockOk(M, blocks, end, i)
  }

  /** Every block is at least 16 bytes long, and a large one at least 32. */
  lemma LenBounds(M: seq<nat>, blocks: seq<nat>, end: nat, i: nat)
    requires i < |blocks| && BlockOk(M, blocks, end, i)
    ensures Len(M, blocks[i]) >= 2 && (!IsSmall(M[blocks[i]]) ==> Len(M, blocks[i]) >= 4)
    ensures Len(M, blocks[i]) % 2 == 0
  {
  }

  /** Blocks come in address order and do not overlap. */
  lemma {:induction false} Ascending(M: seq<nat>, beg: nat, end: nat, blocks: seq<nat>, i: nat, j: nat)
    requires Layout(M, beg, end, blocks)
    requires i < j < |blocks|
    ensures blocks[i] + Len(M, blocks[i]) <= blocks[j]
    decreases j - i
  {
    assert BlockOk(M, blocks, end, i);
    if i + 1 < j {
      Ascending(M, beg, end, blocks, i + 1, j);
      LenBounds(M, blocks, end, i + 1);
    }
  }

  /** Every block lies between beg and the epilogue. */
  lemma InBounds(M: seq<nat>, beg: nat, end: nat, blocks: seq<nat>, i: nat)
    requires Layout(M, beg, end, blocks)
    requires i < |blocks|
    ensures beg <= blocks[i] && blocks[i] + Len(M, blocks[i]) <= end
  {
    var n := |blocks| - 1;
    assert BlockOk(M, blocks, end, n);
    if i < n {
      Ascending(M, beg, end, blocks, i, n);
    }
    if 0 < i {
      Ascending(M, beg, end, blocks, 0, i);
    }
  }

  /** Two different blocks share no word. */
  lemma Apart(M: seq<nat>, beg: nat, end: nat, blocks: seq<nat>, i: nat, j: nat, w: nat)
    requires Layout(M, beg, end, blocks)
    requires i < |blocks| && j < |blocks| && i != j
    requires blocks[i] <= w < blocks[i] + Len(M, blocks[i])
    ensures !(blocks[j] <= w < blocks[j] + Len(M, blocks[j]))
  {
    if i < j {
      Ascending(M, beg, end, blocks, i, j);
    } else {
      Ascending(M, beg, end, blocks, j, i);
    }
  }

  /** The index of a block, given its header. */
  lemma IndexOf(M: seq<nat>, beg: nat, end: nat, blocks: seq<nat>, q: nat) returns (i: nat)
    requires Layout(M, beg, end, blocks)
    requires q in blocks
    ensures i < |blocks| && blocks[i] == q
    ensures forall k | 0 <= k < |blocks| && blocks[k] == q :: k == i
  {
    i :| 0 <= i < |blocks| && blocks[i] == q;
    forall k | 0 <= k < |blocks| && blocks[k] == q
      ensures k == i
    {
      if k != i {
        LenBounds(M, blocks, end, i);
        Apart(M, beg, end, blocks, i, k, q);
      }
    }
  }

  /* ---------------------------------------------------------------------- */
  /* Rewriting a run of blocks                                                */

  /** M2 agrees with M on every word outside lo..hi. */
  predicate Outside(M: seq<nat>, M2: seq<nat>, lo: nat, hi: nat)
  {
    |M2| == |M| && forall w | 0 <= w < |M| && (w < lo || hi < w) :: M2[w] == M[w]
  }

  /** The blocks before the rewritten run keep their facts. */
  lemma WindowBefore(M: seq<nat>, M2: seq<nat>, beg: nat, end: nat, end2: nat,
                     blocks: seq<nat>, blocks2: seq<nat>, i: nat, lo: nat, hi: nat, k: nat)
    requires Layout(M, beg, end, blocks)
    requires i <= |blocks| && lo == (if i < |blocks| then blocks[i] else end)
    requires lo <= hi && Outside(M, M2, lo, hi) && end <= end2 < |M2|
    requires i < |blocks2| && blocks2[..i] == blocks[..i] && blocks2[i] == lo
    requires k + 1 <= i
    requires k + 1 == i ==> IsPrevAlloc(M2[lo]) == IsAlloc(M[blocks[k]])
    ensures BlockOk(M2, blocks2, end2, k)
  {
    assert blocks2[k] == blocks[k];
    var q := blocks[k];
    assert BlockOk(M, blocks, end, k);
    LenBounds(M, blocks, end, k);
    if i < |blocks| {
      Ascending(M, beg, end, blocks, k, i);
    } else {
      InBounds(M, beg, end, blocks, k);
    }
    assert M2[q] == M[q];
    assert Len(M2, q) == Len(M, q);
    if k + 1 < i {
      assert blocks2[k + 1] == blocks[k + 1];
      assert After(blocks2, end2, k) == After(blocks, end, k);
      if i < |blocks| {
        Ascending(M, beg, end, blocks, k + 1, i);
        LenBounds(M, blocks, end, k + 1);
      }
      assert M2[blocks[k + 1]] == M[blocks[k + 1]];
    } else {
      assert After(blocks2, end2, k) == lo == After(blocks, end, k);
    }
    if FreeBig(M[q]) {
      assert M2[q + Len(M, q) - 1] == M[q + Len(M, q) - 1];
    }
    if IsSmall(M[q]) {
      assert M2[q + 1] == M[q + 1];
    }
  }

  /** The blocks after the rewritten run keep their facts. */
  lemma WindowAfter(M: seq<nat>, M2: seq<nat>, beg: nat, end: nat,
                    blocks: seq<nat>, blocks2: seq<nat>, j: nat, lo: nat, k: nat, m: nat)
    requires Layout(M, beg, end, blocks)
    requires j < |blocks| && lo <= blocks[j] && Outside(M, M2, lo, blocks[j])
    requires SameButPrev(M[blocks[j]], M2[blocks[j]])
    requires j <= m < |blocks| && k < |blocks2| && blocks2[k] == blocks[m]
    requires m + 1 < |blocks| <==> k + 1 < |blocks2|
    requires m + 1 < |blocks| ==> blocks2[k + 1] == blocks[m + 1]
    ensures BlockOk(M2, blocks2, end, k)
  {
    var q := blocks[m];
    var hi := blocks[j];
    assert BlockOk(M, blocks, end, m);
    LenBounds(M, blocks, end, m);
    if j < m {
      Ascending(M, beg, end, blocks, j, m);
      assert M2[q] == M[q];
    }
    SameButPrevFields(M[q], M2[q]);
    assert After(blocks2, end, k) == After(blocks, end, m);
    assert M2[After(blocks, end, m)] == M[After(blocks, end, m)];
    if FreeBig(M[q]) {
      assert M2[q + Len(M, q) - 1] == M[q + Len(M, q) - 1];
    }
    if IsSmall(M[q]) {
      assert M2[q + 1] == M[q + 1];
    }
  }

  /**
   * Rewriting the run of blocks i..j-1 (with the epilogue when j is the end)
   * into the new blocks W keeps the layout, provided the words outside the
   * run are untouched (the header just after it may change its prev-allocated
   * bit only), the new blocks are well formed and the first new header's
   * prev-allocated bit tells the state of the block before it.
   */
  lemma Window(M: seq<nat>, M2: seq<nat>, beg: nat, end: nat, end2: nat,
               blocks: seq<nat>, i: nat, j: nat, W: seq<nat>, blocks2: seq<nat>)
    requires Layout(M, beg, end, blocks)
    requires i <= j <= |blocks| && 0 < |W| && blocks2 == blocks[..i] + W + blocks[j..]
    requires W[0] == (if i < |blocks| then blocks[i] else end)
    requires Outside(M, M2, W[0], if j < |blocks| then blocks[j] else end2)
    requires j < |blocks| ==> end2 == end && SameButPrev(M[blocks[j]], M2[blocks[j]])
    requires j == |blocks| ==> end <= end2 < |M2| && BlockSize(M2[end2]) == 0 && IsAlloc(M2[end2])
    requires forall k | i <= k < i + |W| :: BlockOk(M2, blocks2, end2, k)
    requires i > 0 ==> IsPrevAlloc(M2[W[0]]) == IsAlloc(M[blocks[i - 1]])
    requires i == 0 ==> IsPrevAlloc(M2[W[0]])
    ensures Layout(M2, beg, end2, blocks2)
  {
    var lo := W[0];
    var hi := if j < |blocks| then blocks[j] else end2;
    if i < |blocks| {
      InBounds(M, beg, end, blocks, i);
    }
    if j < |blocks| {
      InBounds(M, beg, end, blocks, j);
      if i < j {
        Ascending(M, beg, end, blocks, i, j);
        LenBounds(M, blocks, end, i);
      }
    }
    assert lo <= hi;
    assert blocks2[..i] == blocks[..i] && blocks2[i] == lo;
    forall k | 0 <= k < i
      ensures BlockOk(M2, blocks2, end2, k)
    {
      WindowBefore(M, M2, beg, end, end2, blocks, blocks2, i, lo, hi, k);
    }
    forall k | i + |W| <= k < |blocks2|
      ensures BlockOk(M2, blocks2, end2, k)
    {
      var m := k - i - |W| + j;
      assert blocks2[k] == blocks[m];
      if m + 1 < |blocks| {
        assert blocks2[k + 1] == blocks[m + 1];
      }
      WindowAfter(M, M2, beg, end, blocks, blocks2, j, lo, k, m);
    }
    forall k | 0 <= k < |blocks2|
      ensures blocks2[k] < end2
    {
      assert BlockOk(M2, blocks2, end2, k);
    }
    if j < |blocks| {
      assert M2[end] == M[end];
    }
    if 0 < i {
      assert blocks2[0] == blocks[0];
      if i < |blocks| {
        Ascending(M, beg, end, blocks, 0, i);
        LenBounds(M, blocks, end, 0);
      }
      assert M2[beg] == M[beg];
    }
  }
}
