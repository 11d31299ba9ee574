/**
 * The header and footer writes of the allocator, as functions on the heap's
 * words, and what malloc, free, coalesce and heap growth make of a run of
 * blocks with them.
 *
 * Each lemma below takes one code path: the blocks it rewrites are pending
 * (taken off their lists) or allocated, and the words are rewritten by the
 * same writes, in the same order, as the code. The lemma shows the new run
 * is well formed and concludes the whole heap invariant, with the new free
 * blocks pending, every allocated block outside the run kept, and the state
 * of the blocks the path hands out or frees.
 */
module MallocSteps {
  import opened MallocWords
  import opened MallocLayout
  import opened MallocLists
  import opened MallocFreeList
  import opened MallocWindow

  /* ---------------------------------------------------------------------- */
  /* The writes                                                               */

  /** tianHF on word k. */
  function HF(M: seq<nat>, k: nat, sz: nat, isM: bool): seq<nat>
    requires k < |M|
  {
    M[k := TianHF(M[k], sz, isM)]
  }

  /** Where tianF writes the footer of a block of sz bytes at p. */
  function FooterAt(p: nat, sz: nat): nat
    requires 8 <= sz
  {
    p + sz / WordSize - 1
  }

  /** tianHFR: the header, then the footer. */
  function HFR(M: seq<nat>, p: nat, sz: nat, isM: bool): seq<nat>
    requires 8 <= sz && FooterAt(p, sz) < |M|
  {
    HF(HF(M, p, sz, isM), FooterAt(p, sz), sz, isM)
  }

  /** setPrevMalloced on the header at p. */
  function PrevBit(M: seq<nat>, p: nat, b: bool): seq<nat>
    requires p < |M|
  {
    M[p := SetPrevWord(M[p], b)]
  }

  /** setSmallBlock on the block at p: both words get bit 2. */
  function SmallBits(M: seq<nat>, p: nat): seq<nat>
    requires p + 1 < |M|
  {
    M[p := SetSmallWord(M[p])][p + 1 := SetSmallWord(M[p + 1])]
  }

  /** A 64-bit word less four, wrapping below zero. */
  function Minus4(w: nat): nat
  {
    if w >= 4 then w - 4 else w + SizeMod - 4
  }

  /**
   * setBigBlock on the block at p: nothing when its header does not read
   * small; otherwise the header loses bit 2, and so does the word its new
   * size field makes the block's last (four less, wrapping).
   */
  function BigBits(M: seq<nat>, p: nat): seq<nat>
    requires p < |M| && (IsSmall(M[p]) ==> 0 < p + SizeField(M[p] - 4) / WordSize <= |M|)
  {
    if !IsSmall(M[p]) then M
    else
      var M1 := M[p := M[p] - 4];
      var f := p + SizeField(M[p] - 4) / WordSize - 1;
      M1[f := Minus4(M1[f])]
  }

  /** setBigBlock on a small header clears its small bit and keeps its other flags and its size field. */
  lemma BigBitsHeader(M: seq<nat>, p: nat)
    requires p < |M| && IsSmall(M[p]) && 0 < p + SizeField(M[p] - 4) / WordSize <= |M|
    requires p + SizeField(M[p] - 4) / WordSize - 1 != p
    ensures var h := BigBits(M, p)[p];
            !IsSmall(h) && IsAlloc(h) == IsAlloc(M[p]) && IsPrevAlloc(h) == IsPrevAlloc(M[p]) &&
            SizeField(h) == SizeField(M[p])
  {
    assert BigBits(M, p)[p] == M[p] - 4;
    ClearSmallWord(M[p]);
  }

  /** Four less on a word that reads small: bit 2 cleared, the other flags and the size field kept. */
  lemma ClearSmallWord(w: nat)
    requires IsSmall(w)
    ensures w >= 4 && !IsSmall(w - 4) && IsAlloc(w - 4) == IsAlloc(w) && IsPrevAlloc(w - 4) == IsPrevAlloc(w)
    ensures SizeField(w - 4) == SizeField(w)
  {
    hide IsAlloc, IsPrevAlloc, IsSmall;
    var q, f := w / 8, w % 8;
    FlagsOfLow(w, q, f);
    FlagsOfLow(w - 4, q, f - 4);
    var a, b := q / 2, q % 2;
    assert w == 16 * a + (8 * b + f);
    FieldOfLow(w, a, 8 * b + f);
    FieldOfLow(w - 4, a, 8 * b + f - 4);
  }

  /** setMalloced on the small block at p: when its header reads free, both words go up by one. */
  function MallocedBits(M: seq<nat>, p: nat): seq<nat>
    requires p + 1 < |M|
  {
    if IsAlloc(M[p]) then M else M[p := M[p] + 1][p + 1 := M[p + 1] + 1]
  }

  /** A 64-bit word less one, wrapping at zero. */
  function Dec(w: nat): nat
  {
    if w == 0 then SizeMod - 1 else w - 1
  }

  /** setFree on the small block at p: when its header reads allocated, both words go down by one. */
  function FreedBits(M: seq<nat>, p: nat): seq<nat>
    requires p + 1 < |M|
  {
    if !IsAlloc(M[p]) then M else M[p := M[p] - 1][p + 1 := Dec(M[p + 1])]
  }

  /** What tianHFR leaves in a block of sz bytes at p: a header and footer of size sz, with the state isM. */
  lemma HFRFacts(M: seq<nat>, p: nat, sz: nat, isM: bool)
    requires 32 <= sz && sz % 16 == 0 && FooterAt(p, sz) < |M|
    ensures var M2 := HFR(M, p, sz, isM);
            |M2| == |M| && BlockSize(M2[p]) == sz && Len(M2, p) == sz / WordSize && IsAlloc(M2[p]) == isM &&
            !IsSmall(M2[p]) && IsPrevAlloc(M2[p]) == IsPrevAlloc(M[p]) &&
            (!isM ==> FooterOk(M2, p)) &&
            forall w | 0 <= w < |M| && w != p && w != FooterAt(p, sz) :: M2[w] == M[w]
  {
    var f := FooterAt(p, sz);
    var M1 := HF(M, p, sz, isM);
    TianHFFields(M[p], sz, isM);
    TianHFFields(M1[f], sz, isM);
  }

  /* ---------------------------------------------------------------------- */
  /* Handing out a block                                                      */

  /** Link rewrites keep every block's state and size. */
  lemma AllocKeptShape(M: seq<nat>, M2: seq<nat>, blocks: seq<nat>, end: nat)
    requires ShapeKept(M, M2, blocks, end)
    ensures AllocKept(M, blocks, M2, blocks, NULL)
  {
    forall q | q in blocks && q < |M| && IsAlloc(M[q])
      ensures q < |M2| && IsAlloc(M2[q]) && BlockSize(M2[q]) == BlockSize(M[q])
    {
      StateKept(M, M2, blocks, end, q);
      var m :| 0 <= m < |blocks| && blocks[m] == q;
      assert KeptBlock(M, M2, q);
    }
  }

  lemma AllocKeptTrans(M: seq<nat>, b: seq<nat>, M2: seq<nat>, b2: seq<nat>, M3: seq<nat>, b3: seq<nat>, x: int, y: int)
    requires AllocKept(M, b, M2, b2, x) && AllocKept(M2, b2, M3, b3, y)
    requires y != x ==> y == NULL || (y in b2 && y < |M2| && !IsAlloc(M2[y]))
    ensures AllocKept(M, b, M3, b3, x)
  {
  }

  /** What a rewrite of block i needs to know of the heap: the block is well formed and its prev-allocated bit tells the state of the block before it. */
  predicate LocalOk(M: seq<nat>, end: nat, blocks: seq<nat>, i: nat)
  {
    i < |blocks| && end < |M| && BlockSize(M[end]) == 0 && IsAlloc(M[end]) && BlockOk(M, blocks, end, i) &&
    (i > 0 ==> blocks[i - 1] < |M| && IsPrevAlloc(M[blocks[i]]) == IsAlloc(M[blocks[i - 1]])) &&
    (i == 0 ==> IsPrevAlloc(M[blocks[i]]))
  }

  /** The block after block i starts where block i ends. */
  lemma NextHeader(M: seq<nat>, beg: nat, end: nat, blocks: seq<nat>, i: nat)
    requires Layout(M, beg, end, blocks) && i < |blocks|
    ensures LocalOk(M, end, blocks, i)
    ensures After(blocks, end, i) == blocks[i] + Len(M, blocks[i]) <= end < |M|
    ensures Len(M, blocks[i]) >= 2 && (!IsSmall(M[blocks[i]]) ==> Len(M, blocks[i]) >= 4)
  {
    assert BlockOk(M, blocks, end, i);
    LenBounds(M, blocks, end, i);
    if i > 0 {
      assert BlockOk(M, blocks, end, i - 1);
    }
  }

  /* ---------------------------------------------------------------------- */
  /* What the writes leave                                                    */

  /** A well-formed block of r bytes at q, allocated or free as alloc says. */
  predicate Fresh(M: seq<nat>, q: nat, r: nat, alloc: bool)
  {
    q + 1 < |M| && (r == SmallSize || 32 <= r) && IsAlloc(M[q]) == alloc && BlockSize(M[q]) == r &&
    Len(M, q) == r / WordSize && IsSmall(M[q]) == (r == SmallSize) &&
    (r == SmallSize ==> SmallWordOk(M, q)) && (!alloc && r != SmallSize ==> FooterOk(M, q))
  }

  /**
   * M2 holds a block of sz bytes at p, in state alloc, where M had whatever it
   * had up to the header after it; that header changed its prev-allocated
   * bit only, and the bit now tells the new state.
   */
  predicate Rewritten(M: seq<nat>, M2: seq<nat>, p: nat, sz: nat, alloc: bool)
  {
    p + sz / WordSize < |M| && Outside(M, M2, p, p + sz / WordSize) && Fresh(M2, p, sz, alloc) &&
    IsPrevAlloc(M2[p]) == IsPrevAlloc(M[p]) &&
    IsPrevAlloc(M2[p + sz / WordSize]) == alloc && SameButPrev(M[p + sz / WordSize], M2[p + sz / WordSize])
  }

  /** M2 holds an allocated block of sz bytes at p and a free block of the remaining F - sz bytes at q after it. */
  predicate SplitDone(M: seq<nat>, M2: seq<nat>, p: nat, q: nat, sz: nat, F: nat)
  {
    q == p + sz / WordSize && sz < F && p + F / WordSize < |M| && Outside(M, M2, p, p + F / WordSize) &&
    M2[p + F / WordSize] == M[p + F / WordSize] && !IsAlloc(M[p]) &&
    Fresh(M2, p, sz, true) && IsPrevAlloc(M2[p]) == IsPrevAlloc(M[p]) &&
    Fresh(M2, q, F - sz, false) && IsPrevAlloc(M2[q])
  }

  /** A small block's second word with the small bit set reads at least 4, and one less reads at least 3. */
  lemma SmallWordLow(w: nat)
    requires IsSmall(w)
    ensures w % 8 >= 4 && w >= 4 && (w - 1) % 8 >= 3
  {
    FlagsOfLow(w, w / 8, w % 8);
  }

  /** The small-list fit: setMalloced on a free small block, then setPrevMalloced on the header after it. */
  lemma SmallFitWords(M: seq<nat>, M2: seq<nat>, p: nat)
    requires p + 2 < |M| && IsSmall(M[p]) && !IsAlloc(M[p]) && SmallWordOk(M, p)
    requires M2 == PrevBit(MallocedBits(M, p), p + 2, true)
    ensures Rewritten(M, M2, p, SmallSize, true)
  {
    var M1 := MallocedBits(M, p);
    IncFields(M[p]);
    SetPrevWordFields(M1[p + 2], true);
    assert M2[p] == M[p] + 1 && M2[p + 1] == M[p + 1] + 1;
  }

  /**
   * The writes of malloc that hand out the first sz bytes of the free large
   * block at p: for 16 bytes setSmallBlock and setMalloced, otherwise tianHFR
   * marking sz bytes allocated; then setPrevMalloced on the header after them.
   */
  function TakeWords(M: seq<nat>, p: nat, sz: nat): seq<nat>
    requires 16 <= sz && p + sz / WordSize < |M|
  {
    var M1 := if sz == SmallSize then MallocedBits(SmallBits(M, p), p) else HFR(M, p, sz, true);
    PrevBit(M1, p + sz / WordSize, true)
  }

  /**
   * The writes of malloc that make the r bytes at q a free block: for 16
   * bytes setSmallBlock and setFree, otherwise tianHFR marking them free.
   * The latter is also what coalesce writes over a merged run.
   */
  function RestWords(M: seq<nat>, q: nat, r: nat): seq<nat>
    requires 16 <= r && q + r / WordSize <= |M| && q + 1 < |M|
  {
    if r == SmallSize then FreedBits(SmallBits(M, q), q) else HFR(M, q, r, false)
  }

  /** TakeWords leaves an allocated block of sz bytes at p, and the header after it reads its predecessor allocated. */
  lemma TakeWordsFacts(M: seq<nat>, M1: seq<nat>, p: nat, sz: nat)
    requires sz == SmallSize || (32 <= sz && sz % 16 == 0)
    requires p + sz / WordSize < |M| && !IsAlloc(M[p]) && M1 == TakeWords(M, p, sz)
    ensures Rewritten(M, M1, p, sz, true)
  {
    var q := p + sz / WordSize;
    if sz == SmallSize {
      var S := SmallBits(M, p);
      SetSmallWordFields(M[p]);
      SetSmallWordFields(M[p + 1]);
      var A := MallocedBits(S, p);
      IncFields(S[p]);
      SmallWordLow(S[p + 1]);
      assert A[p + 1] - 1 == S[p + 1];
      SetPrevWordFields(A[q], true);
      assert M1[p] == A[p] && M1[p + 1] == A[p + 1];
    } else {
      var a := sz / 16;
      assert sz / WordSize == 2 * a;
      var H := HFR(M, p, sz, true);
      HFRFacts(M, p, sz, true);
      SetPrevWordFields(H[q], true);
      assert M1[p] == H[p];
    }
    SetPrevWordFields(M1[q], true);
  }

  /** RestWords leaves a free block of r bytes at q, small and well formed or large with its footer. */
  lemma RestWordsFacts(M: seq<nat>, M2: seq<nat>, q: nat, r: nat)
    requires r == SmallSize || (32 <= r && r % 16 == 0)
    requires q + r / WordSize <= |M| && q + 1 < |M| && M2 == RestWords(M, q, r)
    ensures Outside(M, M2, q, q + r / WordSize - 1) && Fresh(M2, q, r, false)
    ensures IsPrevAlloc(M2[q]) == IsPrevAlloc(M[q])
  {
    if r == SmallSize {
      var S := SmallBits(M, q);
      SetSmallWordFields(M[q]);
      SetSmallWordFields(M[q + 1]);
      SmallWordLow(S[q + 1]);
      if IsAlloc(S[q]) {
        DecFields(S[q]);
      }
    } else {
      var a := r / 16;
      assert r / WordSize == 2 * a;
      HFRFacts(M, q, r, false);
    }
  }

  /** Handing out sz bytes of a free large block of F bytes and freeing the rest leaves the two blocks. */
  lemma SplitWords(M: seq<nat>, M2: seq<nat>, p: nat, q: nat, sz: nat, F: nat)
    requires (sz == SmallSize || (32 <= sz && sz % 16 == 0)) && F % 16 == 0 && sz + 16 <= F
    requires q == p + sz / WordSize && p + F / WordSize < |M| && !IsAlloc(M[p])
    requires M2 == RestWords(TakeWords(M, p, sz), q, F - sz)
    ensures SplitDone(M, M2, p, q, sz, F)
  {
    SizeDiff(F, sz);
    var M1 := TakeWords(M, p, sz);
    TakeWordsFacts(M, M1, p, sz);
    RestWordsFacts(M1, M2, q, F - sz);
    assert M2[p] == M1[p];
    assert sz == SmallSize ==> M2[p + 1] == M1[p + 1];
    forall w | 0 <= w < |M| && (w < p || p + F / WordSize <= w)
      ensures M2[w] == M[w]
    {
      assert M2[w] == M1[w];
    }
  }

  /** free on a large block: tianHFR marks it free, then setPrevMalloced clears the bit of the header after it. */
  lemma FreeBigWords(M: seq<nat>, M2: seq<nat>, p: nat)
    requires p < |M| && IsAlloc(M[p]) && !IsSmall(M[p]) && 32 <= BlockSize(M[p]) && p + Len(M, p) < |M|
    requires M2 == PrevBit(HFR(M, p, BlockSize(M[p]), false), p + Len(M, p), false)
    ensures Rewritten(M, M2, p, BlockSize(M[p]), false)
  {
    var F := BlockSize(M[p]);
    var n := p + Len(M, p);
    var a := F / 16;
    assert F / WordSize == 2 * a;
    var H := HFR(M, p, F, false);
    HFRFacts(M, p, F, false);
    SetPrevWordFields(H[n], true);
    SetPrevWordFields(H[n], false);
    assert M2[p] == H[p] && M2[n - 1] == H[n - 1];
  }

  /** free on a small block: setFree, then setPrevMalloced clears the bit of the header after it. */
  lemma FreeSmallWords(M: seq<nat>, M2: seq<nat>, p: nat)
    requires p + 2 < |M| && IsAlloc(M[p]) && IsSmall(M[p]) && SmallWordOk(M, p)
    requires M2 == PrevBit(FreedBits(M, p), p + 2, false)
    ensures Rewritten(M, M2, p, SmallSize, false)
  {
    var M1 := FreedBits(M, p);
    DecFields(M[p]);
    SetPrevWordFields(M1[p + 2], false);
    assert M2[p] == M[p] - 1 && M2[p + 1] == M[p + 1] - 1;
  }

  /** coalesce on an isolated small block: setSmallBlock keeps it a well-formed free small block. */
  lemma MarkWords(M: seq<nat>, M2: seq<nat>, p: nat)
    requires p + 2 < |M| && IsSmall(M[p]) && !IsAlloc(M[p]) && SmallWordOk(M, p) && !IsPrevAlloc(M[p + 2])
    requires M2 == SmallBits(M, p)
    ensures Rewritten(M, M2, p, SmallSize, false)
  {
    SetSmallWordFields(M[p]);
    SetSmallWordFields(M[p + 1]);
    FlagsOfLow(M[p + 1], M[p + 1] / 8, M[p + 1] % 8);
    assert M2[p] == M[p];
  }

  /* ---------------------------------------------------------------------- */
  /* Runs: the rewritten blocks in their place                                */

  /** Rewriting block i in place, at its size, leaves it well formed in its run. */
  lemma RewriteRun(M: seq<nat>, M2: seq<nat>, beg: nat, end: nat, blocks: seq<nat>, i: nat, alloc: bool)
    requires LocalOk(M, end, blocks, i)
    requires Rewritten(M, M2, blocks[i], BlockSize(M[blocks[i]]), alloc)
    ensures RunOk(M, M2, beg, end, end, blocks, i, i + 1, [blocks[i]], blocks)
  {
    var p := blocks[i];
    var n := After(blocks, end, i);
    assert blocks[..i] + [p] + blocks[i + 1..] == blocks;
    SameButPrevFields(M[n], M2[n]);
    assert BlockOk(M2, blocks, end, i);
  }

  /** Splitting block i leaves the allocated part and the free rest well formed in its place. */
  lemma SplitRun(M: seq<nat>, M2: seq<nat>, beg: nat, end: nat, blocks: seq<nat>, i: nat, q: nat, sz: nat)
    requires LocalOk(M, end, blocks, i)
    requires SplitDone(M, M2, blocks[i], q, sz, BlockSize(M[blocks[i]]))
    ensures RunOk(M, M2, beg, end, end, blocks, i, i + 1, [blocks[i], q], blocks[..i] + [blocks[i], q] + blocks[i + 1..])
  {
    var p := blocks[i];
    var F := BlockSize(M[p]);
    var n := After(blocks, end, i);
    var blocks2 := blocks[..i] + [p, q] + blocks[i + 1..];
    assert blocks2[i] == p && blocks2[i + 1] == q;
    assert After(blocks2, end, i) == q;
    assert After(blocks2, end, i + 1) == n;
    assert p + Len(M2, p) == q;
    assert q + Len(M2, q) == n by {
      SizeDiff(F, sz);
    }
    assert M2[n] == M[n];
    assert Fresh(M2, p, sz, true) && Fresh(M2, q, F - sz, false);
    assert BlockOk(M2, blocks2, end, i);
    assert BlockOk(M2, blocks2, end, i + 1);
    TwoBlocksOk(M2, blocks2, end, i);
    assert blocks[..i] + [p, q] + blocks[i + 1..] == blocks[..i] + [p, q] + blocks[i + 1..];
  }

  /** Blocks i and i + 1 well formed: the whole two-block window is. */
  lemma TwoBlocksOk(M: seq<nat>, blocks: seq<nat>, end: nat, i: nat)
    requires i + 1 < |blocks| && BlockOk(M, blocks, end, i) && BlockOk(M, blocks, end, i + 1)
    ensures forall k | i <= k < i + 2 :: BlockOk(M, blocks, end, k)
  {
    forall k | i <= k < i + 2
      ensures BlockOk(M, blocks, end, k)
    {
      if k == i + 1 { }
    }
  }

  /* ---------------------------------------------------------------------- */
  /* The heap invariant across a rewrite                                      */

  /**
   * Rewriting block i in place at its size (a fit handed out whole, a block
   * freed, a free small block re-marked) keeps the heap invariant. A block
   * that is free before must be the pending one; a block free after is
   * pending; every other allocated block stays allocated at its size.
   */
  lemma RewriteBlock(M: seq<nat>, M2: seq<nat>, beg: nat, end: nat, blocks: seq<nat>, heads: seq<int>,
                     lists: seq<seq<nat>>, i: nat, P: set<nat>, alloc: bool)
    requires i < |blocks| && HeapOk(M, beg, end, blocks, heads, lists, P)
    requires P <= {blocks[i]} && (blocks[i] in P || IsAlloc(M[blocks[i]]))
    requires Rewritten(M, M2, blocks[i], BlockSize(M[blocks[i]]), alloc)
    ensures HeapOk(M2, beg, end, blocks, heads, lists, if alloc then {} else {blocks[i]})
    ensures AllocKept(M, blocks, M2, blocks, blocks[i])
    ensures IsAlloc(M2[blocks[i]]) == alloc && BlockSize(M2[blocks[i]]) == BlockSize(M[blocks[i]])
  {
    hide RunOk, LocalOk, Rings, Members, Outside;
    var p := blocks[i];
    NextHeader(M, beg, end, blocks, i);
    RewriteRun(M, M2, beg, end, blocks, i, alloc);
    var P2: set<nat> := if alloc then {} else {p};
    WindowHeap(M, M2, beg, end, end, blocks, i, i + 1, [p], blocks, heads, lists, P, P2, p);
  }

  /**
   * Handing out the first sz bytes of the free block i, off its list, and
   * leaving the rest as a free block q after it keeps the heap invariant with
   * q pending; every allocated block stays allocated at its size.
   */
  lemma SplitBlock(M: seq<nat>, M2: seq<nat>, beg: nat, end: nat, blocks: seq<nat>, heads: seq<int>,
                   lists: seq<seq<nat>>, i: nat, q: nat, sz: nat)
    requires i < |blocks| && HeapOk(M, beg, end, blocks, heads, lists, {blocks[i]})
    requires SplitDone(M, M2, blocks[i], q, sz, BlockSize(M[blocks[i]]))
    ensures HeapOk(M2, beg, end, blocks[..i] + [blocks[i], q] + blocks[i + 1..], heads, lists, {q})
    ensures AllocKept(M, blocks, M2, blocks[..i] + [blocks[i], q] + blocks[i + 1..], NULL)
    ensures IsAlloc(M2[blocks[i]]) && BlockSize(M2[blocks[i]]) == sz
    ensures !IsAlloc(M2[q]) && BlockSize(M2[q]) == BlockSize(M[blocks[i]]) - sz
  {
    var p := blocks[i];
    var blocks2 := blocks[..i] + [p, q] + blocks[i + 1..];
    NextHeader(M, beg, end, blocks, i);
    SplitRun(M, M2, beg, end, blocks, i, q, sz);
    assert blocks[i..i + 1] == [p];
    PairPending(M2, p, q);
    WindowHeap(M, M2, beg, end, end, blocks, i, i + 1, [p, q], blocks2, heads, lists, {p}, {q}, NULL);
  }

  /** Of an allocated block p and a free block q, only q is pending. */
  lemma PairPending(M2: seq<nat>, p: nat, q: nat)
    requires p < |M2| && q < |M2| && IsAlloc(M2[p]) && !IsAlloc(M2[q])
    ensures forall a | 0 <= a < |[p, q]| :: [p, q][a] in {q} <==> [p, q][a] < |M2| && !IsAlloc(M2[[p, q][a]])
    ensures forall r | r in {q} :: r in [p, q]
  {
  }
}
