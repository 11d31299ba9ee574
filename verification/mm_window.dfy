/**
 * Rewriting a run of blocks while keeping the whole heap invariant.
 *
 * malloc, free, coalesce and heap growth all work the same way: they take
 * the blocks they are about to rewrite off the free lists (so those blocks
 * are pending or allocated), rewrite the headers and footers of that run of
 * blocks, and put the free blocks that result back on the lists. This module
 * covers the middle step: every block outside the run keeps its state, size
 * and links, so the lists stay rings of the same blocks, and the new free
 * blocks of the run are the pending ones.
 */
module MallocWindow {
  import opened MallocWords
  import opened MallocLayout
  import opened MallocLists
  import opened MallocFreeList

  /** Two positions holding the same block are the same position. */
  lemma Unique(M: seq<nat>, beg: nat, end: nat, blocks: seq<nat>, a: nat, b: nat)
    requires Layout(M, beg, end, blocks) && a < |blocks| && b < |blocks| && blocks[a] == blocks[b]
    ensures a == b
  {
    if a < b {
      Ascending(M, beg, end, blocks, a, b);
      LenBounds(M, blocks, end, a);
    } else if b < a {
      Ascending(M, beg, end, blocks, b, a);
      LenBounds(M, blocks, end, b);
    }
  }

  /**
   * Block m lies outside the rewritten run i..j-1: it is still a block, at
   * position k of the new blocks, with its state and size, and with its links
   * when it is free.
   */
  lemma OutsideBlock(M: seq<nat>, M2: seq<nat>, beg: nat, end: nat, end2: nat,
                     blocks: seq<nat>, i: nat, j: nat, W: seq<nat>, blocks2: seq<nat>, m: nat)
    returns (k: nat)
    requires Layout(M, beg, end, blocks)
    requires i <= j <= |blocks| && 0 < |W| && blocks2 == blocks[..i] + W + blocks[j..]
    requires W[0] == (if i < |blocks| then blocks[i] else end)
    requires Outside(M, M2, W[0], if j < |blocks| then blocks[j] else end2)
    requires j < |blocks| ==> SameButPrev(M[blocks[j]], M2[blocks[j]])
    requires m < |blocks| && (m < i || j <= m)
    ensures k < |blocks2| && blocks2[k] == blocks[m] && (k < i || i + |W| <= k)
    ensures SameButPrev(M[blocks[m]], M2[blocks[m]])
    ensures !IsAlloc(M[blocks[m]]) ==> Kept(M, M2, blocks[m])
  {
    var q := blocks[m];
    assert BlockOk(M, blocks, end, m);
    LenBounds(M, blocks, end, m);
    if m < i {
      k := m;
      assert blocks2[k] == blocks[m];
      if i < |blocks| {
        Ascending(M, beg, end, blocks, m, i);
      } else {
        InBounds(M, beg, end, blocks, m);
      }
      assert M2[q] == M[q] && M2[q + 1] == M[q + 1];
      if !IsSmall(M[q]) {
        assert M2[q + 2] == M[q + 2];
      }
    } else {
      k := m - j + i + |W|;
      assert blocks2[k] == blocks[m];
      if j < m {
        Ascending(M, beg, end, blocks, j, m);
        assert M2[q] == M[q];
      }
      assert M2[q + 1] == M[q + 1];
      if !IsSmall(M[q]) {
        assert M2[q + 2] == M[q + 2];
      }
      SameButPrevFields(M[q], M2[q]);
    }
  }

  /** The list members are blocks outside the run, and keep their links. */
  lemma WindowLists(M: seq<nat>, M2: seq<nat>, beg: nat, end: nat, end2: nat,
                    blocks: seq<nat>, i: nat, j: nat, W: seq<nat>, blocks2: seq<nat>,
                    lists: seq<seq<nat>>, P: set<nat>, jl: nat, n: nat)
    returns (k: nat)
    requires Layout(M, beg, end, blocks) && Members(M, blocks, lists, P)
    requires i <= j <= |blocks| && 0 < |W| && blocks2 == blocks[..i] + W + blocks[j..]
    requires W[0] == (if i < |blocks| then blocks[i] else end)
    requires Outside(M, M2, W[0], if j < |blocks| then blocks[j] else end2)
    requires j < |blocks| ==> SameButPrev(M[blocks[j]], M2[blocks[j]])
    requires forall m | i <= m < j :: blocks[m] in P || IsAlloc(M[blocks[m]])
    requires jl < ListCount && n < |lists[jl]|
    ensures k < |blocks2| && blocks2[k] == lists[jl][n] && (k < i || i + |W| <= k)
    ensures Kept(M, M2, lists[jl][n]) && SameButPrev(M[lists[jl][n]], M2[lists[jl][n]])
  {
    var q := lists[jl][n];
    assert ListedOk(M, blocks, P, jl, q);
    var m := IndexOf(M, beg, end, blocks, q);
    assert !(i <= m < j);
    k := OutsideBlock(M, M2, beg, end, end2, blocks, i, j, W, blocks2, m);
  }

  /** The rings survive the rewrite. */
  lemma WindowRings(M: seq<nat>, M2: seq<nat>, beg: nat, end: nat, end2: nat,
                    blocks: seq<nat>, i: nat, j: nat, W: seq<nat>, blocks2: seq<nat>,
                    heads: seq<int>, lists: seq<seq<nat>>, P: set<nat>)
    requires HeapOk(M, beg, end, blocks, heads, lists, P)
    requires i <= j <= |blocks| && 0 < |W| && blocks2 == blocks[..i] + W + blocks[j..]
    requires W[0] == (if i < |blocks| then blocks[i] else end)
    requires Outside(M, M2, W[0], if j < |blocks| then blocks[j] else end2)
    requires j < |blocks| ==> SameButPrev(M[blocks[j]], M2[blocks[j]])
    requires forall m | i <= m < j :: blocks[m] in P || IsAlloc(M[blocks[m]])
    ensures Rings(M2, heads, lists)
  {
    forall jl | 0 <= jl < ListCount
      ensures Ring(M2, lists[jl], heads[jl])
    {
      forall n | 0 <= n < |lists[jl]|
        ensures Kept(M, M2, lists[jl][n])
      {
        var _ := WindowLists(M, M2, beg, end, end2, blocks, i, j, W, blocks2, lists, P, jl, n);
      }
      RingKept(M, M2, lists[jl], heads[jl]);
    }
  }

  /** The pending blocks after the rewrite are free blocks of the run. */
  lemma WindowPending(M2: seq<nat>, beg: nat, end2: nat, blocks2: seq<nat>, i: nat, W: seq<nat>, P2: set<nat>)
    requires Layout(M2, beg, end2, blocks2)
    requires i + |W| <= |blocks2| && blocks2[i..i + |W|] == W
    requires forall a | 0 <= a < |W| :: W[a] in P2 <==> W[a] < |M2| && !IsAlloc(M2[W[a]])
    requires forall q | q in P2 :: q in W
    ensures forall q | q in P2 :: q in blocks2 && q < |M2| && !IsAlloc(M2[q])
  {
    forall q | q in P2
      ensures q in blocks2 && q < |M2| && !IsAlloc(M2[q])
    {
      var a :| 0 <= a < |W| && W[a] == q;
      assert blocks2[i + a] == q;
    }
  }

  /** The list members after the rewrite: still free blocks of their lists, and not pending. */
  lemma WindowListed(M: seq<nat>, M2: seq<nat>, beg: nat, end: nat, end2: nat,
                     blocks: seq<nat>, i: nat, j: nat, W: seq<nat>, blocks2: seq<nat>,
                     lists: seq<seq<nat>>, P: set<nat>, P2: set<nat>, jl: nat, n: nat)
    requires Layout(M, beg, end, blocks) && Members(M, blocks, lists, P) && Layout(M2, beg, end2, blocks2)
    requires i <= j <= |blocks| && 0 < |W| && blocks2 == blocks[..i] + W + blocks[j..]
    requires W[0] == (if i < |blocks| then blocks[i] else end)
    requires Outside(M, M2, W[0], if j < |blocks| then blocks[j] else end2)
    requires j < |blocks| ==> SameButPrev(M[blocks[j]], M2[blocks[j]])
    requires forall m | i <= m < j :: blocks[m] in P || IsAlloc(M[blocks[m]])
    requires forall q | q in P2 :: q in W
    requires jl < ListCount && n < |lists[jl]|
    ensures ListedOk(M2, blocks2, P2, jl, lists[jl][n])
  {
    var q := lists[jl][n];
    assert ListedOk(M, blocks, P, jl, q);
    var k := WindowLists(M, M2, beg, end, end2, blocks, i, j, W, blocks2, lists, P, jl, n);
    SameButPrevFields(M[q], M2[q]);
    forall a | 0 <= a < |W|
      ensures W[a] != q
    {
      assert blocks2[i + a] == W[a];
      if W[a] == q {
        Unique(M2, beg, end2, blocks2, i + a, k);
      }
    }
  }

  /** A block outside the rewritten run keeps its state and its list. */
  lemma WindowKeptAccounted(M: seq<nat>, M2: seq<nat>, beg: nat, end: nat, end2: nat,
                            blocks: seq<nat>, i: nat, j: nat, W: seq<nat>, blocks2: seq<nat>,
                            lists: seq<seq<nat>>, P: set<nat>, m: nat)
    requires Layout(M, beg, end, blocks) && Members(M, blocks, lists, P) && Layout(M2, beg, end2, blocks2)
    requires i <= j <= |blocks| && 0 < |W| && blocks2 == blocks[..i] + W + blocks[j..]
    requires W[0] == (if i < |blocks| then blocks[i] else end)
    requires Outside(M, M2, W[0], if j < |blocks| then blocks[j] else end2)
    requires j < |blocks| ==> SameButPrev(M[blocks[j]], M2[blocks[j]])
    requires forall q | q in P :: q in blocks[i..j]
    requires m < i || j <= m < |blocks|
    ensures blocks[m] < |M2| &&
            (IsAlloc(M2[blocks[m]]) || blocks[m] in lists[ListOf(M2, blocks[m])])
  {
    var q := blocks[m];
    var k2 := OutsideBlock(M, M2, beg, end, end2, blocks, i, j, W, blocks2, m);
    SameButPrevFields(M[q], M2[q]);
    forall a | 0 <= a < j - i
      ensures blocks[i..j][a] != q
    {
      assert blocks[i..j][a] == blocks[i + a];
      if blocks[i + a] == q {
        Unique(M, beg, end, blocks, i + a, m);
      }
    }
    assert q !in blocks[i..j];
    assert q !in P;
  }

  /** Each block after the rewrite is allocated, pending or on its list. */
  lemma WindowAccounted(M: seq<nat>, M2: seq<nat>, beg: nat, end: nat, end2: nat,
                        blocks: seq<nat>, i: nat, j: nat, W: seq<nat>, blocks2: seq<nat>,
                        lists: seq<seq<nat>>, P: set<nat>, P2: set<nat>, k: nat)
    requires Layout(M, beg, end, blocks) && Members(M, blocks, lists, P) && Layout(M2, beg, end2, blocks2)
    requires i <= j <= |blocks| && 0 < |W| && blocks2 == blocks[..i] + W + blocks[j..]
    requires W[0] == (if i < |blocks| then blocks[i] else end)
    requires Outside(M, M2, W[0], if j < |blocks| then blocks[j] else end2)
    requires j < |blocks| ==> SameButPrev(M[blocks[j]], M2[blocks[j]])
    requires forall q | q in P :: q in blocks[i..j]
    requires forall a | 0 <= a < |W| :: W[a] in P2 <==> W[a] < |M2| && !IsAlloc(M2[W[a]])
    requires k < |blocks2|
    ensures blocks2[k] < |M2| &&
            (IsAlloc(M2[blocks2[k]]) || blocks2[k] in P2 || blocks2[k] in lists[ListOf(M2, blocks2[k])])
  {
    if k < i || i + |W| <= k {
      var m := if k < i then k else k - i - |W| + j;
      assert blocks2[k] == blocks[m];
      WindowKeptAccounted(M, M2, beg, end, end2, blocks, i, j, W, blocks2, lists, P, m);
    } else {
      assert BlockOk(M2, blocks2, end2, k);
      assert blocks2[k] == W[k - i];
    }
  }

  /** List membership after the rewrite: the new free blocks of the run are the pending ones. */
  lemma WindowMembers(M: seq<nat>, M2: seq<nat>, beg: nat, end: nat, end2: nat,
                      blocks: seq<nat>, i: nat, j: nat, W: seq<nat>, blocks2: seq<nat>,
                      lists: seq<seq<nat>>, P: set<nat>, P2: set<nat>)
    requires Layout(M, beg, end, blocks) && Members(M, blocks, lists, P) && Layout(M2, beg, end2, blocks2)
    requires i <= j <= |blocks| && 0 < |W| && blocks2 == blocks[..i] + W + blocks[j..]
    requires W[0] == (if i < |blocks| then blocks[i] else end)
    requires Outside(M, M2, W[0], if j < |blocks| then blocks[j] else end2)
    requires j < |blocks| ==> SameButPrev(M[blocks[j]], M2[blocks[j]])
    requires forall m | i <= m < j :: blocks[m] in P || IsAlloc(M[blocks[m]])
    requires forall q | q in P :: q in blocks[i..j]
    requires forall a | 0 <= a < |W| :: W[a] in P2 <==> W[a] < |M2| && !IsAlloc(M2[W[a]])
    requires forall q | q in P2 :: q in W
    ensures Members(M2, blocks2, lists, P2)
  {
    assert blocks2[i..i + |W|] == W;
    WindowPending(M2, beg, end2, blocks2, i, W, P2);
    forall jl, n | 0 <= jl < ListCount && 0 <= n < |lists[jl]|
      ensures ListedOk(M2, blocks2, P2, jl, lists[jl][n])
    {
      WindowListed(M, M2, beg, end, end2, blocks, i, j, W, blocks2, lists, P, P2, jl, n);
    }
    forall k | 0 <= k < |blocks2|
      ensures blocks2[k] < |M2| &&
              (IsAlloc(M2[blocks2[k]]) || blocks2[k] in P2 || blocks2[k] in lists[ListOf(M2, blocks2[k])])
    {
      WindowAccounted(M, M2, beg, end, end2, blocks, i, j, W, blocks2, lists, P, P2, k);
    }
  }

  /**
   * M2 rewrites the run of blocks i..j-1 of M (the epilogue when j is the
   * end) into the well-formed blocks W: the words outside the run are kept,
   * the header after it may change its prev-allocated bit only, and the first
   * new header's prev-allocated bit tells the state of the block before it.
   */
  predicate RunOk(M: seq<nat>, M2: seq<nat>, beg: nat, end: nat, end2: nat,
                  blocks: seq<nat>, i: nat, j: nat, W: seq<nat>, blocks2: seq<nat>)
  {
    end < |M| && i <= j <= |blocks| && 0 < |W| && blocks2 == blocks[..i] + W + blocks[j..] &&
    W[0] == (if i < |blocks| then blocks[i] else end) &&
    (forall k | i <= k < j :: blocks[k] < |M|) &&
    Outside(M, M2, W[0], if j < |blocks| then blocks[j] else end2) &&
    (j < |blocks| ==> end2 == end && blocks[j] < |M| && SameButPrev(M[blocks[j]], M2[blocks[j]])) &&
    (j == |blocks| ==> end <= end2 < |M2| && BlockSize(M2[end2]) == 0 && IsAlloc(M2[end2])) &&
    (forall k | i <= k < i + |W| :: BlockOk(M2, blocks2, end2, k)) &&
    (i > 0 ==> blocks[i - 1] < |M| && IsPrevAlloc(M2[W[0]]) == IsAlloc(M[blocks[i - 1]])) &&
    (i == 0 ==> IsPrevAlloc(M2[W[0]]))
  }

  /** Allocated blocks stay allocated, where they were, with their size; the block x may be the exception. */
  predicate AllocKept(M: seq<nat>, blocks: seq<nat>, M2: seq<nat>, blocks2: seq<nat>, x: int)
  {
    forall q | q in blocks && q < |M| && IsAlloc(M[q]) && q != x ::
      q in blocks2 && q < |M2| && IsAlloc(M2[q]) && BlockSize(M2[q]) == BlockSize(M[q])
  }

  /** A rewrite of the run i..j-1 whose blocks are all free but x keeps the allocated blocks outside it. */
  lemma RunKept(M: seq<nat>, M2: seq<nat>, beg: nat, end: nat, end2: nat,
                blocks: seq<nat>, i: nat, j: nat, W: seq<nat>, blocks2: seq<nat>, x: int)
    requires Layout(M, beg, end, blocks) && RunOk(M, M2, beg, end, end2, blocks, i, j, W, blocks2)
    requires forall m | i <= m < j :: blocks[m] == x || !IsAlloc(M[blocks[m]])
    ensures AllocKept(M, blocks, M2, blocks2, x)
  {
    forall q | q in blocks && q < |M| && IsAlloc(M[q]) && q != x
      ensures q in blocks2 && q < |M2| && IsAlloc(M2[q]) && BlockSize(M2[q]) == BlockSize(M[q])
    {
      var m :| 0 <= m < |blocks| && blocks[m] == q;
      var k := OutsideBlock(M, M2, beg, end, end2, blocks, i, j, W, blocks2, m);
      SameButPrevFields(M[q], M2[q]);
    }
  }

  /**
   * Rewriting the run i..j-1 into W keeps the heap invariant, with the new
   * free blocks of the run pending; when every block of the run but x was
   * free, every other allocated block stays allocated at its size.
   */
  lemma WindowHeap(M: seq<nat>, M2: seq<nat>, beg: nat, end: nat, end2: nat,
                   blocks: seq<nat>, i: nat, j: nat, W: seq<nat>, blocks2: seq<nat>,
                   heads: seq<int>, lists: seq<seq<nat>>, P: set<nat>, P2: set<nat>, x: int)
    requires HeapOk(M, beg, end, blocks, heads, lists, P)
    requires RunOk(M, M2, beg, end, end2, blocks, i, j, W, blocks2)
    requires forall m | i <= m < j :: blocks[m] in P || IsAlloc(M[blocks[m]])
    requires forall q | q in P :: q in blocks[i..j]
    requires forall a | 0 <= a < |W| :: W[a] in P2 <==> W[a] < |M2| && !IsAlloc(M2[W[a]])
    requires forall q | q in P2 :: q in W
    requires forall m | i <= m < j :: blocks[m] == x || !IsAlloc(M[blocks[m]])
    ensures HeapOk(M2, beg, end2, blocks2, heads, lists, P2)
    ensures AllocKept(M, blocks, M2, blocks2, x)
  {
    Window(M, M2, beg, end, end2, blocks, i, j, W, blocks2);
    WindowRings(M, M2, beg, end, end2, blocks, i, j, W, blocks2, heads, lists, P);
    WindowMembers(M, M2, beg, end, end2, blocks, i, j, W, blocks2, lists, P, P2);
    RunKept(M, M2, beg, end, end2, blocks, i, j, W, blocks2, x);
  }
}
