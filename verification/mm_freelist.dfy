/**
 * Putting a free block on its list and taking it off again, stated on the
 * heap's words: the whole heap invariant (layout, rings, list membership) is
 * kept, with the block moving out of or into the set of pending blocks.
 *
 * The list code rewrites up to four link words, in an order that differs
 * between the 16-byte list and the buckets. The chains below follow each
 * order write by write and sum it up as Prepended or Removed, which say what
 * every block's links are afterwards; the two preservation lemmas work from
 * those summaries alone.
 */
module MallocFreeList {
  import opened MallocWords
  import opened MallocLayout
  import opened MallocLists

  /** The heap invariant with the blocks of P pending: layout, rings and list membership. */
  predicate HeapOk(M: seq<nat>, beg: nat, end: nat, blocks: seq<nat>, heads: seq<int>, lists: seq<seq<nat>>, P: set<nat>)
  {
    Layout(M, beg, end, blocks) && Rings(M, heads, lists) && Members(M, blocks, lists, P)
  }

  /* ---------------------------------------------------------------------- */
  /* One link write at a time                                                 */

  /** Setting the next link of a free block q of the original words M0, after other link writes. */
  lemma NextStep(M0: seq<nat>, M: seq<nat>, beg: nat, end: nat, blocks: seq<nat>, q: nat, b: nat)
    requires Layout(M0, beg, end, blocks) && ShapeKept(M0, M, blocks, end)
    requires q in blocks && q < |M0| && !IsAlloc(M0[q])
    ensures q + 2 < |M|
    ensures var M2 := WithNext(M, q, b);
            ShapeKept(M0, M2, blocks, end) && NextOf(M2, q) == b && PrevOf(M2, q) == PrevOf(M, q) &&
            forall r | r in blocks && r != q :: Kept(M, M2, r)
  {
    LayoutKept(M0, M, beg, end, blocks);
    var i := IndexOf(M0, beg, end, blocks, q);
    assert KeptBlock(M0, M, q);
    SameFlags(M0[q], M[q]);
    WithNextFacts(M, beg, end, blocks, i, b);
    var M2 := WithNext(M, q, b);
    ShapeKeptTrans(M0, M, M2, blocks, end);
    forall r | r in blocks && r != q
      ensures Kept(M, M2, r)
    {
      var k :| 0 <= k < |blocks| && blocks[k] == r;
    }
  }

  /** Setting the prev link of a free block q of the original words M0, after other link writes. */
  lemma PrevStep(M0: seq<nat>, M: seq<nat>, beg: nat, end: nat, blocks: seq<nat>, q: nat, b: nat)
    requires Layout(M0, beg, end, blocks) && ShapeKept(M0, M, blocks, end)
    requires q in blocks && q < |M0| && !IsAlloc(M0[q])
    ensures q + 2 < |M|
    ensures var M2 := WithPrev(M, q, b);
            ShapeKept(M0, M2, blocks, end) && PrevOf(M2, q) == b && NextOf(M2, q) == NextOf(M, q) &&
            forall r | r in blocks && r != q :: Kept(M, M2, r)
  {
    LayoutKept(M0, M, beg, end, blocks);
    var i := IndexOf(M0, beg, end, blocks, q);
    assert KeptBlock(M0, M, q);
    SameFlags(M0[q], M[q]);
    WithPrevFacts(M, beg, end, blocks, i, b);
    var M2 := WithPrev(M, q, b);
    ShapeKeptTrans(M0, M, M2, blocks, end);
    forall r | r in blocks && r != q
      ensures Kept(M, M2, r)
    {
      var k :| 0 <= k < |blocks| && blocks[k] == r;
    }
  }

  /** No link writes at all. */
  lemma ShapeKeptRefl(M: seq<nat>, beg: nat, end: nat, blocks: seq<nat>)
    requires Layout(M, beg, end, blocks)
    ensures ShapeKept(M, M, blocks, end)
  {
    forall i | 0 <= i < |blocks|
      ensures blocks[i] < |M| && KeptBlock(M, M, blocks[i])
    {
      assert BlockOk(M, blocks, end, i);
    }
  }

  /* ---------------------------------------------------------------------- */
  /* Putting a block in front of its list                                     */

  /** The links after p is put in front of the list L: p points at L's head and tail, they point back at p, the rest is kept. */
  predicate Prepended(M: seq<nat>, M2: seq<nat>, blocks: seq<nat>, p: nat, L: seq<nat>)
  {
    forall r | r in blocks ::
      NextOf(M2, r) == (if r == p then (if |L| == 0 then p else L[0]) else if |L| > 0 && r == L[|L| - 1] then p else NextOf(M, r)) &&
      PrevOf(M2, r) == (if r == p then (if |L| == 0 then p else L[|L| - 1]) else if |L| > 0 && r == L[0] then p else PrevOf(M, r))
  }

  /** addToFreeList on an empty bucket: dk->prev = dk, then dk->next = dk. */
  lemma AddEmptyBig(M0: seq<nat>, M1: seq<nat>, M2: seq<nat>, beg: nat, end: nat, blocks: seq<nat>, p: nat)
    requires Layout(M0, beg, end, blocks) && p in blocks && p + 2 < |M0| && !IsAlloc(M0[p])
    requires M1 == WithPrev(M0, p, p) && p + 2 < |M1| && M2 == WithNext(M1, p, p)
    ensures ShapeKept(M0, M2, blocks, end) && Prepended(M0, M2, blocks, p, [])
  {
    ShapeKeptRefl(M0, beg, end, blocks);
    PrevStep(M0, M0, beg, end, blocks, p, p);
    NextStep(M0, M1, beg, end, blocks, p, p);
  }

  /** xAddToFreeList on an empty list: setNext(xk, xk), then setPrev(xk, xk). */
  lemma AddEmptySmall(M0: seq<nat>, M1: seq<nat>, M2: seq<nat>, beg: nat, end: nat, blocks: seq<nat>, p: nat)
    requires Layout(M0, beg, end, blocks) && p in blocks && p + 2 < |M0| && !IsAlloc(M0[p])
    requires M1 == WithNext(M0, p, p) && p + 2 < |M1| && M2 == WithPrev(M1, p, p)
    ensures ShapeKept(M0, M2, blocks, end) && Prepended(M0, M2, blocks, p, [])
  {
    ShapeKeptRefl(M0, beg, end, blocks);
    NextStep(M0, M0, beg, end, blocks, p, p);
    PrevStep(M0, M1, beg, end, blocks, p, p);
  }

  /** addToFreeList on a non-empty bucket with head nx and tail pv: dk->prev = pv, dk->next = nx, pv->next = dk, nx->prev = dk. */
  lemma AddBig(M0: seq<nat>, M1: seq<nat>, M2: seq<nat>, M3: seq<nat>, M4: seq<nat>,
               beg: nat, end: nat, blocks: seq<nat>, p: nat, L: seq<nat>)
    requires Layout(M0, beg, end, blocks) && 0 < |L| && p !in L
    requires p in blocks && L[0] in blocks && L[|L| - 1] in blocks
    requires p < |M0| && !IsAlloc(M0[p]) && L[0] < |M0| && !IsAlloc(M0[L[0]]) && L[|L| - 1] < |M0| && !IsAlloc(M0[L[|L| - 1]])
    requires p + 2 < |M0| && L[0] + 2 < |M0| && L[|L| - 1] + 2 < |M0|
    requires M1 == WithPrev(M0, p, L[|L| - 1]) && |M1| == |M0| && M2 == WithNext(M1, p, L[0]) && |M2| == |M0|
    requires M3 == WithNext(M2, L[|L| - 1], p) && |M3| == |M0| && M4 == WithPrev(M3, L[0], p)
    ensures ShapeKept(M0, M4, blocks, end) && Prepended(M0, M4, blocks, p, L)
  {
    var pv, nx := L[|L| - 1], L[0];
    ShapeKeptRefl(M0, beg, end, blocks);
    PrevStep(M0, M0, beg, end, blocks, p, pv);
    NextStep(M0, M1, beg, end, blocks, p, nx);
    NextStep(M0, M2, beg, end, blocks, pv, p);
    PrevStep(M0, M3, beg, end, blocks, nx, p);
    forall r | r in blocks
      ensures NextOf(M4, r) == (if r == p then nx else if r == pv then p else NextOf(M0, r))
      ensures PrevOf(M4, r) == (if r == p then pv else if r == nx then p else PrevOf(M0, r))
    {
      if r != p && r != pv && r != nx {
        assert Kept(M0, M1, r) && Kept(M1, M2, r) && Kept(M2, M3, r) && Kept(M3, M4, r);
      } else if r == p {
        assert Kept(M2, M3, r) && Kept(M3, M4, r);
      } else if r == pv && r != nx {
        assert Kept(M0, M1, r) && Kept(M1, M2, r) && Kept(M3, M4, r);
      } else if r == nx && r != pv {
        assert Kept(M0, M1, r) && Kept(M1, M2, r) && Kept(M2, M3, r);
      } else {
        assert Kept(M0, M1, r) && Kept(M1, M2, r);
      }
    }
  }

  /** xAddToFreeList on a non-empty list with head nx and tail pv: setNext(xk, nx), setNext(pv, xk), setPrev(nx, xk), setPrev(xk, pv). */
  lemma AddSmall(M0: seq<nat>, M1: seq<nat>, M2: seq<nat>, M3: seq<nat>, M4: seq<nat>,
                 beg: nat, end: nat, blocks: seq<nat>, p: nat, L: seq<nat>)
    requires Layout(M0, beg, end, blocks) && 0 < |L| && p !in L
    requires p in blocks && L[0] in blocks && L[|L| - 1] in blocks
    requires p < |M0| && !IsAlloc(M0[p]) && L[0] < |M0| && !IsAlloc(M0[L[0]]) && L[|L| - 1] < |M0| && !IsAlloc(M0[L[|L| - 1]])
    requires p + 2 < |M0| && L[0] + 2 < |M0| && L[|L| - 1] + 2 < |M0|
    requires M1 == WithNext(M0, p, L[0]) && |M1| == |M0| && M2 == WithNext(M1, L[|L| - 1], p) && |M2| == |M0|
    requires M3 == WithPrev(M2, L[0], p) && |M3| == |M0| && M4 == WithPrev(M3, p, L[|L| - 1])
    ensures ShapeKept(M0, M4, blocks, end) && Prepended(M0, M4, blocks, p, L)
  {
    var pv, nx := L[|L| - 1], L[0];
    ShapeKeptRefl(M0, beg, end, blocks);
    NextStep(M0, M0, beg, end, blocks, p, nx);
    NextStep(M0, M1, beg, end, blocks, pv, p);
    PrevStep(M0, M2, beg, end, blocks, nx, p);
    PrevStep(M0, M3, beg, end, blocks, p, pv);
    forall r | r in blocks
      ensures NextOf(M4, r) == (if r == p then nx else if r == pv then p else NextOf(M0, r))
      ensures PrevOf(M4, r) == (if r == p then pv else if r == nx then p else PrevOf(M0, r))
    {
      if r != p && r != pv && r != nx {
        assert Kept(M0, M1, r) && Kept(M1, M2, r) && Kept(M2, M3, r) && Kept(M3, M4, r);
      } else if r == p {
        assert Kept(M1, M2, r) && Kept(M2, M3, r);
      } else if r == pv && r != nx {
        assert Kept(M0, M1, r) && Kept(M2, M3, r) && Kept(M3, M4, r);
      } else if r == nx && r != pv {
        assert Kept(M0, M1, r) && Kept(M1, M2, r) && Kept(M3, M4, r);
      } else {
        assert Kept(M0, M1, r) && Kept(M3, M4, r);
      }
    }
  }

  /* ---------------------------------------------------------------------- */
  /* Taking a block off its list                                              */

  /** The links after L[k] is unlinked: its predecessor and successor point at each other, the rest is kept. */
  predicate Removed(M: seq<nat>, M2: seq<nat>, blocks: seq<nat>, L: seq<nat>, k: nat)
    requires k < |L|
  {
    forall r | r in blocks ::
      NextOf(M2, r) == (if |L| > 1 && r == L[Pred(|L|, k)] then L[Succ(|L|, k)] else NextOf(M, r)) &&
      PrevOf(M2, r) == (if |L| > 1 && r == L[Succ(|L|, k)] then L[Pred(|L|, k)] else PrevOf(M, r))
  }

  /** The sole member of a list is unlinked by nulling the head: no word changes. */
  lemma RemoveSole(M: seq<nat>, beg: nat, end: nat, blocks: seq<nat>, L: seq<nat>)
    requires Layout(M, beg, end, blocks) && |L| == 1
    ensures ShapeKept(M, M, blocks, end) && Removed(M, M, blocks, L, 0)
  {
    ShapeKeptRefl(M, beg, end, blocks);
  }

  /** deleteFromFreeList in a bucket of two or more: dk->next->prev = dk->prev, then dk->prev->next = dk->next. */
  lemma RemoveBig(M0: seq<nat>, M1: seq<nat>, M2: seq<nat>, beg: nat, end: nat, blocks: seq<nat>, L: seq<nat>, k: nat)
    requires Layout(M0, beg, end, blocks) && 1 < |L| && k < |L|
    requires L[Pred(|L|, k)] in blocks && L[Succ(|L|, k)] in blocks
    requires L[Pred(|L|, k)] < |M0| && !IsAlloc(M0[L[Pred(|L|, k)]]) && L[Succ(|L|, k)] < |M0| && !IsAlloc(M0[L[Succ(|L|, k)]])
    requires L[Pred(|L|, k)] + 2 < |M0| && L[Succ(|L|, k)] + 2 < |M0|
    requires M1 == WithPrev(M0, L[Succ(|L|, k)], L[Pred(|L|, k)]) && |M1| == |M0|
    requires M2 == WithNext(M1, L[Pred(|L|, k)], L[Succ(|L|, k)])
    ensures ShapeKept(M0, M2, blocks, end) && Removed(M0, M2, blocks, L, k)
  {
    var pv, nx := L[Pred(|L|, k)], L[Succ(|L|, k)];
    ShapeKeptRefl(M0, beg, end, blocks);
    PrevStep(M0, M0, beg, end, blocks, nx, pv);
    NextStep(M0, M1, beg, end, blocks, pv, nx);
    forall r | r in blocks
      ensures NextOf(M2, r) == (if r == pv then nx else NextOf(M0, r))
      ensures PrevOf(M2, r) == (if r == nx then pv else PrevOf(M0, r))
    {
      if r != pv && r != nx {
        assert Kept(M0, M1, r) && Kept(M1, M2, r);
      } else if r == pv && r != nx {
        assert Kept(M0, M1, r);
      } else if r == nx && r != pv {
        assert Kept(M1, M2, r);
      }
    }
  }

  /** xDeleteFromFreeList in a list of two or more: setNext(pv, nx), then setPrev(nx, pv). */
  lemma RemoveSmall(M0: seq<nat>, M1: seq<nat>, M2: seq<nat>, beg: nat, end: nat, blocks: seq<nat>, L: seq<nat>, k: nat)
    requires Layout(M0, beg, end, blocks) && 1 < |L| && k < |L|
    requires L[Pred(|L|, k)] in blocks && L[Succ(|L|, k)] in blocks
    requires L[Pred(|L|, k)] < |M0| && !IsAlloc(M0[L[Pred(|L|, k)]]) && L[Succ(|L|, k)] < |M0| && !IsAlloc(M0[L[Succ(|L|, k)]])
    requires L[Pred(|L|, k)] + 2 < |M0| && L[Succ(|L|, k)] + 2 < |M0|
    requires M1 == WithNext(M0, L[Pred(|L|, k)], L[Succ(|L|, k)]) && |M1| == |M0|
    requires M2 == WithPrev(M1, L[Succ(|L|, k)], L[Pred(|L|, k)])
    ensures ShapeKept(M0, M2, blocks, end) && Removed(M0, M2, blocks, L, k)
  {
    var pv, nx := L[Pred(|L|, k)], L[Succ(|L|, k)];
    ShapeKeptRefl(M0, beg, end, blocks);
    NextStep(M0, M0, beg, end, blocks, pv, nx);
    PrevStep(M0, M1, beg, end, blocks, nx, pv);
    forall r | r in blocks
      ensures NextOf(M2, r) == (if r == pv then nx else NextOf(M0, r))
      ensures PrevOf(M2, r) == (if r == nx then pv else PrevOf(M0, r))
    {
      if r != pv && r != nx {
        assert Kept(M0, M1, r) && Kept(M1, M2, r);
      } else if r == pv && r != nx {
        assert Kept(M1, M2, r);
      } else if r == nx && r != pv {
        assert Kept(M0, M1, r);
      }
    }
  }

  /* ---------------------------------------------------------------------- */
  /* The invariant across a list operation                                    */

  /** Rewriting links keeps each block's state and list. */
  lemma StateKept(M: seq<nat>, M2: seq<nat>, blocks: seq<nat>, end: nat, q: nat)
    requires ShapeKept(M, M2, blocks, end) && q in blocks
    ensures q < |M| && IsAlloc(M2[q]) == IsAlloc(M[q]) && ListOf(M2, q) == ListOf(M, q)
  {
    var i :| 0 <= i < |blocks| && blocks[i] == q;
    assert KeptBlock(M, M2, q);
    SameFlags(M[q], M2[q]);
  }

  /** Replacing one ring keeps the others when their members keep their links. */
  lemma RingsSet(M: seq<nat>, M2: seq<nat>, heads: seq<int>, lists: seq<seq<nat>>, j: nat, h: int, L2: seq<nat>)
    requires Rings(M, heads, lists) && j < ListCount && Ring(M2, L2, h)
    requires forall j2, k | 0 <= j2 < ListCount && j2 != j && 0 <= k < |lists[j2]| :: Kept(M, M2, lists[j2][k])
    ensures Rings(M2, heads[j := h], lists[j := L2])
  {
    var heads2, lists2 := heads[j := h], lists[j := L2];
    forall j2 | 0 <= j2 < ListCount
      ensures Ring(M2, lists2[j2], heads2[j2])
    {
      if j2 != j {
        RingKept(M, M2, lists[j2], heads[j2]);
      }
    }
  }

  /** A pending block is on no list. */
  lemma PendingUnlisted(M: seq<nat>, blocks: seq<nat>, lists: seq<seq<nat>>, P: set<nat>, j: nat, p: nat)
    requires Members(M, blocks, lists, P) && p in P && j < ListCount
    ensures p !in lists[j]
  {
    forall k | 0 <= k < |lists[j]|
      ensures lists[j][k] != p
    {
      assert ListedOk(M, blocks, P, j, lists[j][k]);
    }
  }

  /** The ring of p's list after p is put in front. */
  lemma PrependRing(M: seq<nat>, M2: seq<nat>, blocks: seq<nat>, lists: seq<seq<nat>>, P: set<nat>, heads: seq<int>, p: nat, j: nat)
    requires Rings(M, heads, lists) && Members(M, blocks, lists, P) && p in P && j < ListCount
    requires Prepended(M, M2, blocks, p, lists[j])
    ensures Ring(M2, [p] + lists[j], p)
  {
    var L := lists[j];
    assert Ring(M, L, heads[j]);
    PendingUnlisted(M, blocks, lists, P, j, p);
    if |L| > 0 {
      assert ListedOk(M, blocks, P, j, L[0]) && ListedOk(M, blocks, P, j, L[|L| - 1]);
    }
    forall k | 0 <= k < |L|
      ensures L[k] in blocks && L[k] != p
    {
      assert ListedOk(M, blocks, P, j, L[k]);
    }
    RingPrepend(M, M2, L, heads[j], p);
  }

  /** The other lists keep their links when p is put in front of list j. */
  lemma PrependOthers(M: seq<nat>, M2: seq<nat>, blocks: seq<nat>, lists: seq<seq<nat>>, P: set<nat>, p: nat, j: nat)
    requires Members(M, blocks, lists, P) && p in P && j < ListCount
    requires Prepended(M, M2, blocks, p, lists[j])
    ensures forall j2, k | 0 <= j2 < ListCount && j2 != j && 0 <= k < |lists[j2]| :: Kept(M, M2, lists[j2][k])
  {
    var L := lists[j];
    forall j2, k | 0 <= j2 < ListCount && j2 != j && 0 <= k < |lists[j2]|
      ensures Kept(M, M2, lists[j2][k])
    {
      assert ListedOk(M, blocks, P, j2, lists[j2][k]);
      if |L| > 0 {
        assert ListedOk(M, blocks, P, j, L[0]) && ListedOk(M, blocks, P, j, L[|L| - 1]);
      }
    }
  }

  /** List membership after p is put in front of its list. */
  lemma PrependMembers(M: seq<nat>, M2: seq<nat>, end: nat, blocks: seq<nat>, lists: seq<seq<nat>>, P: set<nat>, p: nat)
    requires Members(M, blocks, lists, P) && p in P && ShapeKept(M, M2, blocks, end)
    ensures p < |M| && Members(M2, blocks, lists[ListOf(M, p) := [p] + lists[ListOf(M, p)]], P - {p})
  {
    var j := ListOf(M, p);
    var lists2 := lists[j := [p] + lists[j]];
    StateKept(M, M2, blocks, end, p);
    forall j2, k | 0 <= j2 < ListCount && 0 <= k < |lists2[j2]|
      ensures ListedOk(M2, blocks, P - {p}, j2, lists2[j2][k])
    {
      var q := lists2[j2][k];
      if j2 == j && k == 0 {
        assert q == p;
      } else {
        var k0 := if j2 == j then k - 1 else k;
        assert q == lists[j2][k0];
        assert ListedOk(M, blocks, P, j2, q);
        StateKept(M, M2, blocks, end, q);
      }
    }
    forall i | 0 <= i < |blocks|
      ensures blocks[i] < |M2| && (IsAlloc(M2[blocks[i]]) || blocks[i] in P - {p} || blocks[i] in lists2[ListOf(M2, blocks[i])])
    {
      var q := blocks[i];
      StateKept(M, M2, blocks, end, q);
      if q != p && !IsAlloc(M[q]) && q !in P {
        assert q in lists[ListOf(M, q)];
        assert q in lists2[ListOf(M, q)];
      }
    }
    forall q | q in P - {p}
      ensures q in blocks && q < |M2| && !IsAlloc(M2[q])
    {
      StateKept(M, M2, blocks, end, q);
    }
  }

  /**
   * addToFreeList and xAddToFreeList keep the heap invariant: the pending
   * block p goes in front of the list for its size, becomes its head, and is
   * no longer pending.
   */
  lemma AddPreserves(M: seq<nat>, M2: seq<nat>, beg: nat, end: nat, blocks: seq<nat>, heads: seq<int>,
                     lists: seq<seq<nat>>, P: set<nat>, p: nat)
    requires HeapOk(M, beg, end, blocks, heads, lists, P) && p in P && p < |M|
    requires ShapeKept(M, M2, blocks, end) && Prepended(M, M2, blocks, p, lists[ListOf(M, p)])
    ensures var j := ListOf(M, p);
            HeapOk(M2, beg, end, blocks, heads[j := p], lists[j := [p] + lists[j]], P - {p})
  {
    var j := ListOf(M, p);
    LayoutKept(M, M2, beg, end, blocks);
    PrependRing(M, M2, blocks, lists, P, heads, p, j);
    PrependOthers(M, M2, blocks, lists, P, p, j);
    RingsSet(M, M2, heads, lists, j, p, [p] + lists[j]);
    PrependMembers(M, M2, end, blocks, lists, P, p);
  }

  /** The head of L once L[k] is gone: NULL when it was alone, the next one when it was the head. */
  function NewHead(L: seq<nat>, k: nat): (h: int)
    requires k < |L|
    ensures |L| == 1 ==> h == NULL
    ensures |L| > 1 ==> h == RemoveAt(L, k)[0]
  {
    if |L| == 1 then NULL else if k == 0 then L[1] else L[0]
  }

  lemma InRemoveAt(L: seq<nat>, k: nat, q: nat)
    requires k < |L| && q in L && q != L[k]
    ensures q in RemoveAt(L, k)
  {
    var m :| 0 <= m < |L| && L[m] == q;
    var L2 := RemoveAt(L, k);
    if m < k {
      assert L2[m] == q;
    } else {
      assert L2[m - 1] == q;
    }
  }

  /** The ring of the list once L[k] is unlinked. */
  lemma RemoveRing(M: seq<nat>, M2: seq<nat>, blocks: seq<nat>, lists: seq<seq<nat>>, P: set<nat>, heads: seq<int>, j: nat, k: nat)
    requires Rings(M, heads, lists) && Members(M, blocks, lists, P) && j < ListCount && k < |lists[j]|
    requires Removed(M, M2, blocks, lists[j], k)
    ensures Ring(M2, RemoveAt(lists[j], k), NewHead(lists[j], k))
  {
    var L := lists[j];
    var n := |L|;
    assert Ring(M, L, heads[j]);
    if n > 1 {
      assert ListedOk(M, blocks, P, j, L[Pred(n, k)]) && ListedOk(M, blocks, P, j, L[Succ(n, k)]);
      forall m | 0 <= m < n
        ensures L[m] in blocks
      {
        assert ListedOk(M, blocks, P, j, L[m]);
      }
      RingRemove(M, M2, L, heads[j], k);
    }
  }

  /** The other lists keep their links when list j loses L[k]. */
  lemma RemoveOthers(M: seq<nat>, M2: seq<nat>, blocks: seq<nat>, lists: seq<seq<nat>>, P: set<nat>, j: nat, k: nat)
    requires Members(M, blocks, lists, P) && j < ListCount && k < |lists[j]|
    requires Removed(M, M2, blocks, lists[j], k)
    ensures forall j2, m | 0 <= j2 < ListCount && j2 != j && 0 <= m < |lists[j2]| :: Kept(M, M2, lists[j2][m])
  {
    var L := lists[j];
    var n := |L|;
    forall j2, m | 0 <= j2 < ListCount && j2 != j && 0 <= m < |lists[j2]|
      ensures Kept(M, M2, lists[j2][m])
    {
      assert ListedOk(M, blocks, P, j2, lists[j2][m]);
      assert ListedOk(M, blocks, P, j, L[Pred(n, k)]) && ListedOk(M, blocks, P, j, L[Succ(n, k)]);
    }
  }

  /** List membership once L[k] is taken off list j and set pending. */
  lemma RemoveMembers(M: seq<nat>, M2: seq<nat>, end: nat, blocks: seq<nat>, lists: seq<seq<nat>>, P: set<nat>, j: nat, k: nat)
    requires Members(M, blocks, lists, P) && j < ListCount && k < |lists[j]| && Distinct(lists[j])
    requires ShapeKept(M, M2, blocks, end)
    ensures Members(M2, blocks, lists[j := RemoveAt(lists[j], k)], P + {lists[j][k]})
  {
    var L := lists[j];
    var p := L[k];
    var lists2 := lists[j := RemoveAt(L, k)];
    var P2 := P + {p};
    assert ListedOk(M, blocks, P, j, p);
    forall j2, m | 0 <= j2 < ListCount && 0 <= m < |lists2[j2]|
      ensures ListedOk(M2, blocks, P2, j2, lists2[j2][m])
    {
      var m0 := if j2 == j && m >= k then m + 1 else m;
      var q := lists2[j2][m];
      assert q == lists[j2][m0];
      assert ListedOk(M, blocks, P, j2, q);
      StateKept(M, M2, blocks, end, q);
    }
    forall i | 0 <= i < |blocks|
      ensures blocks[i] < |M2| && (IsAlloc(M2[blocks[i]]) || blocks[i] in P2 || blocks[i] in lists2[ListOf(M2, blocks[i])])
    {
      var q := blocks[i];
      StateKept(M, M2, blocks, end, q);
      if q != p && !IsAlloc(M[q]) && q !in P && ListOf(M, q) == j {
        InRemoveAt(L, k, q);
      }
    }
    forall q | q in P2
      ensures q in blocks && q < |M2| && !IsAlloc(M2[q])
    {
      StateKept(M, M2, blocks, end, q);
    }
  }

  /**
   * deleteFromFreeList and xDeleteFromFreeList keep the heap invariant: the
   * block L[k] leaves its list, which is headed by its successor when it was
   * the head and becomes empty when it was alone, and the block is pending.
   */
  lemma DeletePreserves(M: seq<nat>, M2: seq<nat>, beg: nat, end: nat, blocks: seq<nat>, heads: seq<int>,
                        lists: seq<seq<nat>>, P: set<nat>, j: nat, k: nat)
    requires HeapOk(M, beg, end, blocks, heads, lists, P) && j < ListCount && k < |lists[j]|
    requires ShapeKept(M, M2, blocks, end) && Removed(M, M2, blocks, lists[j], k)
    ensures HeapOk(M2, beg, end, blocks, heads[j := NewHead(lists[j], k)], lists[j := RemoveAt(lists[j], k)], P + {lists[j][k]})
  {
    LayoutKept(M, M2, beg, end, blocks);
    RemoveRing(M, M2, blocks, lists, P, heads, j, k);
    RemoveOthers(M, M2, blocks, lists, P, j, k);
    RingsSet(M, M2, heads, lists, j, NewHead(lists[j], k), RemoveAt(lists[j], k));
    assert Ring(M, lists[j], heads[j]);
    RemoveMembers(M, M2, end, blocks, lists, P, j, k);
  }
}
