/**
 * The matrix transposes of the cache lab. A has N rows and M columns, B has M
 * rows and N columns, and B becomes the transpose of A. The elements are only
 * copied, so their type is a parameter. `tmp` is the scratch area every
 * transpose function is given. The block orderings exist only to reduce cache
 * misses; here only the values written are modelled.
 */
module Transpose {

  /** Elements in the scratch area handed to every transpose function. */
  const TmpCount: nat := 256

  /** Distinct source and destination arrays of transposed shapes. */
  predicate Shapes<T>(A: array2<T>, B: array2<T>)
  {
    A != B && B.Length0 == A.Length1 && B.Length1 == A.Length0
  }

  /** B is the transpose of A: every B[r][c] is A[c][r]. */
  ghost predicate Transposed<T>(A: array2<T>, B: array2<T>)
    reads A, B
  {
    B.Length0 == A.Length1 && B.Length1 == A.Length0 &&
    forall r, c :: 0 <= r < B.Length0 && 0 <= c < B.Length1 ==> B[r, c] == A[c, r]
  }

  /** Cell (r, c) lies in the h x w rectangle whose corner is (r0, c0). */
  predicate In(r: int, c: int, r0: int, c0: int, h: int, w: int)
  {
    r0 <= r < r0 + h && c0 <= c < c0 + w
  }

  /* ---------------------------------------------------------------------- */
  /* The simple transposes and the check                                     */

  /** is_transpose: true exactly when every A[i][j] equals B[j][i]. */
  method IsTranspose<T(==)>(A: array2<T>, B: array2<T>) returns (ok: bool)
    requires B.Length0 == A.Length1 && B.Length1 == A.Length0
    ensures ok == Transposed(A, B)
  {
    var i := 0;
    while i < A.Length0
      invariant 0 <= i <= A.Length0
      invariant forall r, c :: 0 <= r < B.Length0 && 0 <= c < i ==> B[r, c] == A[c, r]
    {
      var j := 0;
      while j < A.Length1
        invariant 0 <= j <= A.Length1
        invariant forall r :: 0 <= r < j ==> B[r, i] == A[i, r]
      {
        if A[i, j] != B[j, i] {
          return false;
        }
        j := j + 1;
      }
      i := i + 1;
    }
    return true;
  }

  /** trans: the row-wise scan; A is only read. */
  method Trans<T>(A: array2<T>, B: array2<T>, tmp: array<T>)
    requires Shapes(A, B) && A.Length0 > 0 && A.Length1 > 0
    modifies B
    ensures Transposed(A, B)
  {
    for i := 0 to A.Length0
      invariant forall r, c :: 0 <= r < B.Length0 && 0 <= c < i ==> B[r, c] == A[c, r]
    {
      for j := 0 to A.Length1
        invariant forall r, c :: 0 <= r < B.Length0 && 0 <= c < i ==> B[r, c] == A[c, r]
        invariant forall r :: 0 <= r < j ==> B[r, i] == A[i, r]
      {
        B[j, i] := A[i, j];
      }
    }
  }

  /**
   * trans_tmp: the same scan through a 2 x 2 window of `tmp`; only its first
   * four elements change.
   */
  method TransTmp<T>(A: array2<T>, B: array2<T>, tmp: array<T>)
    requires Shapes(A, B) && A.Length0 > 0 && A.Length1 > 0 && tmp.Length >= TmpCount
    modifies B, tmp
    ensures Transposed(A, B)
    ensures forall k :: 4 <= k < tmp.Length ==> tmp[k] == old(tmp[k])
  {
    for i := 0 to A.Length0
      invariant forall r, c :: 0 <= r < B.Length0 && 0 <= c < i ==> B[r, c] == A[c, r]
      invariant forall k :: 4 <= k < tmp.Length ==> tmp[k] == old(tmp[k])
    {
      for j := 0 to A.Length1
        invariant forall r, c :: 0 <= r < B.Length0 && 0 <= c < i ==> B[r, c] == A[c, r]
        invariant forall r :: 0 <= r < j ==> B[r, i] == A[i, r]
        invariant forall k :: 4 <= k < tmp.Length ==> tmp[k] == old(tmp[k])
      {
        var di := i % 2;
        var dj := j % 2;
        tmp[2 * di + dj] := A[i, j];
        B[j, i] := tmp[2 * di + dj];
      }
    }
  }

  /* ---------------------------------------------------------------------- */
  /* Loop nests shared by the blocked transposes                             */

  /** Rows ar.. of A, 8 columns from ac, copied row by row to rows br.. of B from column bc. */
  method CopyRows<T>(A: array2<T>, B: array2<T>, ar: nat, ac: nat, br: nat, bc: nat, h: nat)
    requires A != B
    requires ar + h <= A.Length0 && ac + 8 <= A.Length1
    requires br + h <= B.Length0 && bc + 8 <= B.Length1
    modifies B
    ensures forall r, c :: In(r, c, br, bc, h, 8) ==> B[r, c] == A[r - br + ar, c - bc + ac]
    ensures forall r, c :: 0 <= r < B.Length0 && 0 <= c < B.Length1 && !In(r, c, br, bc, h, 8) ==>
              B[r, c] == old(B[r, c])
  {
    for i := 0 to h
      invariant forall r, c :: In(r, c, br, bc, i, 8) ==> B[r, c] == A[r - br + ar, c - bc + ac]
      invariant forall r, c :: 0 <= r < B.Length0 && 0 <= c < B.Length1 && !In(r, c, br, bc, i, 8) ==>
                  B[r, c] == old(B[r, c])
    {
      for j := 0 to 8
        invariant forall r, c :: In(r, c, br, bc, i, 8) ==> B[r, c] == A[r - br + ar, c - bc + ac]
        invariant forall r, c :: In(r, c, br + i, bc, 1, j) ==> B[r, c] == A[r - br + ar, c - bc + ac]
        invariant forall r, c ::
                    0 <= r < B.Length0 && 0 <= c < B.Length1 && !In(r, c, br, bc, i, 8) && !In(r, c, br + i, bc, 1, j)
                    ==> B[r, c] == old(B[r, c])
      {
        B[br + i, bc + j] := A[ar + i, ac + j];
      }
    }
  }

  /** blockTranspose32 for I != J: B block (J, I) is written straight from A block (I, J). */
  method TransposeSquare<T>(A: array2<T>, B: array2<T>, I: nat, J: nat)
    requires Shapes(A, B) && 8 * I + 8 <= A.Length0 && 8 * J + 8 <= A.Length1
    modifies B
    ensures forall r, c :: In(r, c, 8 * J, 8 * I, 8, 8) ==> B[r, c] == A[c, r]
    ensures forall r, c :: 0 <= r < B.Length0 && 0 <= c < B.Length1 && !In(r, c, 8 * J, 8 * I, 8, 8) ==>
              B[r, c] == old(B[r, c])
  {
    for i := 0 to 8
      invariant forall r, c :: In(r, c, 8 * J, 8 * I, 8, i) ==> B[r, c] == A[c, r]
      invariant forall r, c :: 0 <= r < B.Length0 && 0 <= c < B.Length1 && !In(r, c, 8 * J, 8 * I, 8, i) ==>
                  B[r, c] == old(B[r, c])
    {
      for j := 0 to 8
        invariant forall r, c :: In(r, c, 8 * J, 8 * I, 8, i) ==> B[r, c] == A[c, r]
        invariant forall r, c :: In(r, c, 8 * J, 8 * I + i, j, 1) ==> B[r, c] == A[c, r]
        invariant forall r, c ::
                    0 <= r < B.Length0 && 0 <= c < B.Length1 && !In(r, c, 8 * J, 8 * I, 8, i) &&
                    !In(r, c, 8 * J, 8 * I + i, j, 1)
                    ==> B[r, c] == old(B[r, c])
      {
        B[8 * J + j, 8 * I + i] := A[8 * I + i, 8 * J + j];
      }
    }
  }

  /**
   * The second loop nest of blockTranspose32 for I == J: B block (J, I) is
   * read, transposed, from the staging block (CI, CJ) of B.
   */
  method Unstage32<T>(B: array2<T>, I: nat, J: nat, CI: nat, CJ: nat)
    requires 8 * J + 8 <= B.Length0 && 8 * I + 8 <= B.Length1
    requires 8 * CI + 8 <= B.Length0 && 8 * CJ + 8 <= B.Length1 && (CI, CJ) != (J, I)
    modifies B
    ensures forall r, c :: In(r, c, 8 * J, 8 * I, 8, 8) ==> B[r, c] == old(B[8 * CI + c - 8 * I, 8 * CJ + r - 8 * J])
    ensures forall r, c :: 0 <= r < B.Length0 && 0 <= c < B.Length1 && !In(r, c, 8 * J, 8 * I, 8, 8) ==>
              B[r, c] == old(B[r, c])
  {
    BlocksApart(CI, CJ, J, I);
    for i := 0 to 8
      invariant forall r, c :: In(r, c, 8 * J, 8 * I, 8, i) ==> B[r, c] == old(B[8 * CI + c - 8 * I, 8 * CJ + r - 8 * J])
      invariant forall r, c :: 0 <= r < B.Length0 && 0 <= c < B.Length1 && !In(r, c, 8 * J, 8 * I, 8, i) ==>
                  B[r, c] == old(B[r, c])
    {
      for j := 0 to 8
        invariant forall r, c :: In(r, c, 8 * J, 8 * I, 8, i) ==> B[r, c] == old(B[8 * CI + c - 8 * I, 8 * CJ + r - 8 * J])
        invariant forall r, c :: In(r, c, 8 * J, 8 * I + i, j, 1) ==> B[r, c] == old(B[8 * CI + c - 8 * I, 8 * CJ + r - 8 * J])
        invariant forall r, c ::
                    0 <= r < B.Length0 && 0 <= c < B.Length1 && !In(r, c, 8 * J, 8 * I, 8, i) &&
                    !In(r, c, 8 * J, 8 * I + i, j, 1)
                    ==> B[r, c] == old(B[r, c])
      {
        B[8 * J + j, 8 * I + i] := B[8 * CI + i, 8 * CJ + j];
      }
    }
  }

  /**
   * blockTranspose32: B block (J, I) becomes the transpose of A block (I, J).
   * When I == J the two blocks share cache sets, so A's block is first copied
   * into B block (CI, CJ), which keeps that copy; nothing else changes.
   */
  method BlockTranspose32<T>(A: array2<T>, B: array2<T>, I: nat, J: nat, CI: nat, CJ: nat)
    requires Shapes(A, B) && 8 * I + 8 <= A.Length0 && 8 * J + 8 <= A.Length1
    requires I == J ==> 8 * CI + 8 <= B.Length0 && 8 * CJ + 8 <= B.Length1 && (CI, CJ) != (J, I)
    modifies B
    ensures forall r, c :: In(r, c, 8 * J, 8 * I, 8, 8) ==> B[r, c] == A[c, r]
    ensures I == J ==> forall r, c :: In(r, c, 8 * CI, 8 * CJ, 8, 8) ==> B[r, c] == A[r - 8 * CI + 8 * I, c - 8 * CJ + 8 * J]
    ensures forall r, c ::
              0 <= r < B.Length0 && 0 <= c < B.Length1 && !In(r, c, 8 * J, 8 * I, 8, 8) &&
              (I != J || !In(r, c, 8 * CI, 8 * CJ, 8, 8))
              ==> B[r, c] == old(B[r, c])
  {
    if I != J {
      TransposeSquare(A, B, I, J);
    } else {
      BlocksApart(CI, CJ, J, I);
      CopyRows(A, B, 8 * I, 8 * J, 8 * CI, 8 * CJ, 8);
      label staged:
      Unstage32(B, I, J, CI, CJ);
      forall r, c | In(r, c, 8 * J, 8 * I, 8, 8)
        ensures B[r, c] == A[c, r]
      {
        assert B[r, c] == old@staged(B[8 * CI + c - 8 * I, 8 * CJ + r - 8 * J]);
      }
    }
  }

  /** Two different 8x8 blocks share no cell. */
  lemma BlocksApart(a: nat, b: nat, c: nat, d: nat)
    requires (a, b) != (c, d)
    ensures 8 * a + 8 <= 8 * c || 8 * c + 8 <= 8 * a || 8 * b + 8 <= 8 * d || 8 * d + 8 <= 8 * b
  {
  }

  /** Four cells of one row of B, from a column of four cells of B elsewhere. */
  method ColFromB<T>(B: array2<T>, row: nat, col0: nat, sr: nat, sc: nat)
    requires row < B.Length0 && col0 + 4 <= B.Length1 && sr + 4 <= B.Length0 && sc < B.Length1
    requires !(sr <= row < sr + 4 && col0 <= sc < col0 + 4)
    modifies B
    ensures forall c :: col0 <= c < col0 + 4 ==> B[row, c] == old(B[sr + c - col0, sc])
    ensures forall r, c :: 0 <= r < B.Length0 && 0 <= c < B.Length1 && !In(r, c, row, col0, 1, 4) ==>
              B[r, c] == old(B[r, c])
  {
    for i := 0 to 4
      invariant forall c :: col0 <= c < col0 + i ==> B[row, c] == old(B[sr + c - col0, sc])
      invariant forall r, c :: 0 <= r < B.Length0 && 0 <= c < B.Length1 && !In(r, c, row, col0, 1, i) ==>
                  B[r, c] == old(B[r, c])
    {
      B[row, col0 + i] := B[sr + i, sc];
    }
  }

  /** Four cells of one row of B, from a column of four cells of A. */
  method ColFromA<T>(A: array2<T>, B: array2<T>, row: nat, col0: nat, ar: nat, ac: nat)
    requires A != B && row < B.Length0 && col0 + 4 <= B.Length1 && ar + 4 <= A.Length0 && ac < A.Length1
    modifies B
    ensures forall c :: col0 <= c < col0 + 4 ==> B[row, c] == A[ar + c - col0, ac]
    ensures forall r, c :: 0 <= r < B.Length0 && 0 <= c < B.Length1 && !In(r, c, row, col0, 1, 4) ==>
              B[r, c] == old(B[r, c])
  {
    for i := 0 to 4
      invariant forall c :: col0 <= c < col0 + i ==> B[row, c] == A[ar + c - col0, ac]
      invariant forall r, c :: 0 <= r < B.Length0 && 0 <= c < B.Length1 && !In(r, c, row, col0, 1, i) ==>
                  B[r, c] == old(B[r, c])
    {
      B[row, col0 + i] := A[ar + i, ac];
    }
  }

  /** Four cells of one row of B, from tmp[j], tmp[64 + j], tmp[128 + j], tmp[192 + j]. */
  method ColFromTmp<T>(B: array2<T>, tmp: array<T>, row: nat, col0: nat, j: nat)
    requires row < B.Length0 && col0 + 4 <= B.Length1 && j < 8 && TmpCount <= tmp.Length
    modifies B
    ensures forall c :: col0 <= c < col0 + 4 ==> B[row, c] == tmp[64 * (c - col0) + j]
    ensures forall r, c :: 0 <= r < B.Length0 && 0 <= c < B.Length1 && !In(r, c, row, col0, 1, 4) ==>
              B[r, c] == old(B[r, c])
  {
    for i := 0 to 4
      invariant forall c :: col0 <= c < col0 + i ==> B[row, c] == tmp[64 * (c - col0) + j]
      invariant forall r, c :: 0 <= r < B.Length0 && 0 <= c < B.Length1 && !In(r, c, row, col0, 1, i) ==>
                  B[r, c] == old(B[r, c])
    {
      B[row, col0 + i] := tmp[64 * i + j];
    }
  }

  /** The tmp branch of blockTranspose64: rows ar..ar+3, columns ac..ac+7 of A go to tmp[64 * i + j]. */
  method StageTmp<T>(A: array2<T>, tmp: array<T>, ar: nat, ac: nat)
    requires ar + 4 <= A.Length0 && ac + 8 <= A.Length1 && TmpCount <= tmp.Length
    modifies tmp
    ensures forall k :: 0 <= k < 256 && k % 64 < 8 ==> tmp[k] == A[ar + k / 64, ac + k % 64]
    ensures forall k :: 0 <= k < tmp.Length && !(k < 256 && k % 64 < 8) ==> tmp[k] == old(tmp[k])
  {
    for i := 0 to 4
      invariant forall k :: 0 <= k < 64 * i && k % 64 < 8 ==> tmp[k] == A[ar + k / 64, ac + k % 64]
      invariant forall k :: 0 <= k < tmp.Length && !(k < 64 * i && k % 64 < 8) ==> tmp[k] == old(tmp[k])
    {
      for j := 0 to 8
        invariant forall k :: 0 <= k < 64 * i && k % 64 < 8 ==> tmp[k] == A[ar + k / 64, ac + k % 64]
        invariant forall k :: 64 * i <= k < 64 * i + j ==> tmp[k] == A[ar + k / 64, ac + k % 64]
        invariant forall k :: 0 <= k < tmp.Length && !(k < 64 * i && k % 64 < 8) && !(64 * i <= k < 64 * i + j) ==>
                    tmp[k] == old(tmp[k])
      {
        tmp[64 * i + j] := A[ar + i, ac + j];
      }
    }
  }

  /**
   * The last loop nest of blockTranspose64 for I == J: column j of B's target
   * block takes its top half from row j of the C3 staging rows and its bottom
   * half from row j of the C1 staging rows.
   */
  method Back64Diag<T>(B: array2<T>, I: nat, J: nat, C1I: nat, C1J: nat, C3I: nat, C3J: nat)
    requires 8 * J + 8 <= B.Length0 && 8 * I + 8 <= B.Length1
    requires 8 * C1I + 4 <= B.Length0 && 8 * C1J + 8 <= B.Length1 && (C1I, C1J) != (J, I)
    requires 8 * C3I + 4 <= B.Length0 && 8 * C3J + 8 <= B.Length1 && (C3I, C3J) != (J, I)
    modifies B
    ensures forall r, c :: In(r, c, 8 * J, 8 * I, 8, 4) ==> B[r, c] == old(B[8 * C3I + c - 8 * I, 8 * C3J + r - 8 * J])
    ensures forall r, c :: In(r, c, 8 * J, 8 * I + 4, 8, 4) ==> B[r, c] == old(B[8 * C1I + c - 8 * I - 4, 8 * C1J + r - 8 * J])
    ensures forall r, c :: 0 <= r < B.Length0 && 0 <= c < B.Length1 && !In(r, c, 8 * J, 8 * I, 8, 8) ==>
              B[r, c] == old(B[r, c])
  {
    BlocksApart(C1I, C1J, J, I);
    BlocksApart(C3I, C3J, J, I);
    for j := 0 to 8
      invariant forall r, c :: In(r, c, 8 * J, 8 * I, j, 4) ==> B[r, c] == old(B[8 * C3I + c - 8 * I, 8 * C3J + r - 8 * J])
      invariant forall r, c :: In(r, c, 8 * J, 8 * I + 4, j, 4) ==> B[r, c] == old(B[8 * C1I + c - 8 * I - 4, 8 * C1J + r - 8 * J])
      invariant forall r, c :: 0 <= r < B.Length0 && 0 <= c < B.Length1 && !In(r, c, 8 * J, 8 * I, j, 8) ==>
                  B[r, c] == old(B[r, c])
    {
      DiagColumn(B, I, J, C1I, C1J, C3I, C3J, j);
    }
  }

  /** The last loop nest of blockTranspose64 for I != J with tag 0: the top half from A, the bottom half from the C1 staging rows. */
  method Back64Off<T>(A: array2<T>, B: array2<T>, I: nat, J: nat, C1I: nat, C1J: nat)
    requires Shapes(A, B) && 8 * I + 8 <= A.Length0 && 8 * J + 8 <= A.Length1
    requires 8 * C1I + 4 <= B.Length0 && 8 * C1J + 8 <= B.Length1 && (C1I, C1J) != (J, I)
    modifies B
    ensures forall r, c :: In(r, c, 8 * J, 8 * I, 8, 4) ==> B[r, c] == A[c, r]
    ensures forall r, c :: In(r, c, 8 * J, 8 * I + 4, 8, 4) ==> B[r, c] == old(B[8 * C1I + c - 8 * I - 4, 8 * C1J + r - 8 * J])
    ensures forall r, c :: 0 <= r < B.Length0 && 0 <= c < B.Length1 && !In(r, c, 8 * J, 8 * I, 8, 8) ==>
              B[r, c] == old(B[r, c])
  {
    BlocksApart(C1I, C1J, J, I);
    for j := 0 to 8
      invariant forall r, c :: In(r, c, 8 * J, 8 * I, j, 4) ==> B[r, c] == A[c, r]
      invariant forall r, c :: In(r, c, 8 * J, 8 * I + 4, j, 4) ==> B[r, c] == old(B[8 * C1I + c - 8 * I - 4, 8 * C1J + r - 8 * J])
      invariant forall r, c :: 0 <= r < B.Length0 && 0 <= c < B.Length1 && !In(r, c, 8 * J, 8 * I, j, 8) ==>
                  B[r, c] == old(B[r, c])
    {
      OffColumn(A, B, I, J, C1I, C1J, j);
    }
  }

  /** The last loop nest of blockTranspose64 with tag 1: the top half from A, the bottom half from tmp. */
  method Back64Tmp<T>(A: array2<T>, B: array2<T>, tmp: array<T>, I: nat, J: nat)
    requires Shapes(A, B) && 8 * I + 8 <= A.Length0 && 8 * J + 8 <= A.Length1 && TmpCount <= tmp.Length
    modifies B
    ensures forall r, c :: In(r, c, 8 * J, 8 * I, 8, 4) ==> B[r, c] == A[c, r]
    ensures forall r, c :: In(r, c, 8 * J, 8 * I + 4, 8, 4) ==> B[r, c] == tmp[64 * (c - 8 * I - 4) + r - 8 * J]
    ensures forall r, c :: 0 <= r < B.Length0 && 0 <= c < B.Length1 && !In(r, c, 8 * J, 8 * I, 8, 8) ==>
              B[r, c] == old(B[r, c])
  {
    for j := 0 to 8
      invariant forall r, c :: In(r, c, 8 * J, 8 * I, j, 4) ==> B[r, c] == A[c, r]
      invariant forall r, c :: In(r, c, 8 * J, 8 * I + 4, j, 4) ==> B[r, c] == tmp[64 * (c - 8 * I - 4) + r - 8 * J]
      invariant forall r, c :: 0 <= r < B.Length0 && 0 <= c < B.Length1 && !In(r, c, 8 * J, 8 * I, j, 8) ==>
                  B[r, c] == old(B[r, c])
    {
      ColFromA(A, B, 8 * J + j, 8 * I, 8 * I, 8 * J + j);
      ColFromTmp(B, tmp, 8 * J + j, 8 * I + 4, j);
    }
  }

  /** One step of Back64Diag: column j of the target block, i.e. row 8 * J + j of B. */
  method DiagColumn<T>(B: array2<T>, I: nat, J: nat, C1I: nat, C1J: nat, C3I: nat, C3J: nat, j: nat)
    requires 8 * J + 8 <= B.Length0 && 8 * I + 8 <= B.Length1 && j < 8
    requires 8 * C1I + 4 <= B.Length0 && 8 * C1J + 8 <= B.Length1 && (C1I, C1J) != (J, I)
    requires 8 * C3I + 4 <= B.Length0 && 8 * C3J + 8 <= B.Length1 && (C3I, C3J) != (J, I)
    modifies B
    ensures forall r, c :: In(r, c, 8 * J + j, 8 * I, 1, 4) ==> B[r, c] == old(B[8 * C3I + c - 8 * I, 8 * C3J + r - 8 * J])
    ensures forall r, c :: In(r, c, 8 * J + j, 8 * I + 4, 1, 4) ==> B[r, c] == old(B[8 * C1I + c - 8 * I - 4, 8 * C1J + r - 8 * J])
    ensures forall r, c :: 0 <= r < B.Length0 && 0 <= c < B.Length1 && !In(r, c, 8 * J + j, 8 * I, 1, 8) ==>
              B[r, c] == old(B[r, c])
  {
    BlocksApart(C1I, C1J, J, I);
    BlocksApart(C3I, C3J, J, I);
    ColFromB(B, 8 * J + j, 8 * I, 8 * C3I, 8 * C3J + j);
    ColFromB(B, 8 * J + j, 8 * I + 4, 8 * C1I, 8 * C1J + j);
  }

  /** One step of Back64Off: row 8 * J + j of B. */
  method OffColumn<T>(A: array2<T>, B: array2<T>, I: nat, J: nat, C1I: nat, C1J: nat, j: nat)
    requires Shapes(A, B) && 8 * I + 8 <= A.Length0 && 8 * J + 8 <= A.Length1 && j < 8
    requires 8 * C1I + 4 <= B.Length0 && 8 * C1J + 8 <= B.Length1 && (C1I, C1J) != (J, I)
    modifies B
    ensures forall r, c :: In(r, c, 8 * J + j, 8 * I, 1, 4) ==> B[r, c] == A[c, r]
    ensures forall r, c :: In(r, c, 8 * J + j, 8 * I + 4, 1, 4) ==> B[r, c] == old(B[8 * C1I + c - 8 * I - 4, 8 * C1J + r - 8 * J])
    ensures forall r, c :: 0 <= r < B.Length0 && 0 <= c < B.Length1 && !In(r, c, 8 * J + j, 8 * I, 1, 8) ==>
              B[r, c] == old(B[r, c])
  {
    BlocksApart(C1I, C1J, J, I);
    ColFromA(A, B, 8 * J + j, 8 * I, 8 * I, 8 * J + j);
    ColFromB(B, 8 * J + j, 8 * I + 4, 8 * C1I, 8 * C1J + j);
  }

  /**
   * blockTranspose64: B block (J, I) becomes the transpose of A block (I, J).
   * A diagonal block (I == J) stages A's top four rows in the top half of B
   * block (C3I, C3J) and its bottom four rows in the top half of B block
   * (C1I, C1J); an off-diagonal block with tag 0 stages only the bottom four
   * rows, in B block (C1I, C1J); with tag 1 it stages them in tmp instead.
   * C2I and C2J are never read.
   */
  method BlockTranspose64<T>(A: array2<T>, B: array2<T>, tmp: array<T>, tag: int, I: nat, J: nat,
                             C1I: nat, C1J: nat, C2I: nat, C2J: nat, C3I: nat, C3J: nat)
    requires Shapes(A, B) && 8 * I + 8 <= A.Length0 && 8 * J + 8 <= A.Length1
    requires I == J || tag == 0 ==> 8 * C1I + 4 <= B.Length0 && 8 * C1J + 8 <= B.Length1 && (C1I, C1J) != (J, I)
    requires I == J ==> 8 * C3I + 4 <= B.Length0 && 8 * C3J + 8 <= B.Length1 && (C3I, C3J) != (J, I) &&
                        (C3I, C3J) != (C1I, C1J)
    requires I != J && tag != 0 ==> TmpCount <= tmp.Length
    modifies B, tmp
    ensures forall r, c :: In(r, c, 8 * J, 8 * I, 8, 8) ==> B[r, c] == A[c, r]
    ensures forall r, c ::
              0 <= r < B.Length0 && 0 <= c < B.Length1 && !In(r, c, 8 * J, 8 * I, 8, 8) &&
              !((I == J || tag == 0) && In(r, c, 8 * C1I, 8 * C1J, 4, 8)) && !(I == J && In(r, c, 8 * C3I, 8 * C3J, 4, 8))
              ==> B[r, c] == old(B[r, c])
    ensures forall k :: 0 <= k < tmp.Length && !(I != J && tag != 0 && k < 256 && k % 64 < 8) ==> tmp[k] == old(tmp[k])
  {
    if I == J {
      Diag64(A, B, I, J, C1I, C1J, C3I, C3J);
    } else if tag == 0 {
      Off64(A, B, I, J, C1I, C1J);
    } else {
      Tmp64(A, B, tmp, I, J);
    }
  }

  /** The I == J branch of blockTranspose64. */
  method Diag64<T>(A: array2<T>, B: array2<T>, I: nat, J: nat, C1I: nat, C1J: nat, C3I: nat, C3J: nat)
    requires Shapes(A, B) && 8 * I + 8 <= A.Length0 && 8 * J + 8 <= A.Length1
    requires 8 * C1I + 4 <= B.Length0 && 8 * C1J + 8 <= B.Length1 && (C1I, C1J) != (J, I)
    requires 8 * C3I + 4 <= B.Length0 && 8 * C3J + 8 <= B.Length1 && (C3I, C3J) != (J, I) && (C3I, C3J) != (C1I, C1J)
    modifies B
    ensures forall r, c :: In(r, c, 8 * J, 8 * I, 8, 8) ==> B[r, c] == A[c, r]
    ensures forall r, c ::
              0 <= r < B.Length0 && 0 <= c < B.Length1 && !In(r, c, 8 * J, 8 * I, 8, 8) &&
              !In(r, c, 8 * C1I, 8 * C1J, 4, 8) && !In(r, c, 8 * C3I, 8 * C3J, 4, 8)
              ==> B[r, c] == old(B[r, c])
  {
    BlocksApart(C3I, C3J, C1I, C1J);
    BlocksApart(C1I, C1J, J, I);
    BlocksApart(C3I, C3J, J, I);
    CopyRows(A, B, 8 * I, 8 * J, 8 * C3I, 8 * C3J, 4);
    CopyRows(A, B, 8 * I + 4, 8 * J, 8 * C1I, 8 * C1J, 4);
    label staged:
    Back64Diag(B, I, J, C1I, C1J, C3I, C3J);
    forall r, c | In(r, c, 8 * J, 8 * I, 8, 8)
      ensures B[r, c] == A[c, r]
    {
      if c < 8 * I + 4 {
        assert B[r, c] == old@staged(B[8 * C3I + c - 8 * I, 8 * C3J + r - 8 * J]);
      } else {
        assert B[r, c] == old@staged(B[8 * C1I + c - 8 * I - 4, 8 * C1J + r - 8 * J]);
      }
    }
  }

  /** The I != J, tag 0 branch of blockTranspose64. */
  method Off64<T>(A: array2<T>, B: array2<T>, I: nat, J: nat, C1I: nat, C1J: nat)
    requires Shapes(A, B) && 8 * I + 8 <= A.Length0 && 8 * J + 8 <= A.Length1
    requires 8 * C1I + 4 <= B.Length0 && 8 * C1J + 8 <= B.Length1 && (C1I, C1J) != (J, I)
    modifies B
    ensures forall r, c :: In(r, c, 8 * J, 8 * I, 8, 8) ==> B[r, c] == A[c, r]
    ensures forall r, c ::
              0 <= r < B.Length0 && 0 <= c < B.Length1 && !In(r, c, 8 * J, 8 * I, 8, 8) &&
              !In(r, c, 8 * C1I, 8 * C1J, 4, 8)
              ==> B[r, c] == old(B[r, c])
  {
    CopyRows(A, B, 8 * I + 4, 8 * J, 8 * C1I, 8 * C1J, 4);
    label staged:
    Back64Off(A, B, I, J, C1I, C1J);
    forall r, c | In(r, c, 8 * J, 8 * I + 4, 8, 4)
      ensures B[r, c] == A[c, r]
    {
      assert B[r, c] == old@staged(B[8 * C1I + c - 8 * I - 4, 8 * C1J + r - 8 * J]);
    }
  }

  /** The I != J, tag 1 branch of blockTranspose64. */
  method Tmp64<T>(A: array2<T>, B: array2<T>, tmp: array<T>, I: nat, J: nat)
    requires Shapes(A, B) && 8 * I + 8 <= A.Length0 && 8 * J + 8 <= A.Length1 && TmpCount <= tmp.Length
    modifies B, tmp
    ensures forall r, c :: In(r, c, 8 * J, 8 * I, 8, 8) ==> B[r, c] == A[c, r]
    ensures forall r, c :: 0 <= r < B.Length0 && 0 <= c < B.Length1 && !In(r, c, 8 * J, 8 * I, 8, 8) ==>
              B[r, c] == old(B[r, c])
    ensures forall k :: 0 <= k < tmp.Length && !(k < 256 && k % 64 < 8) ==> tmp[k] == old(tmp[k])
  {
    StageTmp(A, tmp, 8 * I + 4, 8 * J);
    Back64Tmp(A, B, tmp, I, J);
    forall r, c | In(r, c, 8 * J, 8 * I + 4, 8, 4)
      ensures B[r, c] == A[c, r]
    {
      TmpSlot(c - 8 * I - 4, r - 8 * J);
    }
  }

  /** tmp[64 * i + j], for i < 4 and j < 8, is among the 32 slots StageTmp fills, and names i and j. */
  lemma TmpSlot(i: nat, j: nat)
    requires i < 4 && j < 8
    ensures 64 * i + j < 256 && (64 * i + j) / 64 == i && (64 * i + j) % 64 == j
  {
  }

  /* ---------------------------------------------------------------------- */
  /* transpose_submit                                                        */

  /** The arguments I, J, CI, CJ of one blockTranspose32 call. */
  datatype Call32 = Call32(i: nat, j: nat, ci: nat, cj: nat)

  /** The arguments tag, I, J, C1I, C1J, C2I, C2J, C3I, C3J of one blockTranspose64 call. */
  datatype Call64 = Call64(tag: int, i: nat, j: nat, c1i: nat, c1j: nat, c2i: nat, c2j: nat, c3i: nat, c3j: nat)

  /** The sixteen blockTranspose32 calls of transpose_submit, in order. */
  const Calls32: seq<Call32> := [
    Call32(0, 0, 0, 1), Call32(1, 0, 0, 1), Call32(2, 0, 0, 1), Call32(3, 0, 0, 1),
    Call32(0, 1, 0, 1), Call32(1, 1, 1, 2), Call32(2, 1, 0, 1), Call32(3, 1, 0, 1),
    Call32(0, 2, 0, 1), Call32(1, 2, 0, 1), Call32(2, 2, 2, 3), Call32(3, 2, 0, 1),
    Call32(0, 3, 0, 1), Call32(1, 3, 0, 1), Call32(3, 3, 3, 2), Call32(2, 3, 0, 1)
  ]

  /** The sixty-four blockTranspose64 calls of transpose_submit, in order, eight to a row. */
  const Calls64: seq<seq<Call64>> := [Calls64Row0, Calls64Row1, Calls64Row2, Calls64Row3,
                                      Calls64Row4, Calls64Row5, Calls64Row6, Calls64Row7]
  const Calls64Row0: seq<Call64> :=
    [Call64(0, 0, 0, 0, 1, 0, 2, 0, 3), Call64(0, 1, 0, 0, 2, 0, 3, 0, 0), Call64(0, 2, 0, 0, 3, 0, 4, 0, 0), Call64(0, 3, 0, 0, 4, 0, 5, 0, 0), Call64(0, 4, 0, 0, 5, 0, 6, 0, 0), Call64(0, 5, 0, 0, 6, 0, 7, 0, 0), Call64(0, 6, 0, 0, 7, 1, 2, 0, 0), Call64(0, 7, 0, 1, 2, 1, 3, 0, 0)]
  const Calls64Row1: seq<Call64> :=
    [Call64(0, 1, 1, 1, 2, 1, 3, 1, 4), Call64(0, 2, 1, 1, 3, 1, 4, 0, 0), Call64(0, 3, 1, 1, 4, 1, 5, 0, 0), Call64(0, 4, 1, 1, 5, 1, 6, 0, 0), Call64(0, 5, 1, 1, 6, 1, 7, 0, 0), Call64(0, 6, 1, 1, 7, 1, 0, 0, 0), Call64(0, 7, 1, 1, 0, 2, 3, 0, 0), Call64(0, 0, 1, 2, 3, 2, 4, 0, 0)]
  const Calls64Row2: seq<Call64> :=
    [Call64(0, 2, 2, 2, 3, 2, 4, 2, 5), Call64(0, 3, 2, 2, 4, 2, 5, 0, 0), Call64(0, 4, 2, 2, 5, 2, 6, 0, 0), Call64(0, 5, 2, 2, 6, 2, 7, 0, 0), Call64(0, 6, 2, 2, 7, 2, 0, 0, 0), Call64(0, 7, 2, 2, 0, 2, 1, 0, 0), Call64(0, 0, 2, 2, 1, 3, 4, 0, 0), Call64(0, 1, 2, 3, 4, 3, 5, 0, 0)]
  const Calls64Row3: seq<Call64> :=
    [Call64(0, 3, 3, 3, 4, 3, 5, 3, 6), Call64(0, 4, 3, 3, 5, 3, 6, 0, 0), Call64(0, 5, 3, 3, 6, 3, 7, 0, 0), Call64(0, 6, 3, 3, 7, 3, 0, 0, 0), Call64(0, 7, 3, 3, 0, 3, 1, 0, 0), Call64(0, 0, 3, 3, 1, 3, 2, 0, 0), Call64(0, 1, 3, 3, 2, 4, 5, 0, 0), Call64(0, 2, 3, 4, 5, 4, 6, 0, 0)]
  const Calls64Row4: seq<Call64> :=
    [Call64(0, 4, 4, 4, 5, 4, 6, 4, 7), Call64(0, 5, 4, 4, 6, 4, 7, 0, 0), Call64(0, 6, 4, 4, 7, 4, 0, 0, 0), Call64(0, 7, 4, 4, 0, 4, 1, 0, 0), Call64(0, 0, 4, 4, 1, 4, 2, 0, 0), Call64(0, 1, 4, 4, 2, 4, 3, 0, 0), Call64(0, 2, 4, 4, 3, 5, 6, 0, 0), Call64(0, 3, 4, 5, 6, 5, 7, 0, 0)]
  const Calls64Row5: seq<Call64> :=
    [Call64(0, 5, 5, 5, 6, 5, 7, 5, 0), Call64(0, 6, 5, 5, 7, 5, 0, 0, 0), Call64(0, 7, 5, 5, 0, 5, 1, 0, 0), Call64(0, 0, 5, 5, 1, 5, 2, 0, 0), Call64(0, 1, 5, 5, 2, 5, 3, 0, 0), Call64(0, 2, 5, 5, 3, 5, 4, 0, 0), Call64(0, 3, 5, 5, 4, 6, 7, 0, 0), Call64(0, 4, 5, 6, 7, 6, 0, 0, 0)]
  const Calls64Row6: seq<Call64> :=
    [Call64(0, 6, 6, 6, 7, 6, 0, 6, 1), Call64(0, 7, 6, 6, 0, 6, 1, 0, 0), Call64(0, 0, 6, 6, 1, 6, 2, 0, 0), Call64(0, 1, 6, 6, 2, 6, 3, 0, 0), Call64(0, 2, 6, 6, 3, 6, 4, 0, 0), Call64(0, 3, 6, 6, 4, 6, 5, 0, 0), Call64(0, 4, 6, 6, 5, 7, 0, 0, 0), Call64(0, 5, 6, 7, 0, 7, 1, 0, 0)]
  const Calls64Row7: seq<Call64> :=
    [Call64(0, 7, 7, 7, 0, 7, 1, 7, 2), Call64(0, 0, 7, 7, 1, 7, 2, 0, 0), Call64(0, 1, 7, 7, 2, 7, 3, 0, 0), Call64(0, 2, 7, 7, 3, 7, 4, 0, 0), Call64(0, 3, 7, 7, 4, 7, 5, 0, 0), Call64(0, 4, 7, 7, 5, 7, 6, 0, 0), Call64(0, 5, 7, 7, 6, 0, 0, 0, 0), Call64(1, 6, 7, 0, 0, 0, 0, 0, 0)]

  /**
   * The position in the 32 x 32 call sequence of the call that fills B block
   * (bi, bj): row by row, except that the last row does (3, 3) before (3, 2).
   */
  function Order32(bi: nat, bj: nat): nat
  {
    if bi == 3 && 2 <= bj <= 3 then 17 - bj else 4 * bi + bj
  }

  /** The position in the 64 x 64 call sequence of the call that fills B block (bi, bj): row by row, each row starting on the diagonal. */
  function Order64(bi: nat, bj: nat): nat
  {
    8 * bi + (bj - bi + 8) % 8
  }

  /** Order32 numbers the sixteen blocks 0..15, each exactly once. */
  lemma Order32Bijective(a: nat, b: nat, c: nat, d: nat)
    requires a < 4 && b < 4 && c < 4 && d < 4
    ensures Order32(a, b) < 16
    ensures Order32(a, b) == Order32(c, d) ==> a == c && b == d
  {
  }

  /** Order64 numbers the sixty-four blocks 0..63, each exactly once. */
  lemma Order64Bijective(a: nat, b: nat, c: nat, d: nat)
    requires a < 8 && b < 8 && c < 8 && d < 8
    ensures Order64(a, b) < 64
    ensures Order64(a, b) == Order64(c, d) ==> a == c && b == d
  {
  }

  /**
   * Call k of the 32 x 32 sequence fills the block numbered k, and a diagonal
   * call stages A's block in a block that a later call fills.
   */
  lemma Calls32Ok(k: nat)
    requires k < 16
    ensures Calls32[k].i < 4 && Calls32[k].j < 4 && Order32(Calls32[k].j, Calls32[k].i) == k
    ensures Calls32[k].i == Calls32[k].j ==>
              Calls32[k].ci < 4 && Calls32[k].cj < 4 && Order32(Calls32[k].ci, Calls32[k].cj) > k
  {
  }

  /** Call k of the 64 x 64 sequence: the block it fills and the blocks it stages in. */
  predicate Call64Ok(c: Call64, k: nat)
  {
    c.i < 8 && c.j < 8 && Order64(c.j, c.i) == k &&
    (c.i == c.j || c.tag == 0 ==> c.c1i < 8 && c.c1j < 8 && Order64(c.c1i, c.c1j) > k) &&
    (c.i == c.j ==> c.c3i < 8 && c.c3j < 8 && Order64(c.c3i, c.c3j) > k && (c.c3i, c.c3j) != (c.c1i, c.c1j))
  }

  /**
   * Call k of the 64 x 64 sequence fills the block numbered k; every block it
   * stages rows in is filled by a later call, and a diagonal call stages in
   * two different blocks.
   */
  lemma Calls64Ok(k: nat)
    requires k < 64
    ensures Call64Ok(Calls64[k / 8][k % 8], k)
  {
    var row, col := k / 8, k % 8;
    if row == 0 {
      Row0Ok(col);
    } else if row == 1 {
      Row1Ok(col);
    } else if row == 2 {
      Row2Ok(col);
    } else if row == 3 {
      Row3Ok(col);
    } else if row == 4 {
      Row4Ok(col);
    } else if row == 5 {
      Row5Ok(col);
    } else if row == 6 {
      Row6Ok(col);
    } else {
      Row7Ok(col);
    }
  }

  /** Call64Ok for row 0 of the 64 x 64 sequence. */
  lemma Row0Ok(col: nat)
    requires col < 8
    ensures Call64Ok(Calls64Row0[col], 0 + col)
  {
  }

  /** Call64Ok for row 1 of the 64 x 64 sequence. */
  lemma Row1Ok(col: nat)
    requires col < 8
    ensures Call64Ok(Calls64Row1[col], 8 + col)
  {
  }

  /** Call64Ok for row 2 of the 64 x 64 sequence. */
  lemma Row2Ok(col: nat)
    requires col < 8
    ensures Call64Ok(Calls64Row2[col], 16 + col)
  {
  }

  /** Call64Ok for row 3 of the 64 x 64 sequence. */
  lemma Row3Ok(col: nat)
    requires col < 8
    ensures Call64Ok(Calls64Row3[col], 24 + col)
  {
  }

  /** Call64Ok for row 4 of the 64 x 64 sequence. */
  lemma Row4Ok(col: nat)
    requires col < 8
    ensures Call64Ok(Calls64Row4[col], 32 + col)
  {
  }

  /** Call64Ok for row 5 of the 64 x 64 sequence. */
  lemma Row5Ok(col: nat)
    requires col < 8
    ensures Call64Ok(Calls64Row5[col], 40 + col)
  {
  }

  /** Call64Ok for row 6 of the 64 x 64 sequence. */
  lemma Row6Ok(col: nat)
    requires col < 8
    ensures Call64Ok(Calls64Row6[col], 48 + col)
  {
  }

  /** Call64Ok for row 7 of the 64 x 64 sequence. */
  lemma Row7Ok(col: nat)
    requires col < 8
    ensures Call64Ok(Calls64Row7[col], 56 + col)
  {
  }

  /** Cell (r, c) lies in the 8 x 8 block (a, b) exactly when r / 8 == a and c / 8 == b. */
  lemma BlockOf(r: nat, c: nat, a: nat, b: nat)
    ensures In(r, c, 8 * a, 8 * b, 8, 8) <==> r / 8 == a && c / 8 == b
  {
  }

  /** The 32 x 32 branch of transpose_submit: the sixteen block calls, in order. */
  method Submit32<T>(A: array2<T>, B: array2<T>)
    requires Shapes(A, B) && A.Length0 == 32 && A.Length1 == 32
    modifies B
    ensures Transposed(A, B)
  {
    for k := 0 to 16
      invariant forall r, c :: 0 <= r < 32 && 0 <= c < 32 && Order32(r / 8, c / 8) < k ==> B[r, c] == A[c, r]
    {
      var call := Calls32[k];
      Calls32Ok(k);
      BlockTranspose32(A, B, call.i, call.j, call.ci, call.cj);
      forall r, c | 0 <= r < 32 && 0 <= c < 32 && Order32(r / 8, c / 8) < k + 1
        ensures B[r, c] == A[c, r]
      {
        BlockOf(r, c, call.j, call.i);
        Order32Bijective(r / 8, c / 8, call.j, call.i);
        BlockOf(r, c, call.ci, call.cj);
      }
    }
    forall r, c | 0 <= r < 32 && 0 <= c < 32
      ensures B[r, c] == A[c, r]
    {
      Order32Bijective(r / 8, c / 8, 0, 0);
    }
  }

  /** The 64 x 64 branch of transpose_submit: the sixty-four block calls, in order. */
  method Submit64<T>(A: array2<T>, B: array2<T>, tmp: array<T>)
    requires Shapes(A, B) && A.Length0 == 64 && A.Length1 == 64 && TmpCount <= tmp.Length
    modifies B, tmp
    ensures Transposed(A, B)
  {
    for k := 0 to 64
      invariant forall r, c :: 0 <= r < 64 && 0 <= c < 64 && Order64(r / 8, c / 8) < k ==> B[r, c] == A[c, r]
    {
      var call := Calls64[k / 8][k % 8];
      Calls64Ok(k);
      BlockTranspose64(A, B, tmp, call.tag, call.i, call.j, call.c1i, call.c1j, call.c2i, call.c2j, call.c3i, call.c3j);
      forall r, c | 0 <= r < 64 && 0 <= c < 64 && Order64(r / 8, c / 8) < k + 1
        ensures B[r, c] == A[c, r]
      {
        BlockOf(r, c, call.j, call.i);
        Order64Bijective(r / 8, c / 8, call.j, call.i);
        BlockOf(r, c, call.c1i, call.c1j);
        BlockOf(r, c, call.c3i, call.c3j);
      }
    }
    forall r, c | 0 <= r < 64 && 0 <= c < 64
      ensures B[r, c] == A[c, r]
    {
      Order64Bijective(r / 8, c / 8, 0, 0);
    }
  }

  /** blocks * b reaches n when blocks is (n - 1) / b + 1, the block count blockTranspose6365 uses. */
  lemma {:induction false} CoverBound(n: nat, b: nat, blocks: nat)
    requires n > 0 && b > 0 && blocks == (n - 1) / b + 1
    ensures blocks * b >= n
  {
    var q, rem := (n - 1) / b, (n - 1) % b;
    assert n - 1 == q * b + rem;
    assert blocks * b == q * b + b;
  }

  /** One tile of blockTranspose6365: up to bh rows of A from row top, up to bw columns from column left. */
  method Tile<T>(A: array2<T>, B: array2<T>, top: nat, left: nat, bw: nat, bh: nat)
    requires Shapes(A, B)
    modifies B
    ensures forall r, c :: In(r, c, left, top, bw, bh) && r < B.Length0 && c < B.Length1 ==> B[r, c] == A[c, r]
    ensures forall r, c :: 0 <= r < B.Length0 && 0 <= c < B.Length1 && !In(r, c, left, top, bw, bh) ==>
              B[r, c] == old(B[r, c])
  {
    var k := 0;
    while k < bh && top + k < A.Length0
      invariant k <= bh
      invariant forall r, c :: In(r, c, left, top, bw, k) && r < B.Length0 && c < B.Length1 ==> B[r, c] == A[c, r]
      invariant forall r, c :: 0 <= r < B.Length0 && 0 <= c < B.Length1 && !In(r, c, left, top, bw, k) ==>
                  B[r, c] == old(B[r, c])
    {
      var l := 0;
      while l < bw && left + l < A.Length1
        invariant l <= bw
        invariant forall r, c :: In(r, c, left, top, bw, k) && r < B.Length0 && c < B.Length1 ==> B[r, c] == A[c, r]
        invariant forall r, c :: In(r, c, left, top + k, l, 1) && r < B.Length0 && c < B.Length1 ==> B[r, c] == A[c, r]
        invariant forall r, c ::
                    0 <= r < B.Length0 && 0 <= c < B.Length1 && !In(r, c, left, top, bw, k) &&
                    !In(r, c, left, top + k, l, 1)
                    ==> B[r, c] == old(B[r, c])
      {
        B[left + l, top + k] := A[top + k, left + l];
        l := l + 1;
      }
      k := k + 1;
    }
  }

  /** One row of tiles of blockTranspose6365: rows top..top + blockN - 1 of A, tile by tile. */
  method TileRow<T>(A: array2<T>, B: array2<T>, top: nat, blockM: nat, blockN: nat, zg: nat)
    requires Shapes(A, B) && zg * blockM >= A.Length1
    modifies B
    ensures forall r, c :: 0 <= r < B.Length0 && top <= c < top + blockN && c < B.Length1 ==> B[r, c] == A[c, r]
    ensures forall r, c :: 0 <= r < B.Length0 && 0 <= c < B.Length1 && !(top <= c < top + blockN) ==>
              B[r, c] == old(B[r, c])
  {
    var left := 0;
    for j := 0 to zg
      invariant left == j * blockM
      invariant forall r, c :: In(r, c, 0, top, left, blockN) && r < B.Length0 && c < B.Length1 ==> B[r, c] == A[c, r]
      invariant forall r, c :: 0 <= r < B.Length0 && 0 <= c < B.Length1 && !(top <= c < top + blockN) ==>
                  B[r, c] == old(B[r, c])
    {
      Tile(A, B, top, left, blockM, blockN);
      left := left + blockM;
    }
  }

  /**
   * blockTranspose6365: A cut into tiles of blockN rows by blockM columns,
   * transposed tile by tile, row of tiles by row of tiles.
   */
  method BlockTranspose6365<T>(A: array2<T>, B: array2<T>, tmp: array<T>, blockM: nat, blockN: nat)
    requires Shapes(A, B) && A.Length0 > 0 && A.Length1 > 0 && blockM > 0 && blockN > 0
    modifies B
    ensures Transposed(A, B)
  {
    var hg := (A.Length0 - 1) / blockN + 1;
    var zg := (A.Length1 - 1) / blockM + 1;
    CoverBound(A.Length0, blockN, hg);
    CoverBound(A.Length1, blockM, zg);
    var top := 0;
    for i := 0 to hg
      invariant top == i * blockN
      invariant forall r, c :: 0 <= r < B.Length0 && 0 <= c < B.Length1 && c < top ==> B[r, c] == A[c, r]
    {
      TileRow(A, B, top, blockM, blockN, zg);
      top := top + blockN;
    }
  }

  /**
   * transpose_submit: the routine chosen by the matrix shape (M columns and
   * N rows of A); every shape ends with B the transpose of A.
   */
  method TransposeSubmit<T>(A: array2<T>, B: array2<T>, tmp: array<T>)
    requires Shapes(A, B) && A.Length0 > 0 && A.Length1 > 0 && TmpCount <= tmp.Length
    modifies B, tmp
    ensures Transposed(A, B)
  {
    var M, N := A.Length1, A.Length0;
    if M == 32 && N == 32 {
      Submit32(A, B);
    } else if M == 64 && N == 64 {
      Submit64(A, B, tmp);
    } else if M == 63 && N == 65 {
      BlockTranspose6365(A, B, tmp, 4, 16);
    } else {
      Trans(A, B, tmp);
    }
  }
}
