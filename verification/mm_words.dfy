/**
 * The allocator's words: the three flag bits and the size field of a block
 * header or footer, the link words of a 16-byte block, and the size
 * arithmetic (bucket index and rounding to the 16-byte alignment).
 *
 * A word is an unsigned 64-bit value, read with `/`, `%`, `+` and `-` as the
 * allocator reads it. Bit 0 is the allocated bit, bit 1 the prev-allocated
 * bit, bit 2 the small-block bit, and the size sits in the bits from 4 up.
 */
module MallocWords {
  import opened Arith

  /** A 16-byte block: its two words are its free-list links, each with the flags in its low bits. */
  const SmallSize: nat := 16
  /** The bytes in a heap word. */
  const WordSize: nat := 8
  /** The alignment of payloads and block sizes. */
  const Alignment: nat := 16
  /** The least number of bytes the heap grows by. */
  const ChunkSize: nat := 4096
  /** The number of buckets for blocks of 32 bytes or more. */
  const SegNum: nat := 8
  /** The most candidates a best-fit scan weighs before it stops. */
  const FindThres: nat := 9

  predicate IsAlloc(w: nat)
  {
    w % 2 == 1
  }

  predicate IsPrevAlloc(w: nat)
  {
    (w / 2) % 2 == 1
  }

  predicate IsSmall(w: nat)
  {
    (w / 4) % 2 == 1
  }

  /** The size field of a header or footer: the word with its low four bits cleared. */
  function SizeField(w: nat): (s: nat)
    ensures s % 16 == 0 && s <= w && w - s < 16
  {
    w / 16 * 16
  }

  /** getSize: 16 for a small block, else the size field of its header. */
  function BlockSize(h: nat): (s: nat)
    ensures s % 16 == 0
    ensures IsSmall(h) ==> s == SmallSize
    ensures !IsSmall(h) ==> s <= h < s + 16
  {
    if IsSmall(h) then SmallSize else SizeField(h)
  }

  /** The low three bits, which hold the flags. */
  function Flags(w: nat): (f: nat)
    ensures f < 8
  {
    w % 8
  }

  /** A word as 8 * q + f with f its low three bits: the flags are read from f. */
  lemma FlagsOfLow(w: nat, q: nat, f: nat)
    requires f < 8 && w == 8 * q + f
    ensures IsAlloc(w) == (f % 2 == 1)
    ensures IsPrevAlloc(w) == (f / 2 % 2 == 1)
    ensures IsSmall(w) == (f >= 4)
    ensures w % 8 == f && w / 8 == q
  {
    assert w / 2 == 4 * q + f / 2;
    assert w / 4 == 2 * q + f / 4;
    Mod2Shift(2 * q, f / 2);
    Mod2Shift(q, f / 4);
  }

  lemma Mod2Shift(a: nat, b: nat)
    ensures (2 * a + b) % 2 == b % 2
  {
  }

  /** A word as 16 * q + f with f < 16: its size field is 16 * q. */
  lemma FieldOfLow(w: nat, q: nat, f: nat)
    requires f < 16 && w == 16 * q + f
    ensures w / 16 == q && SizeField(w) == 16 * q
  {
  }

  /**
   * tianHF: the word for a block of sz bytes (rounded down to a multiple of
   * 16) with the allocated bit isM and the prev-allocated bit taken from the
   * word it overwrites.
   */
  function TianHF(prior: nat, sz: nat, isM: bool): nat
  {
    sz - sz % 16 + (if isM then 1 else 0) + (prior / 2) % 2 * 2
  }

  /** What tianHF writes: the size, the allocated bit isM, the old prev-allocated bit, and a cleared small-block bit. */
  lemma TianHFFields(prior: nat, sz: nat, isM: bool)
    ensures var w := TianHF(prior, sz, isM);
            SizeField(w) == sz - sz % 16 && IsAlloc(w) == isM &&
            IsPrevAlloc(w) == IsPrevAlloc(prior) && !IsSmall(w) && w % 16 < 4
  {
    var w := TianHF(prior, sz, isM);
    var low := (if isM then 1 else 0) + (prior / 2) % 2 * 2;
    var q := sz / 16;
    assert sz - sz % 16 == 16 * q;
    assert w == 16 * q + low && low < 4;
    FieldOfLow(w, q, low);
    FlagsOfLow(w, 2 * q, low);
    FlagsOfLow(prior, prior / 8, prior % 8);
  }

  /** setPrevMalloced on a header word: bit 1 becomes b. */
  function SetPrevWord(h: nat, b: bool): (r: nat)
  {
    (if IsPrevAlloc(h) then h - 2 else h) + (if b then 2 else 0)
  }

  /** setPrevMalloced changes bit 1 only. */
  lemma SetPrevWordFields(h: nat, b: bool)
    ensures var r := SetPrevWord(h, b);
            IsPrevAlloc(r) == b && IsAlloc(r) == IsAlloc(h) && IsSmall(r) == IsSmall(h) && r / 8 == h / 8
  {
    hide IsAlloc, IsPrevAlloc, IsSmall;
    var q, f := h / 8, h % 8;
    FlagsOfLow(h, q, f);
    var g := if IsPrevAlloc(h) then f - 2 else f;
    var g2 := g + (if b then 2 else 0);
    assert f == 0 || f == 1 || f == 2 || f == 3 || f == 4 || f == 5 || f == 6 || f == 7;
    assert g2 < 8 && g2 / 2 % 2 == (if b then 1 else 0) && g2 % 2 == f % 2 && (g2 >= 4) == (f >= 4);
    assert SetPrevWord(h, b) == 8 * q + g2;
    FlagsOfLow(8 * q + g2, q, g2);
  }

  /** Two words that differ at most in the prev-allocated bit. */
  predicate SameButPrev(x: nat, y: nat)
  {
    x / 8 == y / 8 && IsAlloc(x) == IsAlloc(y) && IsSmall(x) == IsSmall(y)
  }

  /** Changing only the prev-allocated bit keeps the block size and the link target. */
  lemma SameButPrevFields(x: nat, y: nat)
    requires SameButPrev(x, y)
    ensures BlockSize(x) == BlockSize(y) && LinkTarget(x) == LinkTarget(y)
  {
    var q := x / 8;
    FlagsOfLow(x, q, x % 8);
    FlagsOfLow(y, q, y % 8);
    FieldOfLow(x, q / 2, 8 * (q % 2) + x % 8);
    FieldOfLow(y, q / 2, 8 * (q % 2) + y % 8);
  }

  /** The three flags are read from the low three bits alone. */
  lemma SameFlags(x: nat, y: nat)
    requires Flags(x) == Flags(y)
    ensures IsAlloc(x) == IsAlloc(y) && IsPrevAlloc(x) == IsPrevAlloc(y) && IsSmall(x) == IsSmall(y)
  {
    FlagsOfLow(x, x / 8, x % 8);
    FlagsOfLow(y, y / 8, y % 8);
  }

  /** setMalloced adds one to a word whose allocated bit is clear: that sets the bit and keeps the rest. */
  lemma IncFields(w: nat)
    requires !IsAlloc(w)
    ensures IsAlloc(w + 1) && IsPrevAlloc(w + 1) == IsPrevAlloc(w) && IsSmall(w + 1) == IsSmall(w) && (w + 1) / 8 == w / 8
  {
    FlagsOfLow(w, w / 8, w % 8);
    FlagsOfLow(w + 1, w / 8, w % 8 + 1);
  }

  /** setFree subtracts one from a word whose allocated bit is set: that clears the bit and keeps the rest. */
  lemma DecFields(w: nat)
    requires IsAlloc(w)
    ensures !IsAlloc(w - 1) && IsPrevAlloc(w - 1) == IsPrevAlloc(w) && IsSmall(w - 1) == IsSmall(w) && (w - 1) / 8 == w / 8
  {
    FlagsOfLow(w, w / 8, w % 8);
    FlagsOfLow(w - 1, w / 8, w % 8 - 1);
  }

  /** setSmallBlock on one word: bit 2 is set if it was clear. */
  function SetSmallWord(w: nat): nat
  {
    if IsSmall(w) then w else w + 4
  }

  /** setSmallBlock sets bit 2 and keeps the other bits. */
  lemma SetSmallWordFields(w: nat)
    ensures var r := SetSmallWord(w);
            IsSmall(r) && IsAlloc(r) == IsAlloc(w) && IsPrevAlloc(r) == IsPrevAlloc(w) && r / 8 == w / 8
  {
    var q, f := w / 8, w % 8;
    FlagsOfLow(w, q, f);
    var g := if f >= 4 then f else f + 4;
    assert SetSmallWord(w) == 8 * q + g;
    FlagsOfLow(SetSmallWord(w), q, g);
  }

  /** The word index a link word points to: the byte address in it with the flag bits dropped, over the word size. */
  function LinkTarget(w: nat): nat
  {
    (w - w % 8) / WordSize
  }

  /** setNext and setPrev on a small block: the link word keeps its flag bits and points to block b. */
  function LinkWord(w: nat, b: nat): (r: nat)
    ensures LinkTarget(r) == b && Flags(r) == Flags(w)
  {
    WordSize * b + w % 8
  }

  /* ---------------------------------------------------------------------- */
  /* Sizes                                                                    */

  /** getFreeListIndex: the bucket of a block of sz bytes. */
  function GetFreeListIndex(sz: nat): (i: nat)
    ensures i < SegNum
  {
    if sz < 64 then 0
    else if sz < 128 then 1
    else if sz < 256 then 2
    else if sz < 512 then 3
    else if sz < 1024 then 4
    else if sz < 2048 then 5
    else if sz < 4096 then 6
    else 7
  }

  /** The smallest size bucket i holds; bucket 0 starts at 0. */
  function BucketLow(i: nat): nat
    requires i < SegNum
  {
    if i == 0 then 0 else 32 * Pow2(i)
  }

  function Pow2(n: nat): (p: nat)
    ensures p >= 1
  {
    if n == 0 then 1 else 2 * Pow2(n - 1)
  }

  /** Bucket i holds exactly the sizes from BucketLow(i) up to, not including, BucketLow(i + 1) (bucket 7: no bound). */
  lemma BucketRange(sz: nat, i: nat)
    requires i < SegNum
    ensures GetFreeListIndex(sz) == i <==> BucketLow(i) <= sz && (i + 1 < SegNum ==> sz < BucketLow(i + 1))
  {
    assert Pow2(1) == 2 && Pow2(2) == 4 && Pow2(3) == 8 && Pow2(4) == 16;
    assert Pow2(5) == 32 && Pow2(6) == 64 && Pow2(7) == 128;
  }

  /** A larger block never goes to a lower bucket. */
  lemma BucketMonotone(a: nat, b: nat)
    requires a <= b
    ensures GetFreeListIndex(a) <= GetFreeListIndex(b)
  {
  }

  /** Splitting a block of F bytes after sz bytes, both multiples of 16, leaves a multiple of 16: a small block or one of 32 bytes or more. */
  lemma SizeDiff(F: nat, sz: nat)
    requires F % 16 == 0 && sz % 16 == 0 && sz + 16 <= F
    ensures (F - sz) % 16 == 0 && (F - sz == SmallSize || F - sz >= 32)
    ensures (F - sz) / WordSize == F / WordSize - sz / WordSize && sz / WordSize * WordSize == sz
  {
    var a, b := sz / 16, F / 16;
    assert F - sz == 16 * (b - a);
    DivMod(F - sz, 16, b - a, 0);
    DivMod(F - sz, 8, 2 * (b - a), 0);
    DivMod(F, 8, 2 * b, 0);
    DivMod(sz, 8, 2 * a, 0);
  }

  /** getRoundSize: sz rounded up to a multiple of 16. */
  function GetRoundSize(sz: nat): nat
  {
    if sz % 16 == 0 then sz else 16 * (sz / 16 + 1)
  }

  /**
   * malloc's block size as written: size + 8 and the rounding are size_t
   * sums, which wrap at 2^64.
   */
  function MallocSizeAsWritten(size: nat): nat
    requires size < SizeMod
  {
    GetRoundSize((size + WordSize) % SizeMod) % SizeMod
  }

  /** A request of 2^64 - 8 bytes gets a block of no bytes at all, where it needs 2^64. */
  lemma MallocSizeWraps()
    ensures MallocSizeAsWritten(SizeMod - WordSize) == 0 && MallocSize(SizeMod - WordSize) == SizeMod
  {
  }

  /** malloc's block size: the request and its header word, rounded up to a multiple of 16, without wrapping. */
  function MallocSize(size: nat): (sz: nat)
    ensures LeastMultipleAbove(sz, size + WordSize)
  {
    GetRoundSizeLeast(size + WordSize);
    GetRoundSize(size + WordSize)
  }

  /** A positive request gets a 16-byte block or a multiple of 16 of at least 32 bytes, with room for the header word. */
  lemma MallocSizeShape(size: nat)
    requires 0 < size
    ensures MallocSize(size) == SmallSize || (32 <= MallocSize(size) && MallocSize(size) % 16 == 0)
    ensures size + WordSize <= MallocSize(size)
  {
  }

  /** Below the wrap, the block size as written is the intended one. */
  lemma MallocSizeAgrees(size: nat)
    requires size + WordSize + 15 < SizeMod
    ensures MallocSizeAsWritten(size) == MallocSize(size)
  {
    var s := size + WordSize;
    DivMod(s, SizeMod, 0, s);
    GetRoundSizeLeast(s);
    var g := GetRoundSize(s);
    DivMod(g, SizeMod, 0, g);
  }

  /**
   * Above 2^64 - 24 bytes the intended block reaches 2^64 bytes, while the
   * size as written wraps to a block of at most 16 bytes.
   */
  lemma MallocSizeWrapRange(size: nat)
    requires SizeMod - 24 < size < SizeMod
    ensures SizeMod <= MallocSize(size)
    ensures MallocSizeAsWritten(size) <= SmallSize
  {
  }

  /** align: x rounded up to the alignment. */
  function Align(x: nat): nat
  {
    Alignment * ((x + Alignment - 1) / Alignment)
  }

  /**
   * aligned: align(p) == p on size_t, whose sum wraps at 2^64. It holds
   * exactly for the multiples of 16; near 2^64 the wrapped sum gives 0.
   */
  function Aligned(p: nat): (b: bool)
    requires p < SizeMod
    ensures b <==> p % 16 == 0
  {
    var w := (p + Alignment - 1) % SizeMod;
    AlignLeast(p);
    assert p + Alignment - 1 < SizeMod ==> w == p + Alignment - 1;
    assert p + Alignment - 1 >= SizeMod ==> w == p + Alignment - 1 - SizeMod;
    (Alignment * (w / Alignment)) % SizeMod == p
  }

  /** r is the least multiple of 16 that is at least sz. */
  predicate LeastMultipleAbove(r: nat, sz: nat)
  {
    r % 16 == 0 && sz <= r < sz + 16
  }

  /** getRoundSize gives the least multiple of 16 at or above sz. */
  lemma GetRoundSizeLeast(sz: nat)
    ensures LeastMultipleAbove(GetRoundSize(sz), sz)
  {
  }

  /** align gives the least multiple of 16 at or above x. */
  lemma AlignLeast(x: nat)
    ensures LeastMultipleAbove(Align(x), x)
  {
    var q := (x + 15) / 16;
    assert 16 * q <= x + 15 < 16 * q + 16;
  }

  /** There is only one least multiple of 16 above sz; so getRoundSize and align agree. */
  lemma LeastMultipleUnique(r: nat, s: nat, sz: nat)
    requires LeastMultipleAbove(r, sz) && LeastMultipleAbove(s, sz)
    ensures r == s
  {
    assert r / 16 * 16 == r && s / 16 * 16 == s;
  }

  /** getRoundSize and align are the same function. */
  lemma RoundSizeIsAlign(sz: nat)
    ensures GetRoundSize(sz) == Align(sz)
  {
    GetRoundSizeLeast(sz);
    AlignLeast(sz);
    LeastMultipleUnique(GetRoundSize(sz), Align(sz), sz);
  }

  /* ---------------------------------------------------------------------- */
  /* calloc's size                                                            */

  /** 2^64: size_t arithmetic wraps modulo this. */
  const SizeMod: nat := 0x1_0000_0000_0000_0000

  /**
   * calloc's overflow test: the wrapped product nmemb * size, divided by
   * nmemb, must give size back. It does exactly when the product fits in 64
   * bits.
   */
  lemma CallocOverflowTest(nmemb: nat, size: nat)
    requires 0 < nmemb && size < SizeMod
    ensures ((nmemb * size) % SizeMod) / nmemb == size <==> nmemb * size < SizeMod
  {
    MulNonNeg(nmemb, size);
    var p := nmemb * size;
    var a := p % SizeMod;
    if p < SizeMod {
      DivMod(p, SizeMod, 0, p);
      DivMod(p, nmemb, size, 0);
    } else {
      assert a < SizeMod <= p;
      DivBelow(a, nmemb, size);
    }
  }

  /** An unsigned C division: a quotient, or a division by zero (a trap on the x86-64 machines the lab runs on). */
  datatype Division = DivideByZero | Quotient(q: nat)

  /** C's a / d on size_t. */
  function UDiv(a: nat, d: nat): (r: Division)
    ensures r.DivideByZero? <==> d == 0
  {
    if d == 0 then DivideByZero else Quotient(a / d)
  }

  /**
   * calloc's overflow test as written: the wrapped product divided by nmemb
   * and compared with size. With nmemb zero it divides by zero.
   */
  function CallocTestAsWritten(nmemb: nat, size: nat): Division
    requires nmemb < SizeMod && size < SizeMod
  {
    MulNonNeg(nmemb, size);
    UDiv((nmemb * size) % SizeMod, nmemb)
  }

  /** calloc(0, size) reaches the division with a zero divisor. */
  lemma CallocZeroDivides(size: nat)
    requires size < SizeMod
    ensures CallocTestAsWritten(0, size) == DivideByZero
  {
  }

  /**
   * calloc's overflow test with a zero count taken first: true exactly when
   * nmemb * size does not fit in 64 bits, and for a positive count the same
   * verdict as the test as written.
   */
  function CallocOverflows(nmemb: nat, size: nat): (o: bool)
    requires nmemb < SizeMod && size < SizeMod
    ensures o <==> nmemb * size >= SizeMod
    ensures nmemb > 0 ==> CallocTestAsWritten(nmemb, size).Quotient? && (o <==> CallocTestAsWritten(nmemb, size).q != size)
  {
    if nmemb == 0 then false
    else
      CallocOverflowTest(nmemb, size);
      ((nmemb * size) % SizeMod) / nmemb != size
  }
}
