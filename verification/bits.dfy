/**
 * The integer and IEEE 754 binary32 bit puzzles of the data lab.
 * A C `int` is a `bv32` read as two's complement; C's `>>` on a signed
 * value is the arithmetic shift `Sar`, written out explicitly.
 */
module Bits {

  /** Arithmetic (sign-filling) right shift of a 32-bit two's-complement value. */
  function Sar(x: bv32, n: bv32): bv32
    requires n < 32
  {
    (x >> n) | ((0 - (x >> 31)) & !(0xFFFF_FFFF >> n))
  }

  lemma SarPos(x: bv32, n: bv32)
    requires n < 32 && x & 0x8000_0000 == 0
    ensures Sar(x, n) == x >> n
  {
  }

  lemma SarNeg(x: bv32, n: bv32)
    requires n < 32 && x & 0x8000_0000 != 0
    ensures Sar(x, n) == !((!x) >> n)
  {
  }

  /** C's logical negation `!x`. */
  function Not(x: bv32): bv32
  {
    if x == 0 then 1 else 0
  }

  function BitOr(x: bv32, y: bv32): bv32
  {
    !(!x & !y)
  }

  lemma BitOrIsOr(x: bv32, y: bv32)
    ensures BitOr(x, y) == x | y
  {
  }

  function SpecialBits(): bv32
  {
    (!0) ^ (0xD7 << 14)
  }

  /** Every bit is set except the five set bits of 0xD7 placed at bit 14. */
  lemma SpecialBitsValue()
    ensures SpecialBits() == 0xFFCA_3FFF
    ensures !SpecialBits() == 0xD7 << 14
  {
  }

  function IsZero(x: bv32): bv32
  {
    Not(x)
  }

  lemma IsZeroOk(x: bv32)
    ensures IsZero(x) == 1 <==> x == 0
    ensures IsZero(x) == 0 <==> x != 0
  {
  }

  function AnyEvenBit(x: bv32): bv32
  {
    Not(Not(x & ((0x55 + (0x55 << 8)) + ((0x55 + (0x55 << 8)) << 16))))
  }

  lemma AnyEvenBitOk(x: bv32)
    ensures AnyEvenBit(x) == if x & 0x5555_5555 != 0 then 1 else 0
  {
  }

  /** The mask of the low `32 - n` bits, as the source builds it from `31 ^ n`. */
  function Low(n: bv32): bv32
    requires n < 32
  {
    ((1 << (31 ^ n)) << 1) + !0
  }

  function RotateLeft(x: bv32, n: bv32): bv32
    requires n < 32
  {
    ((x & Low(n)) << n) + (Sar(Sar(x & !Low(n), 31 ^ n), 1) & ((1 << n) + !0))
  }

  lemma LowMask(n: bv32)
    requires n < 32
    ensures Low(n) == 0xFFFF_FFFF >> n
  {
  }

  /** One lemma per rotation distance: with `n` fixed the shifts are plain wiring. */
  lemma Rotate0(x: bv32)
    ensures RotateLeft(x, 0) == (x << 0) | (x >> 32)
  {
  }

  lemma Rotate1(x: bv32)
    ensures RotateLeft(x, 1) == (x << 1) | (x >> 31)
  {
  }

  lemma Rotate2(x: bv32)
    ensures RotateLeft(x, 2) == (x << 2) | (x >> 30)
  {
  }

  lemma Rotate3(x: bv32)
    ensures RotateLeft(x, 3) == (x << 3) | (x >> 29)
  {
  }

  lemma Rotate4(x: bv32)
    ensures RotateLeft(x, 4) == (x << 4) | (x >> 28)
  {
  }

  lemma Rotate5(x: bv32)
    ensures RotateLeft(x, 5) == (x << 5) | (x >> 27)
  {
  }

  lemma Rotate6(x: bv32)
    ensures RotateLeft(x, 6) == (x << 6) | (x >> 26)
  {
  }

  lemma Rotate7(x: bv32)
    ensures RotateLeft(x, 7) == (x << 7) | (x >> 25)
  {
  }

  lemma Rotate8(x: bv32)
    ensures RotateLeft(x, 8) == (x << 8) | (x >> 24)
  {
  }

  lemma Rotate9(x: bv32)
    ensures RotateLeft(x, 9) == (x << 9) | (x >> 23)
  {
  }

  lemma Rotate10(x: bv32)
    ensures RotateLeft(x, 10) == (x << 10) | (x >> 22)
  {
  }

  lemma Rotate11(x: bv32)
    ensures RotateLeft(x, 11) == (x << 11) | (x >> 21)
  {
  }

  lemma Rotate12(x: bv32)
    ensures RotateLeft(x, 12) == (x << 12) | (x >> 20)
  {
  }

  lemma Rotate13(x: bv32)
    ensures RotateLeft(x, 13) == (x << 13) | (x >> 19)
  {
  }

  lemma Rotate14(x: bv32)
    ensures RotateLeft(x, 14) == (x << 14) | (x >> 18)
  {
  }

  lemma Rotate15(x: bv32)
    ensures RotateLeft(x, 15) == (x << 15) | (x >> 17)
  {
  }

  lemma Rotate16(x: bv32)
    ensures RotateLeft(x, 16) == (x << 16) | (x >> 16)
  {
  }

  lemma Rotate17(x: bv32)
    ensures RotateLeft(x, 17) == (x << 17) | (x >> 15)
  {
  }

  lemma Rotate18(x: bv32)
    ensures RotateLeft(x, 18) == (x << 18) | (x >> 14)
  {
  }

  lemma Rotate19(x: bv32)
    ensures RotateLeft(x, 19) == (x << 19) | (x >> 13)
  {
  }

  lemma Rotate20(x: bv32)
    ensures RotateLeft(x, 20) == (x << 20) | (x >> 12)
  {
  }

  lemma Rotate21(x: bv32)
    ensures RotateLeft(x, 21) == (x << 21) | (x >> 11)
  {
  }

  lemma Rotate22(x: bv32)
    ensures RotateLeft(x, 22) == (x << 22) | (x >> 10)
  {
  }

  lemma Rotate23(x: bv32)
    ensures RotateLeft(x, 23) == (x << 23) | (x >> 9)
  {
  }

  lemma Rotate24(x: bv32)
    ensures RotateLeft(x, 24) == (x << 24) | (x >> 8)
  {
  }

  lemma Rotate25(x: bv32)
    ensures RotateLeft(x, 25) == (x << 25) | (x >> 7)
  {
  }

  lemma Rotate26(x: bv32)
    ensures RotateLeft(x, 26) == (x << 26) | (x >> 6)
  {
  }

  lemma Rotate27(x: bv32)
    ensures RotateLeft(x, 27) == (x << 27) | (x >> 5)
  {
  }

  lemma Rotate28(x: bv32)
    ensures RotateLeft(x, 28) == (x << 28) | (x >> 4)
  {
  }

  lemma Rotate29(x: bv32)
    ensures RotateLeft(x, 29) == (x << 29) | (x >> 3)
  {
  }

  lemma Rotate30(x: bv32)
    ensures RotateLeft(x, 30) == (x << 30) | (x >> 2)
  {
  }

  lemma Rotate31(x: bv32)
    ensures RotateLeft(x, 31) == (x << 31) | (x >> 1)
  {
  }

  lemma RotateLeftFrom0(x: bv32, n: bv32)
    requires 0 <= n < 8
    ensures RotateLeft(x, n) == (x << n) | (x >> (32 - n))
  {
    if n == 0 { Rotate0(x); } else if n == 1 { Rotate1(x); } else if n == 2 { Rotate2(x); } else if n == 3 { Rotate3(x); } else if n == 4 { Rotate4(x); } else if n == 5 { Rotate5(x); } else if n == 6 { Rotate6(x); } else { Rotate7(x); }
  }

  lemma RotateLeftFrom8(x: bv32, n: bv32)
    requires 8 <= n < 16
    ensures RotateLeft(x, n) == (x << n) | (x >> (32 - n))
  {
    if n == 8 { Rotate8(x); } else if n == 9 { Rotate9(x); } else if n == 10 { Rotate10(x); } else if n == 11 { Rotate11(x); } else if n == 12 { Rotate12(x); } else if n == 13 { Rotate13(x); } else if n == 14 { Rotate14(x); } else { Rotate15(x); }
  }

  lemma RotateLeftFrom16(x: bv32, n: bv32)
    requires 16 <= n < 24
    ensures RotateLeft(x, n) == (x << n) | (x >> (32 - n))
  {
    if n == 16 { Rotate16(x); } else if n == 17 { Rotate17(x); } else if n == 18 { Rotate18(x); } else if n == 19 { Rotate19(x); } else if n == 20 { Rotate20(x); } else if n == 21 { Rotate21(x); } else if n == 22 { Rotate22(x); } else { Rotate23(x); }
  }

  lemma RotateLeftFrom24(x: bv32, n: bv32)
    requires 24 <= n < 32
    ensures RotateLeft(x, n) == (x << n) | (x >> (32 - n))
  {
    if n == 24 { Rotate24(x); } else if n == 25 { Rotate25(x); } else if n == 26 { Rotate26(x); } else if n == 27 { Rotate27(x); } else if n == 28 { Rotate28(x); } else if n == 29 { Rotate29(x); } else if n == 30 { Rotate30(x); } else { Rotate31(x); }
  }

  /** rotateLeft is the left rotation by `n` (for `n == 0`, `x >> 32` is 0 in bv32). */
  lemma RotateLeftOk(x: bv32, n: bv32)
    requires n < 32
    ensures RotateLeft(x, n) == (x << n) | (x >> (32 - n))
  {
    if n < 8 {
      RotateLeftFrom0(x, n);
    } else if n < 16 {
      RotateLeftFrom8(x, n);
    } else if n < 24 {
      RotateLeftFrom16(x, n);
    } else {
      RotateLeftFrom24(x, n);
    }
  }

  /** Bit `i` of `x`. */
  predicate Bit(x: bv32, i: bv32)
    requires i < 32
  {
    (x >> i) & 1 == 1
  }

  /** One butterfly step: the masked bits from `k` above swap with those `k` below. */
  function Swap(x: bv32, k: bv32, m: bv32): bv32
    requires k < 32
  {
    (Sar(x, k) & m) | ((x << k) & !m)
  }

  function BitReverse(x: bv32): bv32
  {
    Swap(Swap(Swap(Swap((Sar(x, 16) & (0xFF + (0xFF << 8))) | (x << 16),
                        8, 0xFF + (0xFF << 16)),
                   4, (0xF + (0xF << 8)) + ((0xF + (0xF << 8)) << 16)),
              2, (0x33 + (0x33 << 8)) + ((0x33 + (0x33 << 8)) << 16)),
         1, (0x55 + (0x55 << 8)) + ((0x55 + (0x55 << 8)) << 16))
  }

  lemma BitReverseReverses(x: bv32)
    ensures forall i: bv32 | i < 32 :: Bit(BitReverse(x), i) == Bit(x, 31 - i)
  {
  }

  lemma BitReverseTwice(x: bv32)
    ensures BitReverse(BitReverse(x)) == x
  {
  }

  function DivPwr2(x: bv32, n: bv32): bv32
    requires n <= 30
  {
    Sar(x, n) + (Not(Not(Sar(x, 31))) & Not(Not(((!x) + 1) & ((1 << n) + !0))))
  }

  lemma DivPwr2NonNeg(x: bv32, n: bv32)
    requires n <= 30 && x & 0x8000_0000 == 0
    ensures DivPwr2(x, n) == x >> n
  {
  }

  lemma DivNeg0(x: bv32)
    requires x & 0x8000_0000 != 0
    ensures DivPwr2(x, 0) == -((-x) >> 0)
  {
  }

  lemma DivNeg1(x: bv32)
    requires x & 0x8000_0000 != 0
    ensures DivPwr2(x, 1) == -((-x) >> 1)
  {
  }

  lemma DivNeg2(x: bv32)
    requires x & 0x8000_0000 != 0
    ensures DivPwr2(x, 2) == -((-x) >> 2)
  {
  }

  lemma DivNeg3(x: bv32)
    requires x & 0x8000_0000 != 0
    ensures DivPwr2(x, 3) == -((-x) >> 3)
  {
  }

  lemma DivNeg4(x: bv32)
    requires x & 0x8000_0000 != 0
    ensures DivPwr2(x, 4) == -((-x) >> 4)
  {
  }

  lemma DivNeg5(x: bv32)
    requires x & 0x8000_0000 != 0
    ensures DivPwr2(x, 5) == -((-x) >> 5)
  {
  }

  lemma DivNeg6(x: bv32)
    requires x & 0x8000_0000 != 0
    ensures DivPwr2(x, 6) == -((-x) >> 6)
  {
  }

  lemma DivNeg7(x: bv32)
    requires x & 0x8000_0000 != 0
    ensures DivPwr2(x, 7) == -((-x) >> 7)
  {
  }

  lemma DivNeg8(x: bv32)
    requires x & 0x8000_0000 != 0
    ensures DivPwr2(x, 8) == -((-x) >> 8)
  {
  }

  lemma DivNeg9(x: bv32)
    requires x & 0x8000_0000 != 0
    ensures DivPwr2(x, 9) == -((-x) >> 9)
  {
  }

  lemma DivNeg10(x: bv32)
    requires x & 0x8000_0000 != 0
    ensures DivPwr2(x, 10) == -((-x) >> 10)
  {
  }

  lemma DivNeg11(x: bv32)
    requires x & 0x8000_0000 != 0
    ensures DivPwr2(x, 11) == -((-x) >> 11)
  {
  }

  lemma DivNeg12(x: bv32)
    requires x & 0x8000_0000 != 0
    ensures DivPwr2(x, 12) == -((-x) >> 12)
  {
  }

  lemma DivNeg13(x: bv32)
    requires x & 0x8000_0000 != 0
    ensures DivPwr2(x, 13) == -((-x) >> 13)
  {
  }

  lemma DivNeg14(x: bv32)
    requires x & 0x8000_0000 != 0
    ensures DivPwr2(x, 14) == -((-x) >> 14)
  {
  }

  lemma DivNeg15(x: bv32)
    requires x & 0x8000_0000 != 0
    ensures DivPwr2(x, 15) == -((-x) >> 15)
  {
  }

  lemma DivNeg16(x: bv32)
    requires x & 0x8000_0000 != 0
    ensures DivPwr2(x, 16) == -((-x) >> 16)
  {
  }

  lemma DivNeg17(x: bv32)
    requires x & 0x8000_0000 != 0
    ensures DivPwr2(x, 17) == -((-x) >> 17)
  {
  }

  lemma DivNeg18(x: bv32)
    requires x & 0x8000_0000 != 0
    ensures DivPwr2(x, 18) == -((-x) >> 18)
  {
  }

  lemma DivNeg19(x: bv32)
    requires x & 0x8000_0000 != 0
    ensures DivPwr2(x, 19) == -((-x) >> 19)
  {
  }

  lemma DivNeg20(x: bv32)
    requires x & 0x8000_0000 != 0
    ensures DivPwr2(x, 20) == -((-x) >> 20)
  {
  }

  lemma DivNeg21(x: bv32)
    requires x & 0x8000_0000 != 0
    ensures DivPwr2(x, 21) == -((-x) >> 21)
  {
  }

  lemma DivNeg22(x: bv32)
    requires x & 0x8000_0000 != 0
    ensures DivPwr2(x, 22) == -((-x) >> 22)
  {
  }

  lemma DivNeg23(x: bv32)
    requires x & 0x8000_0000 != 0
    ensures DivPwr2(x, 23) == -((-x) >> 23)
  {
  }

  lemma DivNeg24(x: bv32)
    requires x & 0x8000_0000 != 0
    ensures DivPwr2(x, 24) == -((-x) >> 24)
  {
  }

  lemma DivNeg25(x: bv32)
    requires x & 0x8000_0000 != 0
    ensures DivPwr2(x, 25) == -((-x) >> 25)
  {
  }

  lemma DivNeg26(x: bv32)
    requires x & 0x8000_0000 != 0
    ensures DivPwr2(x, 26) == -((-x) >> 26)
  {
  }

  lemma DivNeg27(x: bv32)
    requires x & 0x8000_0000 != 0
    ensures DivPwr2(x, 27) == -((-x) >> 27)
  {
  }

  lemma DivNeg28(x: bv32)
    requires x & 0x8000_0000 != 0
    ensures DivPwr2(x, 28) == -((-x) >> 28)
  {
  }

  lemma DivNeg29(x: bv32)
    requires x & 0x8000_0000 != 0
    ensures DivPwr2(x, 29) == -((-x) >> 29)
  {
  }

  lemma DivNeg30(x: bv32)
    requires x & 0x8000_0000 != 0
    ensures DivPwr2(x, 30) == -((-x) >> 30)
  {
  }

  lemma DivPwr2Neg0(x: bv32, n: bv32)
    requires n < 8 && x & 0x8000_0000 != 0
    ensures DivPwr2(x, n) == -((-x) >> n)
  {
    if n == 0 { DivNeg0(x); } else if n == 1 { DivNeg1(x); } else if n == 2 { DivNeg2(x); } else if n == 3 { DivNeg3(x); } else if n == 4 { DivNeg4(x); } else if n == 5 { DivNeg5(x); } else if n == 6 { DivNeg6(x); } else { DivNeg7(x); }
  }

  lemma DivPwr2Neg8(x: bv32, n: bv32)
    requires 8 <= n < 16 && x & 0x8000_0000 != 0
    ensures DivPwr2(x, n) == -((-x) >> n)
  {
    if n == 8 { DivNeg8(x); } else if n == 9 { DivNeg9(x); } else if n == 10 { DivNeg10(x); } else if n == 11 { DivNeg11(x); } else if n == 12 { DivNeg12(x); } else if n == 13 { DivNeg13(x); } else if n == 14 { DivNeg14(x); } else { DivNeg15(x); }
  }

  lemma DivPwr2Neg16(x: bv32, n: bv32)
    requires 16 <= n < 24 && x & 0x8000_0000 != 0
    ensures DivPwr2(x, n) == -((-x) >> n)
  {
    if n == 16 { DivNeg16(x); } else if n == 17 { DivNeg17(x); } else if n == 18 { DivNeg18(x); } else if n == 19 { DivNeg19(x); } else if n == 20 { DivNeg20(x); } else if n == 21 { DivNeg21(x); } else if n == 22 { DivNeg22(x); } else { DivNeg23(x); }
  }

  lemma DivPwr2Neg24(x: bv32, n: bv32)
    requires 24 <= n <= 30 && x & 0x8000_0000 != 0
    ensures DivPwr2(x, n) == -((-x) >> n)
  {
    if n == 24 { DivNeg24(x); } else if n == 25 { DivNeg25(x); } else if n == 26 { DivNeg26(x); } else if n == 27 { DivNeg27(x); } else if n == 28 { DivNeg28(x); } else if n == 29 { DivNeg29(x); } else { DivNeg30(x); }
  }

  /**
   * divpwr2 divides by 2^n rounding toward zero: the magnitude is shifted
   * and the sign restored, so a negative quotient is never rounded down.
   */
  lemma DivPwr2Ok(x: bv32, n: bv32)
    requires n <= 30
    ensures DivPwr2(x, n) == if x & 0x8000_0000 == 0 then x >> n else -((-x) >> n)
  {
    if x & 0x8000_0000 == 0 {
      DivPwr2NonNeg(x, n);
    } else if n < 8 {
      DivPwr2Neg0(x, n);
    } else if n < 16 {
      DivPwr2Neg8(x, n);
    } else if n < 24 {
      DivPwr2Neg16(x, n);
    } else {
      DivPwr2Neg24(x, n);
    }
  }

  /** Two's-complement negation: `~x + 1` is `-x` modulo 2^32. */
  function Negate(x: bv32): (r: bv32)
    ensures r == -x
  {
    (!x) + 1
  }

  function IsPower2(x: bv32): bv32
  {
    (Not(Sar(x, 31)) & Not(Not(x))) & Not((((!x) + 1) & x) ^ x)
  }

  lemma IsPower2Ok(x: bv32)
    ensures IsPower2(x) == if x & 0x8000_0000 == 0 && x != 0 && x & (x - 1) == 0 then 1 else 0
  {
  }

  /** `x < y` as signed 32-bit values: flipping the sign bit maps signed order onto unsigned order. */
  predicate SignedLess(x: bv32, y: bv32)
  {
    x ^ 0x8000_0000 < y ^ 0x8000_0000
  }
  /** The combining step of isLess, over its locals xZ, yZ and Cha. */
  function IsLessOf(xZ: bv32, yZ: bv32, cha: bv32): bv32
  {
    (Not(xZ) & yZ) | (Not(xZ ^ yZ) & (Not(Sar(cha, 31)) & Not(Not(cha))))
  }
  /** isLess: `cha` is `y` plus the negation of `x`, computed as `~x + 1`. */
  function IsLess(x: bv32, y: bv32): bv32
  {
    IsLessOf(Not(Sar(x, 31)), Not(Sar(y, 31)), y + Negate(x))
  }

  /** `d` is strictly positive as a signed value. */
  predicate Positive(d: bv32)
  {
    d & 0x8000_0000 == 0 && d != 0
  }

  /** `!(x >> 31)` is 1 exactly for a non-negative `x`. */
  lemma NonNegTest(x: bv32)
    ensures Not(Sar(x, 31)) == if x & 0x8000_0000 == 0 then 1 else 0
  {
  }

  /** With equal sign tests, isLess reports whether `cha` is positive. */
  lemma PositiveTest(d: bv32)
    ensures IsLessOf(1, 1, d) == if Positive(d) then 1 else 0
    ensures IsLessOf(0, 0, d) == if Positive(d) then 1 else 0
  {
    NonNegTest(d);
  }

  lemma FlipSameSign(x: bv32, y: bv32)
    requires x & 0x8000_0000 == y & 0x8000_0000
    ensures SignedLess(x, y) <==> x < y
  {
  }

  lemma FlipSignsDiffer(x: bv32, y: bv32)
    requires x & 0x8000_0000 != y & 0x8000_0000
    ensures SignedLess(x, y) <==> x & 0x8000_0000 != 0
  {
  }

  /** Between operands of equal sign the difference cannot overflow. */
  lemma SubPositive(x: bv32, y: bv32)
    requires x & 0x8000_0000 == y & 0x8000_0000 && x < y
    ensures Positive(y - x)
  {
  }

  lemma SubNotPositive(x: bv32, y: bv32)
    requires x & 0x8000_0000 == y & 0x8000_0000 && y <= x
    ensures !Positive(y - x)
  {
  }

  lemma DiffSign(x: bv32, y: bv32)
    ensures (y + Negate(x)) & 0x8000_0000 == (y - x) & 0x8000_0000
  {
  }

  lemma DiffZero(x: bv32, y: bv32)
    ensures y + Negate(x) == 0 ==> y == x
  {
  }

  lemma SelfDiffZero(x: bv32, y: bv32)
    ensures y == x ==> y + Negate(x) == 0
  {
  }

  lemma DiffPositive(x: bv32, y: bv32)
    requires x & 0x8000_0000 == y & 0x8000_0000 && x < y
    ensures Positive(y + Negate(x))
  {
    DiffSign(x, y);
    DiffZero(x, y);
    SubPositive(x, y);
  }

  lemma DiffNotPositive(x: bv32, y: bv32)
    requires x & 0x8000_0000 == y & 0x8000_0000 && y <= x
    ensures !Positive(y + Negate(x))
  {
    DiffSign(x, y);
    SelfDiffZero(x, y);
    SubNotPositive(x, y);
  }

  lemma SameSignIsLessOf(x: bv32, y: bv32, a: bv32, b: bv32, d: bv32)
    requires IsLess(x, y) == IsLessOf(a, b, d) && a == b
    requires a == if x & 0x8000_0000 == 0 then 1 else 0
    ensures IsLess(x, y) == if Positive(d) then 1 else 0
  {
    PositiveTest(d);
  }

  lemma IsLessSignsDiffer(x: bv32, y: bv32)
    requires x & 0x8000_0000 != y & 0x8000_0000
    ensures IsLess(x, y) == if SignedLess(x, y) then 1 else 0
  {
    NonNegTest(x);
    NonNegTest(y);
    FlipSignsDiffer(x, y);
  }

  lemma IsLessSameSign(x: bv32, y: bv32)
    requires x & 0x8000_0000 == y & 0x8000_0000
    ensures IsLess(x, y) == if SignedLess(x, y) then 1 else 0
  {
    NonNegTest(x);
    NonNegTest(y);
    SameSignIsLessOf(x, y, Not(Sar(x, 31)), Not(Sar(y, 31)), y + Negate(x));
    FlipSameSign(x, y);
    if x < y {
      DiffPositive(x, y);
    } else {
      DiffNotPositive(x, y);
    }
  }

  /** isLess returns 1 exactly when `x < y` as signed 32-bit integers, and 0 otherwise. */
  lemma IsLessOk(x: bv32, y: bv32)
    ensures IsLess(x, y) == if SignedLess(x, y) then 1 else 0
  {
    if x & 0x8000_0000 == y & 0x8000_0000 {
      IsLessSameSign(x, y);
    } else {
      IsLessSignsDiffer(x, y);
    }
  }

  function LeastBitPos(x: bv32): bv32
  {
    x & ((!x) + 1)
  }

  /** The result is the lowest set bit of `x` alone, or 0 when `x` is 0. */
  lemma LeastBitPosOk(x: bv32)
    ensures x == 0 ==> LeastBitPos(x) == 0
    ensures x != 0 ==> LeastBitPos(x) != 0 && LeastBitPos(x) & (LeastBitPos(x) - 1) == 0
    ensures LeastBitPos(x) & x == LeastBitPos(x)
    ensures x & (LeastBitPos(x) - 1) == 0
  {
  }

  /** Field extractors of a binary32 encoding. */
  function ExpField(u: bv32): bv32
  {
    (u >> 23) & 0xFF
  }

  function Fraction(u: bv32): bv32
  {
    u & 0x7F_FFFF
  }

  predicate IsNaN(u: bv32)
  {
    ExpField(u) == 0xFF && Fraction(u) != 0
  }

  function FloatAbs(uf: bv32): bv32
  {
    if uf & 0x7F80_0000 == 0x7F80_0000 && uf & 0x7F_FFFF != 0 then uf else uf & 0x7FFF_FFFF
  }

  /** A NaN comes back unchanged; anything else keeps exponent and fraction and loses its sign. */
  lemma FloatAbsOk(uf: bv32)
    ensures IsNaN(uf) ==> FloatAbs(uf) == uf
    ensures !IsNaN(uf) ==> FloatAbs(uf) & 0x8000_0000 == 0
    ensures ExpField(FloatAbs(uf)) == ExpField(uf) && Fraction(FloatAbs(uf)) == Fraction(uf)
  {
  }

  method FloatI2F(x: bv32) returns (r: bv32)
    ensures x == 0 ==> r == 0
    ensures x == 0x8000_0000 ==> r == 0xCF00_0000
    ensures x != 0 ==> (r & 0x8000_0000 != 0 <==> x & 0x8000_0000 != 0)
    ensures x != 0 ==> 127 <= ExpField(r) <= 158
  {
    var ans: bv32 := 0;
    if x == 0 {
      return 0;
    }
    if x == 0x8000_0000 {
      return 0xCF00_0000;
    }
    var m := x;
    if x & 0x8000_0000 != 0 {
      ans := ans | 0x8000_0000;
      m := -x;
    }
    var zgw, che := HighestBit(m);
    var e := zgw;
    var ww := m - che;
    var ws: bv32;
    if zgw <= 23 {
      ws := ExactFraction(m, zgw, che, ww);
    } else {
      e, ws := RoundLarge(m, zgw, che, ww);
    }
    Assemble(ans, e + 127, ws);
    ans := ans | ((e + 127) << 23);
    ans := ans | ws;
    return ans;
  }

  method HighestBit(m: bv32) returns (zgw: bv32, che: bv32)
    requires m != 0 && m & 0x8000_0000 == 0
    ensures zgw <= 30 && che == 1 << zgw && m >> zgw == 1
  {
    SignClear(m);
    zgw := 30;
    while true
      invariant zgw <= 30 && NoBitAbove(m, zgw)
      decreases zgw
    {
      che := 1 << zgw;
      if m & che != 0 {
        TopBitFound(m, zgw, che);
        break;
      }
      StepDown(m, zgw);
      zgw := zgw - 1;
    }
  }

  /** No bit of m above bit z is set. */
  predicate NoBitAbove(m: bv32, z: bv32)
    requires z < 32
  {
    m >> z <= 1
  }

  lemma SignClear(m: bv32)
    requires m & 0x8000_0000 == 0
    ensures NoBitAbove(m, 30)
  {
  }

  lemma TopBitFound(m: bv32, zgw: bv32, che: bv32)
    requires zgw <= 30 && NoBitAbove(m, zgw) && che == 1 << zgw && m & che != 0
    ensures m >> zgw == 1
  {
  }

  lemma StepDown(m: bv32, zgw: bv32)
    requires m != 0 && zgw <= 30 && NoBitAbove(m, zgw) && m & (1 << zgw) == 0
    ensures 0 < zgw && NoBitAbove(m, zgw - 1)
  {
  }

  method RoundLarge(m: bv32, zgw: bv32, che: bv32, ww: bv32) returns (e: bv32, ws: bv32)
    requires 24 <= zgw <= 30 && m >> zgw == 1 && che == 1 << zgw && ww == m - che
    ensures ws <= 0x7F_FFFF && zgw <= e <= zgw + 1
  {
    e := zgw;
    BigCase(m, zgw, che, ww);
    var jz := che >> 23;
    var shang, yu := DivMod(ww, jz);
    var thres := jz >> 1;
    if yu > thres || (yu == thres && shang % 2 != 0) {
      shang := shang + 1;
      if shang >> 23 != 0 {
        e := e + 1;
      }
    }
    ws := shang & 0x7F_FFFF;
  }

  method ExactFraction(m: bv32, zgw: bv32, che: bv32, ww: bv32) returns (ws: bv32)
    requires zgw <= 23 && m >> zgw == 1 && che == 1 << zgw && ww == m - che
    ensures ws <= 0x7F_FFFF
  {
    ws := ww << (23 - zgw);
    SmallFraction(m, zgw, che, ww);
  }

  lemma SmallFraction(m: bv32, zgw: bv32, che: bv32, ww: bv32)
    requires zgw <= 23 && m >> zgw == 1 && che == 1 << zgw && ww == m - che
    ensures ww << (23 - zgw) <= 0x7F_FFFF
  {
  }

  lemma BigCase(m: bv32, zgw: bv32, che: bv32, ww: bv32)
    requires 24 <= zgw <= 30 && m >> zgw == 1 && che == 1 << zgw && ww == m - che
    ensures che >> 23 == 2 || che >> 23 == 4 || che >> 23 == 8 || che >> 23 == 16 ||
            che >> 23 == 32 || che >> 23 == 64 || che >> 23 == 128
    ensures ww < (che >> 23) << 23
  {
  }

  lemma QuotientBound(ww: bv32, jz: bv32)
    requires jz == 2 || jz == 4 || jz == 8 || jz == 16 || jz == 32 || jz == 64 || jz == 128
    requires ww < jz << 23
    ensures ww / jz < 0x80_0000
  {
    if jz == 2 {} else if jz == 4 {} else if jz == 8 {} else if jz == 16 {}
    else if jz == 32 {} else if jz == 64 {} else {}
  }

  method DivMod(ww: bv32, jz: bv32) returns (q: bv32, r: bv32)
    requires jz == 2 || jz == 4 || jz == 8 || jz == 16 || jz == 32 || jz == 64 || jz == 128
    requires ww < jz << 23
    ensures q < 0x80_0000
  {
    QuotientBound(ww, jz);
    q := ww / jz;
    r := ww % jz;
  }

  lemma Assemble(s: bv32, e: bv32, w: bv32)
    requires (s == 0 || s == 0x8000_0000) && 127 <= e <= 158 && w <= 0x7F_FFFF
    ensures ExpField((s | (e << 23)) | w) == e
    ensures ((s | (e << 23)) | w) & 0x8000_0000 == s
  {
  }

  method FloatTimes64(uf: bv32) returns (r: bv32)
    ensures ExpField(uf) == 0xFF ==> r == uf
    ensures 0xF9 <= ExpField(uf) < 0xFF ==> r == (uf & 0x8000_0000) | 0x7F80_0000
    ensures 1 <= ExpField(uf) < 0xF9 ==>
              ExpField(r) == ExpField(uf) + 6 && r & 0x807F_FFFF == uf & 0x807F_FFFF
    ensures ExpField(uf) == 0 && uf & 0x7F_FFFF < 0x2_0000 ==>
              r == (uf & 0x8000_0000) | ((uf & 0x7F_FFFF) << 6)
    ensures ExpField(uf) == 0 && 0x2_0000 <= uf & 0x7F_FFFF ==> Renormalised(uf, r)
  {
    var exp := uf & 0x7F80_0000;
    var ws := uf & 0x7F_FFFF;
    var ws' := ws;
    var ydcs: bv32 := 0x380_0000;
    if exp == 0x7F80_0000 {
      return uf;
    } else if exp >= 0x7C80_0000 {
      return (uf & 0x8000_0000) + 0x7F80_0000;
    } else if exp != 0 {
      return uf + 0x300_0000;
    } else if ws < 0x2_0000 {
      r := Denormal64(uf, ws);
    } else {
      r := RenormalizeTimes64(uf, ws);
    }
  }

  /** A small denormal times 64 stays denormal: adding 63 times the fraction shifts it left by 6. */
  method Denormal64(uf: bv32, ws: bv32) returns (r: bv32)
    requires uf & 0x7F80_0000 == 0 && ws == uf & 0x7F_FFFF && ws < 0x2_0000
    ensures r == (uf & 0x8000_0000) | ((uf & 0x7F_FFFF) << 6)
  {
    DenormalTimes64(uf, ws);
    r := uf + 63 * ws;
  }

  lemma DenormalTimes64(uf: bv32, ws: bv32)
    requires uf & 0x7F80_0000 == 0 && ws == uf & 0x7F_FFFF && ws < 0x2_0000
    ensures uf + 63 * ws == (uf & 0x8000_0000) | ((uf & 0x7F_FFFF) << 6)
  {
  }

  method RenormalizeTimes64(uf: bv32, ws: bv32) returns (r: bv32)
    requires uf & 0x7F80_0000 == 0 && ws == uf & 0x7F_FFFF && 0x2_0000 <= ws
    ensures Renormalised(uf, r)
  {
    var ws', ydcs := Normalize(ws);
    ghost var w := ws';
    ws' := ws' - 0x80_0000;
    var s := uf - ws;
    SignOnly(uf, ws);
    r := Pack(s, ws', ydcs);
    ScaleFields(r, ws', w, ydcs >> 23, ws << 6);
  }

  /** The closing sum of float_times64: sign, fraction and exponent land in their own fields. */
  method Pack(s: bv32, f: bv32, y: bv32) returns (r: bv32)
    requires s & 0x7FFF_FFFF == 0 && f < 0x80_0000
    requires 0x80_0000 <= y <= 0x300_0000 && y & 0x7F_FFFF == 0
    ensures r & 0x8000_0000 == s && 1 <= ExpField(r) <= 6
    ensures ExpField(r) == y >> 23 && r & 0x7F_FFFF == f
  {
    Fields(s, f, y);
    r := s + f + y;
  }

  /**
   * r is the denormal uf times 64 written as a normal number: same sign, an
   * exponent field e from 1 to 6, and a significand that, times 2^(e - 1),
   * is uf's fraction times 64.
   */
  predicate Renormalised(uf: bv32, r: bv32)
  {
    r & 0x8000_0000 == uf & 0x8000_0000 && 1 <= ExpField(r) <= 6 &&
    Scale(0x80_0000 + (r & 0x7F_FFFF), ExpField(r)) == (uf & 0x7F_FFFF) << 6
  }

  /**
   * The significand m of a normal number with a small exponent field e, in
   * units of the least denormal: m * 2^(e - 1).
   */
  function Scale(m: bv32, e: bv32): bv32
  {
    if e == 1 then m else if e == 2 then m << 1 else if e == 3 then m << 2 else if e == 4 then m << 3
    else if e == 5 then m << 4 else if e == 6 then m << 5 else m << 6
  }

  lemma ScaleFields(r: bv32, f: bv32, w: bv32, e: bv32, v: bv32)
    requires ExpField(r) == e && r & 0x7F_FFFF == f && 0x80_0000 + f == w && Scale(w, e) == v
    ensures Scale(0x80_0000 + (r & 0x7F_FFFF), ExpField(r)) == v
  {
  }

  lemma SignOnly(uf: bv32, ws: bv32)
    requires uf & 0x7F80_0000 == 0 && ws == uf & 0x7F_FFFF
    ensures uf - ws == uf & 0x8000_0000
  {
  }

  lemma Fields(s: bv32, f: bv32, y: bv32)
    requires s & 0x7FFF_FFFF == 0 && f < 0x80_0000
    requires 0x80_0000 <= y <= 0x300_0000 && y & 0x7F_FFFF == 0
    ensures (s + f + y) & 0x8000_0000 == s
    ensures 1 <= ExpField(s + f + y) <= 6
    ensures ExpField(s + f + y) == y >> 23 && (s + f + y) & 0x7F_FFFF == f
  {
  }

  method Normalize(ws: bv32) returns (ws': bv32, ydcs: bv32)
    requires 0x2_0000 <= ws < 0x80_0000
    ensures 0x80_0000 <= ws' < 0x100_0000
    ensures 0x80_0000 <= ydcs <= 0x300_0000 && ydcs & 0x7F_FFFF == 0
    ensures Scale(ws', ydcs >> 23) == ws << 6
  {
    ws' := ws;
    ydcs := 0x380_0000;
    while ws' < 0x80_0000
      invariant 0x2_0000 <= ws' < 0x100_0000
      invariant 0x80_0000 <= ydcs <= 0x380_0000 && ydcs & 0x7F_FFFF == 0
      invariant ws' >= 0x100_0000 >> (ydcs >> 23)
      invariant ydcs <= 0x300_0000 || ws' < 0x80_0000
      invariant Scale(ws', ydcs >> 23) == ws << 6
      decreases ydcs
    {
      ws' := ws' << 1;
      ydcs := ydcs - 0x80_0000;
    }
  }
}
