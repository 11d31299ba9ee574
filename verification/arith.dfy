/** Facts about multiplication, division and remainder on naturals, proved once for every module that needs them. */
module Arith {
  lemma MulMono(x: int, y: int, d: nat)
    requires x >= y
    ensures x * d >= y * d
  {
  }

  lemma MulNonNeg(x: nat, y: nat)
    ensures x * y >= 0
  {
    MulMono(x, 0, y);
  }

  lemma DivNonNeg(a: nat, d: nat)
    requires d > 0
    ensures a / d >= 0
  {
    if a / d < 0 {
      MulMono(-1, a / d, d);
      assert false;
    }
  }

  lemma DivBelow(a: nat, d: nat, k: nat)
    requires d > 0 && a < k * d
    ensures a / d < k
  {
    if a / d >= k {
      MulMono(a / d, k, d);
      assert false;
    }
  }

  /** Quotient and remainder are unique. */
  lemma DivMod(a: nat, d: nat, q: nat, r: nat)
    requires d > 0 && r < d && a == q * d + r
    ensures a / d == q && a % d == r
  {
    var q' := a / d;
    if q' > q {
      MulMono(q' - q, 1, d);
      assert false;
    } else if q > q' {
      MulMono(q - q', 1, d);
      assert false;
    }
  }
}
