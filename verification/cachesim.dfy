/**
 * The cache-lab simulator: reading a hexadecimal trace address, splitting it
 * into tag and set index, and the LRU update of one set of an E-way
 * set-associative cache with its hit, miss and eviction counters.
 *
 * `unsigned long` values are naturals below 2^64; `long` counters are naturals.
 */
module CacheSim {
  import opened CString
  import opened Arith

  /** 2^64: `unsigned long` arithmetic is taken modulo this. */
  const WordSpan: nat := 0x1_0000_0000_0000_0000

  function Pow2(n: nat): (r: nat)
    ensures r >= 1
  {
    if n == 0 then 1 else 2 * Pow2(n - 1)
  }

  lemma {:induction false} Pow2Add(m: nat, n: nat)
    ensures Pow2(m + n) == Pow2(m) * Pow2(n)
    decreases m
  {
    if m > 0 {
      Pow2Add(m - 1, n);
    }
  }

  /* ---------------------------------------------------------------------- */
  /* Hexadecimal digits and addresses                                        */

  predicate IsHexDigit(c: char)
  {
    '0' <= c <= '9' || 'A' <= c <= 'F' || 'a' <= c <= 'f'
  }

  /** toDec: the value of one hexadecimal digit, or -1 for any other character. */
  function ToDec(c: char): (r: int)
    ensures -1 <= r < 16
    ensures r == -1 <==> !IsHexDigit(c)
  {
    if '0' <= c <= '9' then c as int - '0' as int
    else if 'A' <= c <= 'F' then c as int - 'A' as int + 10
    else if 'a' <= c <= 'f' then c as int - 'a' as int + 10
    else -1
  }

  /** The lower-case digit for a value below 16. */
  function HexDigit(v: nat): (c: char)
    requires v < 16
    ensures IsHexDigit(c)
  {
    if v < 10 then ('0' as int + v) as char else ('a' as int + v - 10) as char
  }

  /** The upper-case digit for a value below 16. */
  function UpperHexDigit(v: nat): (c: char)
    requires v < 16
    ensures IsHexDigit(c)
  {
    if v < 10 then ('0' as int + v) as char else ('A' as int + v - 10) as char
  }

  /** toDec inverts both digit spellings. */
  lemma ToDecInvertsDigits(v: nat)
    requires v < 16
    ensures ToDec(HexDigit(v)) == v && ToDec(UpperHexDigit(v)) == v
  {
  }

  /**
   * The value getAddr accumulates over `s`: each character shifts the value
   * left by four bits and adds its digit value; -1 for a stray character is
   * converted to `unsigned long`, and everything wraps modulo 2^64.
   */
  function HexValue(s: seq<char>): (r: nat)
    ensures r < WordSpan
  {
    if |s| == 0 then 0
    else ((HexValue(s[..|s| - 1]) * 16) % WordSpan + ToDec(s[|s| - 1])) % WordSpan
  }

  function Pow16(k: nat): (r: nat)
    ensures r >= 1
  {
    if k == 0 then 1 else 16 * Pow16(k - 1)
  }

  /** `n` written with exactly `k` lower-case hexadecimal digits, most significant first. */
  function ToHex(n: nat, k: nat): (s: seq<char>)
    ensures |s| == k
    ensures forall i :: 0 <= i < |s| ==> IsHexDigit(s[i])
  {
    if k == 0 then [] else ToHex(n / 16, k - 1) + [HexDigit(n % 16)]
  }

  /** Reading back any `unsigned long` written in enough hexadecimal digits gives it again. */
  lemma {:induction false} HexRoundTrip(n: nat, k: nat)
    requires n < Pow16(k) && n < WordSpan
    ensures HexValue(ToHex(n, k)) == n
  {
    if k > 0 {
      var s := ToHex(n, k);
      var h, d := n / 16, n % 16;
      assert s[..k - 1] == ToHex(h, k - 1);
      assert s[k - 1] == HexDigit(d);
      DigitSplit(n, Pow16(k - 1));
      HexRoundTrip(h, k - 1);
      ToDecInvertsDigits(d);
      NoWrap(h, d, n);
    }
  }

  /** The quotient by 16 of a number below `16 * p` is below `p`, and recombines with the remainder. */
  lemma DigitSplit(n: nat, p: nat)
    requires n < 16 * p
    ensures n / 16 < p && n / 16 * 16 + n % 16 == n
  {
    DivBelow(n, 16, p);
  }

  /** Shifting in one digit does not wrap when the result stays below 2^64. */
  lemma NoWrap(h: nat, d: nat, n: nat)
    requires h * 16 + d == n && n < WordSpan
    ensures ((h * 16) % WordSpan + d) % WordSpan == n
  {
  }

  /** The part of `s` before the first `c`, or all of `s` when `c` does not occur. */
  function Before(s: seq<char>, c: char): (r: seq<char>)
    ensures |r| <= |s| && r == s[..|r|]
    ensures c !in r
    ensures |r| < |s| ==> s[|r|] == c
  {
    if |s| == 0 || s[0] == c then [] else [s[0]] + Before(s[1..], c)
  }

  /**
   * getAddr: the trace field is cut at its first ',' (the comma is overwritten
   * with NUL in the caller's buffer) and the remaining prefix is read as hex.
   */
  method GetAddr(addr: array<char>) returns (res: nat)
    requires '\0' in addr[..]
    modifies addr
    ensures res == HexValue(Before(old(addr[..])[..StrLen(old(addr[..]))], ','))
    ensures var text := old(addr[..])[..StrLen(old(addr[..]))];
            var cut := Before(text, ',');
            addr[..] == if |cut| < |text| then old(addr[..])[|cut| := '\0'] else old(addr[..])
  {
    ghost var text := addr[..][..StrLen(addr[..])];
    ghost var cut := Before(text, ',');
    var len := CutAtComma(addr);
    assert addr[..len] == cut;
    res := ReadHex(addr, len);
  }

  /** The first loop of getAddr: the first ',' of the string, if any, becomes NUL. */
  method CutAtComma(addr: array<char>) returns (len: nat)
    requires '\0' in addr[..]
    modifies addr
    ensures var text := old(addr[..])[..StrLen(old(addr[..]))];
            var cut := Before(text, ',');
            len == |cut| && len < addr.Length && addr[..len] == cut &&
            addr[..] == if |cut| < |text| then old(addr[..])[|cut| := '\0'] else old(addr[..])
  {
    ghost var text := addr[..][..StrLen(addr[..])];
    ghost var cut := Before(text, ',');
    var n := StrLen(addr[..]);
    var i := 0;
    while i < n
      invariant 0 <= i <= n
      invariant addr[..] == old(addr[..])
      invariant forall k :: 0 <= k < i ==> addr[k] != ','
    {
      if addr[i] == ',' {
        addr[i] := '\0';
        break;
      }
      i := i + 1;
    }
    // The comma search stops exactly where `Before` does.
    assert |cut| == i;
    len := i;
  }

  /** The second loop of getAddr: the first `len` characters read as hexadecimal. */
  method ReadHex(addr: array<char>, len: nat) returns (res: nat)
    requires len <= addr.Length
    ensures res == HexValue(addr[..len])
  {
    res := 0;
    var i := 0;
    while i < len
      invariant 0 <= i <= len
      invariant res == HexValue(addr[..i])
    {
      assert addr[..i + 1][..i] == addr[..i];
      res := (res * 16) % WordSpan;
      res := (res + ToDec(addr[i])) % WordSpan;
      i := i + 1;
    }
  }

  /* ---------------------------------------------------------------------- */
  /* Tag and set index                                                       */

  /** getTag: the address bits above the `s` set-index bits and `b` block-offset bits. */
  function GetTag(address: nat, s: nat, b: nat): (r: nat)
  {
    DivNonNeg(address, Pow2(s + b));
    address / Pow2(s + b)
  }

  /**
   * getSetIdx: the `s` bits above the block offset. The mask is built as a C
   * `int`, so `s + b` stays below 31.
   */
  function GetSetIdx(address: nat, s: nat, b: nat): (r: nat)
    requires s + b <= 30
    ensures r < Pow2(s)
  {
    SetIdxBelow(address, s, b);
    (address % Pow2(s + b)) / Pow2(b)
  }

  lemma SetIdxBelow(address: nat, s: nat, b: nat)
    ensures 0 <= (address % Pow2(s + b)) / Pow2(b) < Pow2(s)
  {
    var low := address % Pow2(s + b);
    DivNonNeg(low, Pow2(b));
    Pow2Add(s, b);
    DivBelow(low, Pow2(b), Pow2(s));
  }

  lemma MulDiv(a: nat, m: nat, n: nat)
    requires m > 0 && n > 0
    ensures a / (m * n) == (a / m) / n
    ensures a % (m * n) == a % m + m * ((a / m) % n)
  {
    DivNonNeg(a, m);
    var q, r := a / m, a % m;
    assert a == q * m + r;
    DivNonNeg(q, n);
    var q2, r2 := q / n, q % n;
    assert q == q2 * n + r2;
    Regroup(q2, r2, m, n);
    RemBound(r2, r, m, n);
    assert a == q2 * (m * n) + (r2 * m + r);
    DivMod(a, m * n, q2, r2 * m + r);
  }

  lemma Regroup(q2: nat, r2: nat, m: nat, n: nat)
    ensures (q2 * n + r2) * m == q2 * (m * n) + r2 * m
  {
    assert (q2 * n + r2) * m == q2 * n * m + r2 * m;
  }

  lemma RemBound(r2: nat, r: nat, m: nat, n: nat)
    requires r2 < n && r < m
    ensures r2 * m + r < m * n && m * r2 == r2 * m
  {
    MulMono(n, r2 + 1, m);
  }

  /** Dropping `B` low digits and then taking `S` digits, in mixed radix. */
  lemma SplitDiv(a: nat, B: nat, S: nat)
    requires B > 0 && S > 0
    ensures a / (S * B) == (a / B) / S
    ensures (a % (S * B)) / B == (a / B) % S
  {
    MulDiv(a, B, S);
    assert S * B == B * S;
    DivMod(a % (B * S), B, (a / B) % S, a % B);
  }

  lemma Recompose(a: nat, B: nat, S: nat)
    requires B > 0 && S > 0
    ensures a == ((a / B) / S * S + (a / B) % S) * B + a % B
  {
    var q := a / B;
    assert q == q / S * S + q % S;
    assert a == q * B + a % B;
  }

  lemma Decompose(t: nat, i: nat, o: nat, B: nat, S: nat)
    requires i < S && o < B
    ensures ((t * S + i) * B + o) / B / S == t
    ensures ((t * S + i) * B + o) / B % S == i
  {
    DivMod((t * S + i) * B + o, B, t * S + i, o);
    DivMod(t * S + i, S, t, i);
  }

  /** getTag and getSetIdx in terms of the address with its block offset dropped. */
  lemma FieldsOf(address: nat, s: nat, b: nat)
    requires s + b <= 30
    ensures GetTag(address, s, b) == (address / Pow2(b)) / Pow2(s)
    ensures GetSetIdx(address, s, b) == (address / Pow2(b)) % Pow2(s)
  {
    Pow2Add(s, b);
    SplitDiv(address, Pow2(b), Pow2(s));
  }

  /**
   * Tag, set index and block offset put back together give the address:
   * the three fields partition its bits.
   */
  lemma AddressSplit(address: nat, s: nat, b: nat)
    requires s + b <= 30
    ensures address == (GetTag(address, s, b) * Pow2(s) + GetSetIdx(address, s, b)) * Pow2(b)
                       + address % Pow2(b)
  {
    FieldsOf(address, s, b);
    Recompose(address, Pow2(b), Pow2(s));
  }

  /** An address built from a tag, a set index and an offset yields that tag and set index. */
  lemma FieldsOfAddress(tag: nat, setIdx: nat, offset: nat, s: nat, b: nat, address: nat)
    requires s + b <= 30 && setIdx < Pow2(s) && offset < Pow2(b)
    requires address == (tag * Pow2(s) + setIdx) * Pow2(b) + offset
    ensures GetTag(address, s, b) == tag
    ensures GetSetIdx(address, s, b) == setIdx
  {
    FieldsOf(address, s, b);
    Decompose(tag, setIdx, offset, Pow2(b), Pow2(s));
  }

  /* ---------------------------------------------------------------------- */
  /* One set of the cache                                                    */

  /** One cache line: `validBit`, `timeUsed` and `tagAddr`. */
  datatype Line = Line(valid: bool, timeUsed: nat, tagAddr: nat)

  /** What an access did. `Lost` is the branch the source reports as impossible. */
  datatype Outcome = Hit | Fill | Evict | Lost

  datatype Access = Access(outcome: Outcome, lines: seq<Line>)

  /** Index of the first valid line holding `tag`, scanning from line 0; -1 if none. */
  function FirstHit(ways: seq<Line>, tag: nat): (h: int)
    ensures -1 <= h < |ways|
  {
    if |ways| == 0 then -1
    else
      var h := FirstHit(ways[..|ways| - 1], tag);
      if h >= 0 then h
      else if ways[|ways| - 1].valid && ways[|ways| - 1].tagAddr == tag then |ways| - 1
      else -1
  }

  /** Index of the last invalid line (the scan keeps overwriting `emptyPos`); -1 if none. */
  function LastInvalid(ways: seq<Line>): (e: int)
    ensures -1 <= e < |ways|
  {
    if |ways| == 0 then -1
    else if !ways[|ways| - 1].valid then |ways| - 1
    else LastInvalid(ways[..|ways| - 1])
  }

  /**
   * The pair (`leastRecent`, `argLeastRecent`) after scanning `ways`, starting
   * from (`bound`, -1): a valid line replaces the pair when its time is strictly smaller.
   */
  function LeastRecent(ways: seq<Line>, bound: nat): (p: (nat, int))
    ensures -1 <= p.1 < |ways|
  {
    if |ways| == 0 then (bound, -1)
    else
      var p := LeastRecent(ways[..|ways| - 1], bound);
      var last := ways[|ways| - 1];
      if last.valid && last.timeUsed < p.0 then (last.timeUsed, |ways| - 1) else p
  }

  /**
   * The effect of update on one ways at time `now`: a hit refreshes the hit
   * line's time; a miss fills the last invalid line, else overwrites the
   * least recently used valid line.
   */
  function Lookup(ways: seq<Line>, tag: nat, now: nat): (r: Access)
    ensures |r.lines| == |ways|
  {
    var h := FirstHit(ways, tag);
    if h >= 0 then Access(Hit, ways[h := ways[h].(timeUsed := now)])
    else
      var e := LastInvalid(ways);
      if e >= 0 then Access(Fill, ways[e := Line(true, now, tag)])
      else
        var a := LeastRecent(ways, now + 1).1;
        if a >= 0 then Access(Evict, ways[a := ways[a].(tagAddr := tag, timeUsed := now)])
        else Access(Lost, ways)
  }

  /** No two valid lines of a ways hold the same tag. */
  predicate UniqueTags(ways: seq<Line>)
  {
    forall j, k :: 0 <= j < k < |ways| && ways[j].valid && ways[k].valid ==> ways[j].tagAddr != ways[k].tagAddr
  }

  /** Every valid line was last used no later than `now`. */
  predicate UsedBy(ways: seq<Line>, now: nat)
  {
    forall j :: 0 <= j < |ways| && ways[j].valid ==> ways[j].timeUsed <= now
  }

  /** FirstHit finds the first valid line with the tag, and -1 means there is none. */
  lemma {:induction false} FirstHitOk(ways: seq<Line>, tag: nat)
    ensures var h := FirstHit(ways, tag);
            (h == -1 <==> forall j :: 0 <= j < |ways| ==> !(ways[j].valid && ways[j].tagAddr == tag)) &&
            (h >= 0 ==> ways[h].valid && ways[h].tagAddr == tag &&
                        forall j :: 0 <= j < h ==> !(ways[j].valid && ways[j].tagAddr == tag))
  {
    if |ways| > 0 {
      FirstHitOk(ways[..|ways| - 1], tag);
    }
  }

  /** LastInvalid finds the last invalid line, and -1 means every line is valid. */
  lemma {:induction false} LastInvalidOk(ways: seq<Line>)
    ensures var e := LastInvalid(ways);
            (e == -1 <==> forall j :: 0 <= j < |ways| ==> ways[j].valid) &&
            (e >= 0 ==> !ways[e].valid && forall j :: e < j < |ways| ==> ways[j].valid)
  {
    if |ways| > 0 {
      LastInvalidOk(ways[..|ways| - 1]);
    }
  }

  /**
   * LeastRecent finds the first valid line of smallest time below `bound`,
   * and -1 means no valid line is below `bound`.
   */
  lemma {:induction false} LeastRecentOk(ways: seq<Line>, bound: nat)
    ensures var (t, a) := LeastRecent(ways, bound);
            (a == -1 <==> forall j :: 0 <= j < |ways| && ways[j].valid ==> ways[j].timeUsed >= bound) &&
            (a == -1 ==> t == bound) &&
            (a >= 0 ==> ways[a].valid && t == ways[a].timeUsed < bound) &&
            (forall j :: 0 <= j < |ways| && ways[j].valid ==> ways[j].timeUsed >= t) &&
            (a >= 0 ==> forall j :: 0 <= j < a && ways[j].valid ==> ways[j].timeUsed > t)
  {
    if |ways| > 0 {
      LeastRecentOk(ways[..|ways| - 1], bound);
    }
  }

  lemma {:induction false} FirstHitPrefix(ways: seq<Line>, tag: nat, n: nat)
    requires n <= |ways| && FirstHit(ways[..n], tag) >= 0
    ensures FirstHit(ways, tag) == FirstHit(ways[..n], tag)
    decreases |ways| - n
  {
    if n < |ways| {
      assert ways[..n + 1][..n] == ways[..n];
      FirstHitPrefix(ways, tag, n + 1);
    } else {
      assert ways[..n] == ways;
    }
  }

  /** A hit changes only the time of the hit line, which becomes `now`. */
  lemma LookupHit(ways: seq<Line>, tag: nat, now: nat)
    requires FirstHit(ways, tag) >= 0
    ensures var h := FirstHit(ways, tag);
            var r := Lookup(ways, tag, now);
            r.outcome == Hit && r.lines[h] == ways[h].(timeUsed := now) &&
            r.lines[h].valid && r.lines[h].tagAddr == tag &&
            forall j :: 0 <= j < |ways| && j != h ==> r.lines[j] == ways[j]
  {
    FirstHitOk(ways, tag);
  }

  /** A miss with an invalid line fills the last invalid line and evicts nothing. */
  lemma LookupFill(ways: seq<Line>, tag: nat, now: nat)
    requires (forall j :: 0 <= j < |ways| ==> !(ways[j].valid && ways[j].tagAddr == tag))
    requires exists j :: 0 <= j < |ways| && !ways[j].valid
    ensures var r := Lookup(ways, tag, now);
            r.outcome == Fill &&
            exists e :: 0 <= e < |ways| && !ways[e].valid && (forall j :: e < j < |ways| ==> ways[j].valid) &&
                        r.lines == ways[e := Line(true, now, tag)]
  {
    FirstHitOk(ways, tag);
    LastInvalidOk(ways);
  }

  /**
   * A miss in a full ways overwrites the first valid line of least time with
   * the new tag, when every time is below `now + 1`.
   */
  lemma LookupEvict(ways: seq<Line>, tag: nat, now: nat)
    requires |ways| > 0 && UsedBy(ways, now)
    requires forall j :: 0 <= j < |ways| ==> ways[j].valid && ways[j].tagAddr != tag
    ensures var r := Lookup(ways, tag, now);
            r.outcome == Evict &&
            exists a :: 0 <= a < |ways| &&
                        (forall j :: 0 <= j < |ways| ==> ways[a].timeUsed <= ways[j].timeUsed) &&
                        (forall j :: 0 <= j < a ==> ways[a].timeUsed < ways[j].timeUsed) &&
                        r.lines == ways[a := Line(true, now, tag)]
  {
    FirstHitOk(ways, tag);
    LastInvalidOk(ways);
    LeastRecentOk(ways, now + 1);
    assert ways[0].valid && ways[0].timeUsed < now + 1;
  }

  /**
   * update keeps the ways well formed: no valid line becomes invalid, tags of
   * valid lines stay distinct, every time stays at most `now`, and a non-empty
   * ways never reaches the impossible branch.
   */
  lemma LookupPreserves(ways: seq<Line>, tag: nat, now: nat)
    requires UniqueTags(ways) && UsedBy(ways, now)
    ensures var r := Lookup(ways, tag, now);
            UniqueTags(r.lines) && UsedBy(r.lines, now) &&
            (forall j :: 0 <= j < |ways| && ways[j].valid ==> r.lines[j].valid) &&
            (r.outcome == Lost <==> |ways| == 0)
  {
    FirstHitOk(ways, tag);
    LastInvalidOk(ways);
    LeastRecentOk(ways, now + 1);
    var r := Lookup(ways, tag, now);
    if |ways| > 0 && FirstHit(ways, tag) < 0 && LastInvalid(ways) < 0 {
      assert ways[0].valid && ways[0].timeUsed < now + 1;
    }
  }

  /* ---------------------------------------------------------------------- */
  /* The whole cache                                                        */

  /** The lines of ways `p`, or nothing for a ways index out of range. */
  function SetOf(all: seq<Line>, p: nat, E: nat): seq<Line>
  {
    if p * E + E <= |all| then all[p * E..p * E + E] else []
  }

  lemma SetsApart(p: nat, q: nat, E: nat)
    requires p < q
    ensures p * E + E <= q * E
  {
    assert q * E == (q - p - 1) * E + p * E + E;
  }

  /** `all` with the lines of set `q` replaced by `ways`. */
  function Replace(all: seq<Line>, q: nat, E: nat, ways: seq<Line>): seq<Line>
  {
    if q * E + E <= |all| && |ways| == E then all[..q * E] + ways + all[q * E + E..] else all
  }

  /** Replacing set `q` leaves every other set as it was. */
  lemma ReplaceSets(all: seq<Line>, q: nat, E: nat, ways: seq<Line>, p: nat)
    requires q * E + E <= |all| && |ways| == E
    ensures |Replace(all, q, E, ways)| == |all|
    ensures SetOf(Replace(all, q, E, ways), p, E) == if p == q then ways else SetOf(all, p, E)
  {
    MulNonNeg(q, E);
    MulNonNeg(p, E);
    var o, w := q * E, p * E;
    if p < q {
      SetsApart(p, q, E);
    } else if q < p {
      SetsApart(q, p, E);
    }
    Splice(all, o, ways, w);
  }

  /**
   * Splicing `ways` over `all` at offset `o` leaves every window of the same
   * length outside it unchanged.
   */
  lemma Splice(all: seq<Line>, o: nat, ways: seq<Line>, w: nat)
    requires o + |ways| <= |all|
    ensures var all' := all[..o] + ways + all[o + |ways|..];
            |all'| == |all| &&
            (w == o ==> all'[w..w + |ways|] == ways) &&
            (w + |ways| <= o || (o + |ways| <= w && w + |ways| <= |all|) ==>
               all'[w..w + |ways|] == all[w..w + |ways|])
  {
    var all' := all[..o] + ways + all[o + |ways|..];
    if w == o {
      assert all'[w..w + |ways|] == ways;
    }
    if w + |ways| <= o || (o + |ways| <= w && w + |ways| <= |all|) {
      assert all'[w..w + |ways|] == all[w..w + |ways|];
    }
  }

  /** Changing line `k` of set `q` is changing line `q * E + k` of the whole array. */
  lemma ReplaceOne(all: seq<Line>, q: nat, E: nat, k: nat, v: Line)
    requires q * E + E <= |all| && k < E
    ensures Replace(all, q, E, SetOf(all, q, E)[k := v]) == all[q * E + k := v]
  {
    MulNonNeg(q, E);
    var o := q * E;
    SetOfAt(all, q, E, o);
    ReplaceAt(all, q, E, o, all[o..o + E][k := v]);
    SpliceOne(all, o, E, k, v);
  }

  lemma SetOfAt(all: seq<Line>, q: nat, E: nat, o: nat)
    requires o == q * E && o + E <= |all|
    ensures SetOf(all, q, E) == all[o..o + E]
  {
  }

  lemma ReplaceAt(all: seq<Line>, q: nat, E: nat, o: nat, ways: seq<Line>)
    requires o == q * E && o + E <= |all| && |ways| == E
    ensures Replace(all, q, E, ways) == all[..o] + ways + all[o + E..]
  {
  }

  lemma SpliceOne(all: seq<Line>, o: nat, E: nat, k: nat, v: Line)
    requires o + E <= |all| && k < E
    ensures all[..o] + all[o..o + E][k := v] + all[o + E..] == all[o + k := v]
  {
    var lhs := all[..o] + all[o..o + E][k := v] + all[o + E..];
    assert forall i :: 0 <= i < |all| ==> lhs[i] == all[o + k := v][i];
  }

  lemma AllInvalid(all: seq<Line>, p: nat, E: nat)
    requires forall k :: 0 <= k < |all| ==> !all[k].valid
    ensures UniqueTags(SetOf(all, p, E)) && UsedBy(SetOf(all, p, E), 0)
  {
    MulNonNeg(p, E);
    if p * E + E <= |all| {
      InvalidWindow(all, p * E, all[p * E..p * E + E]);
    }
  }

  lemma InvalidWindow(all: seq<Line>, o: nat, w: seq<Line>)
    requires o + |w| <= |all| && w == all[o..o + |w|]
    requires forall k :: 0 <= k < |all| ==> !all[k].valid
    ensures forall j :: 0 <= j < |w| ==> !w[j].valid
  {
    forall j | 0 <= j < |w|
      ensures !w[j].valid
    {
      assert w[j] == all[o + j];
    }
  }

  lemma ReplaceSame(all: seq<Line>, q: nat, E: nat)
    requires q * E + E <= |all|
    ensures Replace(all, q, E, SetOf(all, q, E)) == all
  {
    assert all[..q * E] + all[q * E..q * E + E] + all[q * E + E..] == all;
  }

  /**
   * A well-formed cache content: `S` sets of `E` lines, each with distinct
   * tags among its valid lines and every time at most `now`.
   */
  ghost predicate Good(all: seq<Line>, S: nat, E: nat, now: nat)
  {
    |all| == S * E &&
    forall p :: 0 <= p < S ==> UniqueTags(SetOf(all, p, E)) && UsedBy(SetOf(all, p, E), now)
  }

  /** One access keeps the cache content well formed, at a later time. */
  lemma GoodStep(all: seq<Line>, S: nat, E: nat, q: nat, tag: nat, before: nat, now: nat)
    requires Good(all, S, E, before) && before <= now && q < S
    ensures Good(Replace(all, q, E, Lookup(SetOf(all, q, E), tag, now).lines), S, E, now)
  {
    SetsApart(q, S, E);
    var ways := SetOf(all, q, E);
    var r := Lookup(ways, tag, now);
    LookupPreserves(ways, tag, now);
    LookupLength(ways, tag, now);
    forall p | 0 <= p < S
      ensures UniqueTags(SetOf(Replace(all, q, E, r.lines), p, E))
      ensures UsedBy(SetOf(Replace(all, q, E, r.lines), p, E), now)
    {
      ReplaceSets(all, q, E, r.lines, p);
    }
  }

  /**
   * Writing the line chosen for an access of set `q` into the whole content
   * is the replacement of that set by the result of `Lookup`, and keeps the
   * content well formed.
   */
  lemma Commit(all: seq<Line>, after: seq<Line>, S: nat, E: nat, q: nat, tag: nat, before: nat, now: nat,
               k: int, v: Line)
    requires Good(all, S, E, before) && before <= now && q < S
    requires q * E + E <= |all|
    requires var r := Lookup(all[q * E..q * E + E], tag, now);
             k < E && (k >= 0 ==> r.lines == all[q * E..q * E + E][k := v]) &&
             (k < 0 ==> r.lines == all[q * E..q * E + E])
    requires after == if k >= 0 then all[q * E + k := v] else all
    ensures after == Replace(all, q, E, Lookup(SetOf(all, q, E), tag, now).lines)
    ensures Good(after, S, E, now)
  {
    GoodStep(all, S, E, q, tag, before, now);
    if k >= 0 {
      ReplaceOne(all, q, E, k, v);
    } else {
      ReplaceSame(all, q, E);
    }
  }

  lemma LookupLength(ways: seq<Line>, tag: nat, now: nat)
    ensures |Lookup(ways, tag, now).lines| == |ways|
  {
    FirstHitOk(ways, tag);
    LastInvalidOk(ways);
    LeastRecentOk(ways, now + 1);
  }

  /**
   * The simulated cache: `S` sets of `E` lines each in one array, and the
   * hit, miss and eviction counters together with the access counter.
   */
  class Cache {
    const S: nat
    const E: nat
    const lines: array<Line>
    var hit: nat
    var mis: nat
    var evi: nat
    var counter: nat

    ghost predicate Valid()
      reads this, lines
    {
      Good(lines[..], S, E, counter)
    }

    /** init: all counters zero and every line invalid. */
    constructor (s: nat, E: nat)
      ensures Valid() && this.S == Pow2(s) && this.E == E
      ensures hit == 0 && mis == 0 && evi == 0 && counter == 0
      ensures forall k :: 0 <= k < lines.Length ==> !lines[k].valid
      ensures fresh(lines)
    {
      S := Pow2(s);
      this.E := E;
      hit, mis, evi, counter := 0, 0, 0, 0;
      MulNonNeg(Pow2(s), E);
      var a := new Line[Pow2(s) * E];
      var i := 0;
      while i < a.Length
        invariant 0 <= i <= a.Length
        invariant forall k :: 0 <= k < i ==> !a[k].valid
      {
        a[i] := Line(false, 0, 0);
        i := i + 1;
      }
      forall p | 0 <= p < Pow2(s)
        ensures UniqueTags(SetOf(a[..], p, E)) && UsedBy(SetOf(a[..], p, E), 0)
      {
        AllInvalid(a[..], p, E);
      }
      lines := a;
    }

    /**
     * update: one access of `tag` in set `setIdx`. Only that set changes, as
     * `Lookup` prescribes; exactly one of the hit and miss counters grows,
     * and the eviction counter grows only on a miss in a full set.
     */
    method Update(tag: nat, setIdx: nat)
      requires Valid() && setIdx < S
      modifies this, lines
      ensures Valid()
      ensures counter == old(counter) + 1
      ensures var r := Lookup(SetOf(old(lines[..]), setIdx, E), tag, counter);
              lines[..] == Replace(old(lines[..]), setIdx, E, r.lines) &&
              hit == old(hit) + (if r.outcome == Hit then 1 else 0) &&
              mis == old(mis) + (if r.outcome == Hit then 0 else 1) &&
              evi == old(evi) + (if r.outcome == Evict || r.outcome == Lost then 1 else 0)
    {
      ghost var all := lines[..];
      SetsApart(setIdx, S, E);
      MulNonNeg(setIdx, E);
      var offset := setIdx * E;
      counter := counter + 1;
      ghost var ways := all[offset..offset + E];
      assert SetOf(all, setIdx, E) == ways;
      var k, v, outcome := Decide(offset, tag);
      Write(offset, k, v);
      Commit(all, lines[..], S, E, setIdx, tag, counter - 1, counter, k, v);
      Count(outcome);
    }

    /** Line `offset + k` becomes `v`; nothing changes when `k` is negative. */
    method Write(offset: nat, k: int, v: Line)
      requires k < 0 || offset + k < lines.Length
      modifies lines
      ensures lines[..] == if k >= 0 then old(lines[..])[offset + k := v] else old(lines[..])
    {
      if k >= 0 {
        lines[offset + k] := v;
      }
    }

    /** The hit, miss and eviction counters after an access with this outcome. */
    method Count(outcome: Outcome)
      modifies this
      ensures hit == old(hit) + (if outcome == Hit then 1 else 0)
      ensures mis == old(mis) + (if outcome == Hit then 0 else 1)
      ensures evi == old(evi) + (if outcome == Evict || outcome == Lost then 1 else 0)
      ensures counter == old(counter)
    {
      if outcome == Hit {
        hit := hit + 1;
      } else {
        mis := mis + 1;
        if outcome != Fill {
          evi := evi + 1;
        }
      }
    }

    /**
     * The decision of update for the `E` lines from `offset`: the outcome,
     * and the one line `k` rewritten with `v`, or `k == -1` when nothing is
     * written.
     */
    method Decide(offset: nat, tag: nat) returns (k: int, v: Line, outcome: Outcome)
      requires offset + E <= lines.Length
      ensures var ways := lines[offset..offset + E];
              var r := Lookup(ways, tag, counter);
              outcome == r.outcome && k < E &&
              (k >= 0 ==> r.lines == ways[k := v]) &&
              (k < 0 ==> r.lines == ways)
    {
      ghost var ways := lines[offset..offset + E];
      var isHit, j, emptyPos, argLeastRecent := Scan(offset, tag);
      if isHit {
        assert lines[offset + j] == ways[j];
        k, v, outcome := j, lines[offset + j].(timeUsed := counter), Hit;
      } else if emptyPos != -1 {
        k, v, outcome := emptyPos, Line(true, counter, tag), Fill;
      } else if argLeastRecent != -1 {
        assert lines[offset + argLeastRecent] == ways[argLeastRecent];
        k, v, outcome := argLeastRecent, lines[offset + argLeastRecent].(tagAddr := tag, timeUsed := counter), Evict;
      } else {
        k, v, outcome := -1, Line(false, 0, 0), Lost;
      }
    }

    /**
     * The scan of update over the `E` lines from `offset`: it stops at the
     * first valid line with the tag; otherwise it ends with the last invalid
     * line in `emptyPos` and the least recently used valid line in
     * `argLeastRecent`.
     */
    method Scan(offset: nat, tag: nat) returns (isHit: bool, j: nat, emptyPos: int, argLeastRecent: int)
      requires offset + E <= lines.Length
      ensures var ways := lines[offset..offset + E];
              (isHit <==> FirstHit(ways, tag) >= 0) &&
              (isHit ==> j == FirstHit(ways, tag)) &&
              (!isHit ==> emptyPos == LastInvalid(ways) && argLeastRecent == LeastRecent(ways, counter + 1).1)
    {
      ghost var ways := lines[offset..offset + E];
      isHit := false;
      emptyPos := -1;
      var leastRecent := counter + 1;
      argLeastRecent := -1;
      j := 0;
      while j < E
        invariant 0 <= j <= E
        invariant !isHit ==> FirstHit(ways[..j], tag) == -1
        invariant !isHit ==> emptyPos == LastInvalid(ways[..j])
        invariant !isHit ==> (leastRecent, argLeastRecent) == LeastRecent(ways[..j], counter + 1)
        invariant isHit ==> j < E && FirstHit(ways, tag) == j
        decreases if isHit then 0 else E - j + 1
      {
        assert ways[..j + 1][..j] == ways[..j];
        assert ways[j] == lines[offset + j];
        if !lines[offset + j].valid {
          emptyPos := j;
        } else {
          if lines[offset + j].tagAddr == tag {
            isHit := true;
            FirstHitPrefix(ways, tag, j + 1);
            break;
          }
          if lines[offset + j].timeUsed < leastRecent {
            leastRecent := lines[offset + j].timeUsed;
            argLeastRecent := j;
          }
        }
        j := j + 1;
      }
      if !isHit {
        assert ways[..j] == ways;
      }
    }
  }
}
