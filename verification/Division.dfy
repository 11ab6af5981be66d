/** 64-bit division built from 32-bit words: lib/src/divdi3.c. */
module Division {
  import opened Words
  import opened HalfWords

  // ---------- facts about normalisation ----------

  /** Shifting a pair of words left by k over three words multiplies by 2^k. */
  lemma NormalizePair(n1: Word, n0: Word, k: nat)
    requires 0 < k < 32
    ensures Or(Shl(n1, k), Shr(n0, 32 - k)) < BASE
    ensures Shr(n1, 32 - k) * (BASE * BASE) + Join(Or(Shl(n1, k), Shr(n0, 32 - k)), Shl(n0, k))
         == Join(n1, n0) * Pow2(k)
    ensures Shr(n1, 32 - k) < Pow2(k)
    ensures Shl(n0, k) % Pow2(k) == 0
  {
    OrOfShifts(n1, n0, k);
    ShlSplits(n1, k);
    ShlSplits(n0, k);
    PairTimes(n1, n0, Pow2(k), Shr(n1, 32 - k), Shl(n1, k), Shr(n0, 32 - k), Shl(n0, k));
  }

  lemma PairTimes(n1: nat, n0: nat, p: nat, h1: nat, l1: nat, h0: nat, l0: nat)
    requires n1 * p == h1 * BASE + l1
    requires n0 * p == h0 * BASE + l0
    ensures h1 * (BASE * BASE) + ((l1 + h0) * BASE + l0) == (n1 * BASE + n0) * p
  {
    Distribute(n1 * BASE, n0, p);
    assert n1 * BASE * p == n1 * p * BASE;
  }

  /** The low bits freed by one shift take the bits the other shift pushed out. */
  lemma OrOfShifts(x: Word, y: Word, k: nat)
    requires 0 < k < 32
    ensures Or(Shl(x, k), Shr(y, 32 - k)) == Shl(x, k) + Shr(y, 32 - k) < BASE
  {
    ShlSplits(x, k);
    ShlSplits(y, k);
    OrDisjoint(Shl(x, k), Shr(y, 32 - k), k);
    Pow2Adds(k, 32 - k);
    Pow2Of32();
    MultipleBelow(Shl(x, k), BASE, Pow2(k), Pow2(32 - k));
  }

  /** A multiple of p below a multiple of p leaves room for p. */
  lemma MultipleBelow(x: nat, n: nat, p: nat, c: nat)
    requires p > 0 && x < n && x % p == 0 && n == p * c
    ensures x + p <= n
  {
    var q, r := DivMod(x, p);
    if q >= c {
      MulMonotone(c, q, p);
    } else {
      MulMonotone(q + 1, c, p);
      Distribute(q, 1, p);
    }
  }

  /** Dividing the scaled numerator by the scaled divisor gives the same quotient
      and the scaled remainder. */
  lemma Denormalize(n: nat, d: nat, p: nat, q: nat, r: nat)
    requires p > 0 && d > 0
    requires n * p == q * (d * p) + r && r < d * p
    ensures r % p == 0 && r / p < d
    ensures n == q * d + r / p
  {
    assert q * (d * p) == q * d * p;
    var t := n - q * d;
    assert r == t * p by { Distribute(n - q * d, q * d, p); }
    if t < 0 {
      MulMonotone(t, -1, p);
    }
    MultipleMod(t, p);
    if t >= d {
      MulMonotone(d, t, p);
    }
  }

  /** Two digits of long division. */
  lemma TwoDigits(n1: Word, n0: Word, d: nat, q1: Word, r1: Word, q0: Word, r0: Word)
    requires n1 == q1 * d + r1
    requires Join(r1, n0) == q0 * d + r0
    ensures Join(n1, n0) == Join(q1, q0) * d + r0
  {
    Distribute(q1 * d, r1, BASE);
    Distribute(q1 * BASE, q0, d);
    assert q1 * d * BASE == q1 * BASE * d;
  }

  // ---------- the one-digit estimate ----------

  /** The numerator's top word is below 2^k and the divisor's low word is a
      multiple of 2^k, so the estimate times that low word stays below the divisor. */
  lemma EstimateTimesLowWord(n2: Word, n1: Word, d1: Word, d0: Word, k: nat, q: Word, r: Word)
    requires 0 < k < 32 && n2 < Pow2(k)
    requires d1 >= BASE / 2 && LowBitsClear(d0, k)
    requires Join(n2, n1) == q * d1 + r
    ensures q * d0 < BASE / 2 * BASE
  {
    var p := Pow2(k);
    EstimateBound(n2, n1, d1, p, q, r);
    if k <= 30 {
      Pow2Monotone(k + 1, 31);
      Pow2Of32();
      ProductBelow(q, d0, BASE / 2, BASE);
    } else {
      Pow2Of32();
      LowBitsClearIsMultiple(d0, k);
      MultipleBelow(d0, BASE, p, 2);
      ProductBelow(d0, q, BASE / 2, BASE);
    }
  }

  lemma EstimateBound(n2: Word, n1: Word, d1: Word, p: nat, q: Word, r: Word)
    requires n2 < p && d1 >= BASE / 2
    requires Join(n2, n1) == q * d1 + r
    ensures q < 2 * p
  {
    MulMonotone(BASE / 2, d1, q);
  }

  lemma ProductBelow(x: nat, y: nat, a: nat, b: nat)
    requires x <= a && y < b && a > 0
    ensures x * y < a * b
  {
    MulMonotone(x, a, y);
    MulMonotone(y + 1, b, a);
  }

  /** What the estimate leaves: the partial remainder with the next digit
      appended, less the estimate times the divisor's low word. */
  lemma EstimateRest(n2: Word, n1: Word, n0: Word, d1: Word, d0: Word, q: Word, r: Word,
                     n: nat, d: nat, rest: nat, product: nat)
    requires Join(n2, n1) == q * d1 + r && r < d1
    requires n == n2 * (BASE * BASE) + Join(n1, n0) && d == Join(d1, d0)
    requires rest == Join(r, n0) && product == q * d0
    ensures n - q * d == rest - product && rest < d
  {
    Distribute(d1 * BASE, d0, q);
    assert d1 * BASE * q == q * d1 * BASE;
  }

  /** The estimate q is the true quotient t or one more, and it is one more just
      when the partial remainder cannot cover q times the divisor's low word. In
      general Knuth's estimate can be two too large. */
  lemma EstimateWithinOne(n2: Word, n1: Word, n0: Word, d1: Word, d0: Word, k: nat, q: Word, r: Word,
                          n: nat, d: nat, t: nat, z: nat)
    requires 0 < k < 32 && n2 < Pow2(k)
    requires d1 >= BASE / 2 && LowBitsClear(d0, k)
    requires Join(n2, n1) == q * d1 + r && r < d1
    requires n == n2 * (BASE * BASE) + Join(n1, n0) && d == Join(d1, d0)
    requires n == t * d + z && z < d
    ensures q == if q * d0 <= Join(r, n0) then t else t + 1
  {
    EstimateTimesLowWord(n2, n1, d1, d0, k, q, r);
    EstimateRest(n2, n1, n0, d1, d0, q, r, n, d, Join(r, n0), q * d0);
    QuotientFromRest(n, d, q, Join(r, n0), q * d0, t, z);
  }

  lemma QuotientFromRest(n: nat, d: nat, q: nat, rest: nat, product: nat, t: nat, z: nat)
    requires n - q * d == rest - product && product < d && rest < d
    requires n == t * d + z && z < d
    ensures q == if product <= rest then t else t + 1
  {
    if product <= rest {
      DivModUnique(n, d, q, rest - product);
    } else {
      Distribute(q, -1, d);
      DivModUnique(n, d, q - 1, rest - product + d);
    }
    DivModUnique(n, d, t, z);
  }

  /** The two-word remainder shifted back right is the remainder divided by 2^k. */
  lemma ShiftBack(r1: Word, r0: Word, k: nat)
    requires 0 < k < 32 && Join(r1, r0) % Pow2(k) == 0
    ensures Or(Shl(r1, 32 - k), Shr(r0, k)) < BASE
    ensures Join(Shr(r1, k), Or(Shl(r1, 32 - k), Shr(r0, k))) == Join(r1, r0) / Pow2(k)
  {
    var j := 32 - k;
    OrOfShifts(r1, r0, j);
    assert Pow2(k) * Pow2(j) == BASE by {
      Pow2Of32();
      Pow2Adds(k, j);
    }
    assert Join(r1, r0) * Pow2(j) == (Shr(r1, k) * BASE + Shl(r1, j) + Shr(r0, k)) * BASE + Shl(r0, j) by {
      ShlSplits(r1, j);
      ShlSplits(r0, j);
      PairTimes(r1, r0, Pow2(j), Shr(r1, k), Shl(r1, j), Shr(r0, k), Shl(r0, j));
    }
    ShiftBackValue(Join(r1, r0), Pow2(k), Pow2(j), Shr(r1, k) * BASE + Shl(r1, j) + Shr(r0, k), Shl(r0, j));
  }

  lemma ShiftBackValue(r: nat, p: nat, q: nat, high: nat, low: Word)
    requires p > 0 && q > 0 && p * q == BASE && r % p == 0
    requires r * q == high * BASE + low
    ensures high == r / p
  {
    var c, z := DivMod(r, p);
    assert r * q == c * p * q == c * (p * q);
    DivModUnique(r * q, BASE, high, low);
    MultipleMod(c, BASE);
  }

  // ---------- __udivmoddi4 ----------

  /** Divisor of one word, dividing the words as they stand. */
  method DivideByWord(n1: Word, n0: Word, d0: Word) returns (q1: Word, q0: Word, r: Word)
    requires d0 != 0
    ensures Join(n1, n0) == Join(q1, q0) * d0 + r && r < d0
  {
    var m1: Word, m0: Word := n1, n0;
    if d0 > m1 {
      q0, m0 := UDivQrnnd(m1, m0, d0, false);
      q1 := 0;
    } else {
      q1, m1 := UDivQrnnd(0, m1, d0, false);
      q0, m0 := UDivQrnnd(m1, m0, d0, false);
      TwoDigits(n1, n0, d0, q1, m1, q0, m0);
    }
    r := m0;
  }

  /** The three-word left shift: `top` receives the bits pushed out of the high
      word. Callers that shift a value known to fit two words leave it unused. */
  method ShiftLeftPair(high: Word, low: Word, k: nat) returns (top: Word, h: Word, l: Word)
    requires 0 < k < 32
    ensures top * (BASE * BASE) + Join(h, l) == Join(high, low) * Pow2(k)
    ensures top < Pow2(k) && LowBitsClear(l, k)
  {
    NormalizePair(high, low, k);
    LowBitsClearIsMultiple(Shl(low, k), k);
    top := Shr(high, 32 - k);
    h := Or(Shl(high, k), Shr(low, 32 - k));
    l := Shl(low, k);
  }

  method ShiftRightPair(high: Word, low: Word, k: nat) returns (h: Word, l: Word)
    requires 0 < k < 32 && Join(high, low) % Pow2(k) == 0
    ensures Join(h, l) == Join(high, low) / Pow2(k)
  {
    ShiftBack(high, low, k);
    l := Or(Shl(high, 32 - k), Shr(low, k));
    h := Shr(high, k);
  }

  /** A left shift that loses nothing. */
  method ShiftLeftWord(x: Word, k: nat) returns (y: Word)
    requires x * Pow2(k) < BASE
    ensures y == x * Pow2(k)
  {
    y := Shl(x, k);
  }

  /** A scaled numerator below `d * BASE` has no third word, and its high word is
      below the divisor. */
  lemma FitsTwoWords(top: Word, h: Word, l: Word, n1: Word, n0: Word, d: Word, p: nat)
    requires top * (BASE * BASE) + Join(h, l) == Join(n1, n0) * p
    requires n1 < d && d * p < BASE && p > 0
    ensures top == 0 && h < d * p
  {
    MulMonotone(Join(n1, n0) + 1, d * BASE, p);
    assert d * BASE * p == d * p * BASE;
    Distribute(Join(n1, n0), 1, p);
  }

  lemma ScaledIsLarge(d: Word, k: nat)
    requires k < 32 && BASE / 2 <= d * Pow2(k) < BASE
    ensures d * Pow2(k) >= Pow2(k)
  {
    MulMonotone(1, d, Pow2(k));
  }

  /** Divisor of one word, normalised first (UDIV_NEEDS_NORMALIZATION). */
  method DivideByWordNormalized(n1: Word, n0: Word, divisor: Word) returns (q1: Word, q0: Word, r: Word)
    requires divisor != 0
    ensures Join(n1, n0) == Join(q1, q0) * divisor + r && r < divisor
  {
    var bm := CountLeadingZeros(divisor);
    if divisor > n1 {
      q0, r := DivideShortNormalized(n1, n0, divisor, bm);
      q1 := 0;
    } else {
      q1, q0, r := DivideLongNormalized(n1, n0, divisor, bm);
    }
    Denormalize(Join(n1, n0), divisor, Pow2(bm), Join(q1, q0), r);
    r := Shr(r, bm);
  }

  /** One quotient word; the remainder is still shifted left by bm. */
  method DivideShortNormalized(n1: Word, n0: Word, divisor: Word, bm: nat) returns (q0: Word, r: Word)
    requires bm < 32 && BASE / 2 <= divisor * Pow2(bm) < BASE
    requires n1 < divisor
    ensures Join(n1, n0) * Pow2(bm) == q0 * (divisor * Pow2(bm)) + r && r < divisor * Pow2(bm)
  {
    var d0: Word, m1: Word, m0: Word := divisor, n1, n0;
    if bm != 0 {
      d0 := ShiftLeftWord(divisor, bm);
      var top;
      top, m1, m0 := ShiftLeftPair(m1, m0, bm);
      FitsTwoWords(top, m1, m0, n1, n0, divisor, Pow2(bm));
    }
    q0, r := UDivQrnnd(m1, m0, d0, true);
  }

  /** Two quotient words; the remainder is still shifted left by bm. */
  method DivideLongNormalized(n1: Word, n0: Word, divisor: Word, bm: nat) returns (q1: Word, q0: Word, r: Word)
    requires bm < 32 && BASE / 2 <= divisor * Pow2(bm) < BASE
    requires n1 >= divisor
    ensures Join(n1, n0) * Pow2(bm) == Join(q1, q0) * (divisor * Pow2(bm)) + r && r < divisor * Pow2(bm)
  {
    var d0: Word, m1: Word, m0: Word := divisor, n1, n0;
    if bm == 0 {
      m1 := m1 - d0;
      q1 := 1;
    } else {
      d0 := ShiftLeftWord(divisor, bm);
      ScaledIsLarge(divisor, bm);
      var n2;
      n2, m1, m0 := ShiftLeftPair(m1, m0, bm);
      ghost var middle := m1;
      q1, m1 := UDivQrnnd(n2, m1, d0, true);
      ThreeWords(n2, middle, m0, q1, d0, m1);
    }
    ghost var bottom := m0;
    assert Join(n1, n0) * Pow2(bm) == q1 * BASE * d0 + Join(m1, m0);
    q0, m0 := UDivQrnnd(m1, m0, d0, true);
    Distribute(q1 * BASE, q0, d0);
    r := m0;
  }

  lemma ThreeWords(n2: Word, n1: Word, n0: Word, q: Word, d: Word, r: Word)
    requires Join(n2, n1) == q * d + r
    ensures n2 * (BASE * BASE) + Join(n1, n0) == q * BASE * d + Join(r, n0)
  {
    Distribute(q * d, r, BASE);
    assert q * d * BASE == q * BASE * d;
  }

  /** Divisor of two words with its top bit already set: the quotient is 0 or 1. */
  method SubtractOnce(n1: Word, n0: Word, d1: Word, d0: Word) returns (q0: Word, r1: Word, r0: Word)
    requires BASE / 2 <= d1 <= n1
    ensures Join(n1, n0) == q0 * Join(d1, d0) + Join(r1, r0) && Join(r1, r0) < Join(d1, d0)
  {
    r1, r0 := n1, n0;
    if r1 > d1 || r0 >= d0 {
      q0 := 1;
      r1, r0 := SubDdmmss(r1, r0, d1, d0);
    } else {
      q0 := 0;
    }
  }

  /** The digit estimate and its single correction, on normalised words. The
      subtrahend may wrap below zero; the final subtraction cancels the wrap. */
  method CorrectedDigit(n2: Word, n1: Word, n0: Word, d1: Word, d0: Word, ghost bm: nat)
    returns (q0: Word, r1: Word, r0: Word)
    requires 0 < bm < 32 && n2 < Pow2(bm) <= d1
    requires d1 >= BASE / 2 && LowBitsClear(d0, bm)
    ensures n2 * (BASE * BASE) + Join(n1, n0) == q0 * Join(d1, d0) + Join(r1, r0)
    ensures Join(r1, r0) < Join(d1, d0)
  {
    q0, r1 := UDivQrnnd(n2, n1, d1, true);
    ghost var estimate, rest := q0, r1;
    EstimateTimesLowWord(n2, n1, d1, d0, bm, estimate, rest);
    EstimateRest(n2, n1, n0, d1, d0, estimate, rest, n2 * (BASE * BASE) + Join(n1, n0), Join(d1, d0),
                 Join(rest, n0), estimate * d0);
    var m1, m0 := UMulPpmm(q0, d0);
    if m1 > r1 || (m1 == r1 && m0 > n0) {
      EstimatePositive(q0, d0, m1, m0);
      q0 := q0 - 1;
      m1, m0 := SubDdmmss(m1, m0, d1, d0);
    }
    r1, r0 := SubDdmmss(r1, n0, m1, m0);
    SingleCorrection(n2 * (BASE * BASE) + Join(n1, n0), Join(d1, d0), estimate, Join(rest, n0), estimate * d0,
                     q0, Join(m1, m0), Join(r1, r0));
  }

  lemma EstimatePositive(q: Word, d: Word, m1: Word, m0: Word)
    requires Join(m1, m0) == q * d && (m1 > 0 || m0 > 0)
    ensures q > 0
  {
  }

  lemma SingleCorrection(n: nat, d: DoubleWord, estimate: nat, rest: DoubleWord, product: nat,
                         q: nat, m: DoubleWord, r: DoubleWord)
    requires 0 < d && product < d && n - estimate * d == rest - product
    requires rest < product ==> q == estimate - 1 && m == (product - d) % (BASE * BASE)
    requires rest >= product ==> q == estimate && m == product
    requires rest - product < d
    requires r == (rest - m) % (BASE * BASE)
    ensures n == q * d + r && r < d
  {
    if rest < product {
      assert m == product - d + BASE * BASE;
      assert rest - m + BASE * BASE == rest - product + d;
      Distribute(estimate, -1, d);
      assert r == rest - product + d;
    } else {
      assert r == rest - product;
    }
  }

  /** Divisor of two words whose top bit is clear. */
  method EstimateAndCorrect(n1: Word, n0: Word, d1: Word, d0: Word, bm: nat)
    returns (q0: Word, r1: Word, r0: Word)
    requires 0 < bm < 32 && BASE / 2 <= d1 * Pow2(bm) < BASE
    requires d1 <= n1
    ensures Join(n1, n0) == q0 * Join(d1, d0) + Join(r1, r0) && Join(r1, r0) < Join(d1, d0)
  {
    var none, e1, e0 := ShiftLeftPair(d1, d0, bm);
    DivisorScaled(none, e1, e0, d1, d0, bm);
    var n2, m1, m0 := ShiftLeftPair(n1, n0, bm);
    q0, m1, m0 := CorrectedDigit(n2, m1, m0, e1, e0, bm);
    Denormalize(Join(n1, n0), Join(d1, d0), Pow2(bm), q0, Join(m1, m0));
    r1, r0 := ShiftRightPair(m1, m0, bm);
  }

  lemma DivisorScaled(top: Word, e1: Word, e0: Word, d1: Word, d0: Word, k: nat)
    requires 0 < k < 32 && BASE / 2 <= d1 * Pow2(k) < BASE
    requires top * (BASE * BASE) + Join(e1, e0) == Join(d1, d0) * Pow2(k)
    ensures top == 0 && BASE / 2 <= e1 && Pow2(k) <= e1
    ensures Join(e1, e0) == Join(d1, d0) * Pow2(k)
  {
    Pow2Monotone(k, 31);
    Pow2Of32();
    Pow2Adds(k, 32 - k);
    MultipleMod(d1, Pow2(k));
    MultipleBelow(d1 * Pow2(k), BASE, Pow2(k), Pow2(32 - k));
    ScaledHighWord(top, e1, e0, d1, d0, Pow2(k));
  }

  lemma ScaledHighWord(top: Word, e1: Word, e0: Word, d1: Word, d0: Word, p: nat)
    requires p > 0 && d1 * p + p <= BASE
    requires top * (BASE * BASE) + Join(e1, e0) == Join(d1, d0) * p
    ensures top == 0 && d1 * p <= e1
  {
    Distribute(d1 * BASE, d0, p);
    assert d1 * BASE * p == d1 * p * BASE;
    MulMonotone(0, d0, p);
    MulMonotone(d0 + 1, BASE, p);
    Distribute(d0, 1, p);
  }

  /** __udivmoddi4 in both UDIV_NEEDS_NORMALIZATION variants: the quotient, and
      the remainder the source stores through rp. */
  method UDivMod(n: DoubleWord, d: DoubleWord, needsNormalization: bool) returns (q: DoubleWord, r: DoubleWord)
    requires d != 0
    ensures q == n / d && r == n % d
  {
    var d0, d1, n0, n1 := Low(d), High(d), Low(n), High(n);
    JoinHighLow(n);
    JoinHighLow(d);
    var q0: Word, q1: Word, r0: Word, r1: Word := 0, 0, 0, 0;
    if d1 == 0 {
      if needsNormalization {
        q1, q0, r0 := DivideByWordNormalized(n1, n0, d0);
      } else {
        q1, q0, r0 := DivideByWord(n1, n0, d0);
      }
    } else if d1 > n1 {
      r1, r0 := n1, n0;
    } else {
      var bm := CountLeadingZeros(d1);
      if bm == 0 {
        q0, r1, r0 := SubtractOnce(n1, n0, d1, d0);
      } else {
        q0, r1, r0 := EstimateAndCorrect(n1, n0, d1, d0, bm);
      }
    }
    q, r := Join(q1, q0), Join(r1, r0);
    DivModUnique(n, d, q, r);
  }

  // ---------- the exported functions ----------

  const INT64_MIN: int := -0x8000_0000_0000_0000

  type Int64 = x: int | -0x8000_0000_0000_0000 <= x < 0x8000_0000_0000_0000

  /** A 64-bit pattern read as unsigned, and as two's complement. */
  function AsUnsigned(x: Int64): DoubleWord {
    if x < 0 then x + BASE * BASE else x
  }

  function AsSigned(x: DoubleWord): Int64 {
    if x >= BASE * BASE / 2 then x - BASE * BASE else x
  }

  /** Unary minus on 64 bits; the most negative value is its own negation. */
  function Negate(x: Int64): Int64 {
    if x == INT64_MIN then x else -x
  }

  function Abs(x: int): nat {
    if x < 0 then -x else x
  }

  /** C's truncating quotient and the remainder that belongs to it. */
  function TruncDiv(u: int, v: int): int
    requires v != 0
  {
    if (u < 0) == (v < 0) then Abs(u) / Abs(v) else -(Abs(u) / Abs(v))
  }

  function TruncMod(u: int, v: int): int
    requires v != 0
  {
    if u < 0 then -(Abs(u) % Abs(v)) else Abs(u) % Abs(v)
  }

  /** __divdi3. */
  method DivDi3(dividend: Int64, divisor: Int64, needsNormalization: bool) returns (w: Int64)
    requires divisor != 0
    ensures w == TruncDiv(dividend, divisor) <==> !(dividend == INT64_MIN && divisor == -1)
    ensures dividend == INT64_MIN && divisor == -1 ==> w == INT64_MIN
  {
    var c := false;
    var u, v := dividend, divisor;
    if u < 0 {
      c := !c;
      u := Negate(u);
    }
    if v < 0 {
      c := !c;
      v := Negate(v);
    }
    var q, _ := UDivMod(AsUnsigned(u), AsUnsigned(v), needsNormalization);
    QuotientMagnitude(dividend, divisor);
    w := AsSigned(q);
    if c {
      w := Negate(w);
    }
  }

  /** Only INT64_MIN / -1 overflows. */
  lemma QuotientMagnitude(u: Int64, v: Int64)
    requires v != 0
    ensures Abs(u) / Abs(v) <= Abs(u) <= -INT64_MIN
    ensures Abs(u) / Abs(v) == -INT64_MIN <==> u == INT64_MIN && Abs(v) == 1
  {
    DivBound(Abs(u), Abs(v));
    var q, r := DivMod(Abs(u), Abs(v));
    if Abs(v) >= 2 {
      MulMonotone(2, Abs(v), q);
    }
  }

  /** __moddi3. */
  method ModDi3(dividend: Int64, divisor: Int64, needsNormalization: bool) returns (w: Int64)
    requires divisor != 0
    ensures w == TruncMod(dividend, divisor)
  {
    var c := false;
    var u, v := dividend, divisor;
    if u < 0 {
      c := !c;
      u := Negate(u);
    }
    if v < 0 {
      v := Negate(v);
    }
    var _, r := UDivMod(AsUnsigned(u), AsUnsigned(v), needsNormalization);
    ghost var k, rest := DivMod(Abs(dividend), Abs(divisor));
    // `w` is unsigned in the source: negate modulo 2^64, then read as signed.
    var bits: DoubleWord := if c then (BASE * BASE - r) % (BASE * BASE) else r;
    w := AsSigned(bits);
  }

  /** __udivdi3 and __umoddi3. */
  method UDivDi3(u: DoubleWord, v: DoubleWord, needsNormalization: bool) returns (w: DoubleWord)
    requires v != 0
    ensures w == u / v
  {
    var r;
    w, r := UDivMod(u, v, needsNormalization);
  }

  method UModDi3(u: DoubleWord, v: DoubleWord, needsNormalization: bool) returns (w: DoubleWord)
    requires v != 0
    ensures w == u % v
  {
    var q;
    q, w := UDivMod(u, v, needsNormalization);
  }

  /** Quotient and remainder fit together as C requires: they rebuild the
      dividend, and the remainder is smaller than the divisor and takes the
      dividend's sign. */
  lemma TruncatedDivision(u: int, v: int)
    requires v != 0
    ensures u == TruncDiv(u, v) * v + TruncMod(u, v)
    ensures Abs(TruncMod(u, v)) < Abs(v)
    ensures TruncMod(u, v) == 0 || (TruncMod(u, v) < 0) == (u < 0)
  {
    var q, r := DivMod(Abs(u), Abs(v));
    SignedProduct(q, v);
  }

  lemma SignedProduct(q: nat, v: int)
    ensures q * v == if v < 0 then -(q * Abs(v)) else q * Abs(v)
    ensures (0 - q) * v == -(q * v)
  {
  }
}
