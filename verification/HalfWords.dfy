/** The portable word primitives of lib/include/libchaos/divdi3.h, which work in half
    words: umul_ppmm, and __udiv_qrnnd_c, the one that wants a normalised divisor. */
module HalfWords {
  import opened Words

  const HALF: int := 0x1_0000

  /** Arithmetic on words wraps around. */
  function Plus(a: Word, b: Word): Word {
    if a + b < BASE then a + b else a + b - BASE
  }

  function Minus(a: Word, b: Word): Word {
    if a >= b then a - b else a - b + BASE
  }

  function HighHalf(x: Word): (h: Word)
    ensures h < HALF
  {
    x / HALF
  }

  function LowHalf(x: Word): (l: Word)
    ensures l < HALF && x == HighHalf(x) * HALF + l
  {
    x % HALF
  }

  /** h * HALF | l. */
  lemma OrHalves(h: Word, l: Word)
    requires h < HALF && l < HALF
    ensures Or(h * HALF, l) == h * HALF + l < BASE
  {
    Pow2Of32();
    assert Pow2(8) == 256;
    Pow2Adds(8, 8);
    MultipleMod(h, HALF);
    OrDisjoint(h * HALF, l, 16);
  }

  // ---------- one digit of half a word ----------

  /** The estimate q, made with the divisor's high half, the remainder the numerator then
      has, and what the divisor's low half takes off. */
  lemma HalfEstimate(r: Word, half: Word, d: Word, d1: Word, d0: Word, q: nat, r1: nat, m: nat)
    requires half < HALF && r < d && d >= BASE / 2 && d == d1 * HALF + d0 && d0 < HALF
    requires d1 > 0 && q == r / d1 && r1 == r % d1 * HALF + half && m == q * d0
    ensures r * HALF + half - q * d == r1 - m
    ensures r1 < d && m < BASE
    ensures (r * HALF + half) / d <= q <= (r * HALF + half) / d + 2
  {
    var c, z := DivMod(r, d1);
    Distribute(q * d1, z, HALF);
    assert q * d1 * HALF == q * (d1 * HALF);
    Distribute(d1 * HALF, d0, q);
    MulMonotone(z + 1, d1, HALF);
    EstimateIsSmall(r, d1, d0, q);
    MulMonotone(q, HALF + 1, d0);
    EstimateWithinTwo(r * HALF + half, d, q, r1, m);
  }

  /** Two corrections are enough. */
  lemma EstimateWithinTwo(n: nat, d: nat, q: nat, r1: nat, m: int)
    requires n - q * d == r1 - m && r1 < d && 0 <= m < 2 * d
    ensures n / d <= q <= n / d + 2
  {
    var t, z := DivMod(n, d);
    if t > q {
      MulMonotone(q + 1, t, d);
      Distribute(q, 1, d);
    } else if t + 3 <= q {
      MulMonotone(t + 3, q, d);
      Distribute(t, 3, d);
    }
  }

  /** And needed: for the divisor 0x8000ffff and the remainder 0x8000fffe the estimate is
      0x10001 and the digit 0xffff, whatever half word comes down. */
  lemma EstimateCanBeTwoOff(half: Word)
    requires half < HALF
    ensures var r: Word, d: Word := 0x8000_fffe, 0x8000_ffff;
      r < d && r / HighHalf(d) == (r * HALF + half) / d + 2
  {
    var r: Word, d: Word := 0x8000_fffe, 0x8000_ffff;
    DivModUnique(r * HALF + half, d, 0xffff, r * HALF + half - 0xffff * d);
  }

  lemma EstimateIsSmall(r: nat, d1: nat, d0: nat, q: nat)
    requires d1 >= HALF / 2 && r < d1 * HALF + d0 && d0 < HALF && q * d1 <= r
    ensures q <= HALF + 1
  {
    if q > HALF + 1 {
      MulMonotone(HALF + 2, q, d1);
      Distribute(HALF, 2, d1);
    }
  }

  /** The estimate can be two too large; both corrections test for the carry. n is the
      numerator. */
  method Correct(c: Word, r1: Word, m: Word, d: Word, ghost n: nat) returns (digit: Word, rest: Word)
    requires n == c * d + r1 - m && r1 < d && d >= BASE / 2
    ensures n == digit * d + rest && rest < d
  {
    digit, rest := c, r1;
    if rest < m {
      CorrectOnce(n, c, d);
      digit, rest := digit - 1, Plus(rest, d);
      if rest >= d {
        if rest < m {
          CorrectOnce(n, digit, d);
          digit, rest := digit - 1, Plus(rest, d);
        }
      }
    }
    rest := Minus(rest, m);
  }

  /** One more half digit: with the remainder r so far, r * HALF + half is divided by d. */
  method HalfDigit(r: Word, half: Word, d: Word) returns (digit: Word, rest: Word)
    requires half < HALF && r < d && d >= BASE / 2
    ensures r * HALF + half == digit * d + rest && rest < d && digit < HALF
  {
    var c, r1, m := Estimate(r, half, d);
    digit, rest := Correct(c, r1, m, d, r * HALF + half);
    DigitFits(r, half, d, digit, rest);
  }

  method Estimate(r: Word, half: Word, d: Word) returns (c: Word, r1: Word, m: Word)
    requires half < HALF && r < d && d >= BASE / 2
    ensures r * HALF + half == c * d + r1 - m && r1 < d
  {
    var d1, d0 := HighHalf(d), LowHalf(d);
    var rem;
    c, rem := DivideBy(r, d1);
    HalfEstimate(r, half, d, d1, d0, c, rem * HALF + half, c * d0);
    m := Product(c, d0);
    OrHalves(rem, half);
    r1 := Or(rem * HALF, half);
  }

  method Product(a: Word, b: Word) returns (m: Word)
    requires a * b < BASE
    ensures m == a * b
  {
    MulMonotone(0, a, b);
    m := a * b;
  }

  method DivideBy(r: Word, d1: Word) returns (c: Word, rem: Word)
    requires 0 < d1 < HALF
    ensures c == r / d1 && rem == r % d1 && rem < d1
  {
    DivBound(r, d1);
    c, rem := r / d1, r % d1;
  }

  /** A digit that is too large is positive; one less leaves d more. */
  lemma CorrectOnce(n: nat, q: nat, d: Word)
    requires n < q * d
    ensures q > 0 && (q - 1) * d == q * d - d
  {
    Distribute(q - 1, 1, d);
  }

  lemma DigitFits(r: nat, half: nat, d: nat, q: nat, rest: nat)
    requires r < d && half < HALF && r * HALF + half == q * d + rest
    ensures q < HALF
  {
    MulMonotone(r + 1, d, HALF);
    if q >= HALF {
      MulMonotone(HALF, q, d);
    }
  }

  // ---------- the primitives ----------

  /** __udiv_qrnnd_c meets the contract of udiv_qrnnd, for a divisor whose top bit is set. */
  method UDivQrnndC(high: Word, low: Word, d: Word) returns (q: Word, r: Word)
    requires high < d && d >= BASE / 2
    ensures Join(high, low) == q * d + r && r < d
  {
    var q1, r1 := HalfDigit(high, HighHalf(low), d);
    var q0, r0 := HalfDigit(r1, LowHalf(low), d);
    OrHalves(q1, q0);
    q, r := Or(q1 * HALF, q0), r0;
    Distribute(q1 * HALF, q0, d);
    assert q1 * HALF * d == q1 * d * HALF;
  }

  /** udiv_qrnnd divides a two-word numerator by one word. The high word must be
      below the divisor, or the quotient would not fit; with
      UDIV_NEEDS_NORMALIZATION the divisor's top bit must be set as well; this is the
      portable one, while a processor's own instruction is taken by its meaning. */
  method UDivQrnnd(high: Word, low: Word, d: Word, needsNormalization: bool) returns (q: Word, r: Word)
    requires high < d
    requires needsNormalization ==> d >= BASE / 2
    ensures Join(high, low) == q * d + r && r < d
  {
    if needsNormalization {
      q, r := UDivQrnndC(high, low, d);
    } else {
      var n := Join(high, low);
      QuotientFits(n, d);
      q, r := n / d, n % d;
    }
  }

  /** The two inner products and the carry of one into the other. */
  lemma HalvesProduct(u: Word, v: Word, uh: nat, ul: nat, vh: nat, vl: nat)
    requires u == uh * HALF + ul && v == vh * HALF + vl
    ensures u * v == uh * vh * BASE + (ul * vh + uh * vl) * HALF + ul * vl
  {
    Distribute(uh * HALF, ul, v);
    assert uh * HALF * v == uh * HALF * (vh * HALF) + uh * HALF * vl;
    assert ul * v == ul * (vh * HALF) + ul * vl;
    assert uh * HALF * (vh * HALF) == uh * vh * (HALF * HALF);
    assert uh * HALF * vl == uh * vl * HALF;
    assert ul * (vh * HALF) == ul * vh * HALF;
  }

  lemma ProductOfHalves(a: nat, b: nat)
    requires a < HALF && b < HALF
    ensures 0 <= a * b <= (HALF - 1) * (HALF - 1)
  {
    MulMonotone(a, HALF - 1, b);
    MulMonotone(b, HALF - 1, HALF - 1);
  }

  /** umul_ppmm: the full two-word product, with one carry to be caught. */
  method UMulPpmm(u: Word, v: Word) returns (high: Word, low: Word)
    ensures Join(high, low) == u * v
  {
    var ul, uh, vl, vh := LowHalf(u), HighHalf(u), LowHalf(v), HighHalf(v);
    ProductOfHalves(ul, vl);
    ProductOfHalves(ul, vh);
    ProductOfHalves(uh, vl);
    ProductOfHalves(uh, vh);
    HalvesProduct(u, v, uh, ul, vh, vl);
    var x0: Word, x1: Word, x2: Word, x3: Word := ul * vl, ul * vh, uh * vl, uh * vh;
    x1 := Plus(x1, HighHalf(x0));
    x1 := Plus(x1, x2);
    if x1 < x2 {
      x3 := Plus(x3, HALF);
    }
    MulMonotone(LowHalf(x1), HALF - 1, HALF);
    high, low := Plus(x3, HighHalf(x1)), Plus(LowHalf(x1) * HALF, LowHalf(x0));
    ProductOfWords(u, v);
  }

  lemma ProductOfWords(u: Word, v: Word)
    ensures 0 <= u * v <= (BASE - 1) * (BASE - 1)
  {
    MulMonotone(u, BASE - 1, v);
    MulMonotone(v, BASE - 1, BASE - 1);
    MulMonotone(0, u, v);
  }
}
