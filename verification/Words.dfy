/** 32-bit machine words, and the word primitives that the 64-bit division of
    lib/src/divdi3.c takes from lib/include/libchaos/divdi3.h. */
module Words {

  const BASE: int := 0x1_0000_0000

  type Word = x: int | 0 <= x < 0x1_0000_0000
  type DoubleWord = x: int | 0 <= x < 0x1_0000_0000_0000_0000

  /** The 64-bit value of a pair of words, most significant word first. */
  function Join(high: Word, low: Word): DoubleWord {
    high * BASE + low
  }

  function High(x: DoubleWord): Word {
    x / BASE
  }

  function Low(x: DoubleWord): Word {
    x % BASE
  }

  lemma JoinHighLow(x: DoubleWord)
    ensures Join(High(x), Low(x)) == x
  {
  }

  function Pow2(k: nat): (p: nat)
    ensures p > 0
  {
    if k == 0 then 1 else 2 * Pow2(k - 1)
  }

  lemma {:induction false} Pow2Adds(j: nat, k: nat)
    ensures Pow2(j) * Pow2(k) == Pow2(j + k)
  {
    if j == 0 {
    } else {
      Pow2Adds(j - 1, k);
      calc {
        Pow2(j) * Pow2(k);
        2 * Pow2(j - 1) * Pow2(k);
        2 * (Pow2(j - 1) * Pow2(k));
        2 * Pow2(j - 1 + k);
      }
    }
  }

  lemma Pow2Of32()
    ensures Pow2(32) == BASE
    ensures Pow2(31) == BASE / 2
  {
    assert Pow2(8) == 256;
    Pow2Adds(8, 8);
    Pow2Adds(16, 16);
  }

  lemma {:induction false} Pow2Monotone(j: nat, k: nat)
    requires j <= k
    ensures Pow2(j) <= Pow2(k)
  {
    if j == k {
    } else {
      Pow2Monotone(j, k - 1);
    }
  }

  /** x << k: the bits shifted out at the top are lost. */
  function Shl(x: Word, k: nat): Word {
    x * Pow2(k) % BASE
  }

  /** x >> k. */
  function Shr(x: Word, k: nat): Word {
    ShrBound(x, k);
    x / Pow2(k)
  }

  lemma ShrBound(x: Word, k: nat)
    ensures 0 <= x / Pow2(k) <= x
  {
    DivBound(x, Pow2(k));
  }

  lemma DivBound(x: nat, d: nat)
    requires d > 0
    ensures 0 <= x / d <= x
  {
    var q, r := DivMod(x, d);
    MulMonotone(1, d, q);
  }

  lemma Distribute(a: int, b: int, c: int)
    ensures (a + b) * c == a * c + b * c
  {
  }

  lemma MulMonotone(a: int, b: int, c: nat)
    requires a <= b
    ensures a * c <= b * c
  {
  }

  /** The defining equation of Euclidean division. */
  lemma DivMod(x: nat, d: nat) returns (q: nat, r: nat)
    requires d > 0
    ensures q == x / d && r == x % d && x == q * d + r && r < d
  {
    q, r := x / d, x % d;
  }

  /** Bitwise or, bit by bit. */
  function Or(x: nat, y: nat): nat {
    if x == 0 && y == 0 then 0
    else 2 * Or(x / 2, y / 2) + (if x % 2 == 1 || y % 2 == 1 then 1 else 0)
  }

  lemma {:induction false} OrZero(x: nat)
    ensures Or(x, 0) == x
  {
    if x == 0 {
    } else {
      OrZero(x / 2);
    }
  }

  /** Words whose set bits lie apart are added by `|`. */
  lemma {:induction false} OrDisjoint(x: nat, y: nat, k: nat)
    requires x % Pow2(k) == 0 && y < Pow2(k)
    ensures Or(x, y) == x + y
  {
    if k == 0 {
      OrZero(x);
    } else if x == 0 && y == 0 {
    } else {
      var p := Pow2(k - 1);
      var c := x / Pow2(k);
      assert x == c * (2 * p) == 2 * (c * p);
      assert x / 2 == c * p;
      MultipleMod(c, p);
      OrDisjoint(x / 2, y / 2, k - 1);
    }
  }

  lemma MultipleMod(c: nat, p: nat)
    requires p > 0
    ensures c * p % p == 0
    ensures c * p / p == c
  {
    DivModUnique(c * p, p, c, 0);
  }

  /** The k low bits of x are clear. */
  ghost predicate LowBitsClear(x: nat, k: nat) {
    k == 0 || (x % 2 == 0 && LowBitsClear(x / 2, k - 1))
  }

  lemma {:induction false} LowBitsClearIsMultiple(x: nat, k: nat)
    ensures LowBitsClear(x, k) <==> x % Pow2(k) == 0
  {
    if k == 0 {
    } else {
      var p := Pow2(k - 1);
      LowBitsClearIsMultiple(x / 2, k - 1);
      if LowBitsClear(x, k) {
        var c, z := DivMod(x / 2, p);
        assert c * p * 2 == c * (2 * p);
        MultipleMod(c, 2 * p);
      }
      if x % Pow2(k) == 0 {
        var c, z := DivMod(x, 2 * p);
        assert c * (2 * p) == 2 * (c * p);
        MultipleMod(c, p);
      }
    }
  }

  /** Quotient and remainder are unique. */
  lemma DivModUnique(n: nat, d: nat, q: int, r: int)
    requires d > 0 && n == q * d + r && 0 <= r < d
    ensures q == n / d && r == n % d
  {
    var q', r' := DivMod(n, d);
    if q > q' {
      MulMonotone(q' + 1, q, d);
      Distribute(q', 1, d);
    } else if q < q' {
      MulMonotone(q + 1, q', d);
      Distribute(q, 1, d);
    }
  }

  /** A left shift by k splits a word at bit 32 - k: the part shifted out is
      what the complementary right shift keeps. */
  lemma ShlSplits(x: Word, k: nat)
    requires 0 < k < 32
    ensures x * Pow2(k) == Shr(x, 32 - k) * BASE + Shl(x, k)
    ensures Shr(x, 32 - k) < Pow2(k)
    ensures Shl(x, k) % Pow2(k) == 0
  {
    Pow2Adds(k, 32 - k);
    Pow2Of32();
    ShrBound(x, 32 - k);
    SplitAt(x, Pow2(k), Pow2(32 - k));
  }

  lemma SplitAt(x: Word, p: nat, q: nat)
    requires p > 0 && q > 0 && p * q == BASE
    ensures x * p == (x / q) * BASE + x * p % BASE
    ensures 0 <= x / q < p
    ensures x * p % BASE % p == 0
  {
    var hi, lo := DivMod(x, q);
    ScaleSplit(x, p, q, hi, lo);
    DivModUnique(x * p, BASE, hi, lo * p);
    MultipleMod(lo, p);
    if hi >= p {
      MulMonotone(p, hi, q);
    }
  }

  lemma ScaleSplit(x: nat, p: nat, q: nat, hi: nat, lo: nat)
    requires x == hi * q + lo && lo < q && p > 0
    ensures x * p == hi * (p * q) + lo * p
    ensures lo * p < p * q
  {
    Distribute(hi * q, lo, p);
    assert hi * q * p == hi * (p * q);
    Distribute(lo, 1, p);
    MulMonotone(lo + 1, q, p);
  }

  lemma DoubleStaysBelow(x: Word, k: nat)
    requires x != 0 && k <= 31 && x * Pow2(k) < BASE / 2
    ensures k < 31 && x * Pow2(k + 1) == 2 * (x * Pow2(k))
  {
    Pow2Of32();
    MulMonotone(1, x, Pow2(k));
  }

  /** count_leading_zeros: the shift that sets the most significant bit. */
  method CountLeadingZeros(x: Word) returns (count: nat)
    requires x != 0
    ensures count < 32
    ensures BASE / 2 <= x * Pow2(count) < BASE
  {
    count := 0;
    var y: int := x;
    while y < BASE / 2
      invariant y == x * Pow2(count) && 1 <= y < BASE
      invariant count <= 31
      decreases BASE - y
    {
      DoubleStaysBelow(x, count);
      y := 2 * y;
      count := count + 1;
    }
  }

  lemma QuotientFits(n: nat, d: nat)
    requires n < BASE * d
    ensures 0 <= n / d < BASE && n % d < d && n == n / d * d + n % d
  {
    var q, r := DivMod(n, d);
    if q >= BASE {
      MulMonotone(BASE, q, d);
    }
  }

  /** sub_ddmmss: two-word subtraction; the borrow out is lost. */
  method SubDdmmss(ah: Word, al: Word, bh: Word, bl: Word) returns (high: Word, low: Word)
    ensures Join(high, low) == (Join(ah, al) - Join(bh, bl)) % (BASE * BASE)
  {
    var borrow := if al < bl then 1 else 0;
    low := al - bl + borrow * BASE;
    var top := ah - bh - borrow;
    high := if top < 0 then top + BASE else top;
    ghost var diff := Join(ah, al) - Join(bh, bl);
    assert diff == top * BASE + low;
    assert Join(high, low) == if top < 0 then diff + BASE * BASE else diff;
  }
}
