/** Do the masks that are left match what the masks that went matched? A finite test
    that decides it, for the list that chanmode_bounce_mask of src/chanmode.c leaves. */
module MaskCover {
  import opened Prelude
  import opened Glob
  import opened MaskLists

  predicate AnyMatches(s: string, rs: set<string>) {
    exists r :: r in rs && Matches(s, r)
  }

  /** Every string got from m, behind `pre`, by filling its question marks with x and
      its stars with up to n times x is matched by one of the masks. */
  predicate Fillings(m: string, pre: string, rs: set<string>, x: char, n: nat)
    decreases |m|
  {
    if m == [] then AnyMatches(pre, rs)
    else if m[0] == '*' then forall k: nat :: k <= n ==> Fillings(m[1..], pre + Copies(x, k), rs, x, n)
    else Fillings(m[1..], pre + [if m[0] == '?' then x else m[0]], rs, x, n)
  }

  /** A character that stands in none of the masks, and a number above their lengths. */
  ghost predicate Fresh(rs: set<string>, x: char, n: nat) {
    forall r :: r in rs ==> x !in r && |r| < n
  }

  // ---------- more of the same character ----------

  function Padded(p: string, x: char, k: nat, q: string): string {
    p + (Copies(x, k) + q)
  }

  /** In a stretch longer than the mask some x is absorbed by a star, which absorbs
      one more as well. */
  lemma {:induction false} Pump(p: string, x: char, k: nat, q: string, r: string)
    requires Matches(Padded(p, x, k, q), r) && k > |r|
    ensures Matches(Padded(p, x, k + 1, q), r)
    decreases |p| + |r| + k
  {
    var t, more := Padded(p, x, k, q), Padded(p, x, k + 1, q);
    assert t[0] == if p == [] then x else p[0];
    assert p != [] ==> t[1..] == Padded(p[1..], x, k, q) && more[1..] == Padded(p[1..], x, k + 1, q);
    assert p == [] ==> t[1..] == Padded(p, x, k - 1, q) && more[1..] == t && more[0] == x;
    if r[0] == '*' {
      if Matches(t, r[1..]) {
        Pump(p, x, k, q, r[1..]);
      } else if p != [] {
        Pump(p[1..], x, k, q, r);
      }
    } else if p != [] {
      Pump(p[1..], x, k, q, r[1..]);
    } else {
      Pump(p, x, k - 1, q, r[1..]);
    }
  }

  lemma PaddedBehind(p: string, x: char, k: nat, q: string, y: string)
    ensures Padded(p, x, k, q) + y == Padded(p, x, k, q + y)
  {
  }

  lemma {:induction false} PumpFillings(m: string, p: string, k: nat, q: string, rs: set<string>, x: char, n: nat)
    requires Fresh(rs, x, n) && k >= n && Fillings(m, Padded(p, x, k, q), rs, x, n)
    ensures Fillings(m, Padded(p, x, k + 1, q), rs, x, n)
    decreases |m|
  {
    if m == [] {
      var r :| r in rs && Matches(Padded(p, x, k, q), r);
      Pump(p, x, k, q, r);
    } else if m[0] == '*' {
      forall l: nat | l <= n
        ensures Fillings(m[1..], Padded(p, x, k + 1, q) + Copies(x, l), rs, x, n)
      {
        PaddedBehind(p, x, k, q, Copies(x, l));
        PaddedBehind(p, x, k + 1, q, Copies(x, l));
        PumpFillings(m[1..], p, k, q + Copies(x, l), rs, x, n);
      }
    } else {
      var c := if m[0] == '?' then x else m[0];
      PaddedBehind(p, x, k, q, [c]);
      PaddedBehind(p, x, k + 1, q, [c]);
      PumpFillings(m[1..], p, k, q + [c], rs, x, n);
    }
  }

  /** What holds of n times x at the end holds of any greater number. */
  lemma {:induction false} FillMore(m: string, p: string, k: nat, rs: set<string>, x: char, n: nat)
    requires Fresh(rs, x, n) && k >= n && Fillings(m, p + Copies(x, n), rs, x, n)
    ensures Fillings(m, p + Copies(x, k), rs, x, n)
    decreases k
  {
    if k > n {
      FillMore(m, p, k - 1, rs, x, n);
      assert Padded(p, x, k - 1, []) == p + Copies(x, k - 1) && Padded(p, x, k, []) == p + Copies(x, k);
      PumpFillings(m, p, k - 1, [], rs, x, n);
    }
  }

  // ---------- any character instead of x ----------

  /** t is s with some characters replaced by x. */
  ghost predicate Blurs(s: string, t: string, x: char) {
    |s| == |t| && forall i :: 0 <= i < |s| ==> t[i] == s[i] || t[i] == x
  }

  /** A mask without x that matches with x matches with anything in its place. */
  lemma {:induction false} BlurMatches(s: string, t: string, x: char, r: string)
    requires Blurs(s, t, x) && x !in r && Matches(t, r)
    ensures Matches(s, r)
    decreases |t| + |r|
  {
    if r == [] {
    } else if r[0] == '*' {
      if Matches(t, r[1..]) {
        BlurMatches(s, t, x, r[1..]);
      } else {
        BlurMatches(s[1..], t[1..], x, r);
      }
    } else {
      assert r[0] in r;
      BlurMatches(s[1..], t[1..], x, r[1..]);
    }
  }

  lemma BlurBehind(p: string, pre: string, y: string, z: string, x: char)
    requires Blurs(p, pre, x) && Blurs(y, z, x)
    ensures Blurs(p + y, pre + z, x)
  {
  }

  // ---------- the test is exact ----------

  lemma {:induction false} FillingsCover(m: string, pre: string, p: string, s: string, rs: set<string>, x: char, n: nat)
    requires Fresh(rs, x, n) && Fillings(m, pre, rs, x, n) && Blurs(p, pre, x) && Matches(s, m)
    ensures AnyMatches(p + s, rs)
    decreases |m|
  {
    if m == [] {
      var r :| r in rs && Matches(pre, r);
      BlurMatches(p, pre, x, r);
      assert p + s == p;
    } else if m[0] == '*' {
      assert m == ['*'] + m[1..];
      var k := StarMatchesSuffix(s, m[1..]);
      if k > n {
        FillMore(m[1..], pre, k, rs, x, n);
      }
      BlurBehind(p, pre, s[..k], Copies(x, k), x);
      FillingsCover(m[1..], pre + Copies(x, k), p + s[..k], s[k..], rs, x, n);
      assert (p + s[..k]) + s[k..] == p + s;
    } else {
      var c := if m[0] == '?' then x else m[0];
      BlurBehind(p, pre, s[..1], [c], x);
      FillingsCover(m[1..], pre + [c], p + s[..1], s[1..], rs, x, n);
      assert (p + s[..1]) + s[1..] == p + s;
    }
  }

  lemma {:induction false} CoveredIsFilled(m: string, pre: string, rs: set<string>, x: char, n: nat)
    requires forall s :: Matches(s, m) ==> AnyMatches(pre + s, rs)
    ensures Fillings(m, pre, rs, x, n)
    decreases |m|
  {
    if m == [] {
      assert Matches([], m) && pre + [] == pre;
    } else if m[0] == '*' {
      forall k: nat | k <= n
        ensures Fillings(m[1..], pre + Copies(x, k), rs, x, n)
      {
        FilledOnce(m, pre, Copies(x, k), rs);
        CoveredIsFilled(m[1..], pre + Copies(x, k), rs, x, n);
      }
    } else {
      var c := if m[0] == '?' then x else m[0];
      FilledOnce(m, pre, [c], rs);
      CoveredIsFilled(m[1..], pre + [c], rs, x, n);
    }
  }

  lemma FilledOnce(m: string, pre: string, y: string, rs: set<string>)
    requires m != [] && (if m[0] == '*' then true else |y| == 1 && MatchesOne(y[0], m[0]))
    requires forall s :: Matches(s, m) ==> AnyMatches(pre + s, rs)
    ensures forall s :: Matches(s, m[1..]) ==> AnyMatches(pre + y + s, rs)
  {
    forall s | Matches(s, m[1..])
      ensures AnyMatches(pre + y + s, rs)
    {
      assert (y + s)[|y|..] == s && pre + (y + s) == pre + y + s;
      if m[0] == '*' {
        assert m == ['*'] + m[1..] && Matches(s, m);
        StarAbsorbs(y + s, m[1..], |y|);
      }
    }
  }

  /** The test decides whether every string that m matches is matched by one of rs. */
  lemma FillingsDecide(m: string, rs: set<string>, x: char, n: nat)
    requires Fresh(rs, x, n)
    ensures Fillings(m, [], rs, x, n) <==> forall s :: Matches(s, m) ==> AnyMatches(s, rs)
  {
    if Fillings(m, [], rs, x, n) {
      forall s | Matches(s, m)
        ensures AnyMatches(s, rs)
      {
        FillingsCover(m, [], [], s, rs, x, n);
        assert [] + s == s;
      }
    }
    if forall s :: Matches(s, m) ==> AnyMatches(s, rs) {
      forall s | Matches(s, m)
        ensures AnyMatches([] + s, rs)
      {
        assert [] + s == s;
      }
      CoveredIsFilled(m, [], rs, x, n);
    }
  }

  // ---------- masks dropped by a + ----------

  /** The masks of a list that a new one replaces, and what it leaves. */
  function Gone(matches: Matcher, items: seq<Item>, a: Mask): set<Mask> {
    set m | m in Masks(items) && matches(m, a)
  }

  function Left(matches: Matcher, items: seq<Item>, a: Mask): set<Mask> {
    (set m | m in Masks(items) && !matches(m, a)) + {a}
  }

  /** A + that got through keeps everything that was meant exactly when each mask it
      replaces passes the test against what it leaves. */
  lemma AddKeepsCoverageIff(matches: Matcher, items: seq<Item>, item: Item, x: char, n: nat)
    requires BounceAdd(matches, items, item).result == 0 && Fresh(Left(matches, items, item.mask), x, n)
    ensures var left := Left(matches, items, item.mask);
      && Masks(BounceAdd(matches, items, item).items) == left
      && ((forall s :: AnyMatches(s, Masks(items)) ==> AnyMatches(s, left))
          <==> forall m :: m in Gone(matches, items, item.mask) ==> Fillings(m, [], left, x, n))
  {
    AddIsExact(matches, items, item);
    var gone, left := Gone(matches, items, item.mask), Left(matches, items, item.mask);
    forall m | m in gone
      ensures Fillings(m, [], left, x, n) <==> forall s :: Matches(s, m) ==> AnyMatches(s, left)
    {
      FillingsDecide(m, left, x, n);
    }
    if forall m :: m in gone ==> Fillings(m, [], left, x, n) {
      forall s | AnyMatches(s, Masks(items))
        ensures AnyMatches(s, left)
      {
        var m :| m in Masks(items) && Matches(s, m);
        assert m in gone || m in left;
      }
    }
  }

  // ---------- what str_match finds of it ----------

  /** Where each mask that is replaced passes the test, str_match still finds every string
      it found, if the budget suffices for it and each mask that is left. */
  lemma TestedStaysFound(items: seq<Item>, item: Item, x: char, n: nat, s: string)
    requires BounceAdd(StrMatches, items, item).result == 0 && Fresh(Left(StrMatches, items, item.mask), x, n)
    requires forall m :: m in Gone(StrMatches, items, item.mask) ==> Fillings(m, [], Left(StrMatches, items, item.mask), x, n)
    requires forall r :: r in Left(StrMatches, items, item.mask) ==> BudgetSuffices(s, r)
    requires Matched(StrMatches, s, items)
    ensures Matched(StrMatches, s, BounceAdd(StrMatches, items, item).items)
  {
    AddKeepsCoverageIff(StrMatches, items, item, x, n);
    var m :| m in Masks(items) && StrMatches(s, m);
    StrMatchesIsMatching(s, m);
    assert AnyMatches(s, Masks(items));
    var r :| r in Left(StrMatches, items, item.mask) && Matches(s, r);
    StrMatchesIsMatching(s, r);
  }

  /** Of a mask that fails the test some string is lost: it is meant, and str_match finds it
      with no mask that is left. */
  lemma FailedTestLosesSome(items: seq<Item>, item: Item, x: char, n: nat, m: Mask)
    requires BounceAdd(StrMatches, items, item).result == 0 && Fresh(Left(StrMatches, items, item.mask), x, n)
    requires m in Gone(StrMatches, items, item.mask) && !Fillings(m, [], Left(StrMatches, items, item.mask), x, n)
    ensures exists s :: Matches(s, m) && !Matched(StrMatches, s, BounceAdd(StrMatches, items, item).items)
  {
    AddIsExact(StrMatches, items, item);
    var left := Left(StrMatches, items, item.mask);
    FillingsDecide(m, left, x, n);
    var s :| Matches(s, m) && !AnyMatches(s, left);
    forall r | r in left
      ensures !StrMatches(s, r)
    {
      StrMatchesIsMatching(s, r);
    }
    assert !Matched(StrMatches, s, BounceAdd(StrMatches, items, item).items);
  }

  // ---------- all that str_match finds ----------

  /** Two strings whose characters the mask cannot tell apart take the same turns. */
  lemma {:induction false} SameTurns(s: string, t: string, mask: string, p: Place, calls: nat)
    requires |s| == |t| && forall i :: 0 <= i < |s| ==> LooksAlike(s[i], t[i], mask)
    ensures Turns(s, mask, p, calls) == Turns(t, mask, p, calls)
    decreases calls
  {
    if calls > 0 {
      SameTurn(s, t, mask, p);
      var v := Turn(s, mask, p);
      if v.More? {
        SameTurns(s, t, mask, v.at, calls - 1);
      }
    }
  }

  predicate LooksAlike(c: char, d: char, mask: string) {
    c == d || (c !in mask && d !in mask)
  }

  lemma SameTurn(s: string, t: string, mask: string, p: Place)
    requires |s| == |t| && forall i :: 0 <= i < |s| ==> LooksAlike(s[i], t[i], mask)
    ensures Turn(s, mask, p) == Turn(t, mask, p)
  {
    var v := CheckEnds(s, mask, AtStar(mask, p));
    assert CheckEnds(t, mask, AtStar(mask, p)) == v;
    if v.More? && v.at.m < |mask| && v.at.n < |s| {
      assert mask[v.at.m] in mask && LooksAlike(s[v.at.n], t[v.at.n], mask);
    }
  }

  /** No more is seen of a string than two characters for each turn. */
  lemma {:induction false} SeenTurns(s: string, t: string, mask: string, p: Place, calls: nat)
    requires t <= s && p.na <= p.n && p.n + 2 * calls < |t|
    ensures Turns(s, mask, p, calls) == Turns(t, mask, p, calls)
    decreases calls
  {
    if calls > 0 {
      SeenTurn(s, t, mask, p);
      var v := Turn(s, mask, p);
      if v.More? {
        SeenTurns(s, t, mask, v.at, calls - 1);
      }
    }
  }

  lemma SeenTurn(s: string, t: string, mask: string, p: Place)
    requires t <= s && p.na <= p.n && p.n + 1 < |t|
    ensures var v := Turn(s, mask, p);
      v == Turn(t, mask, p) && (v.More? ==> v.at.na <= v.at.n <= p.n + 2)
  {
    var v := CheckEnds(s, mask, AtStar(mask, p));
    assert CheckEnds(t, mask, AtStar(mask, p)) == v;
    if v.More? {
      assert v.at.na <= v.at.n <= p.n + 1;
      assert s[v.at.n] == t[v.at.n];
    }
  }

  const SEEN := 1026

  /** As much of a string as is seen. */
  function Seen(s: string): string {
    if |s| <= SEEN then s else s[..SEEN]
  }

  /** A string over the characters of some masks and one other, not longer than is seen. */
  predicate Ordinary(s: string, letters: set<char>) {
    |s| <= SEEN && forall i :: 0 <= i < |s| ==> s[i] in letters
  }

  function LettersOf(ms: set<Mask>): set<char> {
    set m, i | m in ms && 0 <= i < |m| :: m[i]
  }

  function Renamed(s: string, letters: set<char>, x: char): (t: string)
    ensures |t| == |s| && forall i :: 0 <= i < |s| ==> t[i] == if s[i] in letters then s[i] else x
  {
    seq(|s|, i requires 0 <= i < |s| => if s[i] in letters then s[i] else x)
  }

  /** For every string there is an ordinary one that the masks cannot tell from it. */
  lemma OrdinaryIsEnough(s: string, ms: set<Mask>, x: char)
    requires x !in LettersOf(ms)
    ensures var t := Renamed(Seen(s), LettersOf(ms), x);
      Ordinary(t, LettersOf(ms) + {x}) && forall m :: m in ms ==> StrMatches(t, m) == StrMatches(s, m)
  {
    var t := Renamed(Seen(s), LettersOf(ms), x);
    forall m | m in ms
      ensures StrMatches(t, m) == StrMatches(s, m)
    {
      forall i | 0 <= i < |t|
        ensures LooksAlike(t[i], Seen(s)[i], m)
      {
        ForeignIsAlike(ms, m, Seen(s)[i], x);
      }
      SameTurns(t, Seen(s), m, START, MATCH_MAX_CALLS);
      if |s| > SEEN {
        SeenTurns(s, Seen(s), m, START, MATCH_MAX_CALLS);
      }
    }
  }

  lemma ForeignIsAlike(ms: set<Mask>, m: Mask, c: char, x: char)
    requires m in ms && x !in LettersOf(ms)
    ensures LooksAlike(if c in LettersOf(ms) then c else x, c, m)
  {
    forall d | d in m
      ensures d in LettersOf(ms)
    {
      var i :| 0 <= i < |m| && m[i] == d;
    }
  }

  /** All strings str_match found in a list, it finds in the new one, exactly when it does so
      for the ordinary ones: there are finitely many. */
  lemma NothingIsMissedIff(items: seq<Item>, after: seq<Item>, x: char)
    requires x !in LettersOf(Masks(items) + Masks(after))
    ensures (forall s :: Matched(StrMatches, s, items) ==> Matched(StrMatches, s, after))
       <==> (forall s :: Ordinary(s, LettersOf(Masks(items) + Masks(after)) + {x}) && Matched(StrMatches, s, items)
                         ==> Matched(StrMatches, s, after))
  {
    var ms := Masks(items) + Masks(after);
    if forall s :: Ordinary(s, LettersOf(ms) + {x}) && Matched(StrMatches, s, items) ==> Matched(StrMatches, s, after) {
      forall s | Matched(StrMatches, s, items)
        ensures Matched(StrMatches, s, after)
      {
        OrdinaryIsEnough(s, ms, x);
        var t := Renamed(Seen(s), LettersOf(ms), x);
        var m :| m in Masks(items) && StrMatches(s, m);
        assert m in ms && StrMatches(t, m);
        var r :| r in Masks(after) && StrMatches(t, r);
        assert r in ms && StrMatches(s, r);
      }
    }
  }

  /** So with a + that got through, on the masks it replaces and those it leaves. */
  lemma AddMissesNothingIff(items: seq<Item>, item: Item, x: char)
    requires BounceAdd(StrMatches, items, item).result == 0 && x !in LettersOf(Masks(items) + {item.mask})
    ensures var letters := LettersOf(Masks(items) + {item.mask}) + {x};
      (forall s :: Matched(StrMatches, s, items) ==> Matched(StrMatches, s, BounceAdd(StrMatches, items, item).items))
      <==> (forall s, m :: Ordinary(s, letters) && m in Gone(StrMatches, items, item.mask) && StrMatches(s, m)
                           ==> FoundIn(s, Left(StrMatches, items, item.mask)))
  {
    AddIsExact(StrMatches, items, item);
    var after, a := BounceAdd(StrMatches, items, item).items, item.mask;
    assert Masks(items) + Masks(after) == Masks(items) + {a};
    NothingIsMissedIff(items, after, x);
    var letters := LettersOf(Masks(items) + {a}) + {x};
    if forall s, m :: Ordinary(s, letters) && m in Gone(StrMatches, items, a) && StrMatches(s, m)
                      ==> FoundIn(s, Left(StrMatches, items, a)) {
      forall s | Ordinary(s, letters) && Matched(StrMatches, s, items)
        ensures Matched(StrMatches, s, after)
      {
        var m :| m in Masks(items) && StrMatches(s, m);
        assert m in Gone(StrMatches, items, a) || m in Masks(after);
      }
    }
  }

  predicate FoundIn(s: string, ms: set<Mask>) {
    exists m :: m in ms && StrMatches(s, m)
  }
}
