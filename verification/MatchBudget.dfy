/** What the step budget of str_match (lib/src/str.c) costs: followed turn by turn on
    masks of the length a ban may have, matching neither composes nor holds of a mask
    and itself. */
module MatchBudget {
  import opened Prelude
  import opened Glob

  // ---------- following the turns ----------

  /** The last star has just been passed. */
  function At(ma: nat, na: nat): Place {
    Place(ma, na, true, ma, na)
  }

  /** k characters of the mask, no star among them, match those of the string. */
  ghost predicate Along(s: string, mask: string, m: nat, n: nat, k: nat) {
    && m + k <= |mask| && n + k <= |s|
    && forall i :: m <= i < m + k ==> mask[i] != '*' && MatchesOne(s[n + (i - m)], mask[i])
  }

  /** k turns lead from p to q. */
  ghost predicate Leads(s: string, mask: string, p: Place, k: nat, q: Place) {
    forall calls: nat :: k <= calls ==> Turns(s, mask, p, calls) == Turns(s, mask, q, calls - k)
  }

  lemma Then(s: string, mask: string, p: Place, k: nat, q: Place, l: nat, r: Place)
    requires Leads(s, mask, p, k, q) && Leads(s, mask, q, l, r)
    ensures Leads(s, mask, p, k + l, r)
  {
    forall calls: nat | k + l <= calls
      ensures Turns(s, mask, p, calls) == Turns(s, mask, r, calls - (k + l))
    {
      assert Turns(s, mask, p, calls) == Turns(s, mask, q, calls - k);
    }
  }

  lemma OneTurn(s: string, mask: string, p: Place, q: Place)
    requires Turn(s, mask, p) == More(q)
    ensures Leads(s, mask, p, 1, q)
  {
  }

  lemma AlongOne(s: string, mask: string, p: Place, k: nat)
    requires Along(s, mask, p.m, p.n, k) && k > 0
    ensures Turn(s, mask, p) == More(p.(m := p.m + 1, n := p.n + 1))
    ensures Along(s, mask, p.m + 1, p.n + 1, k - 1)
  {
    assert mask[p.m] != '*';
  }

  lemma {:induction false} Walk(s: string, mask: string, p: Place, k: nat)
    requires Along(s, mask, p.m, p.n, k)
    ensures Leads(s, mask, p, k, p.(m := p.m + k, n := p.n + k))
    decreases k
  {
    if k > 0 {
      AlongOne(s, mask, p, k);
      var q, end := p.(m := p.m + 1, n := p.n + 1), p.(m := p.m + k, n := p.n + k);
      OneTurn(s, mask, p, q);
      Walk(s, mask, q, k - 1);
      assert q.(m := q.m + (k - 1), n := q.n + (k - 1)) == end;
      Then(s, mask, p, 1, q, k - 1, end);
    }
  }

  lemma Stumble(s: string, mask: string, p: Place)
    requires p.wild && p.m < |mask| && p.n < |s|
    requires mask[p.m] != '*' && !MatchesOne(s[p.n], mask[p.m])
    ensures Leads(s, mask, p, 1, NextPlace(p))
  {
    OneTurn(s, mask, p, NextPlace(p));
  }

  lemma TakeStar(s: string, mask: string, p: Place)
    ensures Leads(s, mask, p, 0, AtStar(mask, p))
  {
    var q := AtStar(mask, p);
    PastAgain(mask, p.m);
    assert AtStar(mask, q) == q;
    assert Turn(s, mask, q) == Turn(s, mask, p);
  }

  lemma {:induction false} PastAgain(mask: string, m: nat)
    ensures PastStars(mask, m) < |mask| ==> mask[PastStars(mask, m)] != '*'
    decreases |mask| - m
  {
    if m < |mask| && mask[m] == '*' {
      PastAgain(mask, m + 1);
    }
  }

  /** k characters match behind the star, then one does not. */
  ghost predicate Slides(s: string, mask: string, ma: nat, na: nat, k: nat) {
    && Along(s, mask, ma, na, k) && ma + k < |mask| && na + k < |s|
    && mask[ma + k] != '*' && !MatchesOne(s[na + k], mask[ma + k])
  }

  lemma Slide(s: string, mask: string, ma: nat, na: nat, k: nat)
    requires Slides(s, mask, ma, na, k)
    ensures Leads(s, mask, At(ma, na), k + 1, At(ma, na + 1))
  {
    var q := At(ma, na).(m := ma + k, n := na + k);
    Walk(s, mask, At(ma, na), k);
    Stumble(s, mask, q);
    Then(s, mask, At(ma, na), k, q, 1, At(ma, na + 1));
  }

  lemma {:induction false} SlideOn(s: string, mask: string, ma: nat, na: nat, k: nat, count: nat)
    requires forall x :: na <= x < na + count ==> Slides(s, mask, ma, x, k)
    ensures Leads(s, mask, At(ma, na), Times(count, k + 1), At(ma, na + count))
    decreases count
  {
    if count > 0 {
      assert Slides(s, mask, ma, na, k);
      Slide(s, mask, ma, na, k);
      SlideOn(s, mask, ma, na + 1, k, count - 1);
      Then(s, mask, At(ma, na), k + 1, At(ma, na + 1), Times(count - 1, k + 1), At(ma, na + count));
    }
  }

  // ---------- a mask and itself ----------

  /** The cursors stand at the same place of a mask without `?` matched with itself. */
  lemma {:induction false} SelfFrom(mask: string, p: Place, calls: nat)
    requires '?' !in mask && p.m == p.n <= |mask| && calls >= |mask| - p.m + 2
    ensures Turns(mask, mask, p, calls)
    decreases |mask| - p.m
  {
    var i := p.m;
    if i == |mask| {
    } else if mask[i] != '*' {
      assert mask[i] in mask;
      SelfFrom(mask, p.(m := i + 1, n := i + 1), calls - 1);
    } else {
      var j := PastStars(mask, i);
      StarsPassed(mask, i);
      TakeStar(mask, mask, p);
      if j == |mask| {
        SelfEndsInStar(mask, i, calls);
      } else {
        assert mask[j] in mask;
        StarsAreSlidOver(mask, i, i, j);
        SelfFrom(mask, At(j, j), calls - (j - i));
      }
    }
  }

  lemma {:induction false} StarsAreSlidOver(mask: string, i: nat, x: nat, j: nat)
    requires i <= x <= j < |mask| && forall k :: i <= k < j ==> mask[k] == '*'
    requires mask[j] != '*' && mask[j] != '?'
    ensures Leads(mask, mask, At(j, x), j - x, At(j, j))
    decreases j - x
  {
    if x < j {
      Stumble(mask, mask, At(j, x));
      StarsAreSlidOver(mask, i, x + 1, j);
      Then(mask, mask, At(j, x), 1, At(j, x + 1), j - x - 1, At(j, j));
    }
  }

  lemma SelfEndsInStar(mask: string, i: nat, calls: nat)
    requires '?' !in mask && i < |mask| && calls >= |mask| - i + 2
    requires forall k :: i <= k < |mask| ==> mask[k] == '*'
    ensures Turns(mask, mask, At(|mask|, i), calls)
  {
    var last := LastPlain(mask, |mask|);
    PlainIsLast(mask, |mask|);
    forall k | 0 <= k < |mask|
      ensures mask[k] != '?'
    {
      assert mask[k] in mask;
    }
    if |mask| == 1 {
      assert !EndsInStar(mask);
      assert Turn(mask, mask, At(1, 0)) == More(At(1, 1));
      assert Turn(mask, mask, At(1, 1)) == Yes;
    } else {
      assert EndsInStar(mask);
      assert Turn(mask, mask, At(|mask|, i)) == Yes;
    }
  }

  /** A mask without `?` matches itself; so does one whose budget suffices. */
  lemma SelfMatches(mask: string)
    requires ('?' !in mask && |mask| <= 510) || BudgetSuffices(mask, mask)
    ensures StrMatches(mask, mask)
  {
    if BudgetSuffices(mask, mask) {
      Reflexive(mask);
      StrMatchesIsMatching(mask, mask);
    } else {
      SelfFrom(mask, START, MATCH_MAX_CALLS);
    }
  }

  // ---------- masks on which it fails ----------

  function AnyAt(host: string): string {
    "*!*@" + host
  }

  ghost predicate BeginsAnyAt(s: string) {
    |s| > 4 && s[0] == '*' && s[1] == '!' && s[2] == '*' && s[3] == '@'
  }

  /** Two masks for any nick and user: after four turns the hosts are compared. */
  lemma Preamble(s: string, mask: string)
    requires BeginsAnyAt(s) && BeginsAnyAt(mask)
    ensures Leads(s, mask, START, 4, Place(4, 4, true, 3, 3))
  {
    StarsEndAt(mask, 0, 1);
    StarsEndAt(mask, 2, 3);
    OneTurn(s, mask, START, At(1, 1));
    OneTurn(s, mask, At(1, 1), Place(2, 2, true, 1, 1));
    OneTurn(s, mask, Place(2, 2, true, 1, 1), At(3, 3));
    OneTurn(s, mask, At(3, 3), Place(4, 4, true, 3, 3));
    Then(s, mask, START, 1, At(1, 1), 1, Place(2, 2, true, 1, 1));
    Then(s, mask, START, 2, Place(2, 2, true, 1, 1), 1, At(3, 3));
    Then(s, mask, START, 3, At(3, 3), 1, Place(4, 4, true, 3, 3));
  }

  /** ... and if both then have a star, behind the stars. */
  lemma PreambleAndStars(s: string, mask: string, k: nat)
    requires BeginsAnyAt(s) && BeginsAnyAt(mask) && 4 < k < |mask| && mask[k] != '*'
    requires forall i :: 4 <= i < k ==> mask[i] == '*'
    ensures Leads(s, mask, START, 4, At(k, 4))
  {
    Preamble(s, mask);
    StarsEndAt(mask, 4, k);
    TakeStar(s, mask, Place(4, 4, true, 3, 3));
    Then(s, mask, START, 4, Place(4, 4, true, 3, 3), 0, At(k, 4));
  }

  lemma Answer(s: string, mask: string, k: nat, q: Place, yes: bool)
    requires Leads(s, mask, START, k, q) && k <= MATCH_MAX_CALLS
    requires if yes then k < MATCH_MAX_CALLS && Turn(s, mask, q) == Yes else k == MATCH_MAX_CALLS
    ensures StrMatches(s, mask) == yes
  {
    assert Turns(s, mask, START, MATCH_MAX_CALLS) == Turns(s, mask, q, MATCH_MAX_CALLS - k);
  }

  ghost predicate As(s: string, i: nat, j: nat) {
    j <= |s| && forall k :: i <= k < j ==> s[k] == 'a'
  }

  /** 59 a and a b. */
  ghost predicate IsLong(s: string) {
    BeginsAnyAt(s) && |s| == 64 && As(s, 4, 63) && s[63] == 'b'
  }

  /** Five a, anything, nine a and a b. */
  ghost predicate IsMiddle(s: string) {
    BeginsAnyAt(s) && |s| == 20 && As(s, 4, 9) && s[9] == '*' && As(s, 10, 19) && s[19] == 'b'
  }

  /** Anything, nine a and a b. */
  ghost predicate IsShort(s: string) {
    BeginsAnyAt(s) && |s| == 15 && s[4] == '*' && As(s, 5, 14) && s[14] == 'b'
  }

  lemma TenSlide(s: string, mask: string, ma: nat, na: nat)
    requires IsLong(s) && ma + 10 == |mask| && As(mask, ma, ma + 9) && mask[ma + 9] == 'b' && 4 <= na < 54
    ensures Slides(s, mask, ma, na, 9)
  {
    assert s[na + 9] == 'a';
  }

  /** Nine a and a b are looked for in the long host, ten turns at each place. */
  lemma TailSlides(s: string, mask: string, ma: nat, na: nat)
    requires IsLong(s) && ma + 10 == |mask| && As(mask, ma, ma + 9) && mask[ma + 9] == 'b' && 4 <= na <= 54
    ensures Leads(s, mask, At(ma, na), (54 - na) * 10, At(ma, 54))
  {
    forall x | na <= x < na + (54 - na)
      ensures Slides(s, mask, ma, x, 9)
    {
      TenSlide(s, mask, ma, x);
    }
    TimesIsProduct(54 - na, 10);
    SlideOn(s, mask, ma, na, 9, 54 - na);
  }

  lemma LongMatchesMiddle(s: string, mask: string)
    requires IsLong(s) && IsMiddle(mask)
    ensures StrMatches(s, mask)
  {
    var p, q := Place(4, 4, true, 3, 3), Place(9, 9, true, 3, 3);
    Preamble(s, mask);
    Walk(s, mask, p, 5);
    Then(s, mask, START, 4, p, 5, q);
    StarsEndAt(mask, 9, 10);
    TakeStar(s, mask, q);
    Then(s, mask, START, 9, q, 0, At(10, 9));
    TailSlides(s, mask, 10, 9);
    Then(s, mask, START, 9, At(10, 9), 450, At(10, 54));
    var end := Place(20, 64, true, 10, 54);
    Walk(s, mask, At(10, 54), 10);
    Then(s, mask, START, 459, At(10, 54), 10, end);
    Answer(s, mask, 469, end, true);
  }

  lemma LongMissesShort(s: string, mask: string)
    requires IsLong(s) && IsShort(mask)
    ensures !StrMatches(s, mask)
  {
    PreambleAndStars(s, mask, 5);
    TailSlides(s, mask, 5, 4);
    Then(s, mask, START, 4, At(5, 4), 500, At(5, 54));
    var end := Place(13, 62, true, 5, 54);
    Walk(s, mask, At(5, 54), 8);
    Then(s, mask, START, 504, At(5, 54), 8, end);
    Answer(s, mask, 512, end, false);
  }

  /** The five a of the middle mask are too few, from each of them on. */
  lemma {:induction false} MiddleSlides(s: string, mask: string, na: nat) returns (k: nat)
    requires IsMiddle(s) && IsShort(mask) && 4 <= na <= 9
    ensures k <= (10 - na) * 6 && Leads(s, mask, At(5, na), k, At(5, 10))
    decreases 9 - na
  {
    Slide(s, mask, 5, na, 9 - na);
    k := 10 - na;
    if na < 9 {
      var l := MiddleSlides(s, mask, na + 1);
      Then(s, mask, At(5, na), k, At(5, na + 1), l, At(5, 10));
      k := k + l;
    }
  }

  lemma MiddleMatchesShort(s: string, mask: string)
    requires IsMiddle(s) && IsShort(mask)
    ensures StrMatches(s, mask)
  {
    PreambleAndStars(s, mask, 5);
    var k := MiddleSlides(s, mask, 4);
    Then(s, mask, START, 4, At(5, 4), k, At(5, 10));
    var end := Place(15, 20, true, 5, 10);
    Walk(s, mask, At(5, 10), 10);
    Then(s, mask, START, 4 + k, At(5, 10), 10, end);
    Answer(s, mask, 4 + k + 10, end, true);
  }

  /** How many characters a matched string has at least. */
  function Fixed(mask: string): nat {
    if mask == [] then 0 else (if mask[0] == '*' then 0 else 1) + Fixed(mask[1..])
  }

  lemma {:induction false} MatchedIsLong(s: string, mask: string)
    requires Matches(s, mask)
    ensures |s| >= Fixed(mask)
    decreases |s| + |mask|
  {
    if mask == [] {
    } else if mask[0] == '*' {
      if Matches(s, mask[1..]) {
        MatchedIsLong(s, mask[1..]);
      } else {
        MatchedIsLong(s[1..], mask);
      }
    } else {
      MatchedIsLong(s[1..], mask[1..]);
    }
  }

  lemma {:induction false} FixedBehind(mask: string, k: nat)
    requires k <= |mask|
    ensures Fixed(mask) >= Fixed(mask[k..])
  {
    if k == 0 {
      assert mask[0..] == mask;
    } else {
      FixedBehind(mask[1..], k - 1);
      assert mask[1..][k - 1..] == mask[k..];
    }
  }

  lemma {:induction false} AllFixed(mask: string)
    requires '*' !in mask
    ensures Fixed(mask) == |mask|
  {
    if mask != [] {
      assert mask[0] in mask;
      AllFixed(mask[1..]);
    }
  }

  lemma LongIsFixed(mask: string)
    requires IsLong(mask)
    ensures Fixed(mask) >= 60 && '?' !in mask
  {
    forall x | x in mask
      ensures x != '?'
    {
      var i :| 0 <= i < |mask| && mask[i] == x;
    }
    FixedBehind(mask, 4);
    AllFixed(mask[4..]);
  }

  /** The other two are too short for the long mask. */
  lemma ShorterMissLong(s: string, mask: string)
    requires IsLong(mask) && |s| < 60
    ensures !StrMatches(s, mask)
  {
    LongIsFixed(mask);
    StrMatchesIsMatching(s, mask);
    if Matches(s, mask) {
      MatchedIsLong(s, mask);
    }
  }

  lemma MeaningComposes(a: string, b: string, c: string)
    requires StrMatches(a, b) && StrMatches(b, c) && '?' !in c
    ensures Matches(a, c)
  {
    StrMatchesIsMatching(a, b);
    StrMatchesIsMatching(b, c);
    Transitive(a, b, c);
  }

  lemma NoQuestions(b: string, c: string)
    requires IsMiddle(b) && IsShort(c)
    ensures '?' !in b && '?' !in c
  {
    forall i | 0 <= i < |b|
      ensures b[i] != '?'
    {
    }
    forall i | 0 <= i < |c|
      ensures c[i] != '?'
    {
    }
  }

  /** Without any `?`, matching with 512 turns does not compose. */
  lemma BudgetBreaksComposition(a: string, b: string, c: string)
    requires IsLong(a) && IsMiddle(b) && IsShort(c)
    ensures StrMatches(a, b) && StrMatches(b, c) && !StrMatches(a, c)
    ensures Matches(a, c) && '?' !in a && '?' !in b && '?' !in c
    ensures !StrMatches(b, a) && !StrMatches(c, a)
  {
    NoQuestions(b, c);
    LongMatchesMiddle(a, b);
    MiddleMatchesShort(b, c);
    LongMissesShort(a, c);
    ShorterMissLong(b, a);
    ShorterMissLong(c, a);
    LongIsFixed(a);
    MeaningComposes(a, b, c);
  }

  const MIDDLE_HOST := Copies('a', 5) + ("*" + (Copies('a', 9) + "b"))
  const SHORT_HOST := "*" + (Copies('a', 9) + "b")

  const LONG := AnyAt(Copies('a', 59) + "b")
  const MIDDLE := AnyAt(MIDDLE_HOST)
  const SHORT := AnyAt(SHORT_HOST)

  /** Twenty stars, thirty question marks and an a. */
  const WILD := AnyAt(Copies('*', 20) + (Copies('?', 30) + "a"))

  ghost predicate IsWildHost(s: string) {
    && BeginsAnyAt(s) && |s| == 55 && s[54] == 'a'
    && (forall i :: 4 <= i < 24 ==> s[i] == '*') && (forall i :: 24 <= i < 54 ==> s[i] == '?')
  }

  /** Such a mask does not match itself: each of the first sixteen places costs 31 turns. */
  lemma BudgetBreaksReflexivity(s: string)
    requires IsWildHost(s)
    ensures Matches(s, s) && !StrMatches(s, s)
  {
    Reflexive(s);
    PreambleAndStars(s, s, 24);
    TimesIsProduct(16, 31);
    SlideOn(s, s, 24, 4, 30, 16);
    Then(s, s, START, 4, At(24, 4), 496, At(24, 20));
    var end := Place(36, 32, true, 24, 20);
    Walk(s, s, At(24, 20), 12);
    Then(s, s, START, 500, At(24, 20), 12, end);
    Answer(s, s, 512, end, false);
  }

  /** There are such masks. */
  lemma Shapes()
    ensures IsLong(LONG) && IsMiddle(MIDDLE) && IsShort(SHORT) && IsWildHost(WILD)
  {
  }

  /** The short mask is shorter than what the middle one matches. */
  lemma ShortMissesMiddle(s: string, mask: string)
    requires IsShort(s) && IsMiddle(mask)
    ensures !StrMatches(s, mask)
  {
    StrMatchesIsMatching(s, mask);
    if Matches(s, mask) {
      MatchedIsLong(s, mask);
      FixedOfMiddle(mask);
    }
  }

  lemma FixedOfMiddle(mask: string)
    requires IsMiddle(mask)
    ensures Fixed(mask) >= 16
  {
    AllFixed(mask[10..]);
    assert mask[9..][0] == '*' && mask[9..][1..] == mask[10..];
    assert Fixed(mask[9..]) == Fixed(mask[10..]);
    FixedRun(mask[3..], 6);
    assert mask[3..][6..] == mask[9..];
    FixedBehind(mask, 3);
  }

  lemma {:induction false} FixedRun(mask: string, k: nat)
    requires k <= |mask| && (forall i :: 0 <= i < k ==> mask[i] != '*')
    ensures Fixed(mask) == k + Fixed(mask[k..])
  {
    if k == 0 {
      assert mask[0..] == mask;
    } else {
      FixedRun(mask[1..], k - 1);
      assert mask[1..][k - 1..] == mask[k..];
    }
  }

  /** A costly mask, one for hosts of one character, and one for all. */
  lemma WildAmongHosts(w: string, one: string, all: string)
    requires IsWildHost(w) && one == "*!*@?" && all == "*!*@*"
    ensures !StrMatches(w, one) && !StrMatches(one, w) && StrMatches(w, all) && !StrMatches(all, w)
    ensures StrMatches(all, one)
  {
    StrMatchesIsMatching(w, one);
    if Matches(w, one) {
      LetterBeforeLast(w, one);
    }
    TooShortForWild(one, w);
    TooShortForWild(all, w);
    WildIsMatched(w, all);
    AllMatchesOne(all, one);
  }

  lemma TooShortForWild(s: string, mask: string)
    requires IsWildHost(mask) && |s| < 31
    ensures !StrMatches(s, mask)
  {
    StrMatchesIsMatching(s, mask);
    if Matches(s, mask) {
      MatchedIsLong(s, mask);
      FixedBehind(mask, 24);
      AllFixed(mask[24..]);
    }
  }

  lemma AllMatchesOne(all: string, one: string)
    requires one == "*!*@?" && all == "*!*@*"
    ensures StrMatches(all, one)
  {
    assert Matches("", "") && Matches("*", "?");
    assert Matches("@*", "@?") && Matches("*@*", "*@?") && Matches("!*@*", "!*@?");
    assert all[1..] == "!*@*" && one[1..] == "!*@?";
    assert Matches(all, one[1..]) || Matches(all[1..], one);
    ShortIsExact(all, one);
  }

  lemma WildIsMatched(w: string, all: string)
    requires IsWildHost(w) && all == "*!*@*"
    ensures StrMatches(w, all)
  {
    var host := w[4..];
    StarMatchesAll(host);
    assert w[3..] == "@" + host && w[2..] == "*@" + host && w[1..] == "!*@" + host && w == "*!*@" + host;
    PrefixedHost(host);
    assert LongestRun("*") == 0 && LongestRun("@*") == 1 && LongestRun("*@*") == 1;
    assert LongestRun("!*@*") == 1 && LongestRun(all) == 1;
    StrMatchesIsMatching(w, all);
  }

  lemma PrefixedHost(host: string)
    requires Matches(host, "*")
    ensures Matches("*!*@" + host, "*!*@*")
  {
    assert ("@" + host)[1..] == host && Matches("@" + host, "@*");
    assert ("*@" + host)[1..] == "@" + host && Matches("*@" + host, "*@*");
    assert ("!*@" + host)[1..] == "*@" + host && Matches("!*@" + host, "!*@*");
    assert ("*!*@" + host)[1..] == "!*@" + host;
    assert Matches("!*@" + host, "*!*@*");
  }

  // ---------- the hosts alone ----------

  /** 62 a and a b. */
  predicate IsLongHost(s: string) {
    |s| == 63 && (forall i :: 0 <= i < 62 ==> s[i] == 'a') && s[62] == 'b'
  }

  predicate IsMiddleHost(s: string) {
    |s| == 16 && (forall i :: 0 <= i < 5 ==> s[i] == 'a') && s[5] == '*' && (forall i :: 6 <= i < 15 ==> s[i] == 'a')
    && s[15] == 'b'
  }

  predicate IsShortHost(s: string) {
    |s| == 11 && s[0] == '*' && (forall i :: 1 <= i < 10 ==> s[i] == 'a') && s[10] == 'b'
  }

  lemma HostShapes()
    ensures IsMiddleHost(MIDDLE_HOST) && IsShortHost(SHORT_HOST)
  {
  }

  /** Ten turns at each place of the host. */
  lemma HostSlides(s: string, mask: string, ma: nat, na: nat, count: nat)
    requires IsLongHost(s) && ma + 10 == |mask| && As(mask, ma, ma + 9) && mask[ma + 9] == 'b' && na + count <= 53
    ensures Leads(s, mask, At(ma, na), count * 10, At(ma, na + count))
  {
    forall x | na <= x < na + count
      ensures Slides(s, mask, ma, x, 9)
    {
      assert s[x + 9] == 'a';
    }
    TimesIsProduct(count, 10);
    SlideOn(s, mask, ma, na, 9, count);
  }

  lemma LongHostMatchesMiddle(s: string, mask: string)
    requires IsLongHost(s) && IsMiddleHost(mask)
    ensures StrMatches(s, mask)
  {
    var p := Place(5, 5, false, 0, 0);
    Walk(s, mask, START, 5);
    StarsEndAt(mask, 5, 6);
    TakeStar(s, mask, p);
    Then(s, mask, START, 5, p, 0, At(6, 5));
    HostSlides(s, mask, 6, 5, 48);
    Then(s, mask, START, 5, At(6, 5), 480, At(6, 53));
    var end := Place(16, 63, true, 6, 53);
    Walk(s, mask, At(6, 53), 10);
    Then(s, mask, START, 485, At(6, 53), 10, end);
    Answer(s, mask, 495, end, true);
  }

  lemma LongHostMissesShort(s: string, mask: string)
    requires IsLongHost(s) && IsShortHost(mask)
    ensures !StrMatches(s, mask)
  {
    StarsEndAt(mask, 0, 1);
    TakeStar(s, mask, START);
    HostSlides(s, mask, 1, 0, 51);
    Then(s, mask, START, 0, At(1, 0), 510, At(1, 51));
    var end := Place(3, 53, true, 1, 51);
    Walk(s, mask, At(1, 51), 2);
    Then(s, mask, START, 510, At(1, 51), 2, end);
    Answer(s, mask, 512, end, false);
  }

  lemma LongHostIsMissed(s: string, middle: string, short: string)
    requires IsLongHost(s) && IsMiddleHost(middle) && IsShortHost(short)
    ensures StrMatches(s, middle) && !StrMatches(s, short) && Matches(s, short)
  {
    LongHostMatchesMiddle(s, middle);
    LongHostMissesShort(s, short);
    ShortHostIsMeant(s, short);
  }

  lemma ShortHostIsMeant(s: string, short: string)
    requires IsLongHost(s) && IsShortHost(short)
    ensures Matches(s, short)
  {
    var tail := short[1..];
    assert short == ['*'] + tail && s[53..] == tail;
    Reflexive(tail);
    StarAbsorbs(s, tail, 53);
  }

  // ---------- a bare star ----------

  lemma {:induction false} StarFrom(s: string, n: nat, calls: nat)
    requires n <= |s|
    ensures Turns(s, "*", At(1, n), calls) <==> 2 * calls >= |s| - n + 2
    decreases calls
  {
    if calls > 0 {
      assert !EndsInStar("*");
      if n == |s| {
      } else if n + 1 == |s| {
        assert Turn(s, "*", At(1, n)) == More(At(1, n + 1));
        StarFrom(s, n + 1, calls - 1);
      } else {
        assert Turn(s, "*", At(1, n)) == More(At(1, n + 2));
        StarFrom(s, n + 2, calls - 1);
      }
    }
  }

  /** A bare star, which means any string, is answered yes for strings of up to 1022
      characters and no for longer ones. */
  lemma BareStarIff(s: string)
    ensures Matches(s, "*")
    ensures StrMatches(s, "*") <==> |s| <= 1022
  {
    StarMatchesAll(s);
    assert PastStars("*", 0) == 1;
    TakeStar(s, "*", START);
    assert Turns(s, "*", START, MATCH_MAX_CALLS) == Turns(s, "*", At(1, 0), MATCH_MAX_CALLS - 0);
    StarFrom(s, 0, MATCH_MAX_CALLS);
  }

  lemma {:induction false} StarMatchesAll(s: string)
    ensures Matches(s, "*")
  {
    assert "*"[1..] == "";
    if s != [] {
      StarMatchesAll(s[1..]);
    }
  }
}
