/** Wildcard matching: str_match of lib/src/str.c. `*` stands for any run of
    characters and `?` for any one character of the mask; the matched string is
    taken literally, so a mask can be matched by another mask. */
module Glob {

  const MATCH_MAX_CALLS := 512

  // ---------- the meaning of a mask ----------

  predicate MatchesOne(c: char, m: char) {
    m == '?' || m == c
  }

  predicate Matches(s: string, mask: string)
    decreases |s| + |mask|
  {
    if mask == [] then s == []
    else if mask[0] == '*' then Matches(s, mask[1..]) || (s != [] && Matches(s[1..], mask))
    else s != [] && MatchesOne(s[0], mask[0]) && Matches(s[1..], mask[1..])
  }

  /** Every mask matches itself. */
  lemma {:induction false} Reflexive(mask: string)
    ensures Matches(mask, mask)
  {
    if mask == [] {
    } else {
      Reflexive(mask[1..]);
      assert mask[0] == '*' ==> Matches(mask[1..], mask);
    }
  }

  /** Matching composes unless a `?` of the outer mask can meet a `*` of the mask
      between. */
  lemma {:induction false} Transitive(a: string, b: string, c: string)
    requires Matches(a, b) && Matches(b, c)
    requires '?' !in c || '*' !in b
    ensures Matches(a, c)
    decreases |a| + |b| + |c|
  {
    if c == [] {
    } else if c[0] == '*' {
      if Matches(b, c[1..]) {
        Transitive(a, b, c[1..]);
      } else if b[0] == '*' {
        if Matches(a, b[1..]) {
          Transitive(a, b[1..], c);
        } else {
          Transitive(a[1..], b, c);
        }
      } else {
        Transitive(a[1..], b[1..], c);
      }
    } else {
      Transitive(a[1..], b[1..], c[1..]);
    }
  }

  /** A mask that ends in a letter matches only what ends in it. */
  lemma {:induction false} LastCharacter(s: string, mask: string)
    requires Matches(s, mask) && mask != [] && mask[|mask| - 1] != '*' && mask[|mask| - 1] != '?'
    ensures s != [] && s[|s| - 1] == mask[|mask| - 1]
    decreases |s| + |mask|
  {
    if mask[0] == '*' {
      if Matches(s, mask[1..]) {
        LastCharacter(s, mask[1..]);
      } else {
        LastCharacter(s[1..], mask);
      }
    } else if |mask| > 1 {
      LastCharacter(s[1..], mask[1..]);
    }
  }

  /** A mask that ends in a letter and a `?` matches only what has the letter there. */
  lemma {:induction false} LetterBeforeLast(s: string, mask: string)
    requires Matches(s, mask) && |mask| >= 2 && mask[|mask| - 1] == '?'
    requires mask[|mask| - 2] != '*' && mask[|mask| - 2] != '?'
    ensures |s| >= 2 && s[|s| - 2] == mask[|mask| - 2]
    decreases |s| + |mask|
  {
    if mask[0] == '*' {
      if Matches(s, mask[1..]) {
        LetterBeforeLast(s, mask[1..]);
      } else {
        LetterBeforeLast(s[1..], mask);
      }
    } else if |mask| > 2 {
      LetterBeforeLast(s[1..], mask[1..]);
    } else {
      assert mask[1..][1..] == "" && Matches(s[1..][1..], mask[1..][1..]);
    }
  }

  /** With `?` in the outer mask it fails. */
  lemma NotTransitive()
    ensures Matches("ab", "*") && Matches("*", "?") && !Matches("ab", "?")
  {
    assert Matches("", "");
    assert Matches("", "*");
    assert Matches("b", "*");
    assert "*"[1..] == "" && "?"[1..] == "" && "ab"[1..] == "b" && "b"[1..] == "";
  }

  // ---------- facts the matcher relies on ----------

  /** A star absorbs what is put in front. */
  lemma {:induction false} StarAbsorbs(s: string, rest: string, k: nat)
    requires k <= |s| && Matches(s[k..], ['*'] + rest)
    ensures Matches(s, ['*'] + rest)
    decreases |s|
  {
    if k == 0 {
      assert s[0..] == s;
    } else {
      assert s[1..][k - 1..] == s[k..];
      StarAbsorbs(s[1..], rest, k - 1);
    }
  }

  /** A star matches iff the rest of the mask matches some suffix. */
  lemma {:induction false} StarMatchesSuffix(s: string, rest: string) returns (k: nat)
    requires Matches(s, ['*'] + rest)
    ensures k <= |s| && Matches(s[k..], rest)
    decreases |s|
  {
    var mask := ['*'] + rest;
    assert mask[1..] == rest;
    if Matches(s, rest) {
      k := 0;
      assert s[0..] == s;
    } else {
      k := StarMatchesSuffix(s[1..], rest);
      assert s[1..][k..] == s[k + 1..];
      k := k + 1;
    }
  }

  /** Two stars in a row are one. */
  lemma StarStar(s: string, rest: string)
    ensures Matches(s, ['*'] + (['*'] + rest)) <==> Matches(s, ['*'] + rest)
  {
    var star := ['*'] + rest;
    assert (['*'] + star)[1..] == star;
    if Matches(s, ['*'] + star) {
      var k := StarMatchesSuffix(s, star);
      StarAbsorbs(s, rest, k);
    }
  }

  /** A run without stars matches a string of its own length, letter by letter. */
  ghost predicate RunMatches(s: string, run: string) {
    |s| == |run| && forall i :: 0 <= i < |run| ==> run[i] != '*' && MatchesOne(s[i], run[i])
  }

  /** Behind a matched run, only what follows it counts. */
  lemma {:induction false} RunPrefix(s: string, run: string, s': string, rest: string)
    requires RunMatches(s, run)
    ensures Matches(s + s', run + rest) <==> Matches(s', rest)
  {
    if run == [] {
      assert s + s' == s' && run + rest == rest;
    } else {
      RunPrefix(s[1..], run[1..], s', rest);
      assert (s + s')[1..] == s[1..] + s' && (run + rest)[1..] == run[1..] + rest;
    }
  }

  /** A string matched by a mask that starts with a starless run starts with a
      string the run matches. */
  lemma {:induction false} RunSplits(s: string, run: string, rest: string)
    requires '*' !in run && Matches(s, run + rest)
    ensures |run| <= |s| && RunMatches(s[..|run|], run) && Matches(s[|run|..], rest)
  {
    if run == [] {
      assert run + rest == rest && s[0..] == s;
    } else {
      assert (run + rest)[0] == run[0] && run[0] in run;
      assert (run + rest)[1..] == run[1..] + rest;
      RunSplits(s[1..], run[1..], rest);
      assert s[1..][|run| - 1..] == s[|run|..];
      forall i | 0 <= i < |run|
        ensures run[i] != '*' && MatchesOne(s[i], run[i])
      {
        if i > 0 {
          assert run[1..][i - 1] == run[i] && s[1..][..|run| - 1][i - 1] == s[i];
        }
      }
    }
  }

  // ---------- the matcher ----------

  /** Where the matcher stands. Without a star so far, the string up to n is matched
      by the mask up to m. After the last star, which ends at ma, the string from na
      to n is matched by the mask from ma to m, and the answer hinges on what that
      star can absorb beyond na. */
  ghost predicate Position(s: string, mask: string, m: nat, n: nat, wild: bool, ma: nat, na: nat) {
    && m <= |mask| && n <= |s|
    && if !wild then RunMatches(s[..n], mask[..m])
       else
         && 0 < ma <= m && mask[ma - 1] == '*' && na <= n && RunMatches(s[na..n], mask[ma..m])
         && (Matches(s, mask) <==> Matches(s[na..], ['*'] + mask[ma..]))
  }

  /** A string and a mask, each in front of and behind k characters that match. */
  lemma RunThenRest(s: string, mask: string, na: nat, n: nat, ma: nat, m: nat)
    requires na <= n <= |s| && ma <= m <= |mask| && RunMatches(s[na..n], mask[ma..m])
    ensures Matches(s[na..], mask[ma..]) <==> Matches(s[n..], mask[m..])
  {
    RunPrefix(s[na..n], mask[ma..m], s[n..], mask[m..]);
    assert s[na..n] + s[n..] == s[na..];
    assert mask[ma..m] + mask[m..] == mask[ma..];
  }

  /** Without a star, or once the present place of the last star is settled, the
      answer is whether the rest matches the rest. */
  lemma RestDecides(s: string, mask: string, m: nat, n: nat, wild: bool, ma: nat, na: nat)
    requires Position(s, mask, m, n, wild, ma, na)
    ensures !wild ==> (Matches(s, mask) <==> Matches(s[n..], mask[m..]))
    ensures wild ==> (Matches(s[na..], mask[ma..]) <==> Matches(s[n..], mask[m..]))
  {
    if wild {
      RunThenRest(s, mask, na, n, ma, m);
    } else {
      RunThenRest(s, mask, 0, n, 0, m);
      assert s[0..] == s && mask[0..] == mask;
    }
  }

  /** A later suffix of the string can match behind the last star only if the run
      matched so far, moved along with it, is matched there too. */
  lemma MovedRun(s: string, mask: string, m: nat, n: nat, ma: nat, na: nat) returns (k: nat)
    requires Position(s, mask, m, n, true, ma, na) && Matches(s, mask)
    ensures n + k <= |s| && Matches(s[n + k..], mask[m..])
  {
    k := StarMatchesSuffix(s[na..], mask[ma..]);
    assert s[na..][k..] == s[na + k..];
    var run := mask[ma..m];
    assert run + mask[m..] == mask[ma..];
    RunSplits(s[na + k..], run, mask[m..]);
    assert s[na + k..][|run|..] == s[n + k..];
  }

  /** At a star everything before is settled: the earliest place is as good as any. */
  lemma StarSettles(s: string, mask: string, m: nat, n: nat, wild: bool, ma: nat, na: nat)
    requires Position(s, mask, m, n, wild, ma, na) && m < |mask| && mask[m] == '*'
    ensures Matches(s, mask) <==> Matches(s[n..], mask[m..])
  {
    RestDecides(s, mask, m, n, wild, ma, na);
    if wild {
      if Matches(s, mask) {
        var k := MovedRun(s, mask, m, n, ma, na);
        assert s[n..][k..] == s[n + k..] && mask[m..] == ['*'] + mask[m + 1..];
        StarAbsorbs(s[n..], mask[m + 1..], k);
      }
      if Matches(s[n..], mask[m..]) {
        assert (['*'] + mask[ma..])[1..] == mask[ma..];
      }
    }
  }

  /** When the last star's present place fails, it must absorb one more character. */
  lemma PlaceFails(s: string, mask: string, m: nat, n: nat, ma: nat, na: nat)
    requires Position(s, mask, m, n, true, ma, na) && !Matches(s[n..], mask[m..]) && na < |s|
    ensures Position(s, mask, ma, na + 1, true, ma, na + 1)
  {
    RestDecides(s, mask, m, n, true, ma, na);
    assert (['*'] + mask[ma..])[1..] == mask[ma..];
    assert s[na..][1..] == s[na + 1..];
  }

  /** The string is used up before a run: no place of the last star helps. */
  lemma StringExhausted(s: string, mask: string, m: nat, n: nat, wild: bool, ma: nat, na: nat)
    requires Position(s, mask, m, n, wild, ma, na) && n == |s| && m < |mask| && mask[m] != '*'
    ensures !Matches(s, mask)
  {
    RestDecides(s, mask, m, n, wild, ma, na);
    if wild && Matches(s, mask) {
      var k := MovedRun(s, mask, m, n, ma, na);
    }
  }

  /** A mask that ends in a star and question marks leaves the star free to absorb
      the rest of the string. */
  lemma TrailingStar(s: string, mask: string, n: nat, ma: nat, na: nat)
    requires Position(s, mask, |mask|, n, true, ma, na)
    requires forall i :: ma <= i < |mask| ==> mask[i] == '?'
    ensures Matches(s, mask)
  {
    var run := mask[ma..];
    var k := |s| - |run| - na;
    assert s[na..][k..] == s[na + k..];
    RunPrefix(s[na + k..], run, [], []);
    assert s[na + k..] + [] == s[na + k..] && run + [] == run;
    assert (['*'] + run)[1..] == run;
    StarAbsorbs(s[na..], run, k);
  }

  lemma {:induction false} StarsAreOne(s: string, mask: string, start: nat, m: nat)
    requires start < m <= |mask| && forall i :: start <= i < m ==> mask[i] == '*'
    ensures Matches(s, mask[start..]) <==> Matches(s, ['*'] + mask[m..])
    decreases m - start
  {
    assert mask[start..] == ['*'] + mask[start + 1..];
    if start + 1 < m {
      StarsAreOne(s, mask, start + 1, m);
      assert mask[start + 1..] == ['*'] + mask[start + 2..];
      StarStar(s, mask[start + 2..]);
    }
  }

  /** One character more on both sides. */
  lemma RunGrows(s: string, mask: string, m: nat, n: nat, wild: bool, ma: nat, na: nat)
    requires Position(s, mask, m, n, wild, ma, na) && m < |mask| && n < |s|
    requires mask[m] != '*' && MatchesOne(s[n], mask[m])
    ensures Position(s, mask, m + 1, n + 1, wild, ma, na)
  {
    if wild {
      assert s[na..n + 1] == s[na..n] + [s[n]] && mask[ma..m + 1] == mask[ma..m] + [mask[m]];
    } else {
      assert s[..n + 1] == s[..n] + [s[n]] && mask[..m + 1] == mask[..m] + [mask[m]];
    }
  }

  /** A new star becomes the last one. */
  lemma StarTaken(s: string, mask: string, m: nat, n: nat, wild: bool, ma: nat, na: nat, next: nat)
    requires Position(s, mask, m, n, wild, ma, na) && m < next <= |mask|
    requires forall i :: m <= i < next ==> mask[i] == '*'
    ensures Position(s, mask, next, n, true, next, n)
  {
    StarSettles(s, mask, m, n, wild, ma, na);
    StarsAreOne(s[n..], mask, m, next);
  }

  /** Both used up. */
  lemma BothExhausted(s: string, mask: string, wild: bool, ma: nat, na: nat)
    requires Position(s, mask, |mask|, |s|, wild, ma, na)
    ensures Matches(s, mask)
  {
    RestDecides(s, mask, |mask|, |s|, wild, ma, na);
    if wild {
      assert (['*'] + mask[ma..])[1..] == mask[ma..];
    }
  }

  /** The last star is the one before the trailing question marks. */
  lemma StarFound(s: string, mask: string, n: nat, wild: bool, ma: nat, na: nat, j: nat)
    requires Position(s, mask, |mask|, n, wild, ma, na) && j < |mask| && mask[j] == '*'
    requires forall i :: j < i < |mask| ==> mask[i] == '?'
    ensures Matches(s, mask)
  {
    assert mask[..|mask|] == mask;
    if wild {
      forall i | ma <= i < |mask|
        ensures mask[i] != '*'
      {
        assert mask[ma..][i - ma] == mask[i];
      }
      TrailingStar(s, mask, n, ma, na);
    }
  }

  /** Two characters differ: the last star, if any, must absorb one more. */
  lemma Differ(s: string, mask: string, m: nat, n: nat, wild: bool, ma: nat, na: nat)
    requires Position(s, mask, m, n, wild, ma, na) && n < |s|
    requires m < |mask| ==> mask[m] != '*' && !MatchesOne(s[n], mask[m])
    ensures !wild ==> !Matches(s, mask)
    ensures wild ==> na < |s| && Position(s, mask, ma, na + 1, true, ma, na + 1)
  {
    RestDecides(s, mask, m, n, wild, ma, na);
    if wild {
      PlaceFails(s, mask, m, n, ma, na);
    }
  }

  // ---------- one turn of the loop ----------

  /** The matcher's variables. */
  datatype Place = Place(m: nat, n: nat, wild: bool, ma: nat, na: nat)

  datatype Verdict = Yes | No | More(at: Place)

  /** Behind the stars that start at m. */
  function PastStars(mask: string, m: nat): (k: nat)
    ensures m <= k && (m <= |mask| ==> k <= |mask|)
    decreases |mask| - m
  {
    if m < |mask| && mask[m] == '*' then PastStars(mask, m + 1) else m
  }

  lemma {:induction false} StarsPassed(mask: string, m: nat)
    requires m <= |mask|
    ensures var k := PastStars(mask, m);
      (forall i :: m <= i < k ==> mask[i] == '*') && (k < |mask| ==> mask[k] != '*')
    decreases |mask| - m
  {
    if m < |mask| && mask[m] == '*' {
      StarsPassed(mask, m + 1);
    }
  }

  /** It is where the stars end. */
  lemma {:induction false} StarsEndAt(mask: string, m: nat, k: nat)
    requires m <= k <= |mask| && (forall i :: m <= i < k ==> mask[i] == '*') && (k < |mask| ==> mask[k] != '*')
    ensures PastStars(mask, m) == k
    decreases k - m
  {
    if m < k {
      StarsEndAt(mask, m + 1, k);
    }
  }

  /** The last character of mask[..k] that is no `?`, or the first of all. */
  function LastPlain(mask: string, k: nat): (j: nat)
    requires 0 < k <= |mask|
    ensures j < k
  {
    if k > 1 && mask[k - 1] == '?' then LastPlain(mask, k - 1) else k - 1
  }

  lemma {:induction false} PlainIsLast(mask: string, k: nat)
    requires 0 < k <= |mask|
    ensures var j := LastPlain(mask, k); (forall i :: j < i < k ==> mask[i] == '?') && (0 < j ==> mask[j] != '?')
  {
    if k > 1 && mask[k - 1] == '?' {
      PlainIsLast(mask, k - 1);
    }
  }

  /** A star, not the first character, with nothing but question marks behind it. */
  predicate EndsInStar(mask: string) {
    mask != [] && var j := LastPlain(mask, |mask|); j > 0 && mask[j] == '*'
  }

  /** Stars are skipped and remembered. */
  function AtStar(mask: string, p: Place): Place {
    if p.m < |mask| && mask[p.m] == '*' then
      var m := PastStars(mask, p.m);
      Place(m, p.n, true, m, p.n)
    else p
  }

  /** The last star absorbs one more character. */
  function NextPlace(p: Place): Place {
    Place(p.ma, p.na + 1, p.wild, p.ma, p.na + 1)
  }

  /** The mask or the string is used up. */
  function CheckEnds(s: string, mask: string, p: Place): Verdict {
    if p.m >= |mask| then
      if p.n >= |s| || EndsInStar(mask) then Yes
      else if !p.wild then No
      else More(NextPlace(p))
    else if p.n >= |s| then
      if PastStars(mask, p.m) == |mask| then Yes else No
    else More(p)
  }

  /** The characters under the two cursors; an end is a character of its own. */
  predicate Agree(s: string, mask: string, p: Place) {
    if p.m < |mask| then mask[p.m] == '?' || (p.n < |s| && mask[p.m] == s[p.n]) else p.n >= |s|
  }

  function Compare(s: string, mask: string, p: Place): Verdict {
    if Agree(s, mask, p) then
      More(p.(m := if p.m < |mask| then p.m + 1 else p.m, n := if p.n < |s| then p.n + 1 else p.n))
    else if !p.wild then No
    else More(NextPlace(p))
  }

  function Turn(s: string, mask: string, p: Place): Verdict {
    var v := CheckEnds(s, mask, AtStar(mask, p));
    if v.More? then Compare(s, mask, v.at) else v
  }

  /** What is answered within so many turns; no, when they are used up. */
  predicate Turns(s: string, mask: string, p: Place, calls: nat)
    decreases calls
  {
    calls > 0 &&
    match Turn(s, mask, p)
    case Yes => true
    case No => false
    case More(q) => Turns(s, mask, q, calls - 1)
  }

  const START := Place(0, 0, false, 0, 0)

  /** What str_match answers. */
  predicate StrMatches(s: string, mask: string) {
    Turns(s, mask, START, MATCH_MAX_CALLS)
  }

  // ---------- the code ----------

  /** A C string's character, zero at its end. */
  function CharAt(s: string, i: nat): char
    requires i <= |s|
  {
    if i < |s| then s[i] else '\0'
  }

  method SkipStars(mask: string, start: nat) returns (m: nat)
    requires start <= |mask|
    ensures m == PastStars(mask, start)
  {
    m := start;
    while CharAt(mask, m) == '*'
      invariant m <= |mask| && PastStars(mask, m) == PastStars(mask, start)
      decreases |mask| - m
    {
      m := m + 1;
    }
  }

  /** The backward scan over question marks. */
  method LastNonQuestion(mask: string) returns (j: int)
    ensures j == if mask == [] then -1 else LastPlain(mask, |mask|)
  {
    j := |mask| - 1;
    while j > 0 && mask[j] == '?'
      invariant mask == [] ==> j == -1
      invariant mask != [] ==> 0 <= j < |mask| && LastPlain(mask, j + 1) == LastPlain(mask, |mask|)
    {
      j := j - 1;
    }
  }

  ghost predicate InBounds(s: string, mask: string, p: Place) {
    p.ma <= p.m <= |mask| && p.na <= p.n <= |s|
  }

  lemma AgreeByCharacters(s: string, mask: string, p: Place)
    requires '\0' !in s && '\0' !in mask && InBounds(s, mask, p)
    ensures Agree(s, mask, p) <==> CharAt(mask, p.m) == CharAt(s, p.n) || CharAt(mask, p.m) == '?'
  {
  }

  /** The first half of a turn: stars, and the ends of mask and string. */
  method BeforeComparing(s: string, mask: string, p: Place) returns (v: Verdict)
    requires InBounds(s, mask, p)
    ensures v == CheckEnds(s, mask, AtStar(mask, p))
    ensures v.More? ==> InBounds(s, mask, v.at)
  {
    var Place(m, n, wild, ma, na) := p;
    if CharAt(mask, m) == '*' {
      m := SkipStars(mask, m);
      wild, ma, na := true, m, n;
    }
    assert Place(m, n, wild, ma, na) == AtStar(mask, p);
    if m == |mask| {
      if n == |s| {
        return Yes;
      }
      var j := LastNonQuestion(mask);
      if j > 0 && mask[j] == '*' {
        return Yes;
      }
      if !wild {
        return No;
      }
      na := na + 1;
      m, n := ma, na;
    } else if n == |s| {
      m := SkipStars(mask, m);
      return if m == |mask| then Yes else No;
    }
    return More(Place(m, n, wild, ma, na));
  }

  /** The second half: the characters under the cursors. */
  method CompareThere(s: string, mask: string, p: Place) returns (v: Verdict)
    requires '\0' !in s && '\0' !in mask && InBounds(s, mask, p)
    ensures v == Compare(s, mask, p)
  {
    var Place(m, n, wild, ma, na) := p;
    AgreeByCharacters(s, mask, p);
    if CharAt(mask, m) != CharAt(s, n) && CharAt(mask, m) != '?' {
      if !wild {
        return No;
      }
      na := na + 1;
      m, n := ma, na;
    } else {
      if CharAt(mask, m) != '\0' {
        m := m + 1;
      }
      if CharAt(s, n) != '\0' {
        n := n + 1;
      }
    }
    return More(Place(m, n, wild, ma, na));
  }

  /** str_match. */
  method StrMatch(s: string, mask: string) returns (r: bool)
    requires '\0' !in s && '\0' !in mask
    ensures r == StrMatches(s, mask)
  {
    var p, calls := START, 0;
    while calls < MATCH_MAX_CALLS
      invariant calls <= MATCH_MAX_CALLS && Good(s, mask, p)
      invariant Turns(s, mask, p, MATCH_MAX_CALLS - calls) == StrMatches(s, mask)
    {
      calls := calls + 1;
      TurnIsRight(s, mask, p);
      var v := BeforeComparing(s, mask, p);
      if v.More? {
        v := CompareThere(s, mask, v.at);
      }
      if !v.More? {
        return v == Yes;
      }
      p := v.at;
    }
    return false;
  }

  // ---------- how far the answer is right ----------

  /** a * k, by addition. */
  ghost function Times(a: nat, k: nat): nat {
    if a == 0 then 0 else k + Times(a - 1, k)
  }

  lemma {:induction false} TimesGrows(a: nat, b: nat, k: nat)
    requires a <= b && k > 0
    ensures Times(a, k) + (b - a) <= Times(b, k)
  {
    if a < b {
      TimesGrows(a, b - 1, k);
    }
  }

  lemma {:induction false} TimesIsProduct(a: nat, k: nat)
    ensures Times(a, k) == a * k
  {
    if a > 0 {
      TimesIsProduct(a - 1, k);
      assert (a - 1) * k == a * k - k;
    }
  }

  /** The number of characters in front of the first star. */
  function StarFree(mask: string): nat {
    if mask == [] || mask[0] == '*' then 0 else 1 + StarFree(mask[1..])
  }

  /** The longest stretch without a star. */
  function LongestRun(mask: string): (k: nat)
    ensures k >= StarFree(mask)
  {
    if mask == [] then 0
    else
      var rest := LongestRun(mask[1..]);
      if StarFree(mask) > rest then StarFree(mask) else rest
  }

  lemma {:induction false} RunIsBounded(mask: string, i: nat, j: nat)
    requires i <= j <= |mask| && forall k :: i <= k < j ==> mask[k] != '*'
    ensures j - i <= LongestRun(mask)
  {
    if i > 0 {
      RunIsBounded(mask[1..], i - 1, j - 1);
    } else {
      PrefixIsBounded(mask, j);
    }
  }

  lemma {:induction false} PrefixIsBounded(mask: string, j: nat)
    requires j <= |mask| && forall k :: 0 <= k < j ==> mask[k] != '*'
    ensures j <= StarFree(mask)
  {
    if j > 0 {
      PrefixIsBounded(mask[1..], j - 1);
    }
  }

  ghost predicate Good(s: string, mask: string, p: Place) {
    && Position(s, mask, p.m, p.n, p.wild, p.ma, p.na) && InBounds(s, mask, p)
    && (if p.wild then p.ma < |mask| ==> mask[p.ma] != '*' else p.ma == 0 && p.na == 0)
  }

  /** Grows with every turn. */
  ghost function Advance(mask: string, p: Place): int {
    Times(p.na, LongestRun(mask) + 1) + p.m - p.ma
  }

  /** As far as it can grow for a string of this length. */
  ghost function MostAdvance(s: string, mask: string): nat {
    Times(|s|, LongestRun(mask) + 1) + LongestRun(mask)
  }

  lemma RunOfPlace(s: string, mask: string, p: Place)
    requires Good(s, mask, p)
    ensures p.m - p.ma == p.n - p.na && p.m - p.ma <= LongestRun(mask)
  {
    forall k | p.ma <= k < p.m
      ensures mask[k] != '*'
    {
      if p.wild {
        assert mask[p.ma..p.m][k - p.ma] == mask[k];
      } else {
        assert mask[..p.m][k] == mask[k];
      }
    }
    RunIsBounded(mask, p.ma, p.m);
  }

  lemma AdvanceIsBounded(s: string, mask: string, p: Place)
    requires Good(s, mask, p)
    ensures 0 <= Advance(mask, p) <= MostAdvance(s, mask)
  {
    RunOfPlace(s, mask, p);
    TimesGrows(p.na, |s|, LongestRun(mask) + 1);
  }

  lemma StarIsTaken(s: string, mask: string, p: Place)
    requires Good(s, mask, p)
    ensures var q := AtStar(mask, p);
      Good(s, mask, q) && q.n == p.n && Advance(mask, q) >= Advance(mask, p) && (q.m < |mask| ==> mask[q.m] != '*')
  {
    if p.m < |mask| && mask[p.m] == '*' {
      RunOfPlace(s, mask, p);
      StarsPassed(mask, p.m);
      StarTaken(s, mask, p.m, p.n, p.wild, p.ma, p.na, PastStars(mask, p.m));
      TimesGrows(p.na, p.n, LongestRun(mask) + 1);
    }
  }

  /** A verdict is right, or the matcher goes on from a place that is as good. */
  ghost predicate Right(s: string, mask: string, v: Verdict) {
    match v
    case Yes => Matches(s, mask)
    case No => !Matches(s, mask)
    case More(q) => Good(s, mask, q)
  }

  lemma NextAdvances(s: string, mask: string, p: Place)
    requires Good(s, mask, p)
    ensures Advance(mask, NextPlace(p)) > Advance(mask, p)
  {
    RunOfPlace(s, mask, p);
  }

  lemma NextIsInside(s: string, mask: string, p: Place)
    requires Good(s, mask, p) && p.m == |mask| && p.n < |s|
    ensures p.na < |s| && (p.ma < |mask| ==> p.na + 1 < |s|)
  {
    RunOfPlace(s, mask, p);
  }

  lemma NextFails(s: string, mask: string, p: Place)
    requires Good(s, mask, p) && p.wild && p.na < |s| && !Matches(s[p.n..], mask[p.m..])
    ensures Good(s, mask, NextPlace(p))
  {
    PlaceFails(s, mask, p.m, p.n, p.ma, p.na);
  }

  lemma MaskEndIsRight(s: string, mask: string, p: Place)
    requires Good(s, mask, p) && p.m == |mask| && p.n < |s| && !EndsInStar(mask)
    ensures !p.wild ==> !Matches(s, mask)
    ensures p.wild ==> Good(s, mask, NextPlace(p)) && Advance(mask, NextPlace(p)) > Advance(mask, p)
    ensures p.wild ==> (NextPlace(p).m < |mask| ==> mask[NextPlace(p).m] != '*' && NextPlace(p).n < |s|)
  {
    NextIsInside(s, mask, p);
    if p.wild {
      NextFails(s, mask, p);
      NextAdvances(s, mask, p);
    } else {
      RestDecides(s, mask, |mask|, p.n, p.wild, p.ma, p.na);
    }
  }

  lemma EndsAreRight(s: string, mask: string, p: Place)
    requires Good(s, mask, p) && (p.m < |mask| ==> mask[p.m] != '*')
    ensures var v := CheckEnds(s, mask, p);
      && Right(s, mask, v)
      && (v.More? ==> v.at == p || Advance(mask, v.at) > Advance(mask, p))
      && (v.More? && v.at == p ==> p.m < |mask| && p.n < |s|)
      && (v.More? && v.at.m < |mask| ==> mask[v.at.m] != '*' && v.at.n < |s|)
  {
    if p.m < |mask| {
      if p.n == |s| {
        StringExhausted(s, mask, p.m, p.n, p.wild, p.ma, p.na);
      }
    } else if p.n == |s| {
      BothExhausted(s, mask, p.wild, p.ma, p.na);
    } else if EndsInStar(mask) {
      PlainIsLast(mask, |mask|);
      StarFound(s, mask, p.n, p.wild, p.ma, p.na, LastPlain(mask, |mask|));
    } else {
      MaskEndIsRight(s, mask, p);
    }
  }

  lemma DifferenceIsRight(s: string, mask: string, p: Place)
    requires Good(s, mask, p) && p.n < |s| && (p.m < |mask| ==> mask[p.m] != '*' && !MatchesOne(s[p.n], mask[p.m]))
    ensures p.wild ==> Good(s, mask, NextPlace(p)) && Advance(mask, NextPlace(p)) > Advance(mask, p)
    ensures !p.wild ==> !Matches(s, mask)
  {
    Differ(s, mask, p.m, p.n, p.wild, p.ma, p.na);
    NextAdvances(s, mask, p);
  }

  lemma AgreementIsRight(s: string, mask: string, p: Place)
    requires Good(s, mask, p) && p.m < |mask| && mask[p.m] != '*' && p.n < |s| && MatchesOne(s[p.n], mask[p.m])
    ensures var q := p.(m := p.m + 1, n := p.n + 1); Good(s, mask, q) && Advance(mask, q) > Advance(mask, p)
  {
    RunGrows(s, mask, p.m, p.n, p.wild, p.ma, p.na);
  }

  lemma ComparisonIsRight(s: string, mask: string, p: Place)
    requires Good(s, mask, p) && (p.m < |mask| ==> mask[p.m] != '*' && p.n < |s|)
    ensures var v := Compare(s, mask, p);
      && v != Yes && Right(s, mask, v)
      && (v.More? ==> Advance(mask, v.at) >= Advance(mask, p))
      && (v.More? && (p.m < |mask| || p.n < |s|) ==> Advance(mask, v.at) > Advance(mask, p))
  {
    if !Agree(s, mask, p) {
      DifferenceIsRight(s, mask, p);
    } else if p.m < |mask| {
      AgreementIsRight(s, mask, p);
    }
  }

  /** A turn answers right, or goes on from a place that is as good and further. */
  lemma TurnIsRight(s: string, mask: string, p: Place)
    requires Good(s, mask, p)
    ensures var v := Turn(s, mask, p);
      Right(s, mask, v) && (v.More? ==> Advance(mask, v.at) > Advance(mask, p))
  {
    StarIsTaken(s, mask, p);
    EndsAreRight(s, mask, AtStar(mask, p));
    var v := CheckEnds(s, mask, AtStar(mask, p));
    if v.More? {
      ComparisonIsRight(s, mask, v.at);
    }
  }

  lemma {:induction false} TurnsAreRight(s: string, mask: string, p: Place, calls: nat)
    requires Good(s, mask, p)
    ensures Turns(s, mask, p, calls) ==> Matches(s, mask)
    ensures Matches(s, mask) && calls > MostAdvance(s, mask) - Advance(mask, p) ==> Turns(s, mask, p, calls)
    decreases calls
  {
    AdvanceIsBounded(s, mask, p);
    if calls > 0 {
      TurnIsRight(s, mask, p);
      var v := Turn(s, mask, p);
      if v.More? {
        TurnsAreRight(s, mask, v.at, calls - 1);
      }
    }
  }

  /** The budget is enough for a string of this length and the mask's longest stretch
      without a star. */
  predicate BudgetSuffices(s: string, mask: string) {
    (|s| + 1) * (LongestRun(mask) + 1) <= MATCH_MAX_CALLS
  }

  /** A yes is always right; a no is, where the budget suffices. */
  lemma StrMatchesIsMatching(s: string, mask: string)
    ensures StrMatches(s, mask) ==> Matches(s, mask)
    ensures BudgetSuffices(s, mask) ==> (StrMatches(s, mask) <==> Matches(s, mask))
  {
    TurnsAreRight(s, mask, START, MATCH_MAX_CALLS);
    TimesIsProduct(|s|, LongestRun(mask) + 1);
    assert (|s| + 1) * (LongestRun(mask) + 1) == |s| * (LongestRun(mask) + 1) + LongestRun(mask) + 1;
  }

  lemma {:induction false} RunIsShort(mask: string)
    ensures LongestRun(mask) <= |mask| && StarFree(mask) <= |mask|
  {
    if mask != [] {
      RunIsShort(mask[1..]);
    }
  }

  lemma SmallProduct(u: nat, v: nat)
    requires u <= 21 && v <= 21
    ensures u * v <= MATCH_MAX_CALLS
  {
    assert u * v <= 21 * v;
  }

  lemma ShortIsExact(s: string, mask: string)
    requires |s| <= 20 && |mask| <= 20
    ensures StrMatches(s, mask) <==> Matches(s, mask)
  {
    RunIsShort(mask);
    SmallProduct(|s| + 1, LongestRun(mask) + 1);
    StrMatchesIsMatching(s, mask);
  }
}
