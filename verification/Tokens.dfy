/** Splitting a line into arguments: str_tokenize of lib/src/str.c. */
module Tokens {
  import opened Prelude

  predicate IsBlank(c: char) {
    c == ' ' || c == '\t' || c == '\r' || c == '\n'
  }

  /** The end of the longest stretch from p on whose characters are all blank, or all not. */
  function RunEnd(s: string, p: nat, blank: bool): (q: nat)
    requires p <= |s|
    ensures p <= q <= |s| && (q < |s| ==> IsBlank(s[q]) != blank)
    ensures forall i :: p <= i < q ==> IsBlank(s[i]) == blank
    decreases |s| - p
  {
    if p == |s| || IsBlank(s[p]) != blank then p else RunEnd(s, p + 1, blank)
  }

  function LineEnd(s: string, p: nat): (q: nat)
    requires p <= |s|
    ensures p <= q <= |s| && (q < |s| ==> s[q] == '\r' || s[q] == '\n')
    ensures forall i :: p <= i < q ==> s[i] != '\r' && s[i] != '\n'
    decreases |s| - p
  {
    if p == |s| || s[p] == '\r' || s[p] == '\n' then p else LineEnd(s, p + 1)
  }

  /** Where s[from..end] ends without the spaces and tabs at its end. */
  function TrimEnd(s: string, from: nat, end: nat): (e: nat)
    requires from <= end <= |s|
    ensures from <= e <= end && (from < e ==> s[e - 1] != ' ' && s[e - 1] != '\t')
    ensures forall i :: e <= i < end ==> s[i] == ' ' || s[i] == '\t'
    decreases end
  {
    if from < end && (s[end - 1] == ' ' || s[end - 1] == '\t') then TrimEnd(s, from, end - 1) else end
  }

  /** The rest of the line as one argument. */
  function Remains(s: string, p: nat): string
    requires p <= |s|
  {
    s[p..TrimEnd(s, p, LineEnd(s, p))]
  }

  /** With the words from p on behind those in v, up to `max` of them; the last one, or
      one that begins with a colon, takes the rest of the line. */
  function Collect(s: string, p: nat, max: nat, v: seq<string>): seq<string>
    requires p <= |s| && |v| <= max
    decreases max - |v|
  {
    var q := RunEnd(s, p, true);
    if q == |s| || |v| == max then v
    else if s[q] == ':' then v + [Remains(s, q + 1)]
    else if |v| + 1 == max then v + [Remains(s, q)]
    else Collect(s, RunEnd(s, q, false), max, v + [s[q..RunEnd(s, q, false)]])
  }

  function Tokens(s: string, max: nat): seq<string> {
    Collect(s, 0, max, [])
  }

  // ---------- what the words are ----------

  /** A word: no blanks in it, and no colon in front. */
  predicate IsWord(s: string) {
    s != "" && s[0] != ':' && forall i :: 0 <= i < |s| ==> !IsBlank(s[i])
  }

  predicate StandsAt(s: string, p: nat, word: string) {
    p + |word| <= |s| && s[p..p + |word|] == word
  }

  predicate Blanks(s: string, p: nat, n: nat) {
    n <= |s| && forall i :: p <= i < n ==> IsBlank(s[i])
  }

  /** From p to n there is a word, which reaches up to a blank or the end, and blanks. */
  predicate WordAt(s: string, p: nat, n: nat, word: string) {
    var e := p + |word|;
    IsWord(word) && StandsAt(s, p, word) && (e < |s| ==> IsBlank(s[e])) && e <= n && Blanks(s, e, n)
  }

  /** The first n characters are these words, and blanks. */
  ghost predicate Words(s: string, n: nat, v: seq<string>) {
    if v == [] then Blanks(s, 0, n)
    else
      var before, last := v[..|v| - 1], v[|v| - 1];
      exists p: nat :: WordAt(s, p, n, last) && Words(s, p, before)
  }

  predicate IsLineEnd(s: string, p: nat, end: nat) {
    && p <= end <= |s| && (end < |s| ==> s[end] == '\r' || s[end] == '\n')
    && forall i :: p <= i < end ==> s[i] != '\r' && s[i] != '\n'
  }

  /** The rest of the line from p on, without the spaces and tabs at its end. */
  ghost predicate IsRest(s: string, p: nat, r: string) {
    && StandsAt(s, p, r) && (r != "" ==> r[|r| - 1] != ' ' && r[|r| - 1] != '\t')
    && exists end :: IsLineEnd(s, p, end) && p + |r| <= end && forall i :: p + |r| <= i < end ==> s[i] == ' ' || s[i] == '\t'
  }

  /** At q, where no blank is, the rest of the line is taken: as it begins with a colon, which
      is left out, or as it must. */
  ghost predicate TakesRest(s: string, q: nat, must: bool, r: string) {
    q < |s| && !IsBlank(s[q]) && (s[q] == ':' || must) && IsRest(s, if s[q] == ':' then q + 1 else q, r)
  }

  ghost predicate EndsInRest(s: string, must: bool, before: seq<string>, r: string) {
    exists q: nat :: Words(s, q, before) && TakesRest(s, q, must, r)
  }

  /** The tokens of a text: its words, if there are fewer than max of them and none begins with a
      colon; else those in front of the first with a colon, or of the max-th, and the rest. */
  ghost predicate AreTokens(s: string, max: nat, v: seq<string>) {
    if max == 0 then v == []
    else
      || (|v| < max && Words(s, |s|, v))
      || (0 < |v| <= max && EndsInRest(s, |v| == max, v[..|v| - 1], v[|v| - 1]))
  }

  lemma RemainsIsRest(s: string, p: nat)
    requires p <= |s|
    ensures IsRest(s, p, Remains(s, p))
  {
    assert IsLineEnd(s, p, LineEnd(s, p));
    assert p + |Remains(s, p)| == TrimEnd(s, p, LineEnd(s, p));
  }

  lemma WordsThenBlanks(s: string, p: nat, q: nat, v: seq<string>)
    requires Words(s, p, v) && p <= q && Blanks(s, p, q)
    ensures Words(s, q, v)
  {
    if v != [] {
      var o: nat :| WordAt(s, o, p, v[|v| - 1]) && Words(s, o, v[..|v| - 1]);
      assert WordAt(s, o, q, v[|v| - 1]);
    }
  }

  lemma WordsThenWord(s: string, q: nat, v: seq<string>)
    requires Words(s, q, v) && q < |s| && !IsBlank(s[q]) && s[q] != ':'
    ensures var e := RunEnd(s, q, false); Words(s, e, v + [s[q..e]])
  {
    var e := RunEnd(s, q, false);
    assert forall i :: 0 <= i < |s[q..e]| ==> s[q..e][i] == s[q + i];
    assert WordAt(s, q, e, s[q..e]);
    assert (v + [s[q..e]])[..|v|] == v;
  }

  lemma RestIsTaken(s: string, q: nat, max: nat, v: seq<string>)
    requires Words(s, q, v) && |v| < max && q < |s| && !IsBlank(s[q]) && (s[q] == ':' || |v| + 1 == max)
    ensures AreTokens(s, max, v + [Remains(s, if s[q] == ':' then q + 1 else q)])
  {
    var r := Remains(s, if s[q] == ':' then q + 1 else q);
    RemainsIsRest(s, if s[q] == ':' then q + 1 else q);
    assert (v + [r])[..|v|] == v;
    assert TakesRest(s, q, |v| + 1 == max, r);
    assert EndsInRest(s, |v| + 1 == max, v, r);
  }

  lemma {:induction false} CollectsTokens(s: string, p: nat, max: nat, v: seq<string>)
    requires p <= |s| && Words(s, p, v) && |v| < max
    ensures AreTokens(s, max, Collect(s, p, max, v))
    decreases max - |v|
  {
    var q := RunEnd(s, p, true);
    WordsThenBlanks(s, p, q, v);
    if q < |s| {
      if s[q] == ':' || |v| + 1 == max {
        RestIsTaken(s, q, max, v);
      } else {
        WordsThenWord(s, q, v);
        CollectsTokens(s, RunEnd(s, q, false), max, v + [s[q..RunEnd(s, q, false)]]);
      }
    }
  }

  /** The words of a text are its tokens. */
  lemma TokensAreTokens(s: string, max: nat)
    ensures AreTokens(s, max, Tokens(s, max))
  {
    if max > 0 {
      CollectsTokens(s, 0, max, []);
    }
  }

  // ---------- the code ----------

  method Skip(s: string, p: nat, blank: bool) returns (q: nat)
    requires p <= |s|
    ensures q == RunEnd(s, p, blank)
  {
    q := p;
    while q < |s| && IsBlank(s[q]) == blank
      invariant p <= q <= |s| && RunEnd(s, p, blank) == RunEnd(s, q, blank)
    {
      q := q + 1;
    }
  }

  /** The argument that takes the rest of the line. */
  method TakeRemains(s: string, from: nat) returns (r: string)
    requires from <= |s|
    ensures r == Remains(s, from)
  {
    var e := from;
    while e < |s| && s[e] != '\r' && s[e] != '\n'
      invariant from <= e <= |s| && LineEnd(s, from) == LineEnd(s, e)
    {
      e := e + 1;
    }
    while e > from && (s[e - 1] == ' ' || s[e - 1] == '\t')
      invariant from <= e <= |s| && TrimEnd(s, from, e) == TrimEnd(s, from, LineEnd(s, from))
    {
      e := e - 1;
    }
    r := s[from..e];
  }

  /** str_tokenize; the zeros it writes into the text are the ends of the words here. */
  method Tokenize(s: string, max: nat) returns (v: seq<string>)
    ensures v == Tokens(s, max)
  {
    v := [];
    var p: nat := 0;
    while true
      invariant p <= |s| && |v| <= max && Collect(s, p, max, v) == Tokens(s, max)
      decreases max - |v|
    {
      var q := Skip(s, p, true);
      if q == |s| || |v| == max {
        break;
      }
      if s[q] == ':' || |v| + 1 == max {
        var last := TakeRemains(s, if s[q] == ':' then q + 1 else q);
        v := v + [last];
        break;
      }
      p := Skip(s, q, false);
      v := v + [s[q..p]];
    }
  }

  // ---------- what comes back ----------

  /** From p on there are exactly these words, with single spaces between them. */
  ghost predicate Spells(s: string, p: nat, words: seq<string>)
    decreases words
  {
    if words == [] then p == |s|
    else
      var e := p + |words[0]|;
      && e <= |s| && s[p..e] == words[0]
      && if |words| == 1 then e == |s| else e < |s| && s[e] == ' ' && Spells(s, e + 1, words[1..])
  }

  lemma WordSpans(s: string, p: nat, word: string)
    requires IsWord(word) && p + |word| <= |s| && s[p..p + |word|] == word
    requires p + |word| < |s| ==> s[p + |word|] == ' '
    ensures RunEnd(s, p, true) == p && RunEnd(s, p, false) == p + |word| && s[p] == word[0]
    ensures p + |word| == |s| ==> Remains(s, p) == word
  {
    forall i | p <= i < p + |word|
      ensures !IsBlank(s[i])
    {
      assert s[i] == word[i - p];
    }
    assert s[p] == word[0];
  }

  /** A word is taken, and the walk goes on behind it. */
  lemma WordIsTaken(s: string, p: nat, word: string, max: nat, v: seq<string>)
    requires IsWord(word) && p + |word| <= |s| && s[p..p + |word|] == word && |v| < max
    requires p + |word| < |s| ==> s[p + |word|] == ' '
    requires p + |word| < |s| ==> |v| + 1 < max
    ensures Collect(s, p, max, v) == Collect(s, p + |word|, max, v + [word])
  {
    WordSpans(s, p, word);
  }

  lemma SpaceIsSkipped(s: string, e: nat, max: nat, v: seq<string>)
    requires e < |s| && s[e] == ' ' && |v| <= max
    ensures Collect(s, e, max, v) == Collect(s, e + 1, max, v)
  {
  }

  /** What `words` begin with is taken, and what follows is spelled behind it. */
  lemma SpelledOne(s: string, p: nat, words: seq<string>, max: nat, v: seq<string>)
    requires p <= |s| && Spells(s, p, words) && |v| + |words| <= max
    requires words != [] && IsWord(words[0])
    ensures var e := p + |words[0]|;
      && e <= |s| && Collect(s, p, max, v) == Collect(s, e, max, v + [words[0]])
      && if |words| == 1 then e == |s| else e < |s| && s[e] == ' ' && Spells(s, e + 1, words[1..])
  {
    WordIsTaken(s, p, words[0], max, v);
  }

  lemma NothingLeft(s: string, max: nat, v: seq<string>)
    requires |v| <= max
    ensures Collect(s, |s|, max, v) == v
  {
  }

  /** Words with single spaces between them come back, as many as are asked for. */
  lemma {:induction false} SpelledComeBack(s: string, p: nat, words: seq<string>, max: nat, v: seq<string>)
    requires p <= |s| && Spells(s, p, words) && |v| + |words| <= max
    requires forall i :: 0 <= i < |words| ==> IsWord(words[i])
    ensures Collect(s, p, max, v) == v + words
    decreases |words|, 1
  {
    if words == [] {
      NothingLeft(s, max, v);
      assert v + words == v;
    } else {
      SpelledOne(s, p, words, max, v);
      SpelledRest(s, p + |words[0]|, words, max, v);
    }
  }

  lemma {:induction false} SpelledRest(s: string, e: nat, words: seq<string>, max: nat, v: seq<string>)
    requires words != [] && |v| + |words| <= max && forall i :: 0 <= i < |words| ==> IsWord(words[i])
    requires if |words| == 1 then e == |s| else e < |s| && s[e] == ' ' && Spells(s, e + 1, words[1..])
    ensures Collect(s, e, max, v + [words[0]]) == v + words
    decreases |words|, 0
  {
    MoveOne(v + words, v, words);
    if |words| == 1 {
      NothingLeft(s, max, v + words);
    } else {
      SpaceIsSkipped(s, e, max, v + [words[0]]);
      SpelledComeBack(s, e + 1, words[1..], max, v + [words[0]]);
    }
  }
}
