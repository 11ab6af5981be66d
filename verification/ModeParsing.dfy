/** Reading mode lines, chanmode_parse and chanmode_prepare of src/chanmode.c, and what
    of a line a peer gets to know. */
module ModeParsing {
  import opened Prelude
  import opened ModeChanges
  import opened ModeLines
  import opened Tokens

  /** What the reading side goes by: its modes by letter, and who is on the channel
      under a nick or identifier. */
  datatype Peer = Peer(modes: map<char, Mode>, find: string -> Option<nat>)

  // ---------- one letter ----------

  function Clipped(s: string): string {
    if |s| <= ARG_LEN then s else s[..ARG_LEN]
  }

  /** A change, if it can be made, and how many arguments it has used up. An argument
      that names nobody on the channel is not used up. */
  datatype Prepared = Prepared(change: Option<Change>, used: nat)

  function Prepare(peer: Peer, what: What, mode: Mode, arg: Option<string>): Prepared {
    match mode.kind
    case Single => Prepared(Some(Change(what, mode, "", 0, false)), 0)
    case List =>
      if what == Query || arg == None then Prepared(Some(Change(Query, mode, "", 0, false)), 0)
      else Prepared(Some(Change(what, mode, Clipped(arg.value), 0, false)), 1)
    case Privilege =>
      if what == Query then Prepared(Some(Change(what, mode, "", 0, false)), 0)
      else if arg == None || peer.find(Clipped(arg.value)) == None then Prepared(None, 0)
      else Prepared(Some(Change(what, mode, Clipped(arg.value), peer.find(Clipped(arg.value)).value, false)), 1)
  }

  // ---------- the walk over the letters ----------

  datatype Walk = Walk(what: What, used: nat, changes: seq<Change>)

  function Nth(args: seq<string>, i: nat): Option<string> {
    if i < |args| then Some(args[i]) else None
  }

  function Flag(peer: Peer, args: seq<string>, w: Walk, c: char): Walk {
    if |w.changes| == MODES_PER_LINE then w
    else if c == '=' then w.(what := Query)
    else if c == '+' then w.(what := Add)
    else if c == '-' then w.(what := Del)
    else if c !in peer.modes then w
    else
      var p := Prepare(peer, w.what, peer.modes[c], Nth(args, w.used));
      Walk(w.what, w.used + p.used, if p.change.Some? then w.changes + [p.change.value] else w.changes)
  }

  function Walked(peer: Peer, args: seq<string>, text: string): Walk {
    if text == "" then Walk(Query, 0, []) else Flag(peer, args, Walked(peer, args, Front(text)), Last(text))
  }

  /** What a line is read as. The limit `pc` only counts when it is 0: the counter it is
      compared with stays 0. */
  function Parsed(peer: Peer, line: Line, pc: nat): seq<Change> {
    Walked(peer, Tokens.Tokens(line.args, PER_LINE), if pc == 0 && line.letters != "" then line.letters[..1] else line.letters).changes
  }

  lemma {:induction false} WalkedFull(peer: Peer, args: seq<string>, text: string, more: string)
    requires |Walked(peer, args, text).changes| == MODES_PER_LINE
    ensures Walked(peer, args, text + more) == Walked(peer, args, text)
  {
    if more == "" {
      assert text + more == text;
    } else {
      WalkedFull(peer, args, text, Front(more));
      assert Front(text + more) == text + Front(more);
    }
  }

  lemma FullBefore(peer: Peer, args: seq<string>, text: string, all: string)
    requires text <= all && |Walked(peer, args, text).changes| == MODES_PER_LINE
    ensures Walked(peer, args, all) == Walked(peer, args, text)
  {
    WalkedFull(peer, args, text, all[|text|..]);
    assert all == text + all[|text|..];
  }

  // ---------- what a line says ----------

  predicate IsSign(c: char) {
    c == '=' || c == '+' || c == '-'
  }

  predicate IsSignOf(c: char, what: What) {
    (c == '=' && what == Query) || (c == '+' && what == Add) || (c == '-' && what == Del)
  }

  /** What is in force at p: the last sign in front of it says so; without one it is a query. */
  predicate InForce(text: string, p: nat, what: What)
    requires p <= |text|
  {
    || (exists s :: 0 <= s < p && IsSignOf(text[s], what) && forall r :: s < r < p ==> !IsSign(text[r]))
    || (what == Query && forall r :: 0 <= r < p ==> !IsSign(text[r]))
  }

  /** A change that carries an argument. */
  predicate Carries(c: Change) {
    c.mode.kind != Single && c.what != Query
  }

  function Carried(changes: seq<Change>): nat {
    if changes == [] then 0 else Carried(Front(changes)) + if Carries(Last(changes)) then 1 else 0
  }

  /** As much of a word as fits. */
  predicate IsClip(arg: string, word: string) {
    arg <= word && |arg| == Min(|word|, ARG_LEN)
  }

  /** The letter at p says c, when k words are used up. */
  predicate Says(peer: Peer, args: seq<string>, text: string, p: nat, k: nat, c: Change) {
    && p < |text| && !IsSign(text[p]) && text[p] in peer.modes && c.mode == peer.modes[text[p]] && !c.bounced
    && (c.what != Query ==> InForce(text, p, c.what))
    && (c.what == Query ==> InForce(text, p, Query) || (c.mode.kind == List && k >= |args|))
    && (if Carries(c) then k < |args| && IsClip(c.arg, args[k]) else c.arg == "")
    && (if Carries(c) && c.mode.kind == Privilege then peer.find(c.arg) == Some(c.target) else c.target == 0)
  }

  /** The character at p says nothing: a sign, no mode's letter, or a privilege for which
      there is no word, or one that names nobody. */
  ghost predicate Silent(peer: Peer, args: seq<string>, text: string, p: nat, k: nat)
    requires p < |text|
  {
    || IsSign(text[p]) || text[p] !in peer.modes
    || (peer.modes[text[p]].kind == Privilege && !InForce(text, p, Query)
        && (k >= |args| || forall arg :: IsClip(arg, args[k]) ==> peer.find(arg) == None))
  }

  /** p is behind i of the positions. */
  predicate IsBehind(at: seq<nat>, i: nat, p: nat) {
    i <= |at| && (i > 0 ==> at[i - 1] < p) && (i < |at| ==> p < at[i])
  }

  /** The first n characters say these changes, each at its position and with the next word that
      is not used up; all others say nothing, up to the fourth change, which ends the line. */
  ghost predicate ReadsAs(peer: Peer, args: seq<string>, text: string, n: nat, at: seq<nat>, changes: seq<Change>) {
    && n <= |text| && |at| == |changes| <= MODES_PER_LINE
    && (forall i :: 0 <= i < |at| ==> at[i] < n) && (forall i, j :: 0 <= i < j < |at| ==> at[i] < at[j])
    && (forall i :: 0 <= i < |at| ==> Says(peer, args, text, at[i], Carried(changes[..i]), changes[i]))
    && (forall i, p :: 0 <= i < MODES_PER_LINE && 0 <= p < n && IsBehind(at, i, p) ==>
          Silent(peer, args, text, p, Carried(changes[..i])))
  }

  lemma OneInForce(text: string, p: nat, x: What, y: What)
    requires p <= |text| && InForce(text, p, x) && InForce(text, p, y)
    ensures x == y
  {
  }

  lemma InForceNext(text: string, p: nat, what: What)
    requires p < |text| && InForce(text, p, what)
    ensures !IsSign(text[p]) ==> InForce(text, p + 1, what)
    ensures forall x :: IsSignOf(text[p], x) ==> InForce(text, p + 1, x)
  {
  }

  lemma CarriedOneMore(changes: seq<Change>, c: Change)
    ensures Carried(changes + [c]) == Carried(changes) + if Carries(c) then 1 else 0
  {
    assert Front(changes + [c]) == changes;
  }

  lemma ClipIs(arg: string, word: string)
    ensures IsClip(arg, word) <==> arg == Clipped(word)
  {
  }

  /** A character behind the fourth change, or one that says nothing. */
  lemma ReadsOn(peer: Peer, args: seq<string>, text: string, n: nat, at: seq<nat>, changes: seq<Change>)
    requires ReadsAs(peer, args, text, n, at, changes) && n < |text|
    requires |changes| == MODES_PER_LINE || Silent(peer, args, text, n, Carried(changes))
    ensures ReadsAs(peer, args, text, n + 1, at, changes)
  {
    assert changes[..|changes|] == changes;
  }

  lemma ReadsMore(peer: Peer, args: seq<string>, text: string, n: nat, at: seq<nat>, changes: seq<Change>, c: Change)
    requires ReadsAs(peer, args, text, n, at, changes) && n < |text| && |changes| < MODES_PER_LINE
    requires Says(peer, args, text, n, Carried(changes), c)
    ensures ReadsAs(peer, args, text, n + 1, at + [n], changes + [c])
  {
    var more, all := at + [n], changes + [c];
    assert forall i :: 0 <= i <= |changes| ==> all[..i] == changes[..i];
    assert changes[..|changes|] == changes;
    forall i, p | 0 <= i < MODES_PER_LINE && 0 <= p < n + 1 && IsBehind(more, i, p)
      ensures Silent(peer, args, text, p, Carried(all[..i]))
    {
      assert IsBehind(at, i, p);
    }
  }

  /** What one letter is read as. */
  lemma PreparedSays(peer: Peer, args: seq<string>, text: string, n: nat, what: What, k: nat)
    requires n < |text| && !IsSign(text[n]) && text[n] in peer.modes && InForce(text, n, what)
    ensures var p := Prepare(peer, what, peer.modes[text[n]], Nth(args, k));
      && (p.change.Some? ==> Says(peer, args, text, n, k, p.change.value)
                             && p.used == if Carries(p.change.value) then 1 else 0)
      && (p.change.None? ==> Silent(peer, args, text, n, k) && p.used == 0)
  {
    if InForce(text, n, Query) {
      OneInForce(text, n, what, Query);
    }
    if k < |args| {
      ClipIs(Clipped(args[k]), args[k]);
      forall arg | IsClip(arg, args[k])
        ensures arg == Clipped(args[k])
      {
        ClipIs(arg, args[k]);
      }
    }
  }

  /** What the walk goes by, as long as it goes on. */
  predicate KnowsHow(w: Walk, text: string, n: nat) {
    n <= |text| && (|w.changes| < MODES_PER_LINE ==> InForce(text, n, w.what) && w.used == Carried(w.changes))
  }

  lemma WalkReadsOne(peer: Peer, args: seq<string>, text: string, n: nat, w: Walk, at: seq<nat>) returns (more: seq<nat>)
    requires n < |text| && KnowsHow(w, text, n) && ReadsAs(peer, args, text, n, at, w.changes)
    ensures var v := Flag(peer, args, w, text[n]);
      KnowsHow(v, text, n + 1) && ReadsAs(peer, args, text, n + 1, more, v.changes)
  {
    more := at;
    if |w.changes| == MODES_PER_LINE {
      ReadsOn(peer, args, text, n, at, w.changes);
    } else {
      InForceNext(text, n, w.what);
      if IsSign(text[n]) || text[n] !in peer.modes {
        ReadsOn(peer, args, text, n, at, w.changes);
      } else {
        more := WalkReadsLetter(peer, args, text, n, w, at);
      }
    }
  }

  lemma WalkReadsLetter(peer: Peer, args: seq<string>, text: string, n: nat, w: Walk, at: seq<nat>)
    returns (more: seq<nat>)
    requires n < |text| && KnowsHow(w, text, n) && ReadsAs(peer, args, text, n, at, w.changes)
    requires |w.changes| < MODES_PER_LINE && !IsSign(text[n]) && text[n] in peer.modes
    ensures var v := Flag(peer, args, w, text[n]);
      KnowsHow(v, text, n + 1) && ReadsAs(peer, args, text, n + 1, more, v.changes)
  {
    InForceNext(text, n, w.what);
    PreparedSays(peer, args, text, n, w.what, w.used);
    var p := Prepare(peer, w.what, peer.modes[text[n]], Nth(args, w.used));
    if p.change.Some? {
      more := at + [n];
      CarriedOneMore(w.changes, p.change.value);
      ReadsMore(peer, args, text, n, at, w.changes, p.change.value);
    } else {
      more := at;
      ReadsOn(peer, args, text, n, at, w.changes);
    }
  }

  lemma {:induction false} WalkReads(peer: Peer, args: seq<string>, text: string, n: nat) returns (at: seq<nat>)
    requires n <= |text|
    ensures var w := Walked(peer, args, text[..n]);
      KnowsHow(w, text, n) && ReadsAs(peer, args, text, n, at, w.changes)
  {
    if n == 0 {
      at := [];
    } else {
      at := WalkReads(peer, args, text, n - 1);
      assert Front(text[..n]) == text[..n - 1];
      at := WalkReadsOne(peer, args, text, n - 1, Walked(peer, args, text[..n - 1]), at);
    }
  }

  /** The letters that are looked at. */
  function Seen(letters: string, pc: nat): string {
    if pc == 0 && letters != "" then letters[..1] else letters
  }

  /** The changes are what the letters and words of the line say. */
  ghost predicate SaysAll(peer: Peer, line: Line, pc: nat, changes: seq<Change>) {
    var text := Seen(line.letters, pc);
    exists at :: ReadsAs(peer, Tokens.Tokens(line.args, PER_LINE), text, |text|, at, changes)
  }

  lemma ParsedSaysAll(peer: Peer, line: Line, pc: nat)
    ensures SaysAll(peer, line, pc, Parsed(peer, line, pc))
  {
    var text := Seen(line.letters, pc);
    var at := WalkReads(peer, Tokens.Tokens(line.args, PER_LINE), text, |text|);
    assert text[..|text|] == text;
  }

  /** chanmode_parse. */
  method Parse(peer: Peer, line: Line, pc: nat) returns (changes: seq<Change>)
    ensures changes == Parsed(peer, line, pc)
    ensures SaysAll(peer, line, pc, changes)
  {
    var letters := line.letters;
    var argp := Tokenize(line.args, PER_LINE);
    var what := Query;
    var ai: nat := 0;
    var mi := 0;
    changes := [];
    while mi < |letters|
      invariant mi <= |letters| && (pc == 0 ==> mi == 0)
      invariant Walk(what, ai, changes) == Walked(peer, argp, letters[..mi]) && |changes| < MODES_PER_LINE
    {
      var c := letters[mi];
      assert Front(letters[..mi + 1]) == letters[..mi];
      mi := mi + 1;
      if c == '=' {
        what := Query;
      } else if c == '+' {
        what := Add;
      } else if c == '-' {
        what := Del;
      } else if c in peer.modes {
        var p := Prepare(peer, what, peer.modes[c], Nth(argp, ai));
        ai := ai + p.used;
        if p.change.Some? {
          changes := changes + [p.change.value];
        }
        if |changes| == MODES_PER_LINE {
          FullBefore(peer, argp, letters[..mi], letters);
          ParsedSaysAll(peer, line, pc);
          return;
        }
      }
      if pc == 0 {
        ParsedSaysAll(peer, line, pc);
        return;
      }
    }
    assert letters[..mi] == letters;
    ParsedSaysAll(peer, line, pc);
  }

  // ---------- what a line does not repeat ----------

  /** A sign stands only where another one, or none, was in force. */
  ghost predicate SignsTurn(text: string) {
    forall p, q :: 0 <= q < p < |text| && IsSign(text[p]) && text[q] == text[p] ==> HasOther(text, q, p)
  }

  predicate HasOther(text: string, q: nat, p: nat)
    requires q < p < |text|
  {
    exists r :: q < r < p && IsSign(text[r]) && text[r] != text[p]
  }

  /** The last sign of the letters is that of the last change, in front of its letter. */
  ghost predicate EndsInForce(text: string, sent: seq<Change>) {
    if sent == [] then text == ""
    else exists s :: 0 <= s < |text| && text[s] == Sign(Last(sent).what) && forall r :: s < r < |text| ==> !IsSign(text[r])
  }

  lemma LetterTurns(text: string, letter: char)
    requires SignsTurn(text) && !IsSign(letter)
    ensures SignsTurn(text + [letter])
  {
    forall p, q | 0 <= q < p < |text| && IsSign(text[p]) && text[q] == text[p]
      ensures HasOther(text + [letter], q, p)
    {
      assert HasOther(text, q, p);
      var r :| q < r < p && IsSign(text[r]) && text[r] != text[p];
      assert (text + [letter])[r] == text[r];
    }
  }

  /** A sign behind the other one. */
  lemma SignTurns(text: string, sign: char, s: int)
    requires SignsTurn(text) && IsSign(sign) && -1 <= s < |text|
    requires s >= 0 ==> IsSign(text[s]) && text[s] != sign
    requires forall r :: s < r < |text| ==> !IsSign(text[r])
    ensures SignsTurn(text + [sign])
  {
    var more := text + [sign];
    forall p, q | 0 <= q < p < |more| && IsSign(more[p]) && more[q] == more[p]
      ensures HasOther(more, q, p)
    {
      if p < |text| {
        assert HasOther(text, q, p);
        var r :| q < r < p && IsSign(text[r]) && text[r] != text[p];
        assert more[r] == text[r];
      } else {
        assert q < s && more[s] == text[s];
      }
    }
  }

  lemma PieceTurns(text: string, sent: seq<Change>, c: Change)
    requires SignsTurn(text) && EndsInForce(text, sent) && !IsSign(c.mode.letter) && c.what != Query
    requires sent != [] ==> Last(sent).what != Query
    ensures var more := text + Piece(LastWhat(sent), c);
      SignsTurn(more) && EndsInForce(more, sent + [c])
  {
    var sign, letter := Sign(c.what), c.mode.letter;
    var s := -1;
    if sent != [] {
      s :| 0 <= s < |text| && text[s] == Sign(Last(sent).what) && forall r :: s < r < |text| ==> !IsSign(text[r]);
    }
    if LastWhat(sent) == Some(c.what) {
      LetterTurns(text, letter);
      assert (text + [letter])[s] == sign;
    } else {
      SignTurns(text, sign, s);
      LetterTurns(text + [sign], letter);
      assert text + [sign, letter] == text + [sign] + [letter];
      assert (text + [sign, letter])[|text|] == sign;
    }
  }

  /** The letters of a line repeat no sign. */
  lemma {:induction false} LettersTurn(sent: seq<Change>)
    requires forall i :: 0 <= i < |sent| ==> sent[i].what != Query && !IsSign(sent[i].mode.letter)
    ensures SignsTurn(Letters(sent)) && EndsInForce(Letters(sent), sent)
  {
    if sent == [] {
    } else {
      LettersTurn(Front(sent));
      PieceTurns(Letters(Front(sent)), Front(sent), Last(sent));
      assert sent == Front(sent) + [Last(sent)];
    }
  }

  // ---------- the arguments come back ----------

  lemma WordBehind(text: string, word: string)
    ensures var s, e := text + (" " + word), |text|;
      s[e] == ' ' && s[e + 1..e + 1 + |word|] == word && e + 1 + |word| == |s|
  {
  }

  lemma OneMoreWord(text: string, p: nat, first: string, word: string)
    requires p <= |text| && text[p..] == first
    ensures Spells(text + (" " + word), p, [first, word])
  {
    var s, e := text + (" " + word), |text|;
    WordBehind(text, word);
    assert s[p..e] == text[p..];
    assert [first, word][1..] == [word];
    assert Spells(s, e + 1, [word]);
  }

  lemma {:induction false} SpellsMore(text: string, p: nat, words: seq<string>, word: string)
    requires p <= |text| && words != [] && Spells(text, p, words)
    ensures Spells(text + (" " + word), p, words + [word])
    decreases words
  {
    var s, e := text + (" " + word), p + |words[0]|;
    if |words| == 1 {
      assert text[p..] == text[p..e];
      OneMoreWord(text, p, words[0], word);
      assert words + [word] == [words[0], word];
    } else {
      SpellsMore(text, e + 1, words[1..], word);
      assert s[p..e] == text[p..e] && s[e] == text[e];
      assert (words + [word])[1..] == words[1..] + [word];
    }
  }

  /** The arguments of a line are words. */
  predicate Worded(names: Names, c: Change) {
    c.mode.kind != Single ==> IsWord(ArgumentOf(names, c))
  }

  /** The text of words spells them. */
  lemma {:induction false} SpacedSpells(words: seq<string>)
    requires forall i :: 0 <= i < |words| ==> IsWord(words[i])
    ensures Spells(Spaced(words), 0, words) && (Spaced(words) == "" <==> words == [])
  {
    if words == [] {
    } else if |words| == 1 {
      assert Front(words) == [] && words[0][0..|words[0]|] == words[0];
    } else {
      SpacedSpells(Front(words));
      SpellsMore(Spaced(Front(words)), 0, Front(words), Last(words));
      assert words == Front(words) + [Last(words)];
    }
  }

  /** So words come back from it. */
  lemma WordsComeBack(words: seq<string>, max: nat)
    requires |words| <= max && forall i :: 0 <= i < |words| ==> IsWord(words[i])
    ensures Tokens.Tokens(Spaced(words), max) == words
  {
    SpacedSpells(words);
    SpelledComeBack(Spaced(words), 0, words, max, []);
    assert [] + words == words;
  }

  lemma {:induction false} ArgsAreWords(names: Names, sent: seq<Change>)
    requires forall i :: 0 <= i < |sent| ==> Worded(names, sent[i])
    ensures forall i :: 0 <= i < |Args(names, sent)| ==> IsWord(Args(names, sent)[i])
  {
    if sent == [] {
    } else {
      ArgsAreWords(names, Front(sent));
      assert Worded(names, Last(sent));
    }
  }

  lemma ArgsComeBack(names: Names, sent: seq<Change>)
    requires |sent| <= PER_LINE && forall i :: 0 <= i < |sent| ==> Worded(names, sent[i])
    ensures Tokens.Tokens(ArgText(names, sent), PER_LINE) == Args(names, sent)
  {
    ArgsAreWords(names, sent);
    WordsComeBack(Args(names, sent), PER_LINE);
  }

  // ---------- the changes come back ----------

  /** The reading side knows the mode and the member, and the argument is a word that fits. */
  predicate Understood(peer: Peer, names: Names, c: Change) {
    var letter, arg := c.mode.letter, ArgumentOf(names, c);
    && c.what != Query
    && letter != '=' && letter != '+' && letter != '-' && letter in peer.modes && peer.modes[letter] == c.mode
    && Worded(names, c) && (c.mode.kind != Single ==> |arg| <= ARG_LEN)
    && (c.mode.kind == Privilege ==> peer.find(arg) == Some(c.target))
  }

  function Received(names: Names, c: Change): Change {
    Change(c.what, c.mode, if c.mode.kind == Single then "" else ArgumentOf(names, c),
           if c.mode.kind == Privilege then c.target else 0, false)
  }

  function ReceivedAll(names: Names, sent: seq<Change>): (r: seq<Change>)
    ensures |r| == |sent| && forall i :: 0 <= i < |sent| ==> r[i] == Received(names, sent[i])
  {
    seq(|sent|, i requires 0 <= i < |sent| => Received(names, sent[i]))
  }

  lemma WalkedOne(peer: Peer, args: seq<string>, text: string, a: char)
    ensures Walked(peer, args, text + [a]) == Flag(peer, args, Walked(peer, args, text), a)
  {
    assert Front(text + [a]) == text;
  }

  lemma WalkedTwo(peer: Peer, args: seq<string>, text: string, a: char, b: char)
    ensures Walked(peer, args, text + [a, b]) == Flag(peer, args, Flag(peer, args, Walked(peer, args, text), a), b)
  {
    WalkedOne(peer, args, text, a);
    assert text + [a, b] == text + [a] + [b];
    WalkedOne(peer, args, text + [a], b);
  }

  /** The walk has come by `sent`. */
  predicate CameBy(w: Walk, sent: seq<Change>) {
    |w.changes| < MODES_PER_LINE && (LastWhat(sent).Some? ==> w.what == LastWhat(sent).value)
  }

  /** A piece of a line: its letter is met with its sign. */
  lemma WalkedPiece(peer: Peer, args: seq<string>, text: string, sent: seq<Change>, c: Change)
    requires c.what != Query && CameBy(Walked(peer, args, text), sent)
    ensures Walked(peer, args, text + Piece(LastWhat(sent), c))
         == Flag(peer, args, Walked(peer, args, text).(what := c.what), c.mode.letter)
  {
    if Piece(LastWhat(sent), c) == [c.mode.letter] {
      WalkedOne(peer, args, text, c.mode.letter);
    } else {
      WalkedTwo(peer, args, text, Sign(c.what), c.mode.letter);
    }
  }

  /** The walk after the changes `sent`. */
  function After(names: Names, sent: seq<Change>): Walk {
    Walk(if sent == [] then Query else Last(sent).what, |Args(names, sent)|, ReceivedAll(names, sent))
  }

  lemma FlagUnderstood(peer: Peer, names: Names, args: seq<string>, w: Walk, c: Change)
    requires Understood(peer, names, c) && w.what == c.what && |w.changes| < MODES_PER_LINE
    requires c.mode.kind != Single ==> Nth(args, w.used) == Some(ArgumentOf(names, c))
    ensures Flag(peer, args, w, c.mode.letter)
         == Walk(c.what, if c.mode.kind == Single then w.used else w.used + 1, w.changes + [Received(names, c)])
  {
  }

  lemma AfterOneMore(names: Names, sent: seq<Change>, c: Change)
    ensures After(names, sent + [c])
         == Walk(c.what, if c.mode.kind == Single then |Args(names, sent)| else |Args(names, sent)| + 1,
                 ReceivedAll(names, sent) + [Received(names, c)])
    ensures Args(names, sent + [c])
         == if c.mode.kind == Single then Args(names, sent) else Args(names, sent) + [ArgumentOf(names, c)]
  {
    assert Front(sent + [c]) == sent;
    assert ReceivedAll(names, sent + [c]) == ReceivedAll(names, sent) + [Received(names, c)];
  }

  lemma LineStep(peer: Peer, names: Names, args: seq<string>, sent: seq<Change>, c: Change)
    requires |sent| < MODES_PER_LINE && Understood(peer, names, c) && Args(names, sent + [c]) <= args
    requires Walked(peer, args, Letters(sent)) == After(names, sent)
    ensures Walked(peer, args, Letters(sent + [c])) == After(names, sent + [c])
  {
    Extend(names, sent, c);
    AfterOneMore(names, sent, c);
    WalkedPiece(peer, args, Letters(sent), sent, c);
    FlagUnderstood(peer, names, args, After(names, sent).(what := c.what), c);
  }

  lemma PrefixOfPrefix<T>(a: seq<T>, x: seq<T>, all: seq<T>)
    requires a + x <= all
    ensures a <= all
  {
    assert a + x == all[..|a + x|];
    assert forall i :: 0 <= i < |a| ==> (a + x)[i] == a[i];
  }

  lemma ArgsOfFront(names: Names, rest: seq<Change>, c: Change, args: seq<string>)
    requires Args(names, rest + [c]) <= args
    ensures Args(names, rest) <= args
  {
    AfterOneMore(names, rest, c);
    if c.mode.kind != Single {
      PrefixOfPrefix(Args(names, rest), [ArgumentOf(names, c)], args);
    }
  }

  /** Up to four changes of a line come back as they are. */
  lemma {:induction false} LineWalk(peer: Peer, names: Names, args: seq<string>, sent: seq<Change>)
    requires |sent| <= MODES_PER_LINE && Args(names, sent) <= args
    requires forall i :: 0 <= i < |sent| ==> Understood(peer, names, sent[i])
    ensures Walked(peer, args, Letters(sent)) == After(names, sent)
  {
    if sent == [] {
    } else {
      var rest, c := Front(sent), Last(sent);
      assert sent == rest + [c];
      ArgsOfFront(names, rest, c, args);
      LineWalk(peer, names, args, rest);
      LineStep(peer, names, args, rest, c);
    }
  }

  lemma {:induction false} LineBegins(names: Names, first: seq<Change>, more: seq<Change>)
    ensures Letters(first) <= Letters(first + more) && Args(names, first) <= Args(names, first + more)
  {
    if more == [] {
      assert first + more == first;
    } else {
      LineBegins(names, first, Front(more));
      assert Front(first + more) == first + Front(more);
    }
  }

  function FirstOf(sent: seq<Change>): seq<Change> {
    sent[..Min(MODES_PER_LINE, |sent|)]
  }

  /** The start of a line, of at most four changes, as read with all the arguments. */
  lemma StartWalk(peer: Peer, names: Names, first: seq<Change>, more: seq<Change>)
    requires |first| <= MODES_PER_LINE && (more == [] || |first| == MODES_PER_LINE)
    requires forall i :: 0 <= i < |first| ==> Understood(peer, names, first[i])
    ensures Walked(peer, Args(names, first + more), Letters(first + more)).changes == ReceivedAll(names, first)
  {
    var args := Args(names, first + more);
    LineBegins(names, first, more);
    LineWalk(peer, names, args, first);
    if more == [] {
      assert first + more == first;
    } else {
      FullBefore(peer, args, Letters(first), Letters(first + more));
    }
  }

  lemma PartsRoundTrip(peer: Peer, names: Names, first: seq<Change>, more: seq<Change>, pc: nat)
    requires |first| <= MODES_PER_LINE && (more == [] || |first| == MODES_PER_LINE)
    requires |first + more| <= PER_LINE && pc > 0
    requires forall i :: 0 <= i < |first + more| ==> Worded(names, (first + more)[i])
    requires forall i :: 0 <= i < |first| ==> Understood(peer, names, first[i])
    ensures Parsed(peer, LineOf(names, first + more), pc) == ReceivedAll(names, first)
  {
    ArgsComeBack(names, first + more);
    StartWalk(peer, names, first, more);
  }

  /** A line is read as its first four changes. */
  lemma LineRoundTrip(peer: Peer, names: Names, sent: seq<Change>, pc: nat)
    requires |sent| <= PER_LINE && pc > 0 && forall i :: 0 <= i < |sent| ==> Understood(peer, names, sent[i])
    ensures Parsed(peer, LineOf(names, sent), pc) == ReceivedAll(names, FirstOf(sent))
  {
    var k := Min(MODES_PER_LINE, |sent|);
    assert sent[..k] + sent[k..] == sent;
    PartsRoundTrip(peer, names, sent[..k], sent[k..], pc);
  }

  /** So all of it comes back exactly when there are no more than four, although a line
      to a server is given up to 16. */
  lemma LineComesBackIff(peer: Peer, names: Names, sent: seq<Change>, pc: nat)
    requires |sent| <= PER_LINE && pc > 0 && forall i :: 0 <= i < |sent| ==> Understood(peer, names, sent[i])
    ensures Parsed(peer, LineOf(names, sent), pc) == ReceivedAll(names, sent) <==> |sent| <= MODES_PER_LINE
  {
    LineRoundTrip(peer, names, sent, pc);
    assert |sent| <= MODES_PER_LINE ==> FirstOf(sent) == sent;
  }

  // ---------- a member nobody knows ----------

  predicate SignOrPrivilege(peer: Peer, c: char) {
    c == '+' || c == '-' || (c != '=' && c in peer.modes && peer.modes[c].kind == Privilege)
  }

  /** The next argument names nobody on the channel, so it stays the next argument. */
  predicate Blocked(peer: Peer, args: seq<string>, w: Walk) {
    w.what != Query && w.used < |args| && peer.find(Clipped(args[w.used])) == None
  }

  lemma {:induction false} BlockedStays(peer: Peer, args: seq<string>, text: string, more: string)
    requires Blocked(peer, args, Walked(peer, args, text))
    requires forall i :: 0 <= i < |more| ==> SignOrPrivilege(peer, more[i])
    ensures Blocked(peer, args, Walked(peer, args, text + more))
    ensures Walked(peer, args, text + more).changes == Walked(peer, args, text).changes
  {
    if more == "" {
      assert text + more == text;
    } else {
      BlockedStays(peer, args, text, Front(more));
      assert Front(text + more) == text + Front(more);
    }
  }

  lemma BlockedBefore(peer: Peer, args: seq<string>, text: string, all: string)
    requires text <= all && Blocked(peer, args, Walked(peer, args, text))
    requires forall i :: |text| <= i < |all| ==> SignOrPrivilege(peer, all[i])
    ensures Walked(peer, args, all).changes == Walked(peer, args, text).changes
  {
    BlockedStays(peer, args, text, all[|text|..]);
    assert all == text + all[|text|..];
  }

  /** A privilege change for somebody the reading side does not know. */
  predicate Unknown(peer: Peer, names: Names, c: Change) {
    c.mode.kind == Privilege && c.what != Query && peer.find(Clipped(ArgumentOf(names, c))) == None
  }

  lemma {:induction false} LettersOfPrivileges(peer: Peer, known: seq<Change>, more: seq<Change>)
    requires forall i :: 0 <= i < |more| ==> more[i].mode.kind == Privilege && more[i].mode.letter != '='
    requires forall i :: 0 <= i < |more| ==> more[i].mode.letter in peer.modes && peer.modes[more[i].mode.letter] == more[i].mode
    ensures Letters(known) <= Letters(known + more)
    ensures forall i :: |Letters(known)| <= i < |Letters(known + more)| ==> SignOrPrivilege(peer, Letters(known + more)[i])
  {
    if more == [] {
      assert known + more == known;
    } else {
      LettersOfPrivileges(peer, known, Front(more));
      assert Front(known + more) == known + Front(more);
      assert Last(known + more) == Last(more);
    }
  }

  lemma FlagUnknown(peer: Peer, names: Names, args: seq<string>, w: Walk, c: Change)
    requires Unknown(peer, names, c) && IsLetter(peer, c) && w.what == c.what && |w.changes| < MODES_PER_LINE
    requires Nth(args, w.used) == Some(ArgumentOf(names, c))
    ensures Flag(peer, args, w, c.mode.letter) == w && Blocked(peer, args, w)
  {
  }

  /** Where the walk stands behind the letter of the unknown member. */
  lemma SignThenBlocked(peer: Peer, names: Names, args: seq<string>, known: seq<Change>, c: Change)
    requires |known| < MODES_PER_LINE && forall i :: 0 <= i < |known| ==> Understood(peer, names, known[i])
    requires Args(names, known + [c]) <= args && Unknown(peer, names, c) && IsLetter(peer, c)
    ensures var w := Walked(peer, args, Letters(known + [c]));
      Blocked(peer, args, w) && w.changes == ReceivedAll(names, known)
  {
    AfterOneMore(names, known, c);
    LineWalk(peer, names, args, known);
    Extend(names, known, c);
    WalkedPiece(peer, args, Letters(known), known, c);
    FlagUnknown(peer, names, args, After(names, known).(what := c.what), c);
  }

  predicate IsLetter(peer: Peer, c: Change) {
    var letter := c.mode.letter;
    letter != '=' && letter != '+' && letter != '-' && letter in peer.modes && peer.modes[letter] == c.mode
  }

  /** An unknown member's change is lost, and so is every privilege change behind it on
      the line: their letters keep meeting the argument that was not used up. */
  lemma UnknownMemberBlocksLine(peer: Peer, names: Names, known: seq<Change>, c: Change, more: seq<Change>, pc: nat)
    requires |known| < MODES_PER_LINE && |known + [c] + more| <= PER_LINE && pc > 0
    requires forall i :: 0 <= i < |known| ==> Understood(peer, names, known[i])
    requires Unknown(peer, names, c) && IsLetter(peer, c)
    requires forall i :: 0 <= i < |more| ==> more[i].mode.kind == Privilege && IsLetter(peer, more[i])
    requires var sent := known + [c] + more;
      forall i :: 0 <= i < |sent| ==> Worded(names, sent[i])
    ensures Parsed(peer, LineOf(names, known + [c] + more), pc) == ReceivedAll(names, known)
  {
    var upto := known + [c];
    ArgsComeBack(names, upto + more);
    UnknownMemberBlocks(peer, names, known, c, upto, more);
  }

  lemma UnknownMemberBlocks(peer: Peer, names: Names, known: seq<Change>, c: Change, upto: seq<Change>,
                            more: seq<Change>)
    requires |known| < MODES_PER_LINE && upto == known + [c]
    requires forall i :: 0 <= i < |known| ==> Understood(peer, names, known[i])
    requires Unknown(peer, names, c) && IsLetter(peer, c)
    requires forall i :: 0 <= i < |more| ==> more[i].mode.kind == Privilege && IsLetter(peer, more[i])
    ensures Walked(peer, Args(names, upto + more), Letters(upto + more)).changes == ReceivedAll(names, known)
  {
    var args := Args(names, upto + more);
    LineBegins(names, upto, more);
    SignThenBlocked(peer, names, args, known, c);
    LettersOfPrivileges(peer, upto, more);
    BlockedBefore(peer, args, Letters(upto), Letters(upto + more));
  }

  // ---------- exactly when a line comes back ----------

  /** All that Understood asks but that the member is found. */
  predicate UnderstoodButMember(peer: Peer, names: Names, c: Change) {
    && c.what != Query && IsLetter(peer, c) && Worded(names, c)
    && (c.mode.kind != Single ==> |ArgumentOf(names, c)| <= ARG_LEN)
    && (c.mode.kind == Privilege && peer.find(ArgumentOf(names, c)).Some? ==>
          peer.find(ArgumentOf(names, c)) == Some(c.target))
  }

  predicate MemberFound(peer: Peer, names: Names, c: Change) {
    c.mode.kind == Privilege ==> peer.find(ArgumentOf(names, c)).Some?
  }

  lemma {:induction false} OneChangeForEach(peer: Peer, names: Names, args: seq<string>, sent: seq<Change>, more: seq<Change>)
    requires forall i :: 0 <= i < |more| ==> more[i].what != Query
    ensures |Walked(peer, args, Letters(sent + more)).changes| <= |Walked(peer, args, Letters(sent)).changes| + |more|
  {
    if more == [] {
      assert sent + more == sent;
    } else {
      OneChangeForEach(peer, names, args, sent, Front(more));
      assert Front(sent + more) == sent + Front(more) && Last(sent + more) == Last(more);
      OnePieceMore(peer, args, Letters(sent + Front(more)), LastWhat(sent + Front(more)), Last(more));
    }
  }

  /** A sign adds no change, a letter at most one. */
  lemma OnePieceMore(peer: Peer, args: seq<string>, text: string, before: Option<What>, c: Change)
    requires c.what != Query
    ensures |Walked(peer, args, text + Piece(before, c)).changes| <= |Walked(peer, args, text).changes| + 1
  {
    var letter, sign := c.mode.letter, Sign(c.what);
    if before == Some(c.what) {
      assert Front(text + [letter]) == text;
    } else {
      assert Front(text + [sign, letter]) == text + [sign] && Front(text + [sign]) == text;
    }
  }

  /** The first change for somebody who is not found costs the line a change. */
  lemma UnknownCostsOne(peer: Peer, names: Names, known: seq<Change>, c: Change, more: seq<Change>, pc: nat)
    requires |known + [c] + more| <= MODES_PER_LINE && pc > 0
    requires forall i :: 0 <= i < |known| ==> Understood(peer, names, known[i])
    requires Unknown(peer, names, c) && IsLetter(peer, c)
    requires var sent := known + [c] + more; forall i :: 0 <= i < |sent| ==> Worded(names, sent[i]) && sent[i].what != Query
    ensures |Parsed(peer, LineOf(names, known + [c] + more), pc)| < |known + [c] + more|
  {
    var upto := known + [c];
    ArgsComeBack(names, upto + more);
    forall i | 0 <= i < |more|
      ensures more[i].what != Query
    {
      assert (upto + more)[|upto| + i] == more[i];
    }
    LettersCostOne(peer, names, known, c, upto, more);
  }

  lemma LettersCostOne(peer: Peer, names: Names, known: seq<Change>, c: Change, upto: seq<Change>, more: seq<Change>)
    requires |known| < MODES_PER_LINE && upto == known + [c]
    requires forall i :: 0 <= i < |known| ==> Understood(peer, names, known[i])
    requires Unknown(peer, names, c) && IsLetter(peer, c) && forall i :: 0 <= i < |more| ==> more[i].what != Query
    ensures |Walked(peer, Args(names, upto + more), Letters(upto + more)).changes| <= |known| + |more|
  {
    var args := Args(names, upto + more);
    LineBegins(names, upto, more);
    SignThenBlocked(peer, names, args, known, c);
    OneChangeForEach(peer, names, args, upto, more);
  }

  /** The place of the first change whose member is not found. */
  function FirstLost(peer: Peer, names: Names, sent: seq<Change>): (k: nat)
    ensures k <= |sent| && (k < |sent| ==> !MemberFound(peer, names, sent[k]))
    ensures forall i :: 0 <= i < k ==> MemberFound(peer, names, sent[i])
  {
    if sent == [] || !MemberFound(peer, names, sent[0]) then 0 else 1 + FirstLost(peer, names, sent[1..])
  }

  /** A line of at most four changes the reader understands otherwise comes back if and only
      if it finds every member named. */
  lemma LineComesBackIffMembersFound(peer: Peer, names: Names, sent: seq<Change>, pc: nat)
    requires |sent| <= MODES_PER_LINE && pc > 0
    requires forall i :: 0 <= i < |sent| ==> UnderstoodButMember(peer, names, sent[i])
    ensures Parsed(peer, LineOf(names, sent), pc) == ReceivedAll(names, sent)
       <==> forall i :: 0 <= i < |sent| ==> MemberFound(peer, names, sent[i])
  {
    var k := FirstLost(peer, names, sent);
    if k == |sent| {
      LineComesBackIff(peer, names, sent, pc);
    } else {
      var known, c, more := sent[..k], sent[k], sent[k + 1..];
      assert sent == known + [c] + more;
      UnknownIsNotFound(peer, names, c);
      UnknownCostsOne(peer, names, known, c, more, pc);
    }
  }

  lemma UnknownIsNotFound(peer: Peer, names: Names, c: Change)
    requires UnderstoodButMember(peer, names, c) && !MemberFound(peer, names, c)
    ensures Unknown(peer, names, c)
  {
    assert Clipped(ArgumentOf(names, c)) == ArgumentOf(names, c);
  }
}
