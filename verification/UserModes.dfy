/** User modes without arguments, and the lists of users kept for them: usermode_parse,
    usermode_change_add, usermode_apply, usermode_link_test, usermode_link and
    usermode_unlink of src/usermode.c. */
module UserModes {
  import opened Prelude

  datatype Scope = Local | Remote | Global

  /** For which users a mode keeps a list, if any, and of those with it on or off. */
  datatype Kind = Kind(list: Option<bool>, scope: Scope)

  type Table = map<char, Kind>

  /** A change asked for or to be made; a mode's letter stands for its bit. */
  datatype Change = Change(letter: char, on: bool)

  type Bits = set<char>

  // ---------- what is asked for ----------

  /** The sign in force, and what was asked for so far. */
  datatype Asked = Asked(on: bool, requests: seq<Change>)

  function Ask(table: Table, st: Asked, c: char): Asked {
    if c == '+' then st.(on := true)
    else if c == '-' then st.(on := false)
    else if c in table then st.(requests := st.requests + [Change(c, st.on)])
    else st
  }

  function AskFrom(table: Table, text: string, p: nat, st: Asked): Asked
    requires p <= |text|
    decreases |text| - p
  {
    if p == |text| then st else AskFrom(table, text, p + 1, Ask(table, st, text[p]))
  }

  /** The sign carries over from one argument to the next. */
  function AskAll(table: Table, args: seq<string>, i: nat, st: Asked): Asked
    requires i <= |args|
    decreases |args| - i
  {
    if i == |args| then st else AskAll(table, args, i + 1, AskFrom(table, args[i], 0, st))
  }

  function Requests(table: Table, args: seq<string>): seq<Change> {
    AskAll(table, args, 0, Asked(true, [])).requests
  }

  // ---------- usermode_change_add ----------

  function PlaceOf(changes: seq<Change>, letter: char): (k: nat)
    ensures k <= |changes| && (k < |changes| ==> changes[k].letter == letter)
    ensures forall i :: 0 <= i < k ==> changes[i].letter != letter
  {
    if changes == [] || changes[0].letter == letter then 0 else 1 + PlaceOf(changes[1..], letter)
  }

  function Without(changes: seq<Change>, k: nat): (r: seq<Change>)
    requires k < |changes|
    ensures |r| == |changes| - 1 && forall i :: 0 <= i < |r| ==> r[i] == if i < k then changes[i] else changes[i + 1]
  {
    changes[..k] + changes[k + 1..]
  }

  function Rest(changes: seq<Change>, letter: char): seq<Change> {
    var k := PlaceOf(changes, letter);
    if k < |changes| then Without(changes, k) else changes
  }

  /** The change of the same mode taken out, if there is one, and the new one put last. */
  function Add(changes: seq<Change>, c: Change): seq<Change> {
    Rest(changes, c.letter) + [c]
  }

  method ChangeAdd(changes: seq<Change>, c: Change) returns (now: seq<Change>)
    ensures now == Add(changes, c)
  {
    now := changes;
    for k := 0 to |changes|
      invariant now == changes && forall i :: 0 <= i < k ==> changes[i].letter != c.letter
    {
      if changes[k].letter == c.letter {
        assert PlaceOf(changes, c.letter) == k;
        now := changes[..k] + changes[k + 1..];
        break;
      }
    }
    now := now + [c];
  }

  // ---------- usermode_parse ----------

  /** The changes kept for a user with these modes: requests for what already is are passed over. */
  function Kept(bits: Bits, requests: seq<Change>): seq<Change> {
    if requests == [] then []
    else
      var before, r := Kept(bits, requests[..|requests| - 1]), requests[|requests| - 1];
      if r.on == (r.letter in bits) then before else Add(before, r)
  }

  lemma KeptOneMore(bits: Bits, requests: seq<Change>, r: Change)
    ensures Kept(bits, requests + [r])
         == if r.on == (r.letter in bits) then Kept(bits, requests) else Add(Kept(bits, requests), r)
  {
    assert (requests + [r])[..|requests + [r]| - 1] == requests;
  }

  method ParseOne(table: Table, bits: Bits, text: string, on: bool, changes: seq<Change>, ghost st: Asked)
    returns (nowOn: bool, now: seq<Change>)
    requires st.on == on && changes == Kept(bits, st.requests)
    ensures var after := AskFrom(table, text, 0, st);
      nowOn == after.on && now == Kept(bits, after.requests)
  {
    nowOn, now := on, changes;
    ghost var at := st;
    for p := 0 to |text|
      invariant at.on == nowOn && now == Kept(bits, at.requests)
      invariant AskFrom(table, text, p, at) == AskFrom(table, text, 0, st)
    {
      var c := text[p];
      if c == '+' {
        nowOn := true;
      } else if c == '-' {
        nowOn := false;
      } else if c in table {
        KeptOneMore(bits, at.requests, Change(c, nowOn));
        if nowOn != (c in bits) {
          now := ChangeAdd(now, Change(c, nowOn));
        }
      }
      at := Ask(table, at, c);
    }
  }

  // ---------- what is kept ----------

  predicate Once(changes: seq<Change>) {
    forall i, j :: 0 <= i < j < |changes| ==> changes[i].letter != changes[j].letter
  }

  /** A change that really changes the bit. */
  predicate Flips(bits: Bits, c: Change) {
    c.on == (c.letter !in bits)
  }

  lemma RestHas(changes: seq<Change>, letter: char, d: Change)
    requires Once(changes) && d in changes && d.letter != letter
    ensures d in Rest(changes, letter)
  {
    var i :| 0 <= i < |changes| && changes[i] == d;
    KeptAt(changes, letter, i);
  }

  lemma KeptAt(changes: seq<Change>, letter: char, i: nat)
    requires i < |changes| && changes[i].letter != letter
    ensures changes[i] in Rest(changes, letter)
  {
    var rest := Rest(changes, letter);
    if i < PlaceOf(changes, letter) {
      assert rest[i] == changes[i];
    } else {
      assert rest[i - 1] == changes[i];
    }
  }

  lemma RestAt(changes: seq<Change>, letter: char, i: nat) returns (j: nat)
    requires i < |Rest(changes, letter)|
    ensures j < |changes| && Rest(changes, letter)[i] == changes[j] && j != PlaceOf(changes, letter)
  {
    j := if i < PlaceOf(changes, letter) then i else i + 1;
  }

  lemma OtherLetter(changes: seq<Change>, letter: char, j: nat)
    requires Once(changes) && j < |changes| && j != PlaceOf(changes, letter)
    ensures changes[j].letter != letter
  {
  }

  lemma RestHasOnly(changes: seq<Change>, letter: char, d: Change)
    requires Once(changes) && d in Rest(changes, letter)
    ensures d in changes && d.letter != letter
  {
    var i :| 0 <= i < |Rest(changes, letter)| && Rest(changes, letter)[i] == d;
    var j := RestAt(changes, letter, i);
    OtherLetter(changes, letter, j);
  }

  lemma RestStaysOnce(changes: seq<Change>, letter: char)
    requires Once(changes)
    ensures Once(Rest(changes, letter))
  {
  }

  lemma RestIsOnce(changes: seq<Change>, letter: char)
    requires Once(changes)
    ensures Once(Rest(changes, letter))
    ensures forall d :: d in Rest(changes, letter) <==> d in changes && d.letter != letter
  {
    RestStaysOnce(changes, letter);
    forall d
      ensures d in Rest(changes, letter) <==> d in changes && d.letter != letter
    {
      if d in Rest(changes, letter) {
        RestHasOnly(changes, letter, d);
      }
      if d in changes && d.letter != letter {
        RestHas(changes, letter, d);
      }
    }
  }

  lemma AddIsOnce(changes: seq<Change>, c: Change)
    requires Once(changes)
    ensures Once(Add(changes, c))
    ensures forall d :: d in Add(changes, c) <==> d == c || (d in changes && d.letter != c.letter)
  {
    RestIsOnce(changes, c.letter);
    var rest := Rest(changes, c.letter);
    assert forall i :: 0 <= i < |rest| ==> rest[i] in rest;
  }

  /** The changes are the requests that flip, each mode once. */
  ghost predicate AreFlips(bits: Bits, requests: seq<Change>, changes: seq<Change>) {
    Once(changes) && forall c :: c in changes <==> c in requests && Flips(bits, c)
  }

  lemma OneRequestMore(bits: Bits, requests: seq<Change>, r: Change)
    requires AreFlips(bits, requests, Kept(bits, requests))
    ensures AreFlips(bits, requests + [r], Kept(bits, requests + [r]))
  {
    KeptOneMore(bits, requests, r);
    AddIsOnce(Kept(bits, requests), r);
  }

  /** However a mode is asked for, there is at most one change of it, and there is one
      exactly if the opposite of what it is was asked for. */
  lemma {:induction false} KeptAreFlips(bits: Bits, requests: seq<Change>)
    ensures AreFlips(bits, requests, Kept(bits, requests))
  {
    if requests == [] {
    } else {
      var rest, r := requests[..|requests| - 1], requests[|requests| - 1];
      KeptAreFlips(bits, rest);
      OneRequestMore(bits, rest, r);
      assert requests == rest + [r];
    }
  }

  // ---------- what the text asks for ----------

  /** The arguments, one behind the other. */
  function Flat(args: seq<string>): string {
    if args == [] then "" else args[0] + Flat(args[1..])
  }

  /** A - at j, and no + between it and i. */
  predicate MinusAt(text: string, j: nat, i: nat)
    requires j < i <= |text|
  {
    text[j] == '-' && '+' !in text[j + 1..i]
  }

  /** The last sign in front of a position is a -. */
  predicate MinusBefore(text: string, i: nat)
    requires i <= |text|
  {
    exists j :: 0 <= j < i && MinusAt(text, j, i)
  }

  /** A position asks for a change: it holds the letter of a mode, to be switched off if the
      last sign in front of it is a -, else on. */
  predicate AsksAt(table: Table, text: string, i: nat, c: Change) {
    && i < |text| && text[i] == c.letter && c.letter in table && c.letter != '+' && c.letter != '-'
    && c.on == !MinusBefore(text, i)
  }

  ghost predicate Asks(table: Table, text: string, n: nat, c: Change) {
    exists i :: 0 <= i < n && AsksAt(table, text, i, c)
  }

  /** c is asked for last behind where d is. */
  ghost predicate AskedLater(table: Table, text: string, n: nat, c: Change, d: Change) {
    exists q :: 0 <= q < n && AsksAt(table, text, q, c) && forall r :: q <= r < n ==> !AsksAt(table, text, r, d)
  }

  /** The changes are those the first n characters ask for that flip a mode, each once and in
      the order in which they are asked for last. */
  ghost predicate Answers(table: Table, bits: Bits, text: string, n: nat, changes: seq<Change>) {
    && Once(changes)
    && (forall c :: c in changes <==> Flips(bits, c) && Asks(table, text, n, c))
    && forall i, j :: 0 <= i < j < |changes| ==> AskedLater(table, text, n, changes[j], changes[i])
  }

  lemma {:induction false} AskShift(table: Table, text: string, p: nat, st: Asked)
    requires p <= |text|
    ensures AskFrom(table, text, p, st) == AskFrom(table, text[p..], 0, st)
    decreases |text| - p
  {
    if p < |text| {
      var rest, next := text[p..], Ask(table, st, text[p]);
      AskShift(table, text, p + 1, next);
      AskShift(table, rest, 1, next);
      assert rest[1..] == text[p + 1..];
    }
  }

  lemma {:induction false} AskConcat(table: Table, a: string, b: string, st: Asked)
    ensures AskFrom(table, a + b, 0, st) == AskFrom(table, b, 0, AskFrom(table, a, 0, st))
    decreases |a|
  {
    if a == "" {
      assert a + b == b;
    } else {
      var next := Ask(table, st, a[0]);
      AskShift(table, a + b, 1, next);
      AskShift(table, a, 1, next);
      assert (a + b)[1..] == a[1..] + b;
      AskConcat(table, a[1..], b, next);
    }
  }

  lemma AskOneMore(table: Table, text: string, n: nat, st: Asked)
    requires n < |text|
    ensures AskFrom(table, text[..n + 1], 0, st) == Ask(table, AskFrom(table, text[..n], 0, st), text[n])
  {
    assert text[..n + 1] == text[..n] + [text[n]];
    AskConcat(table, text[..n], [text[n]], st);
  }

  lemma {:induction false} AskAllFlat(table: Table, args: seq<string>, i: nat, st: Asked)
    requires i <= |args|
    ensures AskAll(table, args, i, st) == AskFrom(table, Flat(args[i..]), 0, st)
    decreases |args| - i
  {
    if i < |args| {
      AskAllFlat(table, args, i + 1, AskFrom(table, args[i], 0, st));
      assert args[i..][1..] == args[i + 1..];
      AskConcat(table, args[i], Flat(args[i + 1..]), st);
    }
  }

  lemma MinusStays(text: string, j: nat, n: nat)
    requires j < n < |text|
    ensures MinusAt(text, j, n + 1) <==> MinusAt(text, j, n) && text[n] != '+'
  {
    assert text[j + 1..n + 1] == text[j + 1..n] + [text[n]];
  }

  lemma SignMoves(text: string, n: nat)
    requires n < |text|
    ensures MinusBefore(text, n + 1) <==> text[n] == '-' || (text[n] != '+' && MinusBefore(text, n))
  {
    if text[n] == '-' {
      assert MinusAt(text, n, n + 1);
    } else if MinusBefore(text, n) {
      var j :| 0 <= j < n && MinusAt(text, j, n);
      MinusStays(text, j, n);
    }
    if MinusBefore(text, n + 1) && text[n] != '-' {
      var j :| 0 <= j < n + 1 && MinusAt(text, j, n + 1);
      MinusStays(text, j, n);
    }
  }

  /** A character that asks for nothing new. */
  lemma AnswersStay(table: Table, bits: Bits, text: string, n: nat, changes: seq<Change>)
    requires n < |text| && Answers(table, bits, text, n, changes)
    requires forall c :: Flips(bits, c) ==> !AsksAt(table, text, n, c)
    ensures Answers(table, bits, text, n + 1, changes)
  {
    forall i, j | 0 <= i < j < |changes|
      ensures AskedLater(table, text, n + 1, changes[j], changes[i])
    {
      assert changes[i] in changes;
      LaterStays(table, text, n, changes[j], changes[i]);
    }
    AskedBefore(table, text, n);
  }

  lemma AskedBefore(table: Table, text: string, n: nat)
    ensures forall c :: Asks(table, text, n + 1, c) <==> Asks(table, text, n, c) || AsksAt(table, text, n, c)
  {
  }

  lemma LaterStays(table: Table, text: string, n: nat, c: Change, d: Change)
    requires AskedLater(table, text, n, c, d) && !AsksAt(table, text, n, d)
    ensures AskedLater(table, text, n + 1, c, d)
  {
    var q :| 0 <= q < n && AsksAt(table, text, q, c) && forall r :: q <= r < n ==> !AsksAt(table, text, r, d);
    assert forall r :: q <= r < n + 1 ==> !AsksAt(table, text, r, d);
  }

  lemma LaterInAdd(table: Table, text: string, n: nat, changes: seq<Change>, c: Change, i: nat, j: nat)
    requires Once(changes) && AsksAt(table, text, n, c) && i < j < |Add(changes, c)|
    requires forall x, y :: 0 <= x < y < |changes| ==> AskedLater(table, text, n, changes[y], changes[x])
    ensures AskedLater(table, text, n + 1, Add(changes, c)[j], Add(changes, c)[i])
  {
    var x := RestAt(changes, c.letter, i);
    OtherLetter(changes, c.letter, x);
    if j < |Rest(changes, c.letter)| {
      var y := RestAt(changes, c.letter, j);
      LaterStays(table, text, n, changes[y], changes[x]);
    }
  }

  /** A character that asks for a change that flips a mode. */
  lemma AnswersAdd(table: Table, bits: Bits, text: string, n: nat, changes: seq<Change>, c: Change)
    requires Answers(table, bits, text, n, changes) && Flips(bits, c) && AsksAt(table, text, n, c)
    ensures Answers(table, bits, text, n + 1, Add(changes, c))
  {
    AddIsOnce(changes, c);
    AskedBefore(table, text, n);
    forall i, j | 0 <= i < j < |Add(changes, c)|
      ensures AskedLater(table, text, n + 1, Add(changes, c)[j], Add(changes, c)[i])
    {
      LaterInAdd(table, text, n, changes, c, i, j);
    }
  }

  lemma AnswersNext(table: Table, bits: Bits, text: string, n: nat, st: Asked)
    requires n < |text| && st.on == !MinusBefore(text, n) && Answers(table, bits, text, n, Kept(bits, st.requests))
    ensures Answers(table, bits, text, n + 1, Kept(bits, Ask(table, st, text[n]).requests))
  {
    var r, kept := Change(text[n], st.on), Kept(bits, st.requests);
    KeptOneMore(bits, st.requests, r);
    if r.letter in table && r.letter != '+' && r.letter != '-' && Flips(bits, r) {
      AnswersAdd(table, bits, text, n, kept, r);
    } else {
      AnswersStay(table, bits, text, n, kept);
    }
  }

  lemma {:induction false} KeptAnswers(table: Table, bits: Bits, text: string, n: nat)
    requires n <= |text|
    ensures var st := AskFrom(table, text[..n], 0, Asked(true, []));
      st.on == !MinusBefore(text, n) && Answers(table, bits, text, n, Kept(bits, st.requests))
  {
    var start := Asked(true, []);
    if n == 0 {
    } else {
      KeptAnswers(table, bits, text, n - 1);
      AskOneMore(table, text, n - 1, start);
      SignMoves(text, n - 1);
      AnswersNext(table, bits, text, n - 1, AskFrom(table, text[..n - 1], 0, start));
    }
  }

  /** What is kept answers the text. */
  lemma RequestsAnswer(table: Table, bits: Bits, args: seq<string>)
    ensures Answers(table, bits, Flat(args), |Flat(args)|, Kept(bits, Requests(table, args)))
  {
    var text := Flat(args);
    assert args[0..] == args && text[..|text|] == text;
    AskAllFlat(table, args, 0, Asked(true, []));
    KeptAnswers(table, bits, text, |text|);
  }

  method Parse(table: Table, bits: Bits, args: seq<string>) returns (changes: seq<Change>)
    ensures changes == Kept(bits, Requests(table, args))
    ensures Answers(table, bits, Flat(args), |Flat(args)|, changes)
  {
    changes := [];
    var on := true;
    ghost var st := Asked(true, []);
    for i := 0 to |args|
      invariant st.on == on && changes == Kept(bits, st.requests)
      invariant AskAll(table, args, i, st) == AskAll(table, args, 0, Asked(true, []))
    {
      ghost var next := AskFrom(table, args[i], 0, st);
      on, changes := ParseOne(table, bits, args[i], on, changes, st);
      st := next;
    }
    RequestsAnswer(table, bits, args);
  }

  // ---------- in what order requests were made ----------

  /** Whether a mode would be on if each request counted, the last one deciding. */
  function LastAsked(bits: Bits, requests: seq<Change>, letter: char): bool {
    if requests == [] then letter in bits
    else
      var r := requests[|requests| - 1];
      if r.letter == letter then r.on else LastAsked(bits, requests[..|requests| - 1], letter)
  }

  /** Modes as the changes make them. */
  function Made(bits: Bits, changes: seq<Change>): Bits {
    if changes == [] then bits
    else
      var before, c := Made(bits, changes[..|changes| - 1]), changes[|changes| - 1];
      if c.on then before + {c.letter} else before - {c.letter}
  }

  /** The request that flips a mode. */
  function Opposite(bits: Bits, letter: char): Change {
    Change(letter, if letter in bits then false else true)
  }

  lemma {:induction false} MadeFlips(bits: Bits, changes: seq<Change>, letter: char)
    requires Once(changes) && forall c :: c in changes ==> Flips(bits, c)
    ensures (letter in Made(bits, changes)) == ((letter in bits) != (Opposite(bits, letter) in changes))
  {
    if changes == [] {
    } else {
      var rest, c := changes[..|changes| - 1], changes[|changes| - 1];
      assert changes == rest + [c];
      MadeFlips(bits, rest, letter);
      assert Flips(bits, c);
      assert forall d :: d in rest ==> d.letter != c.letter;
    }
  }

  lemma {:induction false} LastOfNoOpposite(bits: Bits, requests: seq<Change>, letter: char)
    requires Opposite(bits, letter) !in requests
    ensures LastAsked(bits, requests, letter) == (letter in bits)
  {
    if requests == [] {
    } else {
      var rest, r := requests[..|requests| - 1], requests[|requests| - 1];
      assert r in requests && r != Opposite(bits, letter);
      LastOfNoOpposite(bits, rest, letter);
    }
  }

  /** A request for the opposite decides, whatever is asked for behind it: +x-x of a user
      without x leaves x on. The last request decides exactly when it is one for the
      opposite, or none was. */
  lemma OppositeDecides(bits: Bits, requests: seq<Change>, letter: char)
    ensures var made, asked := letter in Made(bits, Kept(bits, requests)), Opposite(bits, letter) in requests;
      && made == ((letter in bits) != asked)
      && (made == LastAsked(bits, requests, letter) <==> !asked || LastAsked(bits, requests, letter) == (letter !in bits))
  {
    KeptAreFlips(bits, requests);
    MadeFlips(bits, Kept(bits, requests), letter);
    if Opposite(bits, letter) !in requests {
      LastOfNoOpposite(bits, requests, letter);
    }
  }

  // ---------- usermode_apply ----------

  /** The users listed for each mode that keeps a list. */
  type Lists = map<char, seq<nat>>

  predicate InScope(kind: Kind, where: Scope) {
    kind.scope == Global || kind.scope == where
  }

  /** dlink_find_delete: the first node of the user, if there is one. */
  function Unlink(list: seq<nat>, u: nat): seq<nat> {
    if list == [] then [] else if list[0] == u then list[1..] else [list[0]] + Unlink(list[1..], u)
  }

  /** usermode_link_test, and the link or unlink it leads to. */
  function Relist(kind: Kind, list: seq<nat>, where: Scope, u: nat, on: bool): seq<nat> {
    if kind.list == None || !InScope(kind, where) then list
    else if kind.list.value == on then list + [u]
    else Unlink(list, u)
  }

  function ListOf(lists: Lists, letter: char): seq<nat> {
    if letter in lists then lists[letter] else []
  }

  /** A user is listed once exactly if it is in scope and the mode is as the list wants it. */
  predicate Listed(kind: Kind, list: seq<nat>, where: Scope, u: nat, on: bool) {
    multiset(list)[u] == if kind.list == Some(on) && kind.scope in {Global, where} then 1 else 0
  }

  lemma {:induction false} UnlinkTakesOne(list: seq<nat>, u: nat)
    ensures u in list ==> multiset(Unlink(list, u)) == multiset(list) - multiset{u}
    ensures u !in list ==> Unlink(list, u) == list
  {
    if list == [] {
    } else {
      assert list == [list[0]] + list[1..];
      if list[0] != u {
        UnlinkTakesOne(list[1..], u);
      }
    }
  }

  /** A flipped mode leaves its list right for the user, and as it was for all others. */
  lemma RelistKeepsListed(kind: Kind, list: seq<nat>, where: Scope, u: nat, on: bool)
    requires Listed(kind, list, where, u, !on)
    ensures Listed(kind, Relist(kind, list, where, u, on), where, u, on)
    ensures forall v :: v != u ==> multiset(Relist(kind, list, where, u, on))[v] == multiset(list)[v]
  {
    UnlinkTakesOne(list, u);
  }

  /** Modes, lists and the changes that were not bounced. */
  datatype Applied = Applied(bits: Bits, lists: Lists, kept: seq<Change>)

  /** A user being changed: where it is, and which changes the modes' handlers refuse. */
  datatype Subject = Subject(user: nat, where: Scope, refuses: Change -> bool)

  function SetBit(bits: Bits, c: Change): Bits {
    if c.on then bits + {c.letter} else bits - {c.letter}
  }

  function ApplyOne(table: Table, who: Subject, a: Applied, c: Change): Applied
    requires c.letter in table
  {
    if who.refuses(c) then a
    else
      var list := Relist(table[c.letter], ListOf(a.lists, c.letter), who.where, who.user, c.on);
      Applied(SetBit(a.bits, c), a.lists[c.letter := list], a.kept + [c])
  }

  function ApplyFirst(table: Table, who: Subject, bits: Bits, lists: Lists, changes: seq<Change>, n: nat): Applied
    requires n <= |changes| && forall i :: 0 <= i < |changes| ==> changes[i].letter in table
  {
    if n == 0 then Applied(bits, lists, [])
    else ApplyOne(table, who, ApplyFirst(table, who, bits, lists, changes, n - 1), changes[n - 1])
  }

  /** usermode_apply, without LINKALL. */
  method Apply(table: Table, who: Subject, bits: Bits, lists: Lists, changes: seq<Change>)
    returns (nowBits: Bits, nowLists: Lists, kept: seq<Change>)
    requires forall i :: 0 <= i < |changes| ==> changes[i].letter in table
    ensures Applied(nowBits, nowLists, kept) == ApplyFirst(table, who, bits, lists, changes, |changes|)
  {
    nowBits, nowLists, kept := bits, lists, [];
    for i := 0 to |changes|
      invariant Applied(nowBits, nowLists, kept) == ApplyFirst(table, who, bits, lists, changes, i)
    {
      var c := changes[i];
      if who.refuses(c) {
        continue;
      }
      if c.on {
        nowBits := nowBits + {c.letter};
      } else {
        nowBits := nowBits - {c.letter};
      }
      var list := Relist(table[c.letter], ListOf(nowLists, c.letter), who.where, who.user, c.on);
      nowLists, kept := nowLists[c.letter := list], kept + [c];
    }
  }

  /** The changes no handler refuses. */
  function Unrefused(who: Subject, changes: seq<Change>): seq<Change> {
    if changes == [] then []
    else
      var before, c := Unrefused(who, changes[..|changes| - 1]), changes[|changes| - 1];
      if who.refuses(c) then before else before + [c]
  }

  /** The bit of a changed mode: as before if its change was refused, else as it says. */
  predicate BitIsMade(who: Subject, bits: Bits, now: Bits, c: Change) {
    c.letter in now <==> if who.refuses(c) then c.letter in bits else c.on
  }

  ghost predicate OthersStay(bits: Bits, lists: Lists, a: Applied, changes: seq<Change>, n: nat)
    requires n <= |changes|
  {
    forall l :: (forall i :: 0 <= i < n ==> changes[i].letter != l) ==>
      (l in a.bits <==> l in bits) && ListOf(a.lists, l) == ListOf(lists, l)
  }

  lemma OneMoreApplied(table: Table, who: Subject, bits: Bits, lists: Lists, changes: seq<Change>, n: nat, a: Applied)
    requires n < |changes| && Once(changes) && changes[n].letter in table
    requires OthersStay(bits, lists, a, changes, n)
    requires forall i :: 0 <= i < n ==> BitIsMade(who, bits, a.bits, changes[i])
    ensures var b := ApplyOne(table, who, a, changes[n]);
      && OthersStay(bits, lists, b, changes, n + 1)
      && forall i :: 0 <= i < n + 1 ==> BitIsMade(who, bits, b.bits, changes[i])
  {
    assert changes[n].letter in a.bits <==> changes[n].letter in bits;
  }

  /** Of changes of different modes, those that are not refused are kept and make their bits as
      they say; no other bit changes, nor the list of a mode that is not among them. */
  lemma {:induction false} ApplyIsExact(table: Table, who: Subject, bits: Bits, lists: Lists, changes: seq<Change>, n: nat)
    requires n <= |changes| && Once(changes) && forall i :: 0 <= i < |changes| ==> changes[i].letter in table
    ensures var a := ApplyFirst(table, who, bits, lists, changes, n);
      && a.kept == Unrefused(who, changes[..n])
      && (forall i :: 0 <= i < n ==> BitIsMade(who, bits, a.bits, changes[i]))
      && OthersStay(bits, lists, a, changes, n)
  {
    if n == 0 {
    } else {
      ApplyIsExact(table, who, bits, lists, changes, n - 1);
      OneMoreApplied(table, who, bits, lists, changes, n - 1, ApplyFirst(table, who, bits, lists, changes, n - 1));
      assert changes[..n][..n - 1] == changes[..n - 1];
    }
  }

  /** Every list names exactly the users it is for, each once. */
  ghost predicate Indexed(table: Table, users: map<nat, Bits>, places: map<nat, Scope>, lists: Lists) {
    users.Keys == places.Keys && forall l, u :: l in table && u in users ==> IsListed(table, users, places, lists, l, u)
  }

  predicate IsListed(table: Table, users: map<nat, Bits>, places: map<nat, Scope>, lists: Lists, l: char, u: nat)
    requires l in table && u in users && u in places
  {
    Listed(table[l], ListOf(lists, l), places[u], u, l in users[u])
  }

  lemma OneKeepsIndexed(table: Table, users: map<nat, Bits>, places: map<nat, Scope>, lists: Lists, who: Subject, c: Change)
    requires Indexed(table, users, places, lists) && who.user in users && who.where == places[who.user]
    requires c.letter in table && Flips(users[who.user], c)
    ensures var a := ApplyOne(table, who, Applied(users[who.user], lists, []), c);
      Indexed(table, users[who.user := a.bits], places, a.lists)
  {
    var u0 := who.user;
    var a := ApplyOne(table, who, Applied(users[u0], lists, []), c);
    if who.refuses(c) {
      assert users[u0 := users[u0]] == users;
    } else {
      var after := users[u0 := a.bits];
      assert IsListed(table, users, places, lists, c.letter, u0);
      RelistKeepsListed(table[c.letter], ListOf(lists, c.letter), who.where, u0, c.on);
      forall l, u | l in table && u in after
        ensures IsListed(table, after, places, a.lists, l, u)
      {
        assert IsListed(table, users, places, lists, l, u);
      }
    }
  }

  /** A change whose mode was not changed before it still flips it. */
  lemma {:induction false} BitsUntouched(table: Table, who: Subject, bits: Bits, lists: Lists, changes: seq<Change>, n: nat,
                                         letter: char)
    requires n <= |changes| && forall i :: 0 <= i < |changes| ==> changes[i].letter in table
    requires forall i :: 0 <= i < n ==> changes[i].letter != letter
    ensures letter in ApplyFirst(table, who, bits, lists, changes, n).bits <==> letter in bits
  {
    if n == 0 {
    } else {
      BitsUntouched(table, who, bits, lists, changes, n - 1, letter);
    }
  }

  /** Changes that each flip a different mode keep the lists right. */
  lemma {:induction false} ApplyKeepsIndexed(table: Table, users: map<nat, Bits>, places: map<nat, Scope>, lists: Lists,
                                             who: Subject, changes: seq<Change>, n: nat)
    requires Indexed(table, users, places, lists) && who.user in users && who.where == places[who.user]
    requires n <= |changes| && forall i :: 0 <= i < |changes| ==> changes[i].letter in table
    requires Once(changes) && forall i :: 0 <= i < |changes| ==> Flips(users[who.user], changes[i])
    ensures var a := ApplyFirst(table, who, users[who.user], lists, changes, n);
      Indexed(table, users[who.user := a.bits], places, a.lists)
  {
    var u0 := who.user;
    if n == 0 {
      assert users[u0 := users[u0]] == users;
    } else {
      ApplyKeepsIndexed(table, users, places, lists, who, changes, n - 1);
      var a, c := ApplyFirst(table, who, users[u0], lists, changes, n - 1), changes[n - 1];
      BitsUntouched(table, who, users[u0], lists, changes, n - 1, c.letter);
      var before := users[u0 := a.bits];
      OneKeepsIndexed(table, before, places, a.lists, who, c);
      assert before[u0 := ApplyOne(table, who, a, c).bits] == users[u0 := ApplyOne(table, who, a, c).bits];
    }
  }

  lemma {:induction false} AskedFromTable(table: Table, text: string, p: nat, st: Asked)
    requires p <= |text| && forall r :: r in st.requests ==> r.letter in table
    ensures forall r :: r in AskFrom(table, text, p, st).requests ==> r.letter in table
    decreases |text| - p
  {
    if p < |text| {
      AskedFromTable(table, text, p + 1, Ask(table, st, text[p]));
    }
  }

  lemma {:induction false} RequestsFromTable(table: Table, args: seq<string>, i: nat, st: Asked)
    requires i <= |args| && forall r :: r in st.requests ==> r.letter in table
    ensures forall r :: r in AskAll(table, args, i, st).requests ==> r.letter in table
    decreases |args| - i
  {
    if i < |args| {
      AskedFromTable(table, args[i], 0, st);
      RequestsFromTable(table, args, i + 1, AskFrom(table, args[i], 0, st));
    }
  }

  /** Whatever a user asks for, parsing it and applying the changes keeps every list
      naming exactly its users, each once. */
  lemma AnyRequestKeepsIndexed(table: Table, users: map<nat, Bits>, places: map<nat, Scope>, lists: Lists, who: Subject,
                               args: seq<string>)
    requires Indexed(table, users, places, lists) && who.user in users && who.where == places[who.user]
    ensures var changes := Kept(users[who.user], Requests(table, args));
      && (forall i :: 0 <= i < |changes| ==> changes[i].letter in table)
      && var a := ApplyFirst(table, who, users[who.user], lists, changes, |changes|);
         Indexed(table, users[who.user := a.bits], places, a.lists)
  {
    var bits, requests := users[who.user], Requests(table, args);
    var changes := Kept(bits, requests);
    RequestsFromTable(table, args, 0, Asked(true, []));
    KeptAreFlips(bits, requests);
    forall i | 0 <= i < |changes|
      ensures changes[i].letter in table && Flips(bits, changes[i])
    {
      assert changes[i] in changes;
    }
    ApplyKeepsIndexed(table, users, places, lists, who, changes, |changes|);
  }
}
