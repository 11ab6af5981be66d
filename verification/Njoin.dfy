/** NJOIN lines: chanuser_assemble, the loop of chanuser_burst and chanuser_parse of
    src/chanuser.c. */
module Njoin {
  import opened Prelude
  import opened Prefixes
  import opened ModeLines
  import opened ModeParsing
  import opened Tokens
  import BanMasks

  const PER_NJOIN: nat := 32

  /** A member as chanuser_assemble sees it. */
  datatype Member = Member(name: string, flags: Flags, prefix: string)

  /** The member in a list: with its whole prefix, or only the first symbol of it. */
  function Word(first: bool, m: Member): string {
    if m.flags == {} then m.name
    else if first && m.prefix != "" then [m.prefix[0]] + m.name
    else m.prefix + m.name
  }

  function WordsOf(first: bool, members: seq<Member>): (r: seq<string>)
    ensures |r| == |members| && forall i :: 0 <= i < |members| ==> r[i] == Word(first, members[i])
  {
    seq(|members|, i requires 0 <= i < |members| => Word(first, members[i]))
  }

  function Text(first: bool, members: seq<Member>): string {
    Spaced(WordsOf(first, members))
  }

  lemma TextOneMore(first: bool, members: seq<Member>, m: Member)
    ensures Text(first, members + [m]) == AddArg(Text(first, members), Word(first, m))
  {
    assert Front(WordsOf(first, members + [m])) == WordsOf(first, members);
  }

  /** A member with privileges has a prefix. */
  predicate Marked(m: Member) {
    m.flags != {} ==> m.prefix != ""
  }

  // ---------- chanuser_assemble ----------

  predicate TooMuch(first: bool, text: string, m: Member, n: nat) {
    |text| + 2 + |Word(first, m)| > n
  }

  /** The text with the word and a zero would not fit; of a first word, not even with one
      character to spare. */
  lemma TooMuchIsNoRoom(first: bool, text: string, m: Member, n: nat)
    ensures TooMuch(first, text, m, n) <==> |AddArg(text, Word(first, m))| + (if text == "" then 2 else 1) > n
  {
  }

  ghost predicate Stands(buf: array<char>, i: nat, first: bool, taken: seq<Member>)
    reads buf
  {
    i == |Text(first, taken)| && Holds(buf, Text(first, taken))
  }

  /** No further member could be put on the line. */
  ghost predicate Done(first: bool, taken: seq<Member>, rest: seq<Member>, n: nat) {
    rest == [] || |taken| == PER_NJOIN || TooMuch(first, Text(first, taken), rest[0], n)
  }

  method PutName(buf: array<char>, i: nat, first: bool, m: Member, ghost text: string) returns (next: nat)
    requires Begins(buf, i, text) && i + |Word(first, m)| < buf.Length && Marked(m)
    modifies buf
    ensures Holds(buf, text + Word(first, m)) && next == |text| + |Word(first, m)|
  {
    next := i;
    ghost var at := text;
    if m.flags != {} {
      var mark := if first || |m.prefix| == 1 then [m.prefix[0]] else m.prefix;
      assert mark + m.name == Word(first, m);
      next := Put(buf, next, mark, at);
      Assoc(at, mark, m.name);
      at := at + mark;
    }
    next := Put(buf, next, m.name, at);
    buf[next] := '\0';
  }

  method PutWord(buf: array<char>, i: nat, first: bool, m: Member, ghost taken: seq<Member>) returns (next: nat)
    requires Stands(buf, i, first, taken) && i + 1 + |Word(first, m)| < buf.Length && Marked(m)
    modifies buf
    ensures Stands(buf, next, first, taken + [m])
  {
    TextOneMore(first, taken, m);
    ghost var text := Text(first, taken);
    if i != 0 {
      next := Put(buf, i, " ", text);
      Assoc(text, " ", Word(first, m));
      next := PutName(buf, next, first, m, text + " ");
    } else {
      next := PutName(buf, i, first, m, text);
      assert text + Word(first, m) == Word(first, m);
    }
  }

  /** One turn of the loop. */
  method TryWord(buf: array<char>, i: nat, first: bool, m: Member, n: nat, ghost taken: seq<Member>)
    returns (fits: bool, next: nat)
    requires Stands(buf, i, first, taken) && buf.Length >= n && Marked(m)
    modifies buf
    ensures fits == !TooMuch(first, Text(first, taken), m, n)
    ensures Stands(buf, next, first, if fits then taken + [m] else taken)
  {
    if i + 2 + |Word(first, m)| > n {
      return false, i;
    }
    next := PutWord(buf, i, first, m, taken);
    fits := true;
  }

  /** Fills one line from the list; `taken` is the part on it. */
  method Assemble(buf: array<char>, left: seq<Member>, n: nat, first: bool)
    returns (rest: seq<Member>, ghost taken: seq<Member>)
    requires buf.Length >= n && buf.Length > 0 && left != [] && forall m :: m in left ==> Marked(m)
    modifies buf
    ensures left == taken + rest && |taken| <= PER_NJOIN && Holds(buf, Text(first, taken))
    ensures Done(first, taken, rest, n)
    ensures taken == [] <==> TooMuch(first, "", left[0], n)
  {
    var i: nat, count, more := 0, 0, true;
    buf[0] := '\0';
    rest, taken := left, [];
    while more
      invariant left == taken + rest && count == |taken| <= PER_NJOIN && (more ==> rest != [] && count < PER_NJOIN)
      invariant Stands(buf, i, first, taken)
      invariant !more ==> Done(first, taken, rest, n)
      invariant taken == [] ==> !more ==> TooMuch(first, "", left[0], n)
      invariant taken != [] ==> !TooMuch(first, "", left[0], n)
      decreases |rest|, more
    {
      assert rest[0] in left;
      more, i := TryWord(buf, i, first, rest[0], n, taken);
      if more {
        MoveOne(left, taken, rest);
        taken, rest := taken + [rest[0]], rest[1..];
        count := count + 1;
        more := rest != [] && count < PER_NJOIN;
      }
    }
  }

  // ---------- sending a list ----------

  predicate Prints(m: Member) {
    NoZero(m.name) && NoZero(m.prefix)
  }

  lemma AddPrints(first: bool, text: string, m: Member)
    requires NoZero(text) && Prints(m)
    ensures NoZero(AddArg(text, Word(first, m)))
  {
  }

  lemma {:induction false} TextPrints(first: bool, members: seq<Member>)
    requires forall m :: m in members ==> Prints(m)
    ensures NoZero(Text(first, members))
  {
    if members == [] {
    } else {
      TextPrints(first, Front(members));
      AddPrints(first, Text(first, Front(members)), Last(members));
      TextOneMore(first, Front(members), Last(members));
      assert members == Front(members) + [Last(members)];
    }
  }

  ghost predicate Carried(lines: seq<string>, parts: seq<seq<Member>>, n: nat) {
    && |lines| == |parts|
    && forall i :: 0 <= i < |parts| ==>
         0 < |parts[i]| <= PER_NJOIN && lines[i] == Text(false, parts[i]) && |lines[i]| < n
  }

  lemma OneMorePart(lines: seq<string>, parts: seq<seq<Member>>, n: nat, taken: seq<Member>)
    requires Carried(lines, parts, n) && 0 < |taken| <= PER_NJOIN && |Text(false, taken)| < n
    ensures Carried(lines + [Text(false, taken)], parts + [taken], n) && Flat(parts + [taken]) == Flat(parts) + taken
  {
    assert Front(parts + [taken]) == parts;
  }

  lemma MembersOfList(list: seq<Member>, done: seq<Member>, taken: seq<Member>, rest: seq<Member>)
    requires list == done + (taken + rest)
    ensures list == (done + taken) + rest
    ensures forall m :: m in taken ==> m in list
  {
  }

  /** The loop of chanuser_burst: the lines carry all members in order, at most 32 on
      each and within n. A member too long for a line would keep the loop from ending. */
  method Send(list: seq<Member>, buf: array<char>, n: nat) returns (lines: seq<string>)
    requires buf.Length == n > 0
    requires forall m :: m in list ==> Marked(m) && Prints(m) && !TooMuch(false, "", m, n)
    modifies buf
    ensures exists parts :: Carried(lines, parts, n) && Flat(parts) == list
  {
    var left := list;
    ghost var done := [];
    ghost var parts: seq<seq<Member>> := [];
    lines := [];
    while left != []
      invariant list == done + left && Flat(parts) == done && Carried(lines, parts, n)
      decreases |left|
    {
      assert left[0] in list && forall m :: m in left ==> m in list;
      var rest;
      ghost var taken;
      rest, taken := Assemble(buf, left, n, false);
      MembersOfList(list, done, taken, rest);
      TextPrints(false, taken);
      var text := ReadText(buf, Text(false, taken));
      OneMorePart(lines, parts, n, taken);
      lines, parts := lines + [text], parts + [taken];
      done, left := done + taken, rest;
    }
    assert done + [] == done;
  }

  // ---------- chanuser_parse ----------

  /** What a nick or a user's identifier consists of. */
  predicate IsNameChar(c: char) {
    BanMasks.IsNickChar(c) || BanMasks.IsUidChar(c)
  }

  /** Where a name begins in a word. */
  function NameAt(word: string, u: nat): (r: nat)
    requires u <= |word|
    ensures u <= r <= |word| && (r < |word| ==> IsNameChar(word[r]))
    ensures forall i :: u <= i < r ==> !IsNameChar(word[i])
    decreases |word| - u
  {
    if u == |word| || IsNameChar(word[u]) then u else NameAt(word, u + 1)
  }

  /** Who may be made a member: the remote user of that name who is none yet. */
  type Finder = string -> Option<nat>

  datatype Joined = Joined(user: nat, flags: Flags)

  function FlagsIn(table: seq<Slot>, prefix: bool, word: string): Flags {
    if prefix && NameAt(word, 0) > 0 then FlagsOf(table, word) else {}
  }

  function ReadWord(table: seq<Slot>, prefix: bool, find: Finder, word: string): seq<Joined> {
    match find(word[NameAt(word, 0)..])
    case None => []
    case Some(user) => [Joined(user, FlagsIn(table, prefix, word))]
  }

  function ReadWords(table: seq<Slot>, prefix: bool, find: Finder, words: seq<string>): seq<Joined> {
    if words == [] then []
    else ReadWords(table, prefix, find, Front(words)) + ReadWord(table, prefix, find, Last(words))
  }

  function Marks(words: seq<string>): nat {
    if words == [] then 0 else Marks(Front(words)) + NameAt(Last(words), 0)
  }

  // ---------- what the words say ----------

  /** u is where the name in a word begins: at its first character that a name may hold. */
  predicate BeginsName(word: string, u: nat) {
    u <= |word| && (forall i :: 0 <= i < u ==> !IsNameChar(word[i])) && (u < |word| ==> IsNameChar(word[u]))
  }

  /** A word makes a user a member: the one of its name, with the flags of the symbols in front
      of the name, if these are asked for. */
  ghost predicate Makes(table: seq<Slot>, prefix: bool, find: Finder, word: string, j: Joined) {
    exists u: nat :: BeginsName(word, u) && find(word[u..]) == Some(j.user)
      && if prefix && u > 0 then AreFlagsOf(table, word, j.flags) else j.flags == {}
  }

  /** A word names nobody who may be made a member. */
  ghost predicate MakesNone(find: Finder, word: string) {
    exists u: nat :: BeginsName(word, u) && find(word[u..]) == None
  }

  /** In order, each word makes one member or none. */
  ghost predicate MakesAll(table: seq<Slot>, prefix: bool, find: Finder, words: seq<string>, list: seq<Joined>) {
    if words == [] then list == []
    else
      || (MakesNone(find, Last(words)) && MakesAll(table, prefix, find, Front(words), list))
      || (list != [] && Makes(table, prefix, find, Last(words), Last(list))
          && MakesAll(table, prefix, find, Front(words), Front(list)))
  }

  lemma WordMakes(table: seq<Slot>, prefix: bool, find: Finder, word: string)
    ensures var r := ReadWord(table, prefix, find, word);
      (r == [] && MakesNone(find, word)) || (|r| == 1 && Makes(table, prefix, find, word, r[0]))
  {
    var u := NameAt(word, 0);
    assert BeginsName(word, u);
    FlagsAreOfSymbols(table, word);
  }

  lemma {:induction false} WordsMake(table: seq<Slot>, prefix: bool, find: Finder, words: seq<string>)
    ensures MakesAll(table, prefix, find, words, ReadWords(table, prefix, find, words))
  {
    if words == [] {
    } else {
      WordsMake(table, prefix, find, Front(words));
      WordMakes(table, prefix, find, Last(words));
      var before, r := ReadWords(table, prefix, find, Front(words)), ReadWord(table, prefix, find, Last(words));
      if r == [] {
        assert before + r == before;
      } else {
        assert Front(before + r) == before && Last(before + r) == r[0];
      }
    }
  }

  method Parse(table: seq<Slot>, args: string, prefix: bool, find: Finder) returns (list: seq<Joined>, modes: nat)
    ensures var words := Tokens.Tokens(args, PER_NJOIN);
      list == ReadWords(table, prefix, find, words) && modes == Marks(words)
    ensures MakesAll(table, prefix, find, Tokens.Tokens(args, PER_NJOIN), list)
  {
    var uv := Tokenize(args, PER_NJOIN);
    list, modes := [], 0;
    for i := 0 to |uv|
      invariant list == ReadWords(table, prefix, find, uv[..i]) && modes == Marks(uv[..i])
    {
      assert Front(uv[..i + 1]) == uv[..i];
      var usr := 0;
      while usr < |uv[i]| && !IsNameChar(uv[i][usr])
        invariant usr <= |uv[i]| && NameAt(uv[i], 0) == NameAt(uv[i], usr)
      {
        usr := usr + 1;
      }
      var flags: Flags := {};
      if prefix && usr != 0 {
        flags := ParsePrefix(table, uv[i]);
      }
      modes := modes + usr;
      var user := find(uv[i][usr..]);
      if user.Some? {
        list := list + [Joined(user.value, flags)];
      }
    }
    assert uv[..|uv|] == uv;
    WordsMake(table, prefix, find, uv);
  }

  // ---------- members come back ----------

  /** No symbol can be taken for the start of a name, or ends a word. */
  predicate Plain(table: seq<Slot>) {
    forall i :: 0 <= i < |table| && table[i].privilege ==>
      !IsNameChar(table[i].prefix) && !IsBlank(table[i].prefix)
  }

  /** A member whose prefix is the one of its flags, and who has a name that can be told. */
  predicate Proper(table: seq<Slot>, m: Member) {
    && Prefixes.Printable(table, m.flags) && m.prefix == PrefixOf(table, m.flags)
    && IsWord(m.name) && IsNameChar(m.name[0])
  }

  lemma PrefixEmpty(table: seq<Slot>, flags: Flags)
    requires Prefixes.Printable(table, flags)
    ensures PrefixOf(table, flags) == "" <==> flags == {}
  {
    PickedInOrder(table, flags);
    var picks := Picked(table, flags);
    PrintableArePicked(table, flags, picks);
    assert |PrefixOf(table, flags)| == |picks|;
    assert forall k :: 0 <= k < |picks| ==> picks[k] in SetOf(picks);
  }

  lemma SymbolsOfPrefix(table: seq<Slot>, flags: Flags)
    ensures forall k :: 0 <= k < |PrefixOf(table, flags)| ==> IsSymbol(table, PrefixOf(table, flags)[k])
  {
    PickedInOrder(table, flags);
    var picks := Picked(table, flags);
    forall k | 0 <= k < |picks|
      ensures IsSymbol(table, PrefixOf(table, flags)[k])
    {
      assert Usable(table, flags, picks[k]);
    }
  }

  lemma NameBehind(prefix: string, name: string)
    requires forall k :: 0 <= k < |prefix| ==> !IsNameChar(prefix[k]) && !IsBlank(prefix[k]) && prefix[k] != ':'
    requires IsWord(name) && IsNameChar(name[0])
    ensures IsWord(prefix + name) && NameAt(prefix + name, 0) == |prefix|
  {
    var word := prefix + name;
    assert word[|prefix|] == name[0];
    assert forall k :: 0 <= k < |prefix| ==> word[k] == prefix[k];
  }

  lemma WordOfProper(table: seq<Slot>, m: Member)
    requires Telling(table) && Plain(table) && Proper(table, m)
    ensures Word(false, m) == m.prefix + m.name && IsWord(Word(false, m))
    ensures NameAt(Word(false, m), 0) == |m.prefix| && FlagsIn(table, true, Word(false, m)) == m.flags
  {
    PrefixEmpty(table, m.flags);
    SymbolsOfPrefix(table, m.flags);
    NameBehind(m.prefix, m.name);
    PrefixRoundTrip(table, m.flags, m.name);
    assert m.prefix == "" ==> m.prefix + m.name == m.name;
  }

  /** The symbol of a member in a list of names is that of its highest privilege. */
  lemma FirstSymbolIsHighest(table: seq<Slot>, m: Member) returns (f: nat)
    requires Telling(table) && Plain(table) && Proper(table, m) && m.flags != {}
    ensures f in m.flags && f < |table| && FlagsIn(table, true, Word(true, m)) == {f}
    ensures forall g :: g in m.flags ==> g < |table| && table[g].order <= table[f].order
  {
    PickedInOrder(table, m.flags);
    var picks := Picked(table, m.flags);
    PrintableArePicked(table, m.flags, picks);
    PrefixEmpty(table, m.flags);
    f := picks[0];
    SymbolsOfPrefix(table, m.flags);
    assert IsSymbol(table, m.prefix[0]) && m.prefix[0] == table[f].prefix;
    NameBehind([m.prefix[0]], m.name);
    OneSymbol(table, m.flags, picks, [m.prefix[0]] + m.name);
    forall g | g in m.flags
      ensures g < |table| && table[g].order <= table[f].order
    {
      var k := PlaceOf(picks, g);
    }
  }

  lemma OneSymbol(table: seq<Slot>, flags: Flags, picks: seq<nat>, word: string)
    requires Telling(table) && Plain(table) && Within(table, picks) && AreUsable(table, flags, 0, picks) && picks != []
    requires |word| > 1 && word[0] == table[picks[0]].prefix && IsNameChar(word[1])
    ensures FlagsOf(table, word) == {picks[0]}
  {
    var one := picks[..1];
    assert Usable(table, flags, picks[0]);
    assert AreUsable(table, flags, 0, one) && SetOf(one[..0]) == {} && SetOf(one) == {picks[0]};
    ParseOfSymbols(table, flags, one, word, 0);
  }

  function MarksOf(members: seq<Member>): nat {
    if members == [] then 0 else MarksOf(Front(members)) + |Last(members).prefix|
  }

  function JoinsOf(find: Finder, members: seq<Member>): seq<Joined>
    requires forall m :: m in members ==> find(m.name).Some?
  {
    if members == [] then [] else JoinsOf(find, Front(members)) + [Joined(find(Last(members).name).value, Last(members).flags)]
  }

  lemma ReadProper(table: seq<Slot>, find: Finder, m: Member)
    requires Telling(table) && Plain(table) && Proper(table, m) && find(m.name).Some?
    ensures ReadWord(table, true, find, Word(false, m)) == [Joined(find(m.name).value, m.flags)]
  {
    WordOfProper(table, m);
    assert Word(false, m)[|m.prefix|..] == m.name;
  }

  lemma WordsOneMore(members: seq<Member>)
    requires members != []
    ensures var words := WordsOf(false, members);
      Front(words) == WordsOf(false, Front(members)) && Last(words) == Word(false, Last(members))
  {
  }

  lemma {:induction false} WordsRead(table: seq<Slot>, find: Finder, members: seq<Member>)
    requires Telling(table) && Plain(table)
    requires forall m :: m in members ==> Proper(table, m) && find(m.name).Some?
    ensures ReadWords(table, true, find, WordsOf(false, members)) == JoinsOf(find, members)
    ensures Marks(WordsOf(false, members)) == MarksOf(members)
  {
    if members == [] {
    } else {
      var m := Last(members);
      assert m in members;
      WordsRead(table, find, Front(members));
      WordOfProper(table, m);
      ReadProper(table, find, m);
      WordsOneMore(members);
    }
  }

  lemma AllWords(table: seq<Slot>, members: seq<Member>)
    requires Telling(table) && Plain(table) && forall m :: m in members ==> Proper(table, m)
    ensures forall i :: 0 <= i < |members| ==> IsWord(WordsOf(false, members)[i])
  {
    forall i | 0 <= i < |members|
      ensures IsWord(WordsOf(false, members)[i])
    {
      WordOfProper(table, members[i]);
    }
  }

  /** An NJOIN line is read as the members it was made of, each with its name and all
      its privileges, in order. */
  lemma NjoinRoundTrip(table: seq<Slot>, find: Finder, members: seq<Member>)
    requires |members| <= PER_NJOIN && Telling(table) && Plain(table)
    requires forall m :: m in members ==> Proper(table, m) && find(m.name).Some?
    ensures var words := Tokens.Tokens(Text(false, members), PER_NJOIN);
      && ReadWords(table, true, find, words) == JoinsOf(find, members)
      && Marks(words) == MarksOf(members)
  {
    WordsRead(table, find, members);
    AllWords(table, members);
    WordsComeBack(WordsOf(false, members), PER_NJOIN);
  }

  /** All lines of a burst, read one after the other. */
  function ReadLines(table: seq<Slot>, find: Finder, lines: seq<string>): seq<Joined> {
    if lines == [] then []
    else ReadLines(table, find, Front(lines)) + ReadWords(table, true, find, Tokens.Tokens(Last(lines), PER_NJOIN))
  }

  lemma {:induction false} JoinsConcat(find: Finder, a: seq<Member>, b: seq<Member>)
    requires forall m :: m in a || m in b ==> find(m.name).Some?
    ensures JoinsOf(find, a + b) == JoinsOf(find, a) + JoinsOf(find, b)
  {
    if b == [] {
      assert a + b == a;
    } else {
      assert Front(a + b) == a + Front(b) && Last(a + b) == Last(b);
      JoinsConcat(find, a, Front(b));
      Assoc(JoinsOf(find, a), JoinsOf(find, Front(b)), [Joined(find(Last(b).name).value, Last(b).flags)]);
    }
  }

  /** What chanuser_burst sends is read as the channel's whole member list, in order. */
  lemma {:induction false} BurstRoundTrip(table: seq<Slot>, find: Finder, lines: seq<string>, parts: seq<seq<Member>>,
                                          n: nat)
    requires Carried(lines, parts, n) && Telling(table) && Plain(table)
    requires forall m :: m in Flat(parts) ==> Proper(table, m) && find(m.name).Some?
    ensures ReadLines(table, find, lines) == JoinsOf(find, Flat(parts))
    decreases |parts|
  {
    if parts == [] {
    } else {
      var before, last := Flat(Front(parts)), Last(parts);
      assert forall m :: m in before || m in last ==> m in Flat(parts);
      BurstRoundTrip(table, find, Front(lines), Front(parts), n);
      NjoinRoundTrip(table, find, last);
      JoinsConcat(find, before, last);
    }
  }
}
