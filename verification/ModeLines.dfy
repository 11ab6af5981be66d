/** Mode lines: chanmode_assemble, the sending loops, chanmode_prepare and chanmode_parse
    of src/chanmode.c, with str_tokenize of lib/src/str.c. */
module ModeLines {
  import opened Prelude
  import opened ModeChanges
  import Replication

  const PER_LINE: nat := 16
  const MODES_PER_LINE: nat := 4
  const ARG_LEN: nat := 114

  type Names = nat -> string

  /** What a change says after its letter: the member's nick or identifier, or a text. */
  function ArgumentOf(names: Names, c: Change): string {
    if c.mode.kind == Privilege && c.what != Query then names(c.target) else c.arg
  }

  // ---------- the text of a line ----------

  function Sign(what: What): char {
    if what == Add then '+' else '-'
  }

  function Front<T>(s: seq<T>): seq<T>
    requires s != []
  {
    s[..|s| - 1]
  }

  function Last<T>(s: seq<T>): T
    requires s != []
  {
    s[|s| - 1]
  }

  function LastWhat(sent: seq<Change>): Option<What> {
    if sent == [] then None else Some(Last(sent).what)
  }

  /** A letter, and its sign when the one before it has another. */
  function Piece(before: Option<What>, c: Change): string {
    if before == Some(c.what) then [c.mode.letter] else [Sign(c.what), c.mode.letter]
  }

  function Letters(sent: seq<Change>): (r: string)
    ensures |sent| <= |r| <= 2 * |sent|
  {
    if sent == [] then "" else Letters(Front(sent)) + Piece(LastWhat(Front(sent)), Last(sent))
  }

  function Args(names: Names, sent: seq<Change>): (r: seq<string>)
    ensures |r| <= |sent|
  {
    if sent == [] then []
    else if Last(sent).mode.kind == Single then Args(names, Front(sent))
    else Args(names, Front(sent)) + [ArgumentOf(names, Last(sent))]
  }

  function AddArg(text: string, arg: string): string {
    if text == "" then arg else text + (" " + arg)
  }

  function Spaced(args: seq<string>): string {
    if args == [] then "" else AddArg(Spaced(Front(args)), Last(args))
  }

  function ArgText(names: Names, sent: seq<Change>): string {
    Spaced(Args(names, sent))
  }

  lemma Extend(names: Names, sent: seq<Change>, c: Change)
    ensures Letters(sent + [c]) == Letters(sent) + Piece(LastWhat(sent), c)
    ensures ArgText(names, sent + [c])
         == if c.mode.kind == Single then ArgText(names, sent) else AddArg(ArgText(names, sent), ArgumentOf(names, c))
  {
    assert Front(sent + [c]) == sent;
    var args := Args(names, sent);
    assert Front(args + [ArgumentOf(names, c)]) == args;
  }

  // ---------- assembling ----------

  /** The buffer begins with s and its terminating zero. */
  ghost predicate Holds(buf: array<char>, s: string)
    reads buf
  {
    |s| < buf.Length && buf[..|s|] == s && buf[|s|] == '\0'
  }

  ghost predicate Begins(buf: array<char>, k: nat, s: string)
    reads buf
  {
    k == |s| <= buf.Length && buf[..k] == s
  }

  /** strcpy without the terminating zero. */
  method Put(buf: array<char>, k: nat, s: string, ghost text: string) returns (next: nat)
    requires Begins(buf, k, text) && k + |s| <= buf.Length
    modifies buf
    ensures Begins(buf, next, text + s)
  {
    var i := 0;
    while i < |s|
      invariant i <= |s| && buf[..k] == text && buf[k..k + i] == s[..i]
    {
      buf[k + i] := s[i];
      i := i + 1;
    }
    next := k + |s|;
    assert buf[..next] == buf[..k] + buf[k..next];
  }

  method PutArg(buf: array<char>, k: nat, arg: string, ghost text: string) returns (next: nat)
    requires Begins(buf, k, text) && k + |arg| + 1 <= buf.Length
    modifies buf
    ensures Begins(buf, next, AddArg(text, arg))
  {
    next := k;
    if k != 0 {
      next := Put(buf, k, " ", text);
      Assoc(text, " ", arg);
    } else {
      assert text + arg == arg;
    }
    next := Put(buf, next, arg, if k != 0 then text + " " else text);
  }

  predicate TakesArg(c: Change) {
    !c.bounced && c.mode.kind != Single
  }

  /** The argument does not fit behind what is there. */
  predicate Overflows(names: Names, text: string, c: Change, n: nat) {
    TakesArg(c) && |text| + |ArgumentOf(names, c)| + 2 > n
  }

  /** That is: the text with it and a zero would not fit; of a first argument, not even with one
      character to spare. */
  lemma OverflowIsNoRoom(names: Names, text: string, c: Change, n: nat)
    requires TakesArg(c)
    ensures Overflows(names, text, c, n) <==> |AddArg(text, ArgumentOf(names, c))| + (if text == "" then 2 else 1) > n
  {
  }

  /** What one call may put on its line. */
  ghost predicate LineFits(names: Names, sent: seq<Change>, n: nat, count: nat) {
    && |sent| <= PER_LINE && |sent| <= (if count == 0 then 1 else count)
    && |ArgText(names, sent)| < (if n == 0 then 1 else n)
  }

  /** No further change could be put on the line. */
  ghost predicate Full(names: Names, sent: seq<Change>, rest: seq<Change>, n: nat, count: nat) {
    rest == [] || |sent| == PER_LINE || |sent| >= count || Overflows(names, ArgText(names, sent), rest[0], n)
  }

  ghost predicate Assembled(modebuf: array<char>, parabuf: array<char>, names: Names, sent: seq<Change>)
    reads modebuf, parabuf
  {
    Holds(modebuf, Letters(sent)) && Holds(parabuf, ArgText(names, sent))
  }

  lemma Taken(taken: seq<Change>, c: Change)
    ensures Replication.Effective(taken + [c])
         == if c.bounced then Replication.Effective(taken) else Replication.Effective(taken) + [c]
  {
    Replication.EffectiveConcat(taken, [c]);
    assert [c][1..] == [];
    assert Replication.Effective(taken) + [] == Replication.Effective(taken);
  }

  /** Where a call is: the buffers hold the text of `sent`, the unbounced part of the
      changes it came by. */
  datatype At = At(mi: nat, pi: nat, i: nat, what: Option<What>)

  ghost predicate Stands(modebuf: array<char>, parabuf: array<char>, at: At, names: Names, taken: seq<Change>, n: nat)
    reads modebuf, parabuf
  {
    var sent := Replication.Effective(taken);
    && Begins(modebuf, at.mi, Letters(sent)) && Begins(parabuf, at.pi, ArgText(names, sent))
    && at.what == LastWhat(sent) && at.i == |sent| <= PER_LINE && (at.pi == 0 || at.pi < n)
  }

  /** Writes one change that fits, or passes over one that was bounced. */
  method Write(modebuf: array<char>, parabuf: array<char>, at: At, names: Names, c: Change, n: nat,
               ghost count: nat, ghost taken: seq<Change>)
    returns (next: At)
    requires modebuf != parabuf && modebuf.Length > 2 * PER_LINE && parabuf.Length >= n
    requires Stands(modebuf, parabuf, at, names, taken, n) && at.i < PER_LINE
    requires at.i == 0 || at.i < count
    requires !Overflows(names, ArgText(names, Replication.Effective(taken)), c, n)
    modifies modebuf, parabuf
    ensures Stands(modebuf, parabuf, next, names, taken + [c], n)
    ensures LineFits(names, Replication.Effective(taken + [c]), n, count)
    ensures next.i == if c.bounced then at.i else at.i + 1
  {
    Taken(taken, c);
    if c.bounced {
      return at;
    }
    ghost var sent := Replication.Effective(taken);
    Extend(names, sent, c);
    var pi: nat := at.pi;
    if c.mode.kind != Single {
      pi := PutArg(parabuf, pi, ArgumentOf(names, c), ArgText(names, sent));
    }
    var mi := Put(modebuf, at.mi, Piece(at.what, c), Letters(sent));
    next := At(mi, pi, at.i + 1, Some(c.what));
  }

  method Terminate(modebuf: array<char>, parabuf: array<char>, at: At, names: Names, ghost taken: seq<Change>, n: nat)
    requires modebuf != parabuf && modebuf.Length > 2 * PER_LINE && parabuf.Length >= n && parabuf.Length > 0
    requires Stands(modebuf, parabuf, at, names, taken, n)
    modifies modebuf, parabuf
    ensures Assembled(modebuf, parabuf, names, Replication.Effective(taken))
  {
    modebuf[at.mi] := '\0';
    parabuf[at.pi] := '\0';
  }

  /** chanmode_assemble: fills one line from the list `left` and gives the rest of the
      list; `taken` is the part it came by, whose unbounced changes are on the line. */
  method Assemble(modebuf: array<char>, parabuf: array<char>, left: seq<Change>, n: nat, count: nat, names: Names)
    returns (rest: seq<Change>, ghost taken: seq<Change>)
    requires modebuf != parabuf && modebuf.Length > 2 * PER_LINE && parabuf.Length >= n && parabuf.Length > 0
    requires left != []
    modifies modebuf, parabuf
    ensures left == taken + rest && Assembled(modebuf, parabuf, names, Replication.Effective(taken))
    ensures LineFits(names, Replication.Effective(taken), n, count)
    ensures Full(names, Replication.Effective(taken), rest, n, count)
    ensures taken == [] <==> Overflows(names, "", left[0], n)
  {
    var at, more := At(0, 0, 0, None), true;
    rest, taken := left, [];
    while more
      invariant left == taken + rest && (more ==> rest != [] && at.i < PER_LINE)
      invariant Stands(modebuf, parabuf, at, names, taken, n)
      invariant LineFits(names, Replication.Effective(taken), n, count)
      invariant !more ==> Full(names, Replication.Effective(taken), rest, n, count)
      invariant taken == [] ==> !more ==> Overflows(names, "", left[0], n)
      invariant taken != [] ==> !Overflows(names, "", left[0], n)
      invariant more ==> at.i == 0 || at.i < count
      decreases |rest|, more
    {
      if Overflows(names, parabuf[..at.pi], rest[0], n) {
        more := false;
      } else {
        at := Write(modebuf, parabuf, at, names, rest[0], n, count, taken);
        MoveOne(left, taken, rest);
        taken, rest := taken + [rest[0]], rest[1..];
        more := rest != [] && at.i < count && at.i < PER_LINE;
      }
    }
    Terminate(modebuf, parabuf, at, names, taken, n);
  }

  // ---------- sending ----------

  datatype Line = Line(letters: string, args: string)

  function LineOf(names: Names, sent: seq<Change>): Line {
    Line(Letters(sent), ArgText(names, sent))
  }

  predicate NoZero(s: string) {
    '\0' !in s
  }

  /** Neither the letter nor what is said after it holds a terminating zero. */
  predicate Printable(names: Names, c: Change) {
    c.mode.letter != '\0' && NoZero(ArgumentOf(names, c))
  }

  lemma ExtensionPrints(names: Names, sent: seq<Change>, c: Change)
    requires NoZero(Letters(sent)) && NoZero(ArgText(names, sent)) && Printable(names, c)
    ensures NoZero(Letters(sent + [c])) && NoZero(ArgText(names, sent + [c]))
  {
    Extend(names, sent, c);
  }

  lemma {:induction false} LinePrints(names: Names, sent: seq<Change>)
    requires forall c :: c in sent ==> Printable(names, c)
    ensures NoZero(Letters(sent)) && NoZero(ArgText(names, sent))
  {
    if sent == [] {
    } else {
      LinePrints(names, Front(sent));
      ExtensionPrints(names, Front(sent), Last(sent));
      assert sent == Front(sent) + [Last(sent)];
    }
  }

  /** The text in a buffer, up to its terminating zero. */
  method ReadText(buf: array<char>, ghost s: string) returns (r: string)
    requires Holds(buf, s) && NoZero(s)
    ensures r == s
  {
    assert forall i :: 0 <= i < |s| ==> buf[..|s|][i] == s[i] && s[i] != '\0';
    var k := 0;
    while buf[k] != '\0'
      invariant k <= |s|
      decreases |s| - k
    {
      k := k + 1;
    }
    r := buf[..k];
  }

  function Flat<T>(parts: seq<seq<T>>): seq<T> {
    if parts == [] then [] else Flat(Front(parts)) + Last(parts)
  }

  /** The lines carry the parts, in order, each within the limits. */
  ghost predicate Carry(lines: seq<Line>, parts: seq<seq<Change>>, names: Names, n: nat, count: nat) {
    && |lines| == |parts|
    && forall i :: 0 <= i < |parts| ==>
         parts[i] != [] && lines[i] == LineOf(names, parts[i]) && LineFits(names, parts[i], n, count)
  }

  lemma {:induction false} EffectiveMembers(changes: seq<Change>)
    ensures forall c :: c in Replication.Effective(changes) ==> c in changes && !c.bounced
  {
    if changes != [] {
      EffectiveMembers(changes[1..]);
    }
  }

  lemma TakenOfList(list: seq<Change>, done: seq<Change>, left: seq<Change>, taken: seq<Change>, rest: seq<Change>)
    requires list == done + left && left == taken + rest
    ensures list == (done + taken) + rest
    ensures Replication.Effective(done + taken) == Replication.Effective(done) + Replication.Effective(taken)
    ensures forall c :: c in Replication.Effective(taken) ==> c in list
  {
    Assoc(done, taken, rest);
    Replication.EffectiveConcat(done, taken);
    EffectiveMembers(taken);
  }

  lemma OneMoreLine(lines: seq<Line>, parts: seq<seq<Change>>, names: Names, n: nat, count: nat, sent: seq<Change>)
    requires Carry(lines, parts, names, n, count) && sent != [] && LineFits(names, sent, n, count)
    ensures Carry(lines + [LineOf(names, sent)], parts + [sent], names, n, count)
    ensures Flat(parts + [sent]) == Flat(parts) + sent
  {
    assert Front(parts + [sent]) == parts;
  }

  /** The loop of chanmode_send_local and chanmode_send_remote: the lines together carry
      exactly the changes that were not bounced, in order. An argument longer than
      n - 2 would keep Assemble where it is, and the loop from ending. */
  method Send(list: seq<Change>, n: nat, count: nat, names: Names)
    returns (lines: seq<Line>)
    requires forall c :: c in list ==> Printable(names, c) && !Overflows(names, "", c, n)
    ensures exists parts :: Carry(lines, parts, names, n, count) && Flat(parts) == Replication.Effective(list)
  {
    var flags, args := new char[2 * PER_LINE + 1], new char[n + 1];
    var left := list;
    ghost var done := [];
    ghost var parts: seq<seq<Change>> := [];
    lines := [];
    while left != []
      invariant list == done + left && Flat(parts) == Replication.Effective(done)
      invariant Carry(lines, parts, names, n, count)
      decreases |left|
    {
      var rest;
      ghost var taken;
      rest, taken := Assemble(flags, args, left, n, count, names);
      ghost var sent := Replication.Effective(taken);
      TakenOfList(list, done, left, taken, rest);
      assert left[0] in list;
      LinePrints(names, sent);
      if flags[0] != '\0' {
        var letters := ReadText(flags, Letters(sent));
        var text := ReadText(args, ArgText(names, sent));
        OneMoreLine(lines, parts, names, n, count, sent);
        lines, parts := lines + [Line(letters, text)], parts + [sent];
      }
      done, left := done + taken, rest;
    }
    assert done + [] == done;
  }
}
