/** Privilege prefixes: chanmode_prefix_make and chanmode_prefix_parse of src/chanmode.c. */
module Prefixes {
  import opened Prelude

  const TABLE_SIZE: nat := 64
  const TOP: nat := 0xffff_ffff

  /** A place of the mode table. Its flag is its number; the order is read unsigned. */
  datatype Slot = Slot(privilege: bool, order: nat, prefix: char)

  type Flags = set<nat>

  predicate Usable(table: seq<Slot>, flags: Flags, i: nat) {
    i < |table| && table[i].privilege && i in flags && 0 < table[i].order < TOP
  }

  // ---------- selection ----------

  function OrderOf(table: seq<Slot>, best: int): nat
    requires best < |table|
  {
    if best < 0 then 0 else table[best].order
  }

  /** Of the first n places, the set privilege with the highest order below `top`, the
      first such one; -1 if there is none. */
  function Best(table: seq<Slot>, flags: Flags, top: nat, n: nat): (best: int)
    requires n <= |table| && top <= TOP
    ensures -1 <= best < n
    ensures best >= 0 ==> Usable(table, flags, best) && table[best].order < top
    ensures forall i :: 0 <= i < n && Usable(table, flags, i) && table[i].order < top ==>
              table[i].order <= OrderOf(table, best) && (i < best ==> table[i].order < OrderOf(table, best))
  {
    if n == 0 then -1
    else
      var b := Best(table, flags, top, n - 1);
      if Usable(table, flags, n - 1) && OrderOf(table, b) < table[n - 1].order < top then n - 1 else b
  }

  /** The places found behind those in `done`, with ever lower orders. */
  function Picks(table: seq<Slot>, flags: Flags, top: nat, done: seq<nat>): seq<nat>
    requires top <= TOP
    decreases top
  {
    var best := Best(table, flags, top, |table|);
    if best < 0 then done else Picks(table, flags, table[best].order, done + [best])
  }

  function Picked(table: seq<Slot>, flags: Flags): seq<nat> {
    Picks(table, flags, TOP, [])
  }

  function Symbols(table: seq<Slot>, picks: seq<nat>): (r: string)
    requires forall k :: 0 <= k < |picks| ==> picks[k] < |table|
    ensures |r| == |picks| && forall k :: 0 <= k < |picks| ==> r[k] == table[picks[k]].prefix
  {
    seq(|picks|, k requires 0 <= k < |picks| => table[picks[k]].prefix)
  }

  predicate Within(table: seq<Slot>, picks: seq<nat>) {
    forall k :: 0 <= k < |picks| ==> picks[k] < |table|
  }

  predicate Falling(table: seq<Slot>, picks: seq<nat>)
    requires Within(table, picks)
  {
    forall j, k :: 0 <= j < k < |picks| ==> table[picks[j]].order > table[picks[k]].order
  }

  predicate AreUsable(table: seq<Slot>, flags: Flags, top: nat, picks: seq<nat>) {
    forall k :: 0 <= k < |picks| ==> Usable(table, flags, picks[k]) && table[picks[k]].order >= top
  }

  /** The place, or one before it of the same order, is picked. */
  predicate Represented(table: seq<Slot>, picks: seq<nat>, i: nat)
    requires i < |table| && Within(table, picks)
  {
    exists k :: 0 <= k < |picks| && table[picks[k]].order == table[i].order && picks[k] <= i
  }

  /** Set privileges in strictly falling order, none of an order from `top` up missed. */
  ghost predicate Selected(table: seq<Slot>, flags: Flags, top: nat, picks: seq<nat>) {
    && Within(table, picks) && AreUsable(table, flags, top, picks) && Falling(table, picks)
    && forall i :: 0 <= i < |table| && Usable(table, flags, i) && table[i].order >= top ==> Represented(table, picks, i)
  }

  lemma StaysRepresented(table: seq<Slot>, picks: seq<nat>, best: nat, i: nat)
    requires i < |table| && best < |table| && Within(table, picks)
    requires Represented(table, picks, i) || (table[best].order == table[i].order && best <= i)
    ensures Represented(table, picks + [best], i)
  {
    var more := picks + [best];
    if Represented(table, picks, i) {
      var k :| 0 <= k < |picks| && table[picks[k]].order == table[i].order && picks[k] <= i;
      assert more[k] == picks[k];
    } else {
      assert more[|picks|] == best;
    }
  }

  lemma FallsOn(table: seq<Slot>, picks: seq<nat>, best: nat)
    requires Within(table, picks) && Falling(table, picks) && best < |table|
    requires forall k :: 0 <= k < |picks| ==> table[picks[k]].order > table[best].order
    ensures Within(table, picks + [best]) && Falling(table, picks + [best])
  {
    var more := picks + [best];
    forall j, k | 0 <= j < k < |more|
      ensures table[more[j]].order > table[more[k]].order
    {
      assert more[j] == picks[j];
      assert k < |picks| ==> more[k] == picks[k];
    }
  }

  lemma UsableOn(table: seq<Slot>, flags: Flags, top: nat, picks: seq<nat>, best: nat)
    requires AreUsable(table, flags, top, picks) && Usable(table, flags, best) && table[best].order < top
    ensures AreUsable(table, flags, table[best].order, picks + [best])
    ensures forall k :: 0 <= k < |picks| ==> table[picks[k]].order > table[best].order
  {
  }

  lemma SelectBest(table: seq<Slot>, flags: Flags, top: nat, picks: seq<nat>, best: nat)
    requires Selected(table, flags, top, picks) && top <= TOP && best == Best(table, flags, top, |table|)
    ensures Selected(table, flags, table[best].order, picks + [best])
  {
    UsableOn(table, flags, top, picks, best);
    FallsOn(table, picks, best);
    forall i | 0 <= i < |table| && Usable(table, flags, i) && table[i].order >= table[best].order
      ensures Represented(table, picks + [best], i)
    {
      StaysRepresented(table, picks, best, i);
    }
  }

  lemma SelectNone(table: seq<Slot>, flags: Flags, top: nat, picks: seq<nat>)
    requires Selected(table, flags, top, picks) && top <= TOP && Best(table, flags, top, |table|) < 0
    ensures Selected(table, flags, 0, picks)
  {
  }

  lemma SelectNext(table: seq<Slot>, flags: Flags, top: nat, picks: seq<nat>)
    requires Selected(table, flags, top, picks) && top <= TOP
    ensures var best := Best(table, flags, top, |table|);
      if best < 0 then Selected(table, flags, 0, picks)
      else Selected(table, flags, table[best].order, picks + [best])
  {
    var best := Best(table, flags, top, |table|);
    if best < 0 {
      SelectNone(table, flags, top, picks);
    } else {
      SelectBest(table, flags, top, picks, best);
    }
  }

  lemma {:induction false} PicksSelect(table: seq<Slot>, flags: Flags, top: nat, done: seq<nat>)
    requires Selected(table, flags, top, done) && top <= TOP
    ensures Selected(table, flags, 0, Picks(table, flags, top, done))
    decreases top
  {
    SelectNext(table, flags, top, done);
    var best := Best(table, flags, top, |table|);
    if best >= 0 {
      PicksSelect(table, flags, table[best].order, done + [best]);
    }
  }

  /** The selection sort: privileges in strictly falling order, of each order that is set
      the first one, and no order is missed. */
  lemma PickedInOrder(table: seq<Slot>, flags: Flags)
    ensures Selected(table, flags, 0, Picked(table, flags))
  {
    PicksSelect(table, flags, TOP, []);
  }

  /** Picked places differ, so a buffer of 64 symbols and a zero is enough. */
  lemma PickedFits(table: seq<Slot>, picks: seq<nat>)
    requires Within(table, picks) && Falling(table, picks)
    ensures |picks| <= |table|
  {
    DistinctCount(picks);
    BelowCount(SetOf(picks), |table|);
  }

  // ---------- chanmode_prefix_make ----------

  method FindBest(table: seq<Slot>, flags: Flags, top: nat) returns (mode: int, current: nat)
    requires top <= TOP
    ensures mode == Best(table, flags, top, |table|) && current == OrderOf(table, mode)
  {
    mode, current := -1, 0;
    for i := 0 to |table|
      invariant mode == Best(table, flags, top, i) && current == OrderOf(table, mode)
    {
      if table[i].privilege {
        if current < table[i].order < top && i in flags {
          mode, current := i, table[i].order;
        }
      }
    }
  }

  /** A member's prefix, as text. */
  function PrefixOf(table: seq<Slot>, flags: Flags): string {
    PickedInOrder(table, flags);
    Symbols(table, Picked(table, flags))
  }

  /** The buffer holds the symbols of the picks. */
  ghost predicate Shows(pfx: array<char>, table: seq<Slot>, picks: seq<nat>)
    requires Within(table, picks)
    reads pfx
  {
    |picks| <= |table| < pfx.Length && forall k :: 0 <= k < |picks| ==> pfx[k] == table[picks[k]].prefix
  }

  /** The picks so far lead to the final ones. */
  ghost predicate Leads(table: seq<Slot>, flags: Flags, top: nat, picks: seq<nat>) {
    top <= TOP && Selected(table, flags, top, picks) && Picks(table, flags, top, picks) == Picked(table, flags)
  }

  lemma LeadsOn(table: seq<Slot>, flags: Flags, top: nat, picks: seq<nat>, best: int)
    requires Leads(table, flags, top, picks) && best == Best(table, flags, top, |table|)
    ensures best < 0 ==> picks == Picked(table, flags)
    ensures best >= 0 ==> table[best].order < top && Leads(table, flags, table[best].order, picks + [best])
    ensures best >= 0 ==> |picks| < |table|
  {
    SelectNext(table, flags, top, picks);
    if best >= 0 {
      PickedFits(table, picks + [best]);
    }
  }

  method Store(pfx: array<char>, di: nat, table: seq<Slot>, mode: nat, ghost picks: seq<nat>)
    requires Within(table, picks) && Shows(pfx, table, picks) && di == |picks| < |table| && mode < |table|
    modifies pfx
    ensures Within(table, picks + [mode]) && Shows(pfx, table, picks + [mode])
  {
    pfx[di] := table[mode].prefix;
  }

  /** chanmode_prefix_make: ends because its bound falls, and leaves the prefix. */
  method MakePrefix(pfx: array<char>, table: seq<Slot>, flags: Flags)
    requires |table| == TABLE_SIZE < pfx.Length
    modifies pfx
    ensures var n := |PrefixOf(table, flags)|;
      n < pfx.Length && pfx[..n] == PrefixOf(table, flags) && pfx[n] == '\0'
  {
    var di: nat, top: nat := 0, TOP;
    ghost var picks: seq<nat> := [];
    while true
      invariant Leads(table, flags, top, picks) && di == |picks| && Shows(pfx, table, picks)
      decreases top
    {
      var mode, current := FindBest(table, flags, top);
      LeadsOn(table, flags, top, picks, mode);
      if mode < 0 {
        break;
      }
      top := current;
      Store(pfx, di, table, mode, picks);
      di := di + 1;
      picks := picks + [mode];
    }
    pfx[di] := '\0';
    assert pfx[..di] == PrefixOf(table, flags);
  }

  // ---------- chanmode_prefix_parse ----------

  /** The first privilege with the symbol c; the size of the table if there is none. */
  function SlotOf(table: seq<Slot>, c: char, j: nat): (r: nat)
    requires j <= |table|
    ensures j <= r <= |table| && (r < |table| ==> table[r].privilege && table[r].prefix == c)
    ensures forall i :: j <= i < r ==> !(table[i].privilege && table[i].prefix == c)
    decreases |table| - j
  {
    if j == |table| || (table[j].privilege && table[j].prefix == c) then j else SlotOf(table, c, j + 1)
  }

  /** The flags of the symbols from i on, with those in ret. */
  function ParsedFlags(table: seq<Slot>, pfx: string, i: nat, ret: Flags): Flags
    requires i <= |pfx|
    decreases |pfx| - i
  {
    if i == |pfx| || pfx[i] == ':' || SlotOf(table, pfx[i], 0) == |table| then ret
    else ParsedFlags(table, pfx, i + 1, ret + {SlotOf(table, pfx[i], 0)})
  }

  function FlagsOf(table: seq<Slot>, pfx: string): Flags {
    ParsedFlags(table, pfx, 0, {})
  }

  predicate IsSymbol(table: seq<Slot>, c: char) {
    exists i :: 0 <= i < |table| && table[i].privilege && table[i].prefix == c
  }

  /** The symbols in front: up to a colon, or a character that is no privilege's symbol. */
  predicate IsSymbolRun(table: seq<Slot>, pfx: string, k: nat) {
    && k <= |pfx| && (forall i :: 0 <= i < k ==> pfx[i] != ':' && IsSymbol(table, pfx[i]))
    && (k < |pfx| ==> pfx[k] == ':' || !IsSymbol(table, pfx[k]))
  }

  /** The first privilege with the symbol c. */
  predicate IsFirstWith(table: seq<Slot>, c: char, j: nat) {
    && j < |table| && table[j].privilege && table[j].prefix == c
    && forall i :: 0 <= i < j ==> !(table[i].privilege && table[i].prefix == c)
  }

  /** The flags of a text are those of the symbols in front, of each the first privilege that
      has it. */
  ghost predicate AreFlagsOf(table: seq<Slot>, pfx: string, flags: Flags) {
    exists k :: IsSymbolRun(table, pfx, k)
      && forall j :: j in flags <==> exists i :: 0 <= i < k && IsFirstWith(table, pfx[i], j)
  }

  lemma SlotIsFirst(table: seq<Slot>, c: char)
    ensures SlotOf(table, c, 0) < |table| <==> IsSymbol(table, c)
    ensures forall j :: IsFirstWith(table, c, j) <==> j == SlotOf(table, c, 0) < |table|
  {
  }

  lemma {:induction false} ParsedAreFlags(table: seq<Slot>, pfx: string, i: nat, ret: Flags) returns (k: nat)
    requires i <= |pfx| && forall p :: 0 <= p < i ==> pfx[p] != ':' && IsSymbol(table, pfx[p])
    requires forall j :: j in ret <==> exists p :: 0 <= p < i && IsFirstWith(table, pfx[p], j)
    ensures IsSymbolRun(table, pfx, k)
    ensures forall j :: j in ParsedFlags(table, pfx, i, ret) <==> exists p :: 0 <= p < k && IsFirstWith(table, pfx[p], j)
    decreases |pfx| - i
  {
    k := i;
    if i < |pfx| {
      SlotIsFirst(table, pfx[i]);
      if pfx[i] != ':' && SlotOf(table, pfx[i], 0) < |table| {
        k := ParsedAreFlags(table, pfx, i + 1, ret + {SlotOf(table, pfx[i], 0)});
      }
    }
  }

  lemma FlagsAreOfSymbols(table: seq<Slot>, pfx: string)
    ensures AreFlagsOf(table, pfx, FlagsOf(table, pfx))
  {
    var k := ParsedAreFlags(table, pfx, 0, {});
  }

  method ParsePrefix(table: seq<Slot>, pfx: string) returns (ret: Flags)
    ensures ret == FlagsOf(table, pfx) && AreFlagsOf(table, pfx, ret)
  {
    FlagsAreOfSymbols(table, pfx);
    ret := {};
    var i := 0;
    while i < |pfx|
      invariant i <= |pfx| && ParsedFlags(table, pfx, i, ret) == FlagsOf(table, pfx)
    {
      if pfx[i] == ':' {
        break;
      }
      var j := 0;
      while j < |table| && !(table[j].privilege && table[j].prefix == pfx[i])
        invariant j <= |table| && SlotOf(table, pfx[i], 0) == SlotOf(table, pfx[i], j)
      {
        j := j + 1;
      }
      if j == |table| {
        break;
      }
      ret := ret + {j};
      i := i + 1;
    }
  }

  // ---------- the parser inverts the printer ----------

  /** No two privileges share a symbol, and none has the colon. */
  predicate Telling(table: seq<Slot>) {
    && (forall i, j :: 0 <= i < j < |table| && table[i].privilege && table[j].privilege ==>
          table[i].prefix != table[j].prefix)
    && !IsSymbol(table, ':')
  }

  lemma {:induction false} ParseOfSymbols(table: seq<Slot>, flags: Flags, picks: seq<nat>, pfx: string, i: nat)
    requires Telling(table) && Within(table, picks) && AreUsable(table, flags, 0, picks)
    requires |picks| <= |pfx| && i <= |picks| && forall k :: 0 <= k < |picks| ==> pfx[k] == table[picks[k]].prefix
    requires |picks| == |pfx| || !IsSymbol(table, pfx[|picks|])
    ensures ParsedFlags(table, pfx, i, SetOf(picks[..i])) == SetOf(picks)
    decreases |picks| - i
  {
    if i == |picks| {
      assert picks[..i] == picks;
    } else {
      var j := SlotOf(table, pfx[i], 0);
      assert Usable(table, flags, picks[i]) && j == picks[i];
      assert SetOf(picks[..i + 1]) == SetOf(picks[..i]) + {picks[i]};
      ParseOfSymbols(table, flags, picks, pfx, i + 1);
    }
  }

  /** What is printed in front of a text that begins with no symbol is read as the set
      of the privileges printed. */
  lemma PrefixReadBack(table: seq<Slot>, flags: Flags, rest: string)
    requires Telling(table) && (rest == "" || !IsSymbol(table, rest[0]))
    ensures FlagsOf(table, PrefixOf(table, flags) + rest) == SetOf(Picked(table, flags))
  {
    PickedInOrder(table, flags);
    var picks := Picked(table, flags);
    assert SetOf(picks[..0]) == {};
    ParseOfSymbols(table, flags, picks, PrefixOf(table, flags) + rest, 0);
  }

  /** All are privileges with an order that can be printed, and no two share an order. */
  predicate Printable(table: seq<Slot>, flags: Flags) {
    && (forall i :: i in flags ==> Usable(table, flags, i))
    && (forall i, j :: i in flags && j in flags && table[i].order == table[j].order ==> i == j)
  }

  lemma PrintableArePicked(table: seq<Slot>, flags: Flags, picks: seq<nat>)
    requires Selected(table, flags, 0, picks) && Printable(table, flags)
    ensures SetOf(picks) == flags
  {
    forall i | i in flags
      ensures i in SetOf(picks)
    {
      assert Usable(table, flags, i) && Represented(table, picks, i);
      var k :| 0 <= k < |picks| && table[picks[k]].order == table[i].order && picks[k] <= i;
      assert Usable(table, flags, picks[k]);
    }
    forall i | i in SetOf(picks)
      ensures i in flags
    {
      var k :| 0 <= k < |picks| && picks[k] == i;
      assert Usable(table, flags, picks[k]);
    }
  }

  lemma PlaceOf(picks: seq<nat>, i: nat) returns (k: nat)
    requires i in SetOf(picks)
    ensures k < |picks| && picks[k] == i
  {
    k :| 0 <= k < |picks| && picks[k] == i;
  }

  lemma OrdersDiffer(table: seq<Slot>, picks: seq<nat>, k: nat, l: nat)
    requires Within(table, picks) && Falling(table, picks) && k < |picks| && l < |picks|
    requires table[picks[k]].order == table[picks[l]].order
    ensures k == l
  {
  }

  lemma PickedArePrintable(table: seq<Slot>, flags: Flags, picks: seq<nat>)
    requires Selected(table, flags, 0, picks) && SetOf(picks) == flags
    ensures Printable(table, flags)
  {
    forall i | i in flags
      ensures Usable(table, flags, i)
    {
      var k := PlaceOf(picks, i);
    }
    forall i, j | i in flags && j in flags && table[i].order == table[j].order
      ensures i == j
    {
      var k := PlaceOf(picks, i);
      var l := PlaceOf(picks, j);
      OrdersDiffer(table, picks, k, l);
    }
  }

  /** Reading a member's prefix gives its flags back exactly when they are all printable. */
  lemma PrefixRoundTrip(table: seq<Slot>, flags: Flags, rest: string)
    requires Telling(table) && (rest == "" || !IsSymbol(table, rest[0]))
    ensures FlagsOf(table, PrefixOf(table, flags) + rest) == flags <==> Printable(table, flags)
  {
    PrefixReadBack(table, flags, rest);
    PickedInOrder(table, flags);
    if Printable(table, flags) {
      PrintableArePicked(table, flags, Picked(table, flags));
    }
    if SetOf(Picked(table, flags)) == flags {
      PickedArePrintable(table, flags, Picked(table, flags));
    }
  }
}
