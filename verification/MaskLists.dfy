/** The mask lists of a channel (bans, exceptions, ...): chanmode_bounce_mask,
    chanmode_mask_add and chanmode_mask_delete of src/chanmode.c. */
module MaskLists {
  import opened Prelude
  import Glob
  import MatchBudget

  const MAXBANS := 64

  type Mask = string

  /** str_match on two masks: is the first, taken as a string, matched by the second? */
  type Matcher = (Mask, Mask) -> bool

  datatype Item = Item(mask: Mask, ihash: int)

  /** Each of the masks is matched by itself. */
  ghost predicate SelfMatched(matches: Matcher, ms: set<Mask>) {
    forall m :: m in ms ==> matches(m, m)
  }

  /** Among the masks, matching composes through a. */
  ghost predicate ComposesThrough(matches: Matcher, ms: set<Mask>, a: Mask) {
    forall m, c :: m in ms && c in ms && matches(m, a) && matches(a, c) ==> matches(m, c)
  }

  /** No mask of the list is matched by another. */
  ghost predicate Antichain(matches: Matcher, items: seq<Item>) {
    forall i, j :: 0 <= i < |items| && 0 <= j < |items| && i != j ==> !matches(items[i].mask, items[j].mask)
  }

  function Masks(items: seq<Item>): set<Mask> {
    set i | 0 <= i < |items| :: items[i].mask
  }

  // ---------- what the scans do ----------

  /** The scan for +: the first mask that matches the new one ends it; masks the
      new one matches are dropped on the way. */
  datatype Scan = Scan(hit: bool, kept: seq<Item>, dropped: seq<Mask>)

  function ScanAdd(matches: Matcher, items: seq<Item>, a: Mask): Scan {
    if items == [] then Scan(false, [], [])
    else if matches(a, items[0].mask) then Scan(true, items, [])
    else
      var rest := ScanAdd(matches, items[1..], a);
      if matches(items[0].mask, a) then Scan(rest.hit, rest.kept, [items[0].mask] + rest.dropped)
      else Scan(rest.hit, [items[0]] + rest.kept, rest.dropped)
  }

  /** The scan for -: masks that match or are matched go. */
  predicate Comparable(matches: Matcher, a: Mask, m: Mask) {
    matches(a, m) || matches(m, a)
  }

  function Keep(matches: Matcher, items: seq<Item>, a: Mask): seq<Item> {
    if items == [] then []
    else if Comparable(matches, a, items[0].mask) then Keep(matches, items[1..], a)
    else [items[0]] + Keep(matches, items[1..], a)
  }

  function Dropped(matches: Matcher, items: seq<Item>, a: Mask): seq<Mask> {
    if items == [] then []
    else if Comparable(matches, a, items[0].mask) then [items[0].mask] + Dropped(matches, items[1..], a)
    else Dropped(matches, items[1..], a)
  }

  /** Where chanmode_mask_add links a new item: behind the first run of items with
      the same setter, else at the tail. */
  function InsertAt(items: seq<Item>, ihash: int): (k: nat)
    ensures k <= |items|
  {
    if items == [] then 0
    else if items[0].ihash == ihash && (|items| == 1 || items[1].ihash != ihash) then 1
    else 1 + InsertAt(items[1..], ihash)
  }

  /** In front of j the last item of a run of one setter. */
  predicate EndsRun(items: seq<Item>, ihash: int, j: nat) {
    0 < j <= |items| && items[j - 1].ihash == ihash && (j < |items| ==> items[j].ihash != ihash)
  }

  /** A new item goes behind the first run of its setter, or to the tail if it has none. */
  lemma {:induction false} InsertedBehindRun(items: seq<Item>, ihash: int)
    ensures var k := InsertAt(items, ihash);
      && (forall j :: 0 <= j < k ==> !EndsRun(items, ihash, j))
      && (if exists i :: 0 <= i < |items| && items[i].ihash == ihash then EndsRun(items, ihash, k) else k == |items|)
  {
    if items != [] && InsertAt(items, ihash) != 1 {
      InsertedBehindRun(items[1..], ihash);
      assert forall i :: 0 < i < |items| ==> items[i] == items[1..][i - 1];
      forall j | 0 <= j < InsertAt(items, ihash)
        ensures !EndsRun(items, ihash, j)
      {
        assert j > 0 ==> !EndsRun(items[1..], ihash, j - 1);
      }
    }
  }

  function Inserted(items: seq<Item>, item: Item): seq<Item> {
    var k := InsertAt(items, item.ihash);
    items[..k] + [item] + items[k..]
  }

  /** Result, list and inserted deletions of chanmode_bounce_mask for +. */
  datatype Outcome = Outcome(result: int, items: seq<Item>, dels: seq<Mask>)

  function BounceAdd(matches: Matcher, items: seq<Item>, item: Item): Outcome {
    var s := ScanAdd(matches, items, item.mask);
    if s.hit then Outcome(1, s.kept, s.dropped)
    else if |s.kept| == MAXBANS then Outcome(-2, s.kept, s.dropped)
    else Outcome(0, Inserted(s.kept, item), s.dropped)
  }

  function BounceDel(matches: Matcher, items: seq<Item>, a: Mask): Outcome {
    Outcome(1, Keep(matches, items, a), Dropped(matches, items, a))
  }

  /** The scans go through a list in its order: what is kept and what is dropped of a first part
      comes in front of that of the rest. */
  lemma {:induction false} ScanInTurn(matches: Matcher, x: seq<Item>, y: seq<Item>, a: Mask)
    requires !ScanAdd(matches, x, a).hit
    ensures var first, rest := ScanAdd(matches, x, a), ScanAdd(matches, y, a);
      ScanAdd(matches, x + y, a) == Scan(rest.hit, first.kept + rest.kept, first.dropped + rest.dropped)
  {
    if x == [] {
      assert x + y == y;
    } else {
      assert (x + y)[1..] == x[1..] + y;
      ScanInTurn(matches, x[1..], y, a);
      var first, rest := ScanAdd(matches, x[1..], a), ScanAdd(matches, y, a);
      Assoc([x[0]], first.kept, rest.kept);
      Assoc([x[0].mask], first.dropped, rest.dropped);
    }
  }

  lemma {:induction false} DelInTurn(matches: Matcher, x: seq<Item>, y: seq<Item>, a: Mask)
    ensures Keep(matches, x + y, a) == Keep(matches, x, a) + Keep(matches, y, a)
    ensures Dropped(matches, x + y, a) == Dropped(matches, x, a) + Dropped(matches, y, a)
  {
    if x == [] {
      assert x + y == y;
    } else {
      assert (x + y)[1..] == x[1..] + y;
      DelInTurn(matches, x[1..], y, a);
    }
  }

  // ---------- adding a mask ----------

  ghost predicate Matched(matches: Matcher, s: string, items: seq<Item>) {
    exists m :: m in Masks(items) && matches(s, m)
  }

  lemma MasksCons(items: seq<Item>)
    requires items != []
    ensures Masks(items) == {items[0].mask} + Masks(items[1..])
  {
    forall m | m in Masks(items)
      ensures m in {items[0].mask} + Masks(items[1..])
    {
      var i :| 0 <= i < |items| && items[i].mask == m;
      assert i > 0 ==> items[1..][i - 1].mask == m;
    }
    forall m | m in Masks(items[1..])
      ensures m in Masks(items)
    {
      var i :| 0 <= i < |items| - 1 && items[1..][i].mask == m;
      assert items[i + 1].mask == m;
    }
  }

  lemma AntichainTail(matches: Matcher, items: seq<Item>)
    requires items != [] && Antichain(matches, items)
    ensures Antichain(matches, items[1..])
    ensures forall m :: m in Masks(items[1..]) ==> !matches(m, items[0].mask) && !matches(items[0].mask, m)
  {
    var rest := items[1..];
    assert forall i :: 0 <= i < |rest| ==> rest[i] == items[i + 1];
    forall m | m in Masks(rest)
      ensures !matches(m, items[0].mask) && !matches(items[0].mask, m)
    {
      var i :| 0 <= i < |rest| && rest[i].mask == m;
      assert items[i + 1].mask == m;
    }
  }

  /** The scan is stopped exactly by a list that already matches the new mask. */
  lemma {:induction false} ScanHits(matches: Matcher, items: seq<Item>, a: Mask)
    ensures ScanAdd(matches, items, a).hit <==> Matched(matches, a, items)
  {
    if items == [] {
    } else {
      MasksCons(items);
      ScanHits(matches, items[1..], a);
      assert items[0].mask in Masks(items);
    }
  }

  /** The index of the first mask that matches a. */
  function FirstMatch(matches: Matcher, items: seq<Item>, a: Mask): (k: nat)
    ensures k <= |items| && (k < |items| ==> matches(a, items[k].mask))
    ensures forall i :: 0 <= i < k ==> !matches(a, items[i].mask)
  {
    if items == [] || matches(a, items[0].mask) then 0 else 1 + FirstMatch(matches, items[1..], a)
  }

  /** For any matching relation: a bounced + leaves the list alone exactly when no
      mask in front of the one that stops the scan is matched by the new mask. */
  lemma {:induction false} BouncedAddUntouched(matches: Matcher, items: seq<Item>, a: Mask)
    requires ScanAdd(matches, items, a).hit
    ensures var s := ScanAdd(matches, items, a);
      (s.kept == items && s.dropped == [])
      <==> forall i :: 0 <= i < FirstMatch(matches, items, a) ==> !matches(items[i].mask, a)
    ensures ScanAdd(matches, items, a).dropped == [] ==> ScanAdd(matches, items, a).kept == items
  {
    if !matches(a, items[0].mask) {
      var rest := items[1..];
      BouncedAddUntouched(matches, rest, a);
      assert items == [items[0]] + rest;
      assert FirstMatch(matches, items, a) == 1 + FirstMatch(matches, rest, a);
      assert forall i :: 1 <= i < |items| ==> rest[i - 1] == items[i];
    }
  }

  /** The first k items of a longer list. */
  lemma TakeCons(items: seq<Item>, k: nat)
    requires items != [] && k <= |items| - 1
    ensures items[..k + 1] != [] && items[..k + 1][0] == items[0] && items[..k + 1][1..] == items[1..][..k]
    ensures items[k + 1..] == items[1..][k..]
    ensures Masks(items[..k + 1]) == {items[0].mask} + Masks(items[1..][..k])
  {
    MasksCons(items[..k + 1]);
  }

  /** A bounced + drops the masks it matches in front of the one that stops it. */
  lemma {:induction false} ScanBefore(matches: Matcher, items: seq<Item>, a: Mask)
    requires ScanAdd(matches, items, a).hit
    ensures var s, k := ScanAdd(matches, items, a), FirstMatch(matches, items, a);
      && (forall m :: m in s.dropped <==> m in Masks(items[..k]) && matches(m, a))
      && Masks(s.kept) == (set m | m in Masks(items[..k]) && !matches(m, a)) + Masks(items[k..])
  {
    var k := FirstMatch(matches, items, a);
    if k == 0 {
      assert items[..0] == [] && items[0..] == items;
    } else {
      var rest := ScanAdd(matches, items[1..], a);
      ScanBefore(matches, items[1..], a);
      TakeCons(items, k - 1);
      if !matches(items[0].mask, a) {
        assert ([items[0]] + rest.kept)[1..] == rest.kept;
        MasksCons([items[0]] + rest.kept);
      }
    }
  }

  /** In an antichain among whose masks matching composes that is always so. */
  lemma BouncedAddKeepsAntichain(matches: Matcher, items: seq<Item>, a: Mask)
    requires Antichain(matches, items) && ComposesThrough(matches, Masks(items), a)
    requires ScanAdd(matches, items, a).hit
    ensures ScanAdd(matches, items, a).kept == items && ScanAdd(matches, items, a).dropped == []
  {
    ScanHits(matches, items, a);
    var k := FirstMatch(matches, items, a);
    var m :| m in Masks(items) && matches(a, m);
    var w :| 0 <= w < |items| && items[w].mask == m;
    assert k <= w;
    forall i | 0 <= i < k
      ensures !matches(items[i].mask, a)
    {
      assert items[i].mask in Masks(items) && items[k].mask in Masks(items);
      assert !matches(items[i].mask, items[k].mask);
    }
    BouncedAddUntouched(matches, items, a);
  }

  /** What is kept and dropped when nothing stops the scan. */
  lemma {:induction false} ScanFilters(matches: Matcher, items: seq<Item>, a: Mask)
    requires !ScanAdd(matches, items, a).hit
    ensures var s := ScanAdd(matches, items, a);
      && Masks(s.kept) == (set m | m in Masks(items) && !matches(m, a))
      && (forall m :: m in s.dropped <==> m in Masks(items) && matches(m, a))
      && |s.kept| + |s.dropped| == |items|
      && (s.dropped == [] ==> s.kept == items)
  {
    if items == [] {
    } else {
      MasksCons(items);
      ScanFilters(matches, items[1..], a);
      var rest := ScanAdd(matches, items[1..], a);
      if !matches(items[0].mask, a) {
        assert ([items[0]] + rest.kept)[1..] == rest.kept;
        MasksCons([items[0]] + rest.kept);
        assert items == [items[0]] + items[1..];
      }
    }
  }

  lemma {:induction false} ScanKeepsAntichain(matches: Matcher, items: seq<Item>, a: Mask)
    requires Antichain(matches, items)
    ensures Antichain(matches, ScanAdd(matches, items, a).kept)
    ensures Masks(ScanAdd(matches, items, a).kept) <= Masks(items) && |ScanAdd(matches, items, a).kept| <= |items|
  {
    if items != [] && !matches(a, items[0].mask) {
      AntichainTail(matches, items);
      MasksCons(items);
      ScanKeepsAntichain(matches, items[1..], a);
      var rest := ScanAdd(matches, items[1..], a).kept;
      if !matches(items[0].mask, a) {
        AntichainCons(matches, items[0], rest);
      }
    }
  }

  lemma AntichainCons(matches: Matcher, item: Item, rest: seq<Item>)
    requires Antichain(matches, rest)
    requires forall m :: m in Masks(rest) ==> !matches(m, item.mask) && !matches(item.mask, m)
    ensures Antichain(matches, [item] + rest)
    ensures Masks([item] + rest) == {item.mask} + Masks(rest)
  {
    var all := [item] + rest;
    assert all[1..] == rest;
    MasksCons(all);
    forall i, j | 0 <= i < |all| && 0 <= j < |all| && i != j
      ensures !matches(all[i].mask, all[j].mask)
    {
      if i == 0 {
        assert all[j].mask == rest[j - 1].mask;
      } else if j == 0 {
        assert all[i].mask == rest[i - 1].mask;
      } else {
        assert all[i].mask == rest[i - 1].mask && all[j].mask == rest[j - 1].mask;
      }
    }
  }

  lemma InsertedMasks(items: seq<Item>, item: Item)
    ensures Masks(Inserted(items, item)) == Masks(items) + {item.mask}
    ensures |Inserted(items, item)| == |items| + 1
  {
    var k, all := InsertAt(items, item.ihash), Inserted(items, item);
    assert all[k] == item;
    forall m | m in Masks(all)
      ensures m in Masks(items) + {item.mask}
    {
      var i :| 0 <= i < |all| && all[i].mask == m;
      var x := InsertedFrom(items, item, i);
    }
    forall m | m in Masks(items)
      ensures m in Masks(all)
    {
      var i :| 0 <= i < |items| && items[i].mask == m;
      assert all[if i < k then i else i + 1].mask == m;
    }
  }

  lemma InsertedAntichain(matches: Matcher, items: seq<Item>, item: Item)
    requires Antichain(matches, items)
    requires forall m :: m in Masks(items) ==> !matches(m, item.mask) && !matches(item.mask, m)
    ensures Antichain(matches, Inserted(items, item))
  {
    var all := Inserted(items, item);
    forall i, j | 0 <= i < |all| && 0 <= j < |all| && i != j
      ensures !matches(all[i].mask, all[j].mask)
    {
      var x := InsertedFrom(items, item, i);
      var y := InsertedFrom(items, item, j);
    }
  }

  /** Where the i-th item of the new list was before; the new item itself is at -1. */
  lemma InsertedFrom(items: seq<Item>, item: Item, i: nat) returns (x: int)
    requires i < |Inserted(items, item)|
    ensures var k := InsertAt(items, item.ihash);
      x == if i < k then i else if i == k then -1 else i - 1
    ensures x == -1 ==> Inserted(items, item)[i] == item
    ensures x != -1 ==> 0 <= x < |items| && Inserted(items, item)[i] == items[x] && items[x].mask in Masks(items)
  {
    var k := InsertAt(items, item.ihash);
    x := if i < k then i else if i == k then -1 else i - 1;
  }

  /** What a + does, for any matching relation and any list: it is bounced exactly when
      a mask of the list matches the new one; if it gets through, the masks the new one
      matches are replaced by it. */
  lemma AddIsExact(matches: Matcher, items: seq<Item>, item: Item)
    ensures var r, a := BounceAdd(matches, items, item), item.mask;
      && (r.result == 1 || r.result == -2 || r.result == 0)
      && (r.result == 1 <==> Matched(matches, a, items))
      && (r.result == 0 ==> Masks(r.items) == (set m | m in Masks(items) && !matches(m, a)) + {a})
      && (r.result != 1 ==> forall m :: m in r.dels <==> m in Masks(items) && matches(m, a))
      && (r.result == -2 && |items| <= MAXBANS ==> |items| == MAXBANS && r.items == items && r.dels == [])
  {
    var a := item.mask;
    var s := ScanAdd(matches, items, a);
    ScanHits(matches, items, a);
    if !s.hit {
      ScanFilters(matches, items, a);
      InsertedMasks(s.kept, item);
    }
  }

  /** For any matching relation a + leaves an antichain of at most 64 masks. */
  lemma AddKeepsAntichain(matches: Matcher, items: seq<Item>, item: Item)
    requires Antichain(matches, items) && |items| <= MAXBANS
    ensures var r := BounceAdd(matches, items, item); Antichain(matches, r.items) && |r.items| <= MAXBANS
  {
    var s := ScanAdd(matches, items, item.mask);
    ScanKeepsAntichain(matches, items, item.mask);
    if !s.hit && |s.kept| != MAXBANS {
      KeptIsUnrelated(matches, items, item.mask);
      InsertedAntichain(matches, s.kept, item);
    }
  }

  /** Where matching composes, a + is all or nothing. */
  lemma AddIsAllOrNothing(matches: Matcher, items: seq<Item>, item: Item)
    requires Antichain(matches, items) && |items| <= MAXBANS
    requires ComposesThrough(matches, Masks(items), item.mask)
    ensures var r := BounceAdd(matches, items, item); r.result != 0 ==> r.items == items && r.dels == []
  {
    AddIsExact(matches, items, item);
    if ScanAdd(matches, items, item.mask).hit {
      BouncedAddKeepsAntichain(matches, items, item.mask);
    }
  }

  lemma KeptIsUnrelated(matches: Matcher, items: seq<Item>, a: Mask)
    requires !ScanAdd(matches, items, a).hit
    ensures Masks(ScanAdd(matches, items, a).kept) == set m | m in Masks(items) && !matches(m, a)
    ensures forall m :: m in Masks(ScanAdd(matches, items, a).kept) ==> !matches(m, a) && !matches(a, m)
  {
    ScanHits(matches, items, a);
    ScanFilters(matches, items, a);
  }

  /** A + that gets through loses no string that each mask it drops hands on to it, and
      matches besides just what the new mask matches. */
  lemma AddExtendsMatching(matches: Matcher, items: seq<Item>, item: Item, s: string)
    requires BounceAdd(matches, items, item).result == 0
    requires forall m :: m in BounceAdd(matches, items, item).dels && matches(s, m) ==> matches(s, item.mask)
    ensures Matched(matches, s, BounceAdd(matches, items, item).items)
       <==> Matched(matches, s, items) || matches(s, item.mask)
  {
    AddIsExact(matches, items, item);
    var after := BounceAdd(matches, items, item).items;
    if Matched(matches, s, items) {
      var m :| m in Masks(items) && matches(s, m);
      assert item.mask in Masks(after);
    }
    if matches(s, item.mask) {
      assert item.mask in Masks(after);
    }
  }

  // ---------- with the server's own matching ----------

  /** Where no mask has a `?` and the step budget suffices for each pair, str_match
      composes, so that a + is all or nothing. */
  lemma StarMasksCompose(ms: set<Mask>, a: Mask)
    requires forall m :: m in ms ==> '?' !in m
    requires forall m, c :: m in ms && c in ms ==> Glob.BudgetSuffices(m, c)
    ensures ComposesThrough(Glob.StrMatches, ms, a)
  {
    forall m, c | m in ms && c in ms && Glob.StrMatches(m, a) && Glob.StrMatches(a, c)
      ensures Glob.StrMatches(m, c)
    {
      MatchBudget.MeaningComposes(m, a, c);
      Glob.StrMatchesIsMatching(m, c);
    }
  }

  /** A string stays matched when the mask that matched it is dropped, if the new mask has
      no `?` or the old one no `*`, and the budget suffices for the string. */
  lemma CoveredStaysMatched(s: string, m: Mask, a: Mask)
    requires Glob.StrMatches(s, m) && Glob.StrMatches(m, a)
    requires ('?' !in a || '*' !in m) && Glob.BudgetSuffices(s, a)
    ensures Glob.StrMatches(s, a)
  {
    Glob.StrMatchesIsMatching(s, m);
    Glob.StrMatchesIsMatching(m, a);
    Glob.Transitive(s, m, a);
    Glob.StrMatchesIsMatching(s, a);
  }

  /** With `?` a bounced + can lose a ban: adding "*!*@*" to the antichain "ab!*@*",
      "?!*@*" drops the first and is refused on account of the second. */
  lemma BouncedAddCanDrop()
    ensures var items := [Item("ab!*@*", 0), Item("?!*@*", 0)];
      && Antichain(Glob.StrMatches, items)
      && BounceAdd(Glob.StrMatches, items, Item("*!*@*", 1)) == Outcome(1, [Item("?!*@*", 0)], ["ab!*@*"])
  {
    var ab, q, all, tail := "ab!*@*", "?!*@*", "*!*@*", "!*@*";
    var items := [Item(ab, 0), Item(q, 0)];
    Glob.Reflexive(tail);
    assert ab[1..] == "b!*@*" && ab[1..][1..] == tail && q[1..] == tail && all[1..] == tail;
    assert !Glob.Matches(ab, q) && !Glob.Matches(q, ab);
    assert Glob.Matches(tail, all);
    assert Glob.Matches(ab[1..], all);
    assert Glob.Matches(ab, all) && !Glob.Matches(all, ab) && Glob.Matches(all, q);
    Glob.ShortIsExact(ab, q);
    Glob.ShortIsExact(q, ab);
    Glob.ShortIsExact(ab, all);
    Glob.ShortIsExact(all, ab);
    Glob.ShortIsExact(all, q);
    DropsFirst(Glob.StrMatches, Item(ab, 0), Item(q, 0), Item(all, 1));
  }

  /** Two unrelated masks; the new one matches the first and is matched by the second. */
  lemma DropsFirst(matches: Matcher, x: Item, y: Item, item: Item)
    requires !matches(x.mask, y.mask) && !matches(y.mask, x.mask)
    requires matches(x.mask, item.mask) && !matches(item.mask, x.mask) && matches(item.mask, y.mask)
    ensures Antichain(matches, [x, y]) && BounceAdd(matches, [x, y], item) == Outcome(1, [y], [x.mask])
  {
    assert [x, y][1..] == [y];
    assert ScanAdd(matches, [y], item.mask) == Scan(true, [y], []);
  }

  /** ... and so can one without: the long mask is covered by the middle one and goes; the
      middle one is covered by the short one and is bounced; but 512 turns are too few
      for the long and the short one. */
  lemma BudgetBreaksAllOrNothing(x: Item, y: Item, item: Item)
    requires MatchBudget.IsLong(x.mask) && MatchBudget.IsShort(y.mask) && MatchBudget.IsMiddle(item.mask)
    ensures Antichain(Glob.StrMatches, [x, y]) && '?' !in x.mask && '?' !in y.mask && '?' !in item.mask
    ensures BounceAdd(Glob.StrMatches, [x, y], item) == Outcome(1, [y], [x.mask])
  {
    MatchBudget.BudgetBreaksComposition(x.mask, item.mask, y.mask);
    DropsFirst(Glob.StrMatches, x, y, item);
  }

  /** With `?` a + that gets through can unban: "?!*@*" replaces "*!*@a", which it matches
      as a text, and "ab!u@a" is matched no more. */
  lemma AcceptedAddCanUncover()
    ensures var items, r := [Item("*!*@a", 0)], BounceAdd(Glob.StrMatches, [Item("*!*@a", 0)], Item("?!*@*", 1));
      && r == Outcome(0, [Item("?!*@*", 1)], ["*!*@a"])
      && Matched(Glob.StrMatches, "ab!u@a", items) && !Matched(Glob.StrMatches, "ab!u@a", r.items)
  {
    UncoverTexts("*!*@a", "?!*@*", "ab!u@a");
    ReplacesOnly(Glob.StrMatches, Item("*!*@a", 0), Item("?!*@*", 1), "ab!u@a");
  }

  /** ... and without `?`: the short mask replaces the middle one, by which the long text is
      matched, and 512 turns are too few to match it with the short one. */
  lemma AcceptedAddCanMiss(x: Item, item: Item, s: string)
    requires MatchBudget.IsMiddle(x.mask) && MatchBudget.IsShort(item.mask) && MatchBudget.IsLong(s)
    ensures '?' !in x.mask && '?' !in item.mask && Glob.Matches(s, item.mask)
    ensures BounceAdd(Glob.StrMatches, [x], item) == Outcome(0, [item], [x.mask])
    ensures Matched(Glob.StrMatches, s, [x]) && !Matched(Glob.StrMatches, s, [item])
  {
    MatchBudget.BudgetBreaksComposition(s, x.mask, item.mask);
    MatchBudget.ShortMissesMiddle(item.mask, x.mask);
    ReplacesOnly(Glob.StrMatches, x, item, s);
  }

  lemma ReplacesOnly(matches: Matcher, x: Item, item: Item, s: string)
    requires matches(x.mask, item.mask) && !matches(item.mask, x.mask) && matches(s, x.mask) && !matches(s, item.mask)
    ensures BounceAdd(matches, [x], item) == Outcome(0, [item], [x.mask])
    ensures Matched(matches, s, [x]) && !Matched(matches, s, [item])
  {
    assert [x][1..] == [];
    assert ScanAdd(matches, [], item.mask) == Scan(false, [], []);
    assert Inserted([], item) == [item];
    assert [x][0].mask in Masks([x]);
  }

  lemma UncoverTexts(m: Mask, a: Mask, s: string)
    requires m == "*!*@a" && a == "?!*@*" && s == "ab!u@a"
    ensures Glob.StrMatches(m, a) && !Glob.StrMatches(a, m) && Glob.StrMatches(s, m) && !Glob.StrMatches(s, a)
  {
    assert Glob.Matches("", "") && Glob.Matches("a", "*");
    assert Glob.Matches("@a", "@*") && Glob.Matches("*@a", "*@*") && Glob.Matches(m, a);
    if Glob.Matches(a, m) {
      Glob.LastCharacter(a, m);
    }
    assert Glob.Matches("@a", "@a") && Glob.Matches("@a", "*@a") && Glob.Matches("u@a", "*@a");
    assert Glob.Matches("!u@a", "!*@a") && Glob.Matches("!u@a", m) && Glob.Matches("b!u@a", m) && Glob.Matches(s, m);
    assert !Glob.Matches(s, a);
    Glob.ShortIsExact(m, a);
    Glob.ShortIsExact(a, m);
    Glob.ShortIsExact(s, m);
    Glob.ShortIsExact(s, a);
  }

  // ---------- removing masks ----------

  lemma {:induction false} DelRemovesComparable(matches: Matcher, items: seq<Item>, a: Mask)
    ensures var r := BounceDel(matches, items, a);
      && Masks(r.items) == (set m | m in Masks(items) && !Comparable(matches, a, m))
      && (forall m :: m in r.dels <==> m in Masks(items) && Comparable(matches, a, m))
      && (Antichain(matches, items) ==> Antichain(matches, r.items))
      && |r.items| + |r.dels| == |items|
  {
    if items == [] {
    } else {
      MasksCons(items);
      DelRemovesComparable(matches, items[1..], a);
      var rest := Keep(matches, items[1..], a);
      if !Comparable(matches, a, items[0].mask) {
        assert ([items[0]] + rest)[1..] == rest;
        MasksCons([items[0]] + rest);
      }
      if Antichain(matches, items) {
        AntichainTail(matches, items);
        if !Comparable(matches, a, items[0].mask) {
          AntichainCons(matches, items[0], rest);
        }
      }
    }
  }

  /** Removing a mask of the list by its own text removes it alone. */
  lemma {:induction false} DelOfMember(matches: Matcher, items: seq<Item>, a: Mask)
    requires Antichain(matches, items) && matches(a, a) && a in Masks(items)
    ensures BounceDel(matches, items, a).dels == [a]
    ensures Masks(BounceDel(matches, items, a).items) == Masks(items) - {a}
  {
    DelRemovesComparable(matches, items, a);
    MasksCons(items);
    AntichainTail(matches, items);
    if a == items[0].mask {
      DelOfStranger(matches, items[1..], a);
    } else {
      DelOfMember(matches, items[1..], a);
    }
    assert forall m :: m in Masks(items) && m != a ==> !Comparable(matches, a, m) by {
      MembersIncomparable(matches, items, a);
    }
  }

  lemma {:induction false} DelOfStranger(matches: Matcher, items: seq<Item>, a: Mask)
    requires forall m :: m in Masks(items) ==> !Comparable(matches, a, m)
    ensures BounceDel(matches, items, a) == Outcome(1, items, [])
  {
    if items == [] {
    } else {
      MasksCons(items);
      DelOfStranger(matches, items[1..], a);
      assert items == [items[0]] + items[1..];
    }
  }

  lemma MembersIncomparable(matches: Matcher, items: seq<Item>, a: Mask)
    requires Antichain(matches, items) && a in Masks(items)
    ensures forall m :: m in Masks(items) && m != a ==> !Comparable(matches, a, m)
  {
    var i :| 0 <= i < |items| && items[i].mask == a;
    forall m | m in Masks(items) && m != a
      ensures !Comparable(matches, a, m)
    {
      var j :| 0 <= j < |items| && items[j].mask == m;
    }
  }

  /** A scan of the rest, seen from the part already scanned. */
  function After(prefix: seq<Item>, dels: seq<Mask>, rest: Scan): Scan {
    Scan(rest.hit, prefix + rest.kept, dels + rest.dropped)
  }

  lemma ScanStep(matches: Matcher, prefix: seq<Item>, dels: seq<Mask>, left: seq<Item>, a: Mask)
    requires left != []
    ensures var whole := After(prefix, dels, ScanAdd(matches, left, a));
      var rest := ScanAdd(matches, left[1..], a);
      if matches(a, left[0].mask) then whole == Scan(true, prefix + left, dels)
      else if matches(left[0].mask, a) then whole == After(prefix, dels + [left[0].mask], rest)
      else whole == After(prefix + [left[0]], dels, rest)
  {
    var rest := ScanAdd(matches, left[1..], a);
    assert dels + [] == dels;
    Assoc(dels, [left[0].mask], rest.dropped);
    Assoc(prefix, [left[0]], rest.kept);
  }

  /** How far a scan has come: the first k items are kept. */
  ghost predicate Scanned(matches: Matcher, items: seq<Item>, k: nat, dels: seq<Mask>, a: Mask, whole: Scan) {
    k <= |items| && whole == After(items[..k], dels, ScanAdd(matches, items[k..], a))
  }

  lemma ScanStops(matches: Matcher, items: seq<Item>, k: nat, dels: seq<Mask>, a: Mask, whole: Scan)
    requires Scanned(matches, items, k, dels, a, whole) && k < |items| && matches(a, items[k].mask)
    ensures whole == Scan(true, items, dels)
  {
    ScanStep(matches, items[..k], dels, items[k..], a);
    assert items[..k] + items[k..] == items;
  }

  lemma ScanDrops(matches: Matcher, items: seq<Item>, k: nat, dels: seq<Mask>, a: Mask, whole: Scan, left: seq<Item>)
    requires Scanned(matches, items, k, dels, a, whole) && k < |items|
    requires !matches(a, items[k].mask) && matches(items[k].mask, a) && left == items[..k] + items[k + 1..]
    ensures Scanned(matches, left, k, dels + [items[k].mask], a, whole)
  {
    ScanStep(matches, items[..k], dels, items[k..], a);
    assert items[k..][1..] == items[k + 1..] == left[k..] && left[..k] == items[..k];
  }

  lemma ScanKeeps(matches: Matcher, items: seq<Item>, k: nat, dels: seq<Mask>, a: Mask, whole: Scan)
    requires Scanned(matches, items, k, dels, a, whole) && k < |items|
    requires !matches(a, items[k].mask) && !matches(items[k].mask, a)
    ensures Scanned(matches, items, k + 1, dels, a, whole)
  {
    ScanStep(matches, items[..k], dels, items[k..], a);
    assert items[k..][1..] == items[k + 1..] && items[..k + 1] == items[..k] + [items[k]];
  }

  lemma ScanEnds(matches: Matcher, items: seq<Item>, dels: seq<Mask>, a: Mask, whole: Scan)
    requires Scanned(matches, items, |items|, dels, a, whole)
    ensures whole == Scan(false, items, dels)
  {
    assert items[..|items|] + [] == items && dels + [] == dels;
  }

  lemma ScanBegins(matches: Matcher, items: seq<Item>, a: Mask)
    ensures Scanned(matches, items, 0, [], a, ScanAdd(matches, items, a))
  {
    var s := ScanAdd(matches, items, a);
    assert items[0..] == items && items[..0] + s.kept == s.kept && [] + s.dropped == s.dropped;
  }

  // ---------- the list in memory ----------

  class MaskList {
    var items: seq<Item>

    constructor ()
      ensures items == []
    {
      items := [];
    }

    /** chanmode_mask_delete. */
    method Delete(k: nat)
      requires k < |items|
      modifies this
      ensures items == old(items)[..k] + old(items)[k + 1..]
    {
      items := items[..k] + items[k + 1..];
    }

    /** chanmode_mask_add. */
    method Add(item: Item) returns (result: int)
      modifies this
      ensures |old(items)| == MAXBANS ==> result == -2 && items == old(items)
      ensures |old(items)| != MAXBANS ==> result == 0 && items == Inserted(old(items), item)
    {
      if |items| == MAXBANS {
        return -2;
      }
      var k := 0;
      while k < |items|
        invariant 0 <= k <= |items| && k + InsertAt(items[k..], item.ihash) == InsertAt(items, item.ihash)
      {
        ghost var rest := items[k..];
        assert rest[1..] == items[k + 1..];
        if items[k].ihash == item.ihash {
          if k + 1 == |items| || items[k + 1].ihash != item.ihash {
            k := k + 1;
            assert k == InsertAt(items, item.ihash);
            items := items[..k] + [item] + items[k..];
            return 0;
          }
        }
        k := k + 1;
      }
      items := items + [item];
      return 0;
    }

    /** chanmode_bounce_mask for +. The masks in `dels` are the changes inserted in
        front of the current one. */
    method TryAdd(matches: Matcher, item: Item) returns (result: int, dels: seq<Mask>)
      modifies this
      ensures Outcome(result, items, dels) == BounceAdd(matches, old(items), item)
    {
      dels := [];
      var k := 0;
      ghost var whole := ScanAdd(matches, items, item.mask);
      ScanBegins(matches, items, item.mask);
      while k < |items|
        invariant k <= |items| && Scanned(matches, items, k, dels, item.mask, whole)
      {
        if matches(item.mask, items[k].mask) {
          ScanStops(matches, items, k, dels, item.mask, whole);
          return 1, dels;
        }
        ghost var before := items;
        if matches(items[k].mask, item.mask) {
          dels := dels + [items[k].mask];
          Delete(k);
          ScanDrops(matches, before, k, dels[..|dels| - 1], item.mask, whole, items);
        } else {
          ScanKeeps(matches, items, k, dels, item.mask, whole);
          k := k + 1;
        }
      }
      ScanEnds(matches, items, dels, item.mask, whole);
      result := Add(item);
    }

    /** chanmode_bounce_mask for -: always 1, the deletions speak for themselves. */
    method TryDel(matches: Matcher, a: Mask) returns (result: int, dels: seq<Mask>)
      modifies this
      ensures Outcome(result, items, dels) == BounceDel(matches, old(items), a)
    {
      dels := [];
      var k := 0;
      while k < |items|
        invariant 0 <= k <= |items|
        invariant items[..k] + Keep(matches, items[k..], a) == Keep(matches, old(items), a)
        invariant dels + Dropped(matches, items[k..], a) == Dropped(matches, old(items), a)
      {
        ghost var head, rest := items[k], items[k + 1..];
        assert items[k..][1..] == rest;
        if Comparable(matches, a, items[k].mask) {
          Assoc(dels, [head.mask], Dropped(matches, rest, a));
          dels := dels + [items[k].mask];
          ghost var before := items;
          Delete(k);
          assert items[k..] == rest && items[..k] == before[..k];
        } else {
          Assoc(items[..k], [head], Keep(matches, rest, a));
          k := k + 1;
          assert items[..k] == items[..k - 1] + [head];
        }
      }
      assert items[k..] == [] && items[..k] + [] == items && dels + [] == dels;
      return 1, dels;
    }
  }
}
