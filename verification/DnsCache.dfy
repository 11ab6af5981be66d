/** The resolver's cache: cache_dns_entry_oldest, cache_dns_entry_new, cache_dns_put and
    cache_dns_pick_reverse of lib/servauth/cache.c, and the list of most recently used
    addresses it amounts to. */
module DnsCache {
  import opened Prelude

  // ---------- lists of addresses ----------

  /** Where a stands first; the length if it is not there. */
  function Place(s: seq<nat>, a: nat): (k: nat)
    ensures k <= |s| && (k < |s| ==> s[k] == a) && forall i :: 0 <= i < k ==> s[i] != a
  {
    if s == [] || s[0] == a then 0 else 1 + Place(s[1..], a)
  }

  function WithoutLen(n: nat, k: nat): nat {
    if k < n then n - 1 else n
  }

  function Without<T>(s: seq<T>, k: nat): (r: seq<T>)
    ensures |r| == WithoutLen(|s|, k)
    ensures forall i :: 0 <= i < |r| ==> r[i] == if i < k then s[i] else s[i + 1]
  {
    seq(WithoutLen(|s|, k), i requires 0 <= i < WithoutLen(|s|, k) => if i < k then s[i] else s[i + 1])
  }

  function Leading<T>(s: seq<T>, n: nat): seq<T> {
    if |s| <= n then s else s[..n]
  }

  /** a moved to the front, or put there. */
  function ToFront(s: seq<nat>, a: nat): (r: seq<nat>)
    ensures |r| == WithoutLen(|s|, Place(s, a)) + 1 && r[0] == a
  {
    [a] + Without(s, Place(s, a))
  }

  lemma ToFrontAt(s: seq<nat>, a: nat, i: nat)
    requires i < |ToFront(s, a)|
    ensures var k := Place(s, a);
      ToFront(s, a)[i] == if i == 0 then a else if i <= k then s[i - 1] else s[i]
  {
    assert i > 0 ==> ToFront(s, a)[i] == Without(s, Place(s, a))[i - 1];
  }

  lemma ToFrontDistinct(s: seq<nat>, a: nat)
    requires Distinct(s)
    ensures Distinct(ToFront(s, a)) && forall x :: x in ToFront(s, a) <==> x == a || x in s
  {
    var r, k := ToFront(s, a), Place(s, a);
    forall i, j | 0 <= i < j < |r|
      ensures r[i] != r[j]
    {
      ToFrontAt(s, a, i);
      ToFrontAt(s, a, j);
    }
    forall x | x in s
      ensures x in r
    {
      var i :| 0 <= i < |s| && s[i] == x;
      var j := if i < k then i + 1 else if i == k then 0 else i;
      ToFrontAt(s, a, j);
      assert r[j] == x;
    }
  }

  // ---------- questions ----------

  /** Questions asked, the last one outermost, each with the name found if it must be
      looked up. */
  datatype History = Quiet | Asked(before: History, addr: nat, found: string)

  /** All addresses ever asked for, the last one first. */
  function Recent(h: History): seq<nat> {
    match h
    case Quiet => []
    case Asked(before, a, _) => ToFront(Recent(before), a)
  }

  predicate EverAsked(h: History, a: nat) {
    h.Asked? && (h.addr == a || EverAsked(h.before, a))
  }

  /** The addresses asked for since a was. */
  function Since(h: History, a: nat): set<nat> {
    match h
    case Quiet => {}
    case Asked(before, b, _) => if a == b then {} else Since(before, a) + {b}
  }

  lemma {:induction false} RecentIsAsked(h: History)
    ensures Distinct(Recent(h)) && forall a :: a in Recent(h) <==> EverAsked(h, a)
  {
    match h
    case Quiet =>
    case Asked(before, a, _) =>
      RecentIsAsked(before);
      ToFrontDistinct(Recent(before), a);
  }

  /** Where an element stands once b is moved to the front. */
  function Shifted(i: nat, k: nat): nat {
    if i < k then i + 1 else if i == k then 0 else i
  }

  lemma PlaceShifts(s: seq<nat>, b: nat, i: nat)
    requires Distinct(s) && i < |s|
    ensures var j, r := Shifted(i, Place(s, b)), ToFront(s, b);
      j < |r| && r[j] == s[i] && Place(r, s[i]) == j
  {
    var j := Shifted(i, Place(s, b));
    ToFrontDistinct(s, b);
    ToFrontAt(s, b, j);
  }

  lemma OthersStay(s: seq<nat>, b: nat, i: nat, x: nat)
    requires Distinct(s) && i < |s| && s[i] != b && x in SetOf(s[..i]) + {b}
    ensures x in SetOf(ToFront(s, b)[..Place(ToFront(s, b), s[i])])
  {
    var r, k := ToFront(s, b), Place(s, b);
    PlaceShifts(s, b, i);
    if x == b {
      ToFrontAt(s, b, 0);
      assert r[..Shifted(i, k)][0] == b;
    } else {
      var p :| 0 <= p < i && s[p] == x;
      PlaceShifts(s, b, p);
      assert r[..Shifted(i, k)][Shifted(p, k)] == x;
    }
  }

  lemma NoneComes(s: seq<nat>, b: nat, i: nat, x: nat)
    requires Distinct(s) && i < |s| && s[i] != b && x in SetOf(ToFront(s, b)[..Place(ToFront(s, b), s[i])])
    ensures x in SetOf(s[..i]) + {b}
  {
    var r, k := ToFront(s, b), Place(s, b);
    PlaceShifts(s, b, i);
    var q :| 0 <= q < Shifted(i, k) && r[q] == x;
    ToFrontAt(s, b, q);
    if q > 0 {
      var p := if q <= k then q - 1 else q;
      assert s[..i][p] == x;
    }
  }

  /** Those in front of an address once b is moved to the front: b too. */
  lemma PlaceMoves(s: seq<nat>, b: nat, a: nat)
    requires Distinct(s) && a in s && a != b
    ensures SetOf(ToFront(s, b)[..Place(ToFront(s, b), a)]) == SetOf(s[..Place(s, a)]) + {b}
  {
    var i := Place(s, a);
    forall x
      ensures x in SetOf(s[..i]) + {b} <==> x in SetOf(ToFront(s, b)[..Place(ToFront(s, b), a)])
    {
      if x in SetOf(s[..i]) + {b} {
        OthersStay(s, b, i, x);
      }
      if x in SetOf(ToFront(s, b)[..Place(ToFront(s, b), a)]) {
        NoneComes(s, b, i, x);
      }
    }
  }

  /** An address's place is the number of others asked for since. */
  lemma {:induction false} PlaceCountsOthers(h: History, a: nat)
    requires EverAsked(h, a)
    ensures SetOf(Recent(h)[..Place(Recent(h), a)]) == Since(h, a)
  {
    RecentIsAsked(h);
    if h.addr == a {
      assert Recent(h)[0] == a;
    } else {
      RecentIsAsked(h.before);
      PlaceCountsOthers(h.before, a);
      PlaceMoves(Recent(h.before), h.addr, a);
    }
  }

  // ---------- what a cache of n entries keeps ----------

  const NAME_LEN: nat := 63

  function Clipped(name: string): string {
    Leading(name, NAME_LEN)
  }

  function Kept(h: History, n: nat): (r: seq<nat>)
    ensures |r| <= n
  {
    match h
    case Quiet => []
    case Asked(before, a, _) => Leading(ToFront(Kept(before, n), a), n)
  }

  /** The name kept for an address. */
  function Stored(h: History, n: nat, a: nat): string {
    match h
    case Quiet => ""
    case Asked(before, b, found) =>
      if a != b || a in Kept(before, n) then Stored(before, n, a) else Clipped(found)
  }

  lemma PlaceInLeading(s: seq<nat>, n: nat, a: nat)
    ensures Place(Leading(s, n), a) == if Place(s, a) < n then Place(s, a) else |Leading(s, n)|
  {
  }

  lemma FirstOfToFrontAt(s: seq<nat>, n: nat, a: nat, i: nat)
    requires i < n && i < |ToFront(Leading(s, n), a)| && i < |ToFront(s, a)|
    ensures ToFront(Leading(s, n), a)[i] == ToFront(s, a)[i]
  {
    PlaceInLeading(s, n, a);
    ToFrontAt(Leading(s, n), a, i);
    ToFrontAt(s, a, i);
  }

  lemma FirstOfToFrontLength(s: seq<nat>, n: nat, a: nat)
    ensures |Leading(ToFront(Leading(s, n), a), n)| == |Leading(ToFront(s, a), n)|
  {
    PlaceInLeading(s, n, a);
    ToFrontAt(s, a, 0);
    ToFrontAt(Leading(s, n), a, 0);
  }

  lemma FirstOfToFront(s: seq<nat>, n: nat, a: nat)
    ensures Leading(ToFront(Leading(s, n), a), n) == Leading(ToFront(s, a), n)
  {
    var l, r := Leading(ToFront(Leading(s, n), a), n), Leading(ToFront(s, a), n);
    FirstOfToFrontLength(s, n, a);
    forall i | 0 <= i < |l|
      ensures l[i] == r[i]
    {
      FirstOfToFrontAt(s, n, a, i);
    }
  }

  /** The cache keeps the n addresses asked for last, or all if there are fewer. */
  lemma {:induction false} KeepsMostRecent(h: History, n: nat)
    ensures Kept(h, n) == Leading(Recent(h), n)
  {
    match h
    case Quiet =>
    case Asked(before, a, _) =>
      KeepsMostRecent(before, n);
      FirstOfToFront(Recent(before), n, a);
  }

  /** An address is kept exactly when it was asked for and fewer than n others were since. */
  lemma KeptIffRecent(h: History, n: nat, a: nat)
    ensures a in Kept(h, n) <==> EverAsked(h, a) && |Since(h, a)| < n
  {
    KeepsMostRecent(h, n);
    RecentIsAsked(h);
    var r := Recent(h);
    if EverAsked(h, a) {
      var k := Place(r, a);
      PlaceCountsOthers(h, a);
      DistinctCount(r[..k]);
      if k < n {
        assert Leading(r, n)[k] == a;
      } else {
        assert forall i :: 0 <= i < |Leading(r, n)| ==> Leading(r, n)[i] == r[i];
      }
    }
  }

  // ---------- which name is kept ----------

  /** q is the history up to one of the questions of h. */
  predicate UpToQuestion(q: History, h: History) {
    h.Asked? && (q == h || UpToQuestion(q, h.before))
  }

  /** The last question of q, of a cache of n entries: its address was not asked for before, or
      n others were since. */
  predicate IsMiss(q: History, n: nat) {
    q.Asked? && !(EverAsked(q.before, q.addr) && |Since(q.before, q.addr)| < n)
  }

  /** As much of a name as fits. */
  predicate IsClip(kept: string, name: string) {
    kept <= name && |kept| == Min(|name|, NAME_LEN)
  }

  /** The last miss for an address is q. */
  ghost predicate LastMiss(q: History, h: History, n: nat, a: nat) {
    && UpToQuestion(q, h) && IsMiss(q, n) && q.addr == a
    && forall r :: UpToQuestion(r, h) && UpToQuestion(q, r) && r != q && r.addr == a ==> !IsMiss(r, n)
  }

  /** The name kept for an address is what was found at the last miss for it, as far as it fits. */
  lemma {:induction false} StoredIsLastMiss(h: History, n: nat, a: nat) returns (q: History)
    requires EverAsked(h, a)
    ensures LastMiss(q, h, n, a) && IsClip(Stored(h, n, a), q.found)
  {
    KeptIffRecent(h.before, n, a);
    if h.addr == a && a !in Kept(h.before, n) {
      q := h;
      NoneBehind(h);
    } else {
      q := StoredIsLastMiss(h.before, n, a);
    }
  }

  lemma {:induction false} Smaller(q: History, h: History)
    requires UpToQuestion(q, h)
    ensures q == h || q < h
  {
    if q != h {
      Smaller(q, h.before);
    }
  }

  lemma NoneBehind(h: History)
    requires h.Asked?
    ensures forall r :: UpToQuestion(r, h) && UpToQuestion(h, r) ==> r == h
  {
    forall r | UpToQuestion(r, h) && UpToQuestion(h, r)
      ensures r == h
    {
      Smaller(r, h);
      Smaller(h, r);
    }
  }

  /** The answer to a question: on a hit what was found at the last miss, else what is found now. */
  ghost predicate NameIsRight(h: History, n: nat, a: nat, found: string, name: string) {
    if EverAsked(h, a) && |Since(h, a)| < n then exists q :: LastMiss(q, h, n, a) && IsClip(name, q.found)
    else IsClip(name, found)
  }

  lemma AnswerIsRight(h: History, n: nat, a: nat, found: string)
    ensures NameIsRight(h, n, a, found, if EverAsked(h, a) && |Since(h, a)| < n then Stored(h, n, a) else Clipped(found))
  {
    if EverAsked(h, a) {
      var q := StoredIsLastMiss(h, n, a);
    }
  }

  // ---------- the slots ----------

  datatype Status = Free | Forward | Reverse

  datatype Entry = Entry(status: Status, addr: nat, created: nat, name: string)

  /** The entries in `slots` are in use, all others free. */
  ghost predicate InUse(e: seq<Entry>, slots: seq<nat>) {
    && Distinct(slots) && (forall i :: 0 <= i < |slots| ==> slots[i] < |e|)
    && forall s :: 0 <= s < |e| && s !in slots ==> e[s].status == Free
  }

  /** They are the entries of these addresses, each with its name, in this order ... */
  ghost predicate Holds(e: seq<Entry>, slots: seq<nat>, h: History) {
    && |slots| == |Kept(h, |e|)|
    && forall i :: 0 <= i < |slots| ==> slots[i] < |e| && HoldsAt(e[slots[i]], h, |e|, Kept(h, |e|)[i])
  }

  predicate HoldsAt(x: Entry, h: History, n: nat, a: nat) {
    x.status == Reverse && x.addr == a && x.name == Stored(h, n, a)
  }

  function Times(e: seq<Entry>, slots: seq<nat>): (r: seq<nat>)
    requires forall i :: 0 <= i < |slots| ==> slots[i] < |e|
    ensures |r| == |slots| && forall i :: 0 <= i < |r| ==> r[i] == e[slots[i]].created
  {
    seq(|slots|, i requires 0 <= i < |slots| => e[slots[i]].created)
  }

  predicate FallingTimes(times: seq<nat>, now: nat) {
    && (forall i :: 0 <= i < |times| ==> times[i] <= now)
    && forall i, j :: 0 <= i < j < |times| ==> times[i] > times[j]
  }

  /** ... of falling times. */
  ghost predicate Falling(e: seq<Entry>, slots: seq<nat>, now: nat) {
    (forall i :: 0 <= i < |slots| ==> slots[i] < |e|) && FallingTimes(Times(e, slots), now)
  }

  ghost predicate Cached(e: seq<Entry>, slots: seq<nat>, h: History, now: nat) {
    InUse(e, slots) && Holds(e, slots, h) && Falling(e, slots, now)
  }

  /** The slot an address goes to: its own, or a free one, or the last of a full cache. */
  ghost predicate RightSlot(e: seq<Entry>, slots: seq<nat>, h: History, s: nat, a: nat) {
    var kept := Kept(h, |e|);
    s < |e| && SamePlace(slots, kept, |e|, s, a)
  }

  predicate SamePlace(slots: seq<nat>, kept: seq<nat>, n: nat, s: nat, a: nat) {
    Place(slots, s) == Place(kept, a) || (a !in kept && |slots| == n && Place(slots, s) == n - 1)
  }

  lemma SameLength(slots: seq<nat>, kept: seq<nat>, n: nat, s: nat, a: nat)
    requires |slots| == |kept| <= n && SamePlace(slots, kept, n, s, a) && |ToFront(slots, s)| <= n
    ensures |ToFront(slots, s)| == |Leading(ToFront(kept, a), n)|
  {
    ToFrontAt(slots, s, 0);
    ToFrontAt(kept, a, 0);
  }

  /** Slots and addresses move to the front alike. */
  lemma InParallel(slots: seq<nat>, kept: seq<nat>, n: nat, s: nat, a: nat, i: nat) returns (j: nat)
    requires Distinct(slots) && Distinct(kept) && |slots| == |kept| <= n && SamePlace(slots, kept, n, s, a)
    requires 0 < i < |ToFront(slots, s)| <= n
    ensures j < |slots| && ToFront(slots, s)[i] == slots[j] && slots[j] != s
    ensures i < |Leading(ToFront(kept, a), n)| && Leading(ToFront(kept, a), n)[i] == kept[j] && kept[j] != a
  {
    var k := Place(slots, s);
    SameLength(slots, kept, n, s, a);
    ToFrontAt(slots, s, i);
    ToFrontAt(kept, a, i);
    j := if i <= k then i - 1 else i;
  }

  lemma DistinctBound(s: seq<nat>, n: nat)
    requires Distinct(s) && forall i :: 0 <= i < |s| ==> s[i] < n
    ensures |s| <= n
  {
    DistinctCount(s);
    BelowCount(SetOf(s), n);
  }

  lemma KeptDistinct(h: History, n: nat)
    ensures Distinct(Kept(h, n))
  {
    KeepsMostRecent(h, n);
    RecentIsAsked(h);
  }

  lemma FrontBound(slots: seq<nat>, n: nat, s: nat)
    requires Distinct(slots) && s < n && forall i :: 0 <= i < |slots| ==> slots[i] < n
    ensures |ToFront(slots, s)| <= n && Distinct(ToFront(slots, s))
    ensures forall i :: 0 <= i < |ToFront(slots, s)| ==> ToFront(slots, s)[i] < n
  {
    ToFrontDistinct(slots, s);
    var r := ToFront(slots, s);
    forall i | 0 <= i < |r|
      ensures r[i] < n
    {
      assert r[i] in r;
    }
    DistinctBound(r, n);
  }

  lemma FirstAtFront(kept: seq<nat>, n: nat, a: nat)
    requires n > 0
    ensures |Leading(ToFront(kept, a), n)| > 0 && Leading(ToFront(kept, a), n)[0] == a
  {
    ToFrontAt(kept, a, 0);
  }

  lemma TouchedHolds(e: seq<Entry>, slots: seq<nat>, h: History, s: nat, x: Entry, found: string)
    requires InUse(e, slots) && Holds(e, slots, h) && RightSlot(e, slots, h, s, x.addr)
    requires HoldsAt(x, Asked(h, x.addr, found), |e|, x.addr)
    ensures Holds(e[s := x], ToFront(slots, s), Asked(h, x.addr, found))
  {
    var n, now, kept := |e|, ToFront(slots, s), Kept(h, |e|);
    var h1 := Asked(h, x.addr, found);
    FrontBound(slots, n, s);
    SameLength(slots, kept, n, s, x.addr);
    FirstAtFront(kept, n, x.addr);
    KeptDistinct(h, n);
    forall i | 0 <= i < |now|
      ensures HoldsAt(e[s := x][now[i]], h1, n, Kept(h1, n)[i])
    {
      if i == 0 {
        ToFrontAt(slots, s, 0);
      } else {
        var j := InParallel(slots, kept, n, s, x.addr, i);
        assert HoldsAt(e[slots[j]], h, n, kept[j]);
      }
    }
  }

  lemma FallsOn(times: seq<nat>, now: nat, k: nat, t: nat)
    requires FallingTimes(times, now) && t > now
    ensures FallingTimes([t] + Without(times, k), t)
  {
    var r := Without(times, k);
    forall i | 0 <= i < |r|
      ensures r[i] == times[if i < k then i else i + 1]
    {
    }
  }

  lemma TouchedFalls(e: seq<Entry>, slots: seq<nat>, s: nat, x: Entry, now: nat)
    requires InUse(e, slots) && Falling(e, slots, now) && s < |e| && x.created > now
    ensures Falling(e[s := x], ToFront(slots, s), x.created)
  {
    FrontBound(slots, |e|, s);
    FallsOn(Times(e, slots), now, Place(slots, s), x.created);
    TimesAfter(e, slots, s, x);
  }

  lemma TimesAfter(e: seq<Entry>, slots: seq<nat>, s: nat, x: Entry)
    requires Distinct(slots) && s < |e| && (forall i :: 0 <= i < |slots| ==> slots[i] < |e|)
    requires forall i :: 0 <= i < |ToFront(slots, s)| ==> ToFront(slots, s)[i] < |e|
    ensures Times(e[s := x], ToFront(slots, s)) == [x.created] + Without(Times(e, slots), Place(slots, s))
  {
    var r, k, rest := ToFront(slots, s), Place(slots, s), Without(Times(e, slots), Place(slots, s));
    forall i | 0 < i < |r|
      ensures e[s := x][r[i]].created == rest[i - 1]
    {
      ToFrontAt(slots, s, i);
      assert r[i] == slots[if i <= k then i - 1 else i];
    }
  }

  lemma TouchedInUse(e: seq<Entry>, slots: seq<nat>, s: nat, x: Entry)
    requires InUse(e, slots) && s < |e|
    ensures InUse(e[s := x], ToFront(slots, s))
  {
    FrontBound(slots, |e|, s);
    ToFrontDistinct(slots, s);
  }

  /** Writing the right slot at a later time makes the cache that of one question more. */
  lemma Touched(e: seq<Entry>, slots: seq<nat>, h: History, now: nat, s: nat, x: Entry, found: string)
    requires Cached(e, slots, h, now) && RightSlot(e, slots, h, s, x.addr) && x.created > now
    requires HoldsAt(x, Asked(h, x.addr, found), |e|, x.addr)
    ensures Cached(e[s := x], ToFront(slots, s), Asked(h, x.addr, found), x.created)
  {
    TouchedHolds(e, slots, h, s, x, found);
    TouchedFalls(e, slots, s, x, now);
    TouchedInUse(e, slots, s, x);
  }

  // ---------- which slot it is ----------

  predicate Oldest(e: seq<Entry>, status: Status, i: nat) {
    && i < |e| && e[i].status == status
    && forall j :: 0 <= j < |e| && e[j].status == status ==>
         e[i].created <= e[j].created && (j < i ==> e[i].created < e[j].created)
  }

  lemma OwnSlot(e: seq<Entry>, slots: seq<nat>, h: History, s: nat, a: nat)
    requires InUse(e, slots) && Holds(e, slots, h) && s < |e| && e[s].status == Reverse && e[s].addr == a
    ensures RightSlot(e, slots, h, s, a) && a in Kept(h, |e|) && e[s].name == Stored(h, |e|, a)
  {
    KeptDistinct(h, |e|);
    var i := Place(slots, s);
    assert s in slots;
    assert HoldsAt(e[slots[i]], h, |e|, Kept(h, |e|)[i]);
  }

  lemma NoSlot(e: seq<Entry>, slots: seq<nat>, h: History, a: nat)
    requires InUse(e, slots) && Holds(e, slots, h)
    requires forall s :: 0 <= s < |e| ==> !(e[s].status == Reverse && e[s].addr == a)
    ensures a !in Kept(h, |e|)
  {
    var kept := Kept(h, |e|);
    assert forall i :: 0 <= i < |slots| ==> HoldsAt(e[slots[i]], h, |e|, kept[i]);
  }

  lemma InUseIsReverse(e: seq<Entry>, slots: seq<nat>, h: History, s: nat)
    requires InUse(e, slots) && Holds(e, slots, h) && s < |e|
    ensures s in slots ==> e[s].status == Reverse
  {
    if s in slots {
      var i := Place(slots, s);
      assert HoldsAt(e[slots[i]], h, |e|, Kept(h, |e|)[i]);
    }
  }

  lemma FreeSlot(e: seq<Entry>, slots: seq<nat>, h: History, s: nat, a: nat)
    requires InUse(e, slots) && Holds(e, slots, h) && a !in Kept(h, |e|) && s < |e| && e[s].status == Free
    ensures RightSlot(e, slots, h, s, a)
  {
    InUseIsReverse(e, slots, h, s);
  }

  lemma LastIsOldest(e: seq<Entry>, slots: seq<nat>, now: nat, k: nat)
    requires Falling(e, slots, now) && k < |slots|
    ensures k < |slots| - 1 ==> e[slots[k]].created > e[slots[|slots| - 1]].created
  {
    assert k < |slots| - 1 ==> Times(e, slots)[k] > Times(e, slots)[|slots| - 1];
  }

  /** In a full cache every slot is in use, and the oldest is the last of the list. */
  lemma OldestSlot(e: seq<Entry>, slots: seq<nat>, h: History, now: nat, s: nat, a: nat)
    requires Cached(e, slots, h, now) && a !in Kept(h, |e|)
    requires (forall i :: 0 <= i < |e| ==> e[i].status != Free) && Oldest(e, Reverse, s)
    ensures RightSlot(e, slots, h, s, a)
  {
    AllInUse(e, slots);
    var k, last := Place(slots, s), |slots| - 1;
    assert s in slots;
    assert HoldsAt(e[slots[last]], h, |e|, Kept(h, |e|)[last]);
    LastIsOldest(e, slots, now, k);
  }

  lemma AllInUse(e: seq<Entry>, slots: seq<nat>)
    requires InUse(e, slots) && forall i :: 0 <= i < |e| ==> e[i].status != Free
    ensures |slots| == |e| && forall s :: 0 <= s < |e| ==> s in slots
  {
    DistinctCount(slots);
    assert SetOf(slots) == UpTo(|e|);
  }

  function UpTo(n: nat): (r: set<nat>)
    ensures |r| == n && forall x: nat :: x in r <==> x < n
  {
    if n == 0 then {} else UpTo(n - 1) + {n - 1}
  }

  lemma NoForward(e: seq<Entry>, slots: seq<nat>, h: History)
    requires InUse(e, slots) && Holds(e, slots, h)
    ensures forall s :: 0 <= s < |e| ==> e[s].status != Forward
  {
    forall s | 0 <= s < |e|
      ensures e[s].status != Forward
    {
      InUseIsReverse(e, slots, h, s);
    }
  }

  // ---------- the cache ----------

  class Cache {
    const entries: array<Entry>
    ghost var slots: seq<nat>
    ghost var asked: History
    ghost var now: nat

    ghost predicate Valid()
      reads this, entries
    {
      entries.Length > 0 && Cached(entries[..], slots, asked, now)
    }

    constructor (size: nat)
      requires size > 0
      ensures Valid() && fresh(entries) && entries.Length == size && asked == Quiet
    {
      entries := new Entry[size](_ => Entry(Free, 0, 0, ""));
      slots, asked, now := [], Quiet, 0;
    }

    /** cache_dns_entry_oldest. */
    method FindOldest(status: Status) returns (oldest: Option<nat>)
      ensures oldest.Some? ==> Oldest(entries[..], status, oldest.value)
      ensures oldest == None ==> forall i :: 0 <= i < entries.Length ==> entries[i].status != status
    {
      oldest := None;
      for i := 0 to entries.Length
        invariant oldest.Some? ==> Oldest(entries[..i], status, oldest.value)
        invariant oldest == None ==> forall j :: 0 <= j < i ==> entries[j].status != status
      {
        if entries[i].status == status && (oldest == None || entries[i].created < entries[oldest.value].created) {
          oldest := Some(i);
        }
      }
      assert entries[..entries.Length] == entries[..];
    }

    /** cache_dns_entry_new: a free slot, or else the oldest forward entry, or else the
        oldest reverse one. */
    method FindNew() returns (s: nat)
      requires entries.Length > 0
      ensures s < entries.Length
      ensures entries[s].status == Free
           || ((forall i :: 0 <= i < entries.Length ==> entries[i].status != Free)
               && (Oldest(entries[..], Forward, s)
                   || ((forall i :: 0 <= i < entries.Length ==> entries[i].status != Forward)
                       && Oldest(entries[..], Reverse, s))))
    {
      s := 0;
      while s < entries.Length && entries[s].status != Free
        invariant s <= entries.Length && forall i :: 0 <= i < s ==> entries[i].status != Free
      {
        s := s + 1;
      }
      if s == entries.Length {
        var oldest := FindOldest(Forward);
        if oldest == None {
          oldest := FindOldest(Reverse);
          assert entries[0].status == Reverse;
        }
        s := oldest.value;
      }
    }

    method FindReverse(addr: nat) returns (s: Option<nat>)
      ensures s.Some? ==> s.value < entries.Length && entries[s.value].status == Reverse && entries[s.value].addr == addr
      ensures s == None ==> forall i :: 0 <= i < entries.Length ==> !(entries[i].status == Reverse && entries[i].addr == addr)
    {
      for i := 0 to entries.Length
        invariant forall j :: 0 <= j < i ==> !(entries[j].status == Reverse && entries[j].addr == addr)
      {
        if entries[i].status == Reverse && entries[i].addr == addr {
          return Some(i);
        }
      }
      s := None;
    }

    /** cache_dns_pick_reverse: found exactly when the address is kept, and then asked for
        once more. */
    method PickReverse(addr: nat, t: nat) returns (name: Option<string>)
      requires Valid() && t > now
      modifies this, entries
      ensures Valid() && (name.Some? <==> addr in Kept(old(asked), entries.Length))
      ensures name.Some? ==> name.value == Stored(old(asked), entries.Length, addr)
                             && asked == Asked(old(asked), addr, name.value) && now == t
      ensures name == None ==> asked == old(asked) && now == old(now)
    {
      var s := FindReverse(addr);
      if s == None {
        NoSlot(entries[..], slots, asked, addr);
        return None;
      }
      var x := entries[s.value];
      OwnSlot(entries[..], slots, asked, s.value, addr);
      name := Some(x.name);
      Write(s.value, x.(created := t), x.name);
    }

    /** Writes one slot, at a later time. */
    method Write(s: nat, x: Entry, ghost found: string)
      requires Valid() && s < entries.Length && x.created > now && RightSlot(entries[..], slots, asked, s, x.addr)
      requires HoldsAt(x, Asked(asked, x.addr, found), entries.Length, x.addr)
      modifies this, entries
      ensures Valid() && asked == Asked(old(asked), x.addr, found) && now == x.created
    {
      Touched(entries[..], slots, asked, now, s, x, found);
      ghost var before := entries[..];
      entries[s] := x;
      assert entries[..] == before[s := x];
      slots, asked, now := ToFront(slots, s), Asked(asked, x.addr, found), x.created;
    }

    /** cache_dns_put, after a miss. */
    method Put(addr: nat, name: string, t: nat)
      requires Valid() && t > now && addr !in Kept(asked, entries.Length)
      modifies this, entries
      ensures Valid() && asked == Asked(old(asked), addr, name) && now == t
    {
      var s := FindNew();
      NoForward(entries[..], slots, asked);
      if entries[s].status == Free {
        FreeSlot(entries[..], slots, asked, s, addr);
      } else {
        OldestSlot(entries[..], slots, asked, now, s, addr);
      }
      Write(s, Entry(Reverse, addr, t, Clipped(name)), name);
    }

    /** A question: the name kept, or the one found and kept from now on. */
    method Ask(addr: nat, found: string, t: nat) returns (name: string)
      requires Valid() && t > now
      modifies this, entries
      ensures Valid() && now == t && Kept(asked, entries.Length) == Kept(Asked(old(asked), addr, found), entries.Length)
      ensures name == if EverAsked(old(asked), addr) && |Since(old(asked), addr)| < entries.Length
                      then Stored(old(asked), entries.Length, addr) else Clipped(found)
      ensures NameIsRight(old(asked), entries.Length, addr, found, name)
    {
      AnswerIsRight(asked, entries.Length, addr, found);
      KeptIffRecent(asked, entries.Length, addr);
      var kept := PickReverse(addr, t);
      if kept.Some? {
        return kept.value;
      }
      Put(addr, found, t);
      name := Clipped(found);
    }
  }
}
