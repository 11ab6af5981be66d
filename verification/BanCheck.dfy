/** Who is banned: chanmode_match_ban of src/chanmode.c, which matches nick, user and host
    each with its part of a mask, and what becomes of the banned when a mask is replaced. */
module BanCheck {
  import opened Prelude
  import opened Glob
  import opened MaskLists
  import opened MaskCover
  import MatchBudget
  import B = BanMasks

  type Parts = B.Mask

  // ---------- chanmode_match_ban ----------

  /** A client's nick, user name if it has one, host as shown, real host and address. */
  datatype Client = Client(nick: string, user: Option<string>, host: string, hostreal: string, hostip: string)

  predicate IsCString(s: string) {
    '\0' !in s
  }

  predicate IsStored(m: Parts) {
    IsCString(m.nick) && IsCString(m.user) && IsCString(m.host)
  }

  predicate IsClient(c: Client) {
    && IsCString(c.nick) && (c.user.Some? ==> IsCString(c.user.value))
    && IsCString(c.host) && IsCString(c.hostreal) && IsCString(c.hostip)
  }

  /** One of the client's hosts is found. */
  predicate HostFound(c: Client, host: string) {
    StrMatches(c.host, host) || StrMatches(c.hostreal, host) || StrMatches(c.hostip, host)
  }

  predicate ClientFound(c: Client, m: Parts) {
    StrMatches(c.nick, m.nick) && (c.user.Some? ==> StrMatches(c.user.value, m.user)) && HostFound(c, m.host)
  }

  method MatchHosts(c: Client, host: string) returns (r: bool)
    requires IsClient(c) && IsCString(host)
    ensures r == HostFound(c, host)
  {
    r := StrMatch(c.host, host);
    if !r {
      r := StrMatch(c.hostreal, host);
    }
    if !r {
      r := StrMatch(c.hostip, host);
    }
  }

  /** chanmode_match_ban. */
  method MatchBan(c: Client, bans: seq<Parts>) returns (r: bool)
    requires IsClient(c) && forall i :: 0 <= i < |bans| ==> IsStored(bans[i])
    ensures r <==> exists i :: 0 <= i < |bans| && ClientFound(c, bans[i])
  {
    for i := 0 to |bans|
      invariant forall j :: 0 <= j < i ==> !ClientFound(c, bans[j])
    {
      var found := StrMatch(c.nick, bans[i].nick);
      if !found {
        continue;
      }
      if c.user.Some? {
        found := StrMatch(c.user.value, bans[i].user);
        if !found {
          continue;
        }
      }
      found := MatchHosts(c, bans[i].host);
      if found {
        return true;
      }
    }
    return false;
  }

  // ---------- people ----------

  /** A user as seen under one of its hosts. */
  datatype Person = Person(nick: string, user: string, host: string)

  predicate Found(p: Person, m: Parts) {
    StrMatches(p.nick, m.nick) && StrMatches(p.user, m.user) && StrMatches(p.host, m.host)
  }

  predicate Banned(p: Person, ms: set<Parts>) {
    exists m :: m in ms && Found(p, m)
  }

  /** What a mask means for a person. */
  predicate Meant(p: Person, m: Parts) {
    Matches(p.nick, m.nick) && Matches(p.user, m.user) && Matches(p.host, m.host)
  }

  predicate MeantByOne(p: Person, ms: set<Parts>) {
    exists m :: m in ms && Meant(p, m)
  }

  /** A client without a user name is banned by nick and host alone. */
  lemma BannedWithoutUser(c: Client, m: Parts)
    requires c.user == None
    ensures ClientFound(c, m)
       <==> StrMatches(c.nick, m.nick) && exists h :: h in {c.host, c.hostreal, c.hostip} && StrMatches(h, m.host)
  {
    if ClientFound(c, m) {
      var h := if StrMatches(c.host, m.host) then c.host else if StrMatches(c.hostreal, m.host) then c.hostreal else c.hostip;
      assert h in {c.host, c.hostreal, c.hostip} && StrMatches(h, m.host);
    }
  }

  /** A user is banned exactly when it is under one of its hosts. */
  lemma BannedUnderAHost(c: Client, user: string, ms: set<Parts>)
    requires c.user == Some(user)
    ensures (exists m :: m in ms && ClientFound(c, m))
       <==> exists h :: h in {c.host, c.hostreal, c.hostip} && Banned(Person(c.nick, user, h), ms)
  {
    forall m | m in ms && ClientFound(c, m)
      ensures exists h :: h in {c.host, c.hostreal, c.hostip} && Banned(Person(c.nick, user, h), ms)
    {
      var h := if StrMatches(c.host, m.host) then c.host else if StrMatches(c.hostreal, m.host) then c.hostreal else c.hostip;
      assert Found(Person(c.nick, user, h), m);
      assert Banned(Person(c.nick, user, h), ms);
    }
    forall h | h in {c.host, c.hostreal, c.hostip} && Banned(Person(c.nick, user, h), ms)
      ensures exists m :: m in ms && ClientFound(c, m)
    {
      var m :| m in ms && Found(Person(c.nick, user, h), m);
      assert ClientFound(c, m);
    }
  }

  predicate IsNick(s: string) {
    1 <= |s| <= B.NICKLEN && forall i :: 0 <= i < |s| ==> B.IsNickChar(s[i])
  }

  predicate IsUser(s: string) {
    1 <= |s| <= B.USERLEN && forall i :: 0 <= i < |s| ==> B.IsUserChar(s[i])
  }

  predicate IsHost(s: string) {
    1 <= |s| <= B.HOSTLEN && forall i :: 0 <= i < |s| ==> B.IsHostChar(s[i])
  }

  predicate Legal(p: Person) {
    IsNick(p.nick) && IsUser(p.user) && IsHost(p.host)
  }

  // ---------- the masks that a ban replaces ----------

  function Replaced(ms: set<Parts>, a: Parts): set<Parts> {
    set m | m in ms && StrMatches(B.Text(m), B.Text(a))
  }

  function Kept(ms: set<Parts>, a: Parts): set<Parts> {
    (set m | m in ms && !StrMatches(B.Text(m), B.Text(a))) + {a}
  }

  function Texts(ms: set<Parts>): set<string> {
    set m | m in ms :: B.Text(m)
  }

  /** A ban that gets through leaves just these in the list. */
  lemma KeptIsLeft(items: seq<Item>, item: Item, ms: set<Parts>, a: Parts)
    requires Masks(items) == Texts(ms) && item.mask == B.Text(a) && BounceAdd(StrMatches, items, item).result == 0
    ensures Masks(BounceAdd(StrMatches, items, item).items) == Texts(Kept(ms, a))
    ensures forall t :: t in BounceAdd(StrMatches, items, item).dels <==> t in Texts(Replaced(ms, a))
  {
    AddIsExact(StrMatches, items, item);
    TextsOfKept(ms, a);
  }

  lemma TextsOfKept(ms: set<Parts>, a: Parts)
    ensures Texts(Kept(ms, a)) == (set t | t in Texts(ms) && !StrMatches(t, B.Text(a))) + {B.Text(a)}
    ensures forall t :: t in Texts(Replaced(ms, a)) <==> t in Texts(ms) && StrMatches(t, B.Text(a))
  {
  }

  // ---------- what is meant ----------

  /** The strings got from a mask by filling each `?` with x and each star with up to n
      times x. */
  function FillingsOf(m: string, x: char, n: nat): set<string> {
    if m == [] then {[]}
    else if m[0] == '*' then set k: nat, t | k <= n && t in FillingsOf(m[1..], x, n) :: Copies(x, k) + t
    else set t | t in FillingsOf(m[1..], x, n) :: [if m[0] == '?' then x else m[0]] + t
  }

  lemma {:induction false} FillingMatches(m: string, x: char, n: nat, t: string)
    requires t in FillingsOf(m, x, n)
    ensures Matches(t, m)
  {
    if m == [] {
    } else if m[0] == '*' {
      var k: nat, u :| k <= n && u in FillingsOf(m[1..], x, n) && t == Copies(x, k) + u;
      FillingMatches(m[1..], x, n, u);
      assert m == ['*'] + m[1..] && t[k..] == u && Matches(u, m);
      StarAbsorbs(t, m[1..], k);
    } else {
      var u :| u in FillingsOf(m[1..], x, n) && t == [if m[0] == '?' then x else m[0]] + u;
      FillingMatches(m[1..], x, n, u);
      assert t[1..] == u;
    }
  }

  /** Whatever a mask matches is a filling with some characters hidden behind x. */
  lemma {:induction false} FillingFor(s: string, m: string, x: char, n: nat) returns (t: string)
    requires Matches(s, m) && |s| <= n
    ensures t in FillingsOf(m, x, n) && Blurs(s, t, x)
    decreases |m|
  {
    if m == [] {
      t := [];
    } else if m[0] == '*' {
      assert m == ['*'] + m[1..];
      var k := StarMatchesSuffix(s, m[1..]);
      var u := FillingFor(s[k..], m[1..], x, n);
      t := Copies(x, k) + u;
      BlurBehind(s[..k], Copies(x, k), s[k..], u, x);
      assert s[..k] + s[k..] == s;
    } else {
      var u := FillingFor(s[1..], m[1..], x, n);
      var c := if m[0] == '?' then x else m[0];
      t := [c] + u;
      BlurBehind(s[..1], [c], s[1..], u, x);
      assert s[..1] + s[1..] == s;
    }
  }

  /** x may stand in every part of a person, and in none of the masks. */
  ghost predicate FreshForAll(ms: set<Parts>, x: char) {
    && B.IsNickChar(x) && B.IsUserChar(x) && B.IsHostChar(x)
    && forall m :: m in ms ==> x !in m.nick && x !in m.user && x !in m.host
  }

  /** The people a mask means with hidden characters. */
  predicate IsFilling(m: Parts, x: char, p: Person) {
    && p.nick in FillingsOf(m.nick, x, B.NICKLEN) && p.user in FillingsOf(m.user, x, B.USERLEN)
    && p.host in FillingsOf(m.host, x, B.HOSTLEN)
  }

  /** Each such person is meant by one of the masks. There are finitely many to be asked. */
  ghost predicate PeopleTest(gone: set<Parts>, left: set<Parts>, x: char) {
    forall m, p :: m in gone && IsFilling(m, x, p) && Legal(p) ==> MeantByOne(p, left)
  }

  lemma HiddenPerson(p: Person, m: Parts, x: char) returns (q: Person)
    requires Legal(p) && Meant(p, m) && B.IsNickChar(x) && B.IsUserChar(x) && B.IsHostChar(x)
    ensures IsFilling(m, x, q) && Legal(q)
    ensures Blurs(p.nick, q.nick, x) && Blurs(p.user, q.user, x) && Blurs(p.host, q.host, x)
  {
    var nick := FillingFor(p.nick, m.nick, x, B.NICKLEN);
    var user := FillingFor(p.user, m.user, x, B.USERLEN);
    var host := FillingFor(p.host, m.host, x, B.HOSTLEN);
    q := Person(nick, user, host);
  }

  /** Everybody who may exist and is meant by a mask that goes is meant by one that is left
      exactly when the test says so. */
  lemma PeopleTestDecides(gone: set<Parts>, left: set<Parts>, x: char)
    requires FreshForAll(left, x)
    ensures PeopleTest(gone, left, x) <==> forall p :: Legal(p) && MeantByOne(p, gone) ==> MeantByOne(p, left)
  {
    if PeopleTest(gone, left, x) {
      forall p | Legal(p) && MeantByOne(p, gone)
        ensures MeantByOne(p, left)
      {
        var m :| m in gone && Meant(p, m);
        var q := HiddenPerson(p, m, x);
        var r :| r in left && Meant(q, r);
        BlurMatches(p.nick, q.nick, x, r.nick);
        BlurMatches(p.user, q.user, x, r.user);
        BlurMatches(p.host, q.host, x, r.host);
        assert Meant(p, r);
      }
    }
    forall m, p | m in gone && IsFilling(m, x, p)
      ensures MeantByOne(p, gone)
    {
      FillingMatches(m.nick, x, B.NICKLEN, p.nick);
      FillingMatches(m.user, x, B.USERLEN, p.user);
      FillingMatches(m.host, x, B.HOSTLEN, p.host);
      assert Meant(p, m);
    }
  }

  // ---------- what is found ----------

  /** Masks on which 512 turns are enough for everybody who may exist. */
  predicate Affordable(m: Parts) {
    LongestRun(m.nick) <= 14 && LongestRun(m.user) <= 29 && LongestRun(m.host) <= 6
  }

  lemma PartIsAffordable(s: string, mask: string, len: nat, run: nat)
    requires |s| <= len && LongestRun(mask) <= run && (len + 1) * (run + 1) <= MATCH_MAX_CALLS
    ensures StrMatches(s, mask) <==> Matches(s, mask)
  {
    ProductGrows(|s| + 1, len + 1, LongestRun(mask) + 1, run + 1);
    StrMatchesIsMatching(s, mask);
  }

  lemma ProductGrows(a: nat, b: nat, c: nat, d: nat)
    requires a <= b && c <= d
    ensures a * c <= b * d
  {
    assert a * c <= b * c;
    assert b * c <= b * d;
  }

  lemma FoundIsMeant(p: Person, m: Parts)
    requires Legal(p)
    ensures Found(p, m) ==> Meant(p, m)
    ensures Affordable(m) ==> (Found(p, m) <==> Meant(p, m))
  {
    StrMatchesIsMatching(p.nick, m.nick);
    StrMatchesIsMatching(p.user, m.user);
    StrMatchesIsMatching(p.host, m.host);
    if Affordable(m) {
      PartIsAffordable(p.nick, m.nick, B.NICKLEN, 14);
      PartIsAffordable(p.user, m.user, B.USERLEN, 29);
      PartIsAffordable(p.host, m.host, B.HOSTLEN, 6);
    }
  }

  /** When a ban of affordable masks replaces others, everybody who was banned stays so
      exactly when the test says so. */
  lemma PeopleStayBannedIff(ms: set<Parts>, a: Parts, x: char)
    requires FreshForAll(Kept(ms, a), x) && forall m :: m in ms + {a} ==> Affordable(m)
    ensures (forall p :: Legal(p) && Banned(p, ms) ==> Banned(p, Kept(ms, a)))
       <==> PeopleTest(Replaced(ms, a), Kept(ms, a), x)
  {
    PeopleTestDecides(Replaced(ms, a), Kept(ms, a), x);
    forall p, m | Legal(p) && m in ms + {a}
      ensures Found(p, m) <==> Meant(p, m)
    {
      FoundIsMeant(p, m);
    }
    if PeopleTest(Replaced(ms, a), Kept(ms, a), x) {
      forall p | Legal(p) && Banned(p, ms)
        ensures Banned(p, Kept(ms, a))
      {
        var m :| m in ms && Found(p, m);
        assert m in Replaced(ms, a) || m in Kept(ms, a);
        if m in Replaced(ms, a) {
          var r :| r in Kept(ms, a) && Meant(p, r);
        }
      }
    }
    if forall p :: Legal(p) && Banned(p, ms) ==> Banned(p, Kept(ms, a)) {
      forall p | Legal(p) && MeantByOne(p, Replaced(ms, a))
        ensures MeantByOne(p, Kept(ms, a))
      {
        var m :| m in Replaced(ms, a) && Meant(p, m);
        assert m in ms && Found(p, m);
        var r :| r in Kept(ms, a) && Found(p, r);
      }
    }
  }

  // ---------- without affording anything ----------

  function LettersIn(ms: set<Parts>): set<char> {
    LettersOf((set m | m in ms :: m.nick) + (set m | m in ms :: m.user) + (set m | m in ms :: m.host))
  }

  predicate IsOver(p: Person, letters: set<char>) {
    && (forall i :: 0 <= i < |p.nick| ==> p.nick[i] in letters) && (forall i :: 0 <= i < |p.user| ==> p.user[i] in letters)
    && (forall i :: 0 <= i < |p.host| ==> p.host[i] in letters)
  }

  function RenamedPerson(p: Person, letters: set<char>, x: char): Person {
    Person(Renamed(p.nick, letters, x), Renamed(p.user, letters, x), Renamed(p.host, letters, x))
  }

  lemma PartIsRenamed(s: string, parts: set<string>, mask: string, x: char)
    requires mask in parts && x !in LettersOf(parts)
    ensures StrMatches(Renamed(s, LettersOf(parts), x), mask) == StrMatches(s, mask)
  {
    var t := Renamed(s, LettersOf(parts), x);
    forall i | 0 <= i < |s|
      ensures LooksAlike(t[i], s[i], mask)
    {
      ForeignIsAlike(parts, mask, s[i], x);
    }
    SameTurns(t, s, mask, START, MATCH_MAX_CALLS);
  }

  lemma RenamedIsFound(p: Person, ms: set<Parts>, m: Parts, x: char)
    requires m in ms && x !in LettersIn(ms)
    ensures Found(RenamedPerson(p, LettersIn(ms), x), m) == Found(p, m)
  {
    var parts := (set y | y in ms :: y.nick) + (set y | y in ms :: y.user) + (set y | y in ms :: y.host);
    PartIsRenamed(p.nick, parts, m.nick, x);
    PartIsRenamed(p.user, parts, m.user, x);
    PartIsRenamed(p.host, parts, m.host, x);
  }

  lemma RenamedIsLegal(p: Person, letters: set<char>, x: char)
    requires Legal(p) && B.IsNickChar(x) && B.IsUserChar(x) && B.IsHostChar(x)
    ensures Legal(RenamedPerson(p, letters, x)) && IsOver(RenamedPerson(p, letters, x), letters + {x})
  {
  }

  lemma RenamedIsBanned(p: Person, ms: set<Parts>, some: set<Parts>, x: char)
    requires some <= ms && x !in LettersIn(ms)
    ensures Banned(RenamedPerson(p, LettersIn(ms), x), some) <==> Banned(p, some)
  {
    forall m | m in some
      ensures Found(RenamedPerson(p, LettersIn(ms), x), m) == Found(p, m)
    {
      RenamedIsFound(p, ms, m, x);
    }
  }

  /** People whose names are made of the masks' own characters and one other. */
  predicate Ordinarily(p: Person, ms: set<Parts>, x: char) {
    Legal(p) && IsOver(p, LettersIn(ms) + {x})
  }

  /** Whatever the masks cost: everybody who was banned by some stays banned by others
      exactly when all those people do; there are finitely many. */
  lemma NobodyIsMissedIff(before: set<Parts>, after: set<Parts>, x: char)
    requires x !in LettersIn(before + after) && B.IsNickChar(x) && B.IsUserChar(x) && B.IsHostChar(x)
    ensures (forall p :: Legal(p) && Banned(p, before) ==> Banned(p, after))
       <==> (forall p :: Ordinarily(p, before + after, x) && Banned(p, before) ==> Banned(p, after))
  {
    var ms := before + after;
    if forall p :: Ordinarily(p, ms, x) && Banned(p, before) ==> Banned(p, after) {
      forall p | Legal(p) && Banned(p, before)
        ensures Banned(p, after)
      {
        RenamedIsLegal(p, LettersIn(ms), x);
        RenamedIsBanned(p, ms, before, x);
        RenamedIsBanned(p, ms, after, x);
        assert Ordinarily(RenamedPerson(p, LettersIn(ms), x), ms, x);
      }
    }
  }

  // ---------- a mask as a text and in parts ----------

  /** A letter of a mask is needed. */
  lemma {:induction false} LetterIsNeeded(s: string, mask: string, c: char)
    requires Matches(s, mask) && c in mask && c != '*' && c != '?'
    ensures c in s
    decreases |s| + |mask|
  {
    if mask[0] == '*' {
      if Matches(s, mask[1..]) {
        LetterIsNeeded(s, mask[1..], c);
      } else {
        LetterIsNeeded(s[1..], mask, c);
      }
    } else if mask[0] != c {
      LetterIsNeeded(s[1..], mask[1..], c);
    }
  }

  lemma {:induction false} MatchesInTurn(s: string, t: string, m: string, r: string)
    requires Matches(s, m) && Matches(t, r)
    ensures Matches(s + t, m + r)
    decreases |s| + |m|
  {
    if m == [] {
      assert s + t == t && m + r == r;
    } else {
      assert (m + r)[0] == m[0] && (m + r)[1..] == m[1..] + r;
      assert s != [] ==> (s + t)[0] == s[0] && (s + t)[1..] == s[1..] + t;
      if m[0] == '*' {
        if Matches(s, m[1..]) {
          MatchesInTurn(s, t, m[1..], r);
        } else {
          MatchesInTurn(s[1..], t, m, r);
        }
      } else {
        MatchesInTurn(s[1..], t, m[1..], r);
      }
    }
  }

  /** Two texts, each with a separator in it and no other behind or in front. */
  ghost predicate Separated(c: char, s1: string, s2: string, m1: string, m2: string) {
    && c != '*' && c != '?' && c !in s1 && c !in s2 && c !in m1 && c !in m2
  }

  function Joined(a: string, c: char, b: string): string {
    a + ([c] + b)
  }

  lemma JoinedUnfolds(a: string, c: char, b: string)
    ensures a == [] ==> Joined(a, c, b)[0] == c && Joined(a, c, b)[1..] == b
    ensures a != [] ==> Joined(a, c, b)[0] == a[0] && Joined(a, c, b)[1..] == Joined(a[1..], c, b)
  {
  }

  lemma HeadIsOther(s: string, c: char)
    requires c !in s
    ensures s != [] ==> s[0] != c
  {
  }

  /** They match only part by part. */
  lemma {:induction false} SeparatorParts(c: char, s1: string, s2: string, m1: string, m2: string)
    requires Separated(c, s1, s2, m1, m2) && Matches(Joined(s1, c, s2), Joined(m1, c, m2))
    ensures Matches(s1, m1) && Matches(s2, m2)
    decreases |s1| + |m1|
  {
    JoinedUnfolds(s1, c, s2);
    JoinedUnfolds(m1, c, m2);
    if m1 == [] {
      HeadIsOther(s1, c);
    } else if m1[0] == '*' {
      if Matches(Joined(s1, c, s2), Joined(m1[1..], c, m2)) {
        SeparatorParts(c, s1, s2, m1[1..], m2);
      } else if s1 == [] {
        SeparatorIsGone(c, s2, m1, m2);
      } else {
        SeparatorParts(c, s1[1..], s2, m1, m2);
      }
    } else if s1 == [] {
      SeparatorIsGone(c, s2, m1[1..], m2);
    } else {
      SeparatorParts(c, s1[1..], s2, m1[1..], m2);
    }
  }

  lemma SeparatorIsGone(c: char, s2: string, m1: string, m2: string)
    requires c != '*' && c != '?' && c !in s2
    ensures !Matches(s2, Joined(m1, c, m2))
  {
    if Matches(s2, Joined(m1, c, m2)) {
      assert Joined(m1, c, m2)[|m1|] == c;
      LetterIsNeeded(s2, Joined(m1, c, m2), c);
    }
  }

  lemma JoinedMatches(c: char, s1: string, s2: string, m1: string, m2: string)
    requires c != '*' && c != '?' && Matches(s1, m1) && Matches(s2, m2)
    ensures Matches(Joined(s1, c, s2), Joined(m1, c, m2))
  {
    assert ([c] + s2)[1..] == s2 && ([c] + m2)[1..] == m2;
    MatchesInTurn(s1, [c] + s2, m1, [c] + m2);
  }

  /** No separator in any part. */
  predicate IsPlain(m: Parts) {
    && '!' !in m.nick && '!' !in m.user && '!' !in m.host && '@' !in m.nick && '@' !in m.user && '@' !in m.host
  }

  /** As texts, masks match exactly if nick, user and host do. */
  lemma TextMatchesByParts(m: Parts, a: Parts)
    requires IsPlain(m) && IsPlain(a)
    ensures Matches(B.Text(m), B.Text(a))
       <==> Matches(m.nick, a.nick) && Matches(m.user, a.user) && Matches(m.host, a.host)
  {
    var um, ua := Joined(m.user, '@', m.host), Joined(a.user, '@', a.host);
    assert B.Text(m) == Joined(m.nick, '!', um) && B.Text(a) == Joined(a.nick, '!', ua);
    if Matches(B.Text(m), B.Text(a)) {
      SeparatorParts('!', m.nick, um, a.nick, ua);
      SeparatorParts('@', m.user, m.host, a.user, a.host);
    }
    if Matches(m.nick, a.nick) && Matches(m.user, a.user) && Matches(m.host, a.host) {
      JoinedMatches('@', m.user, m.host, a.user, a.host);
      JoinedMatches('!', m.nick, um, a.nick, ua);
    }
  }

  /** The mask between two has no `?` to meet a `*`, part by part. */
  predicate NoQuestion(m: Parts, a: Parts) {
    && ('?' !in a.nick || '*' !in m.nick) && ('?' !in a.user || '*' !in m.user) && ('?' !in a.host || '*' !in m.host)
  }

  /** So a ban that replaces another keeps everybody banned, if it is affordable and has
      no `?` where the other has a `*`. */
  lemma ReplacementKeepsBanned(p: Person, m: Parts, a: Parts)
    requires Legal(p) && Found(p, m) && IsPlain(m) && IsPlain(a) && StrMatches(B.Text(m), B.Text(a))
    requires NoQuestion(m, a) && Affordable(a)
    ensures Found(p, a)
  {
    StrMatchesIsMatching(B.Text(m), B.Text(a));
    TextMatchesByParts(m, a);
    FoundIsMeant(p, m);
    Transitive(p.nick, m.nick, a.nick);
    Transitive(p.user, m.user, a.user);
    Transitive(p.host, m.host, a.host);
    FoundIsMeant(p, a);
  }

  // ---------- people who are lost ----------

  lemma ReplacedByOne(m: Parts, a: Parts)
    requires StrMatches(B.Text(m), B.Text(a))
    ensures Replaced({m}, a) == {m} && Kept({m}, a) == {a}
  {
  }

  /** With `?`: "?!*@*" replaces "*!*@a" and frees ab!u@a. */
  lemma QuestionFrees()
    ensures var m, a, p := B.Mask("*", "*", "a"), B.Mask("?", "*", "*"), Person("ab", "u", "a");
      Legal(p) && Banned(p, {m}) && Replaced({m}, a) == {m} && !Banned(p, Kept({m}, a))
  {
    var m, a, p := B.Mask("*", "*", "a"), B.Mask("?", "*", "*"), Person("ab", "u", "a");
    assert B.Text(m) == "*!*@a" && B.Text(a) == "?!*@*";
    UncoverTexts("*!*@a", "?!*@*", "ab!u@a");
    ReplacedByOne(m, a);
    ShortParts("ab", "u", "a");
    assert Found(p, m);
  }

  lemma ShortParts(nick: string, user: string, host: string)
    requires nick == "ab" && user == "u" && host == "a"
    ensures StrMatches(nick, "*") && StrMatches(user, "*") && StrMatches(host, "a") && !StrMatches(nick, "?")
  {
    MatchBudget.BareStarIff(nick);
    MatchBudget.BareStarIff(user);
    assert nick[1..] == "b";
    assert Matches(host, "a") && !Matches(nick, "?");
    ShortIsExact(host, "a");
    ShortIsExact(nick, "?");
  }

  /** Without: the short mask replaces the middle one, and a user on a host of 62 a and a b
      is found no more, although still meant. */
  lemma BudgetFrees(host: string)
    requires MatchBudget.IsLongHost(host)
    ensures var m, a, p := B.Mask("*", "*", MatchBudget.MIDDLE_HOST), B.Mask("*", "*", MatchBudget.SHORT_HOST),
                           Person("n", "u", host);
      && Legal(p) && Banned(p, {m}) && Replaced({m}, a) == {m} && !Banned(p, Kept({m}, a)) && Meant(p, a)
  {
    var middle, short := MatchBudget.MIDDLE_HOST, MatchBudget.SHORT_HOST;
    HostsAsTexts(middle, short);
    MatchBudget.HostShapes();
    ReplacedByOne(B.Mask("*", "*", middle), B.Mask("*", "*", short));
    HostFrees(B.Mask("*", "*", middle), B.Mask("*", "*", short), Person("n", "u", host));
  }

  lemma HostsAsTexts(middle: string, short: string)
    requires middle == MatchBudget.MIDDLE_HOST && short == MatchBudget.SHORT_HOST
    ensures StrMatches(B.Text(B.Mask("*", "*", middle)), B.Text(B.Mask("*", "*", short)))
  {
    assert B.Text(B.Mask("*", "*", middle)) == MatchBudget.MIDDLE && B.Text(B.Mask("*", "*", short)) == MatchBudget.SHORT;
    MatchBudget.Shapes();
    MatchBudget.MiddleMatchesShort(MatchBudget.MIDDLE, MatchBudget.SHORT);
  }

  lemma HostFrees(m: Parts, a: Parts, p: Person)
    requires m.nick == m.user == a.nick == a.user == "*" && p.nick == "n" && p.user == "u"
    requires MatchBudget.IsLongHost(p.host) && MatchBudget.IsMiddleHost(m.host) && MatchBudget.IsShortHost(a.host)
    ensures Legal(p) && Banned(p, {m}) && !Banned(p, {a}) && Meant(p, a)
  {
    MatchBudget.LongHostIsMissed(p.host, m.host, a.host);
    StarFinds(p.nick, m.nick);
    StarFinds(p.user, m.user);
    OneMask(p, m);
    OneMask(p, a);
    LongHostIsLegal(p.host);
  }

  lemma StarFinds(s: string, mask: string)
    requires mask == "*" && |s| <= 1022
    ensures StrMatches(s, mask) && Matches(s, mask)
  {
    MatchBudget.BareStarIff(s);
  }

  lemma OneMask(p: Person, m: Parts)
    ensures Banned(p, {m}) <==> Found(p, m)
  {
  }

  lemma LongHostIsLegal(host: string)
    requires MatchBudget.IsLongHost(host)
    ensures IsHost(host) && IsNick("n") && IsUser("u")
  {
    forall i | 0 <= i < |host|
      ensures B.IsHostChar(host[i])
    {
      assert host[i] == 'a' || host[i] == 'b';
    }
  }
}
