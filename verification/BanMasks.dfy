/** Normalisation of ban masks to nick!user@host: chanmode_bounce_ban of
    src/chanmode.c, with the character classes of src/chars.c. */
module BanMasks {

  const NICKLEN := 32
  const USERLEN := 16
  const HOSTLEN := 64

  // ---------- character classes ----------

  predicate Between(c: char, lo: int, hi: int) {
    lo <= c as int <= hi
  }

  predicate IsWild(c: char) {
    c == '!' || c == '*' || c == '.' || c == '?' || c == '@'
  }

  predicate IsNickChar(c: char) {
    c == '-' || Between(c, 0x30, 0x39) || Between(c, 0x41, 0x7d) || Between(c, 0xc0, 0xde) || Between(c, 0xe0, 0xfe)
  }

  predicate IsUidChar(c: char) {
    Between(c, 0x30, 0x39) || Between(c, 0x41, 0x5a) || Between(c, 0x61, 0x7a) || Between(c, 0xbd, 0xfe)
  }

  predicate IsUserChar(c: char) {
    c == '$' || c == '-' || c == '.' || Between(c, 0x30, 0x39) || Between(c, 0x41, 0x7e)
  }

  predicate IsHostChar(c: char) {
    c == '-' || c == '.' || Between(c, 0x30, 0x3a) || Between(c, 0x41, 0x5a) || Between(c, 0x61, 0x7a)
  }

  datatype Part = Nick | User | Host {
    predicate Allows(c: char) {
      IsWild(c) || match this case Nick => IsNickChar(c) case User => IsUserChar(c) case Host => IsHostChar(c)
    }

    function Size(): nat {
      match this case Nick => NICKLEN case User => USERLEN case Host => HOSTLEN
    }
  }

  // ---------- splitting and cleaning ----------

  /** strchr: the index of the first c, or |s|. */
  function Find(s: string, c: char): (k: nat)
    ensures k <= |s| && (k < |s| ==> s[k] == c)
    ensures forall i :: 0 <= i < k ==> s[i] != c
  {
    if s == [] || s[0] == c then 0 else 1 + Find(s[1..], c)
  }

  function Cut(s: string, c: char): string {
    s[..Find(s, c)]
  }

  datatype Mask = Mask(nick: string, user: string, host: string)

  /** The three parts as written; empty where the text has none. A `!` counts only
      in front of the first `@`. */
  function Split(arg: string): Mask {
    var bang, at := Find(arg, '!'), Find(arg, '@');
    if bang < at < |arg| then
      var user, host := arg[bang + 1..at], arg[at + 1..];
      Mask(arg[..bang], Cut(user, '!'), Cut(Cut(host, '@'), '!'))
    else
      var text := Cut(arg, '!');
      if at < |arg| then
        Mask("", arg[..at], text[at + 1..])
      else
        Mask(text, "", "")
  }

  function Limit(s: string, n: nat): string {
    if |s| <= n then s else s[..n]
  }

  /** The characters up to the first one that is not allowed; "*" if none is left. */
  function Clean(s: string, part: Part): string {
    var k := RunEnd(s, part);
    if k == 0 then "*" else s[..k]
  }

  /** The length of the longest start of s that is allowed throughout. */
  function RunEnd(s: string, part: Part): (k: nat)
    ensures k <= |s| && (k < |s| ==> !part.Allows(s[k]))
    ensures forall i :: 0 <= i < k ==> part.Allows(s[i])
  {
    if s == "" || !part.Allows(s[0]) then 0 else 1 + RunEnd(s[1..], part)
  }

  function Normal(arg: string): Mask {
    var m := Split(arg);
    Mask(Clean(Limit(m.nick, NICKLEN), Nick), Clean(Limit(m.user, USERLEN), User), Clean(Limit(m.host, HOSTLEN), Host))
  }

  function Text(m: Mask): string {
    m.nick + ("!" + (m.user + ("@" + m.host)))
  }

  /** What is stored, and sent on, for an argument. */
  function Normalize(arg: string): string {
    Text(Normal(arg))
  }

  // ---------- the code ----------

  /** strlcpy into a buffer that holds "*", then the loop that cuts at the first
      character not allowed. */
  method CleanPart(s: string, part: Part) returns (r: string)
    ensures r == Clean(Limit(s, part.Size()), part)
  {
    r := "*";
    if s != "" {
      r := Limit(s, part.Size());
    }
    var i := 0;
    while i < |r|
      invariant 0 <= i <= |r| && forall j :: 0 <= j < i ==> part.Allows(r[j])
    {
      if !part.Allows(r[i]) {
        assert RunEnd(r, part) == i;
        return if i == 0 then "*" else r[..i];
      }
      i := i + 1;
    }
    assert r[..|r|] == r;
  }

  // ---------- which part comes from where ----------

  /** What is stored for a part: its longest start that fits and is allowed throughout, or
      "*" if that is empty. */
  ghost predicate IsStored(stored: string, s: string, part: Part) {
    exists k: nat :: IsStart(s, part, k) && stored == if k == 0 then "*" else s[..k]
  }

  predicate IsStart(s: string, part: Part, k: nat) {
    && k <= |s| && k <= part.Size() && (forall i :: 0 <= i < k ==> part.Allows(s[i]))
    && (k < |s| && k < part.Size() ==> !part.Allows(s[k]))
  }

  /** arg[from..end] goes up to the first x or y in front of limit, or up to limit. */
  predicate EndsAt(arg: string, from: nat, end: nat, limit: nat, x: char, y: char) {
    && from <= end <= limit <= |arg| && (end < limit ==> arg[end] == x || arg[end] == y)
    && forall i :: from <= i < end ==> arg[i] != x && arg[i] != y
  }

  /** No `@`: what is in front of the first `!`, or all of it, is the nick. */
  predicate IsNickOnly(arg: string, n: nat) {
    EndsAt(arg, 0, n, |arg|, '!', '!') && '@' !in arg
  }

  /** user@host, the `@` in front of any `!`: the host goes up to a `!`, and may hold an `@`. */
  predicate IsUserHost(arg: string, a: nat, h: nat) {
    EndsAt(arg, 0, a, |arg|, '!', '@') && a < |arg| && arg[a] == '@' && EndsAt(arg, a + 1, h, |arg|, '!', '!')
  }

  /** nick!user@host, a `!` in front of any `@`: the user goes up to a further `!`, the host up
      to a further `!` or `@`. */
  predicate IsFull(arg: string, b: nat, u: nat, a: nat, h: nat) {
    && EndsAt(arg, 0, b, |arg|, '!', '@') && b < |arg| && arg[b] == '!'
    && EndsAt(arg, b + 1, a, |arg|, '@', '@') && a < |arg| && EndsAt(arg, b + 1, u, a, '!', '!')
    && EndsAt(arg, a + 1, h, |arg|, '!', '@')
  }

  /** The mask is made of these parts. */
  ghost predicate MadeOf(mask: string, nick: string, user: string, host: string) {
    exists m: Mask :: mask == m.nick + ("!" + (m.user + ("@" + m.host)))
      && IsStored(m.nick, nick, Nick) && IsStored(m.user, user, User) && IsStored(m.host, host, Host)
  }

  lemma CleanIsStored(s: string, part: Part)
    ensures IsStored(Clean(Limit(s, part.Size()), part), s, part)
  {
    var t := Limit(s, part.Size());
    var k := RunEnd(t, part);
    assert forall i :: 0 <= i < |t| ==> t[i] == s[i];
    assert IsStart(s, part, k) && t[..k] == s[..k];
  }

  lemma NormalMadeOf(arg: string)
    ensures var m := Split(arg); MadeOf(Normalize(arg), m.nick, m.user, m.host)
  {
    var m := Split(arg);
    CleanIsStored(m.nick, Nick);
    CleanIsStored(m.user, User);
    CleanIsStored(m.host, Host);
  }

  lemma CutIs(arg: string, from: nat, end: nat, limit: nat, c: char)
    requires EndsAt(arg, from, end, limit, c, c)
    ensures Find(arg[from..limit], c) == end - from && Cut(arg[from..limit], c) == arg[from..end]
  {
    FindFirst(arg[from..limit], c, end - from);
  }

  lemma NickOnlySplits(arg: string, n: nat)
    requires IsNickOnly(arg, n)
    ensures Split(arg) == Mask(arg[..n], "", "")
  {
    CutIs(arg, 0, n, |arg|, '!');
    FindFirst(arg, '@', |arg|);
    assert arg[0..|arg|] == arg;
  }

  lemma UserHostSplits(arg: string, a: nat, h: nat)
    requires IsUserHost(arg, a, h)
    ensures Split(arg) == Mask("", arg[..a], arg[a + 1..h])
  {
    FindFirst(arg, '@', a);
    FindFirst(arg, '!', h);
    assert arg[..h][a + 1..] == arg[a + 1..h];
  }

  lemma HostIsCut(arg: string, from: nat, h: nat)
    requires EndsAt(arg, from, h, |arg|, '!', '@')
    ensures Cut(Cut(arg[from..], '@'), '!') == arg[from..h]
  {
    var host := arg[from..];
    var at := Find(host, '@');
    FindFirst(host[..at], '!', h - from);
  }

  lemma FullSplits(arg: string, b: nat, u: nat, a: nat, h: nat)
    requires IsFull(arg, b, u, a, h)
    ensures Split(arg) == Mask(arg[..b], arg[b + 1..u], arg[a + 1..h])
  {
    FindFirst(arg, '!', b);
    FindFirst(arg, '@', a);
    CutIs(arg, b + 1, u, a, '!');
    HostIsCut(arg, a + 1, h);
  }

  /** A nick gets "*" for user and host. */
  lemma NickOnlyMadeOf(arg: string, n: nat)
    requires IsNickOnly(arg, n)
    ensures MadeOf(Normalize(arg), arg[..n], "", "")
  {
    NickOnlySplits(arg, n);
    NormalMadeOf(arg);
  }

  /** user@host gets "*" for the nick. */
  lemma UserHostMadeOf(arg: string, a: nat, h: nat)
    requires IsUserHost(arg, a, h)
    ensures MadeOf(Normalize(arg), "", arg[..a], arg[a + 1..h])
  {
    UserHostSplits(arg, a, h);
    NormalMadeOf(arg);
  }

  /** nick!user@host gives its three parts. */
  lemma FullMadeOf(arg: string, b: nat, u: nat, a: nat, h: nat)
    requires IsFull(arg, b, u, a, h)
    ensures MadeOf(Normalize(arg), arg[..b], arg[b + 1..u], arg[a + 1..h])
  {
    FullSplits(arg, b, u, a, h);
    NormalMadeOf(arg);
  }

  lemma End(arg: string, from: nat, limit: nat, x: char, y: char) returns (end: nat)
    requires from <= limit <= |arg|
    ensures EndsAt(arg, from, end, limit, x, y)
  {
    end := from;
    while end < limit && arg[end] != x && arg[end] != y
      invariant from <= end <= limit && forall i :: from <= i < end ==> arg[i] != x && arg[i] != y
    {
      end := end + 1;
    }
  }

  /** The form of an argument, and where its parts end. */
  datatype Form = NickOnly(n: nat) | UserHost(a: nat, h: nat) | Full(b: nat, u: nat, a: nat, h: nat)

  predicate HasForm(arg: string, f: Form) {
    match f
    case NickOnly(n) => IsNickOnly(arg, n)
    case UserHost(a, h) => IsUserHost(arg, a, h)
    case Full(b, u, a, h) => IsFull(arg, b, u, a, h)
  }

  /** The mask is made of the parts the form names. */
  ghost predicate IsMadeBy(arg: string, f: Form, mask: string)
    requires HasForm(arg, f)
  {
    match f
    case NickOnly(n) => MadeOf(mask, arg[..n], "", "")
    case UserHost(a, h) => MadeOf(mask, "", arg[..a], arg[a + 1..h])
    case Full(b, u, a, h) => MadeOf(mask, arg[..b], arg[b + 1..u], arg[a + 1..h])
  }

  /** Whichever form the argument has. */
  ghost predicate IsMadeFrom(arg: string, mask: string) {
    exists f :: HasForm(arg, f) && IsMadeBy(arg, f, mask)
  }

  lemma FormMadeBy(arg: string, f: Form)
    requires HasForm(arg, f)
    ensures IsMadeBy(arg, f, Normalize(arg))
  {
    match f
    case NickOnly(n) => NickOnlyMadeOf(arg, n);
    case UserHost(a, h) => UserHostMadeOf(arg, a, h);
    case Full(b, u, a, h) => FullMadeOf(arg, b, u, a, h);
  }

  lemma FullForm(arg: string, b: nat) returns (f: Form)
    requires EndsAt(arg, 0, b, |arg|, '!', '@') && b < |arg| && arg[b] == '!' && '@' in arg
    ensures HasForm(arg, f)
  {
    var at :| 0 <= at < |arg| && arg[at] == '@';
    var a := End(arg, b + 1, |arg|, '@', '@');
    assert b < at && a <= at;
    var u := End(arg, b + 1, a, '!', '!');
    var h := End(arg, a + 1, |arg|, '!', '@');
    f := Full(b, u, a, h);
  }

  /** Every argument has one. */
  lemma AnyForm(arg: string) returns (f: Form)
    ensures HasForm(arg, f)
  {
    var k := End(arg, 0, |arg|, '!', '@');
    if '@' !in arg {
      f := NickOnly(k);
    } else if k < |arg| && arg[k] == '!' {
      f := FullForm(arg, k);
    } else {
      var h := End(arg, k + 1, |arg|, '!', '!');
      f := UserHost(k, h);
    }
  }

  lemma NormalizeIsMadeFrom(arg: string)
    ensures IsMadeFrom(arg, Normalize(arg))
  {
    var f := AnyForm(arg);
    FormMadeBy(arg, f);
  }

  /** chanmode_bounce_ban's rewriting of the argument. */
  method NormalizeArgument(given: string) returns (mask: string)
    ensures mask == Normalize(given) && IsMadeFrom(given, mask)
  {
    var arg := given;
    var nick, user, host := "", "", "";
    var sep1, sep2 := Find(arg, '!'), Find(arg, '@');
    var hasBang, hasAt := sep1 < |arg|, sep2 < |arg|;
    if hasBang && (!hasAt || sep2 < sep1) {
      arg := arg[..sep1];
      hasBang := false;
    }
    if !hasBang && !hasAt {
      nick := arg;
    } else if !hasBang {
      user := arg[..sep2];
      host := arg[sep2 + 1..];
    } else {
      nick := arg[..sep1];
      user := Cut(arg[sep1 + 1..sep2], '!');
      host := Cut(Cut(arg[sep2 + 1..], '@'), '!');
    }
    assert arg == (if hasBang then given else Cut(given, '!'));
    assert hasAt && !hasBang ==> user == given[..sep2];
    assert Split(given) == Mask(nick, user, host);
    nick := CleanPart(nick, Nick);
    user := CleanPart(user, User);
    host := CleanPart(host, Host);
    mask := nick + ("!" + (user + ("@" + host)));
    NormalizeIsMadeFrom(given);
  }

  // ---------- normalising twice ----------

  /** Every character of a part is allowed there, and the part fits. */
  ghost predicate IsClean(s: string, part: Part) {
    s != "" && |s| <= part.Size() && forall i :: 0 <= i < |s| ==> part.Allows(s[i])
  }

  lemma CleanFits(s: string, part: Part)
    ensures var c := Clean(Limit(s, part.Size()), part);
      && IsClean(c, part) && (forall x :: x in c ==> x in s || x == '*')
  {
  }

  /** Cleaning a cleaned part changes nothing. */
  lemma CleanAgain(c: string, part: Part)
    requires IsClean(c, part)
    ensures Clean(Limit(c, part.Size()), part) == c
  {
    assert c[..|c|] == c;
  }

  lemma {:induction false} FindFirst(s: string, c: char, k: nat)
    requires k <= |s| && c !in s[..k] && (k < |s| ==> s[k] == c)
    ensures Find(s, c) == k
  {
    forall i | 0 <= i < k
      ensures s[i] != c
    {
      assert s[..k][i] == s[i];
    }
  }

  lemma Layout(t: string, nick: string, user: string, host: string)
    requires t == nick + ("!" + (user + ("@" + host)))
    ensures var b := |nick|;
      var a := b + 1 + |user|;
      a < |t| && t[b] == '!' && t[a] == '@' && t[..b] == nick && t[b + 1..a] == user && t[a + 1..] == host
  {
  }

  /** Where the separators of a text of the form nick!user@host are. */
  lemma SeparatorsOf(t: string, nick: string, user: string, host: string)
    requires t == nick + ("!" + (user + ("@" + host)))
    requires '!' !in nick && '@' !in nick && '!' !in user && '@' !in user
    ensures var bang, at := Find(t, '!'), Find(t, '@');
      bang < at < |t| && t[..bang] == nick && t[bang + 1..at] == user && t[at + 1..] == host
  {
    Layout(t, nick, user, host);
    FoundAt(t, nick, user, |nick|, |nick| + 1 + |user|);
  }

  lemma FoundAt(t: string, nick: string, user: string, b: nat, a: nat)
    requires b < a < |t| && t[b] == '!' && t[a] == '@' && t[..b] == nick && t[b + 1..a] == user
    requires '!' !in nick && '@' !in nick && '@' !in user
    ensures Find(t, '!') == b && Find(t, '@') == a
  {
    FindFirst(t, '!', b);
    forall i | 0 <= i < a
      ensures t[i] != '@'
    {
      if i < b {
        assert t[i] == nick[i];
      } else if i > b {
        assert t[i] == user[i - b - 1];
      }
    }
  }

  lemma TextSplits(m: Mask)
    requires '!' !in m.nick && '@' !in m.nick && '!' !in m.user && '@' !in m.user && '!' !in m.host
    ensures Split(Text(m)) == Mask(m.nick, m.user, Cut(m.host, '@'))
  {
    SeparatorsOf(Text(m), m.nick, m.user, m.host);
    SplitParts(Text(m), m.nick, m.user, m.host, Find(Text(m), '!'), Find(Text(m), '@'));
  }

  lemma SplitParts(t: string, nick: string, user: string, host: string, bang: nat, at: nat)
    requires Find(t, '!') == bang && Find(t, '@') == at && bang < at < |t|
    requires t[..bang] == nick && t[bang + 1..at] == user && t[at + 1..] == host
    requires '!' !in user && '!' !in host
    ensures Split(t) == Mask(nick, user, Cut(host, '@'))
  {
    CutNothing(user, '!');
    CutTwice(host);
  }

  lemma CutTwice(host: string)
    requires '!' !in host
    ensures Cut(Cut(host, '@'), '!') == Cut(host, '@')
  {
    var h := Cut(host, '@');
    assert forall x :: x in h ==> x in host;
    CutNothing(h, '!');
  }

  lemma CutNothing(s: string, c: char)
    requires c !in s
    ensures Cut(s, c) == s
  {
    FindFirst(s, c, |s|);
  }

  lemma SplitSeparators(arg: string)
    ensures var m := Split(arg);
      '!' !in m.nick && '@' !in m.nick && '!' !in m.user && '@' !in m.user && '!' !in m.host
  {
    var bang, at := Find(arg, '!'), Find(arg, '@');
    if bang < at < |arg| {
      assert forall x :: x in arg[..bang] ==> x in arg[..at];
      assert forall x :: x in Cut(arg[bang + 1..at], '!') ==> x in arg[..at];
    } else {
      var text := Cut(arg, '!');
      if at < |arg| {
        assert forall x :: x in arg[..at] ==> x in text;
        assert forall x :: x in text[at + 1..] ==> x in text;
      } else {
        assert forall x :: x in text ==> x in arg[..at];
      }
    }
  }

  lemma NormalSeparators(arg: string)
    ensures var m := Normal(arg);
      '!' !in m.nick && '@' !in m.nick && '!' !in m.user && '@' !in m.user && '!' !in m.host
  {
    SplitSeparators(arg);
    var m := Split(arg);
    CleanFits(m.nick, Nick);
    CleanFits(m.user, User);
    CleanFits(m.host, Host);
  }

  /** Normalising nick!user@host keeps nick and user and cuts the host at an `@`. */
  lemma NormalizeText(m: Mask)
    requires IsClean(m.nick, Nick) && IsClean(m.user, User)
    requires '!' !in m.nick && '@' !in m.nick && '!' !in m.user && '@' !in m.user && '!' !in m.host
    ensures Normalize(Text(m)) == Text(Mask(m.nick, m.user, Clean(Limit(Cut(m.host, '@'), HOSTLEN), Host)))
  {
    TextSplits(m);
    CleanAgain(m.nick, Nick);
    CleanAgain(m.user, User);
  }

  /** The argument's host keeps a second `@`: no `!` stands in front of the first one, and
      the second comes within the 64 characters that are kept, behind none that is not
      allowed and behind no `!`. */
  predicate KeepsSecondAt(arg: string) {
    var bang, at := Find(arg, '!'), Find(arg, '@');
    && at < |arg| && at < bang
    && var rest := Cut(arg[at + 1..], '!');
       var k := Find(rest, '@');
       k < |rest| && k < HOSTLEN && forall i :: 0 <= i < k ==> Host.Allows(rest[i])
  }

  lemma CutBehind(arg: string, at: nat)
    requires at < |arg| && at < Find(arg, '!')
    ensures Cut(arg, '!')[at + 1..] == Cut(arg[at + 1..], '!')
  {
    var rest, bang := arg[at + 1..], Find(arg, '!');
    forall i | 0 <= i < bang - at - 1
      ensures rest[i] != '!'
    {
      assert rest[i] == arg[at + 1 + i];
    }
    FindFirst(rest, '!', bang - at - 1);
  }

  /** c is left after cleaning exactly when all in front of its first place is allowed. */
  lemma IsLeft(s: string, part: Part, c: char)
    requires part.Allows(c) && c != '*'
    ensures c in Clean(s, part) <==> Find(s, c) < |s| && forall i :: 0 <= i < Find(s, c) ==> part.Allows(s[i])
  {
    var k, end := Find(s, c), RunEnd(s, part);
    if k < |s| && forall i :: 0 <= i < k ==> part.Allows(s[i]) {
      assert k < end;
      assert s[..end][k] == c;
    }
    if c in Clean(s, part) {
      var i :| 0 <= i < end && s[..end][i] == c;
      assert s[i] == c;
    }
  }

  lemma {:induction false} FindInLimit(s: string, c: char, n: nat)
    ensures Find(Limit(s, n), c) == if Find(s, c) < n then Find(s, c) else |Limit(s, n)|
  {
    var t, k := Limit(s, n), Find(s, c);
    FindFirst(t, c, if k < n then k else |t|);
  }

  lemma AtIsKept(rest: string)
    ensures '@' in Clean(Limit(rest, HOSTLEN), Host)
       <==> var k := Find(rest, '@'); k < |rest| && k < HOSTLEN && forall i :: 0 <= i < k ==> Host.Allows(rest[i])
  {
    FindInLimit(rest, '@', HOSTLEN);
    IsLeft(Limit(rest, HOSTLEN), Host, '@');
  }

  lemma HostKeepsAt(arg: string)
    ensures '@' in Normal(arg).host <==> KeepsSecondAt(arg)
  {
    var bang, at := Find(arg, '!'), Find(arg, '@');
    AtIsKept(Split(arg).host);
    if bang < at < |arg| {
      NoAtBehindCut(Cut(arg[at + 1..], '@'));
    } else if at < |arg| {
      CutBehind(arg, at);
    }
  }

  lemma NoAtBehindCut(host: string)
    requires '@' !in host
    ensures '@' !in Cut(host, '!')
  {
  }

  /** Normalising a normalised mask again keeps it exactly unless its host holds a second
      `@`, which shows in the argument. */
  lemma NormalizeAgain(arg: string)
    ensures Normalize(Normalize(arg)) == Normalize(arg) <==> !KeepsSecondAt(arg)
  {
    HostKeepsAt(arg);
    var m := Normal(arg);
    NormalSeparators(arg);
    CleanFits(Split(arg).nick, Nick);
    CleanFits(Split(arg).user, User);
    CleanFits(Split(arg).host, Host);
    NormalizeText(m);
    if '@' !in m.host {
      CutNothing(m.host, '@');
      CleanAgain(m.host, Host);
    } else {
      HostShrinks(m.host);
      TextInjective(m, Mask(m.nick, m.user, Clean(Limit(Cut(m.host, '@'), HOSTLEN), Host)));
    }
  }

  lemma HostShrinks(h: string)
    requires '@' in h && |h| <= HOSTLEN && forall i :: 0 <= i < |h| ==> Host.Allows(h[i])
    ensures Clean(Limit(Cut(h, '@'), HOSTLEN), Host) != h
  {
    var k := Find(h, '@');
    assert h[..|h|] == h;
    assert k < |h|;
  }

  lemma TextInjective(a: Mask, b: Mask)
    requires a.nick == b.nick && a.user == b.user && a.host != b.host
    ensures Text(a) != Text(b)
  {
    var k := |a.nick| + 1 + |a.user| + 1;
    assert Text(a)[k..] == a.host && Text(b)[k..] == b.host;
  }

  /** user@host without a nick gets "*" for it; the host is taken up to its end, not
      up to a further `@`. */
  lemma NormalizeUserHost(user: string, host: string)
    requires IsClean(user, User) && '!' !in user && '@' !in user
    requires IsClean(host, Host) && '!' !in host
    ensures Normalize(user + ("@" + host)) == Text(Mask("*", user, host))
  {
    var arg, a := user + ("@" + host), |user|;
    assert arg[..a] == user && arg[a] == '@' && arg[a + 1..] == host;
    FindFirst(arg, '@', a);
    CutNothing(arg, '!');
    assert Split(arg) == Mask("", user, host);
    CleanAgain(user, User);
    CleanAgain(host, Host);
  }

  /** So a mask can be stored that becomes another when it is normalised again:
      user@host@more is stored as *!user@host@more, and then as *!user@host. */
  lemma SecondAtUnstable(user: string, host: string, more: string)
    requires IsClean(user, User) && '!' !in user && '@' !in user
    requires IsClean(host, Host) && '!' !in host && '@' !in host
    requires IsClean(host + ("@" + more), Host) && '!' !in more
    ensures var arg, full := user + ("@" + (host + ("@" + more))), host + ("@" + more);
      && Normalize(arg) == Text(Mask("*", user, full))
      && Normalize(Normalize(arg)) == Text(Mask("*", user, host)) != Normalize(arg)
  {
    var full := host + ("@" + more);
    NormalizeUserHost(user, full);
    assert IsClean("*", Nick);
    NormalizeText(Mask("*", user, full));
    assert full[..|host|] == host;
    FindFirst(full, '@', |host|);
    CleanAgain(host, Host);
    TextInjective(Mask("*", user, full), Mask("*", user, host));
  }

  lemma NormalizeNotIdempotent()
    ensures exists arg :: Normalize(Normalize(arg)) != Normalize(arg)
  {
    SecondAtUnstable("a", "b", "c");
    assert Normalize(Normalize("a" + ("@" + ("b" + ("@" + "c"))))) != Normalize("a" + ("@" + ("b" + ("@" + "c"))));
  }
}
