/** What mode changes do, told without the callbacks: of one change by its sign and what is
    set before, of a whole pass by the change list it leaves (chanmode_apply and
    chanmode_bounce_simple of src/chanmode.c, chanuser_mode_bounce of src/chanuser.c). */
module ModeEffects {
  import opened Prelude
  import opened MaskLists
  import opened ModeChanges

  /** A flag of the channel, or a privilege a member holds. */
  datatype Bit = Flag(letter: char) | Held(member: nat, letter: char)

  predicate IsSet(ch: Channel, bit: Bit) {
    match bit
    case Flag(l) => l in ch.flags
    case Held(u, l) => u in ch.members && l in ch.members[u]
  }

  /** A + or - of this bit. */
  predicate IsOf(c: Change, bit: Bit) {
    && c.what != Query && c.mode.letter == bit.letter
    && match bit case Flag(_) => c.mode.kind == Single case Held(u, _) => c.mode.kind == Privilege && c.target == u
  }

  /** A local user who is a member holds one of the privileges the mode asks for; nobody
      else has to. */
  ghost predicate MayChange(src: Source, ch: Channel, c: Change) {
    src.member.Some? && src.localUser ==> exists p :: p in c.mode.need && IsSet(ch, Held(src.member.value, p))
  }

  // ---------- one change ----------

  /** What is not allowed, and what is only a query, changes nothing and is bounced. */
  lemma RefusedChangesNothing(rules: Rules, src: Source, ch: Channel, c: Change)
    requires TargetPresent(ch, c) && (c.what == Query || !MayChange(src, ch, c))
    ensures Step(rules, src, ch, c) == Pass(ch, [c.(bounced := true)], 0)
  {
    if c.what != Query {
      assert forall p :: p in c.mode.need ==> !IsSet(ch, Held(src.member.value, p));
    }
  }

  lemma NotDenied(src: Source, ch: Channel, c: Change)
    requires MayChange(src, ch, c)
    ensures !Denied(src, ch, c)
  {
    if src.member.Some? && src.localUser {
      var p :| p in c.mode.need && IsSet(ch, Held(src.member.value, p));
      assert p in ch.members[src.member.value] * c.mode.need;
    }
  }

  /** An allowed + leaves the flag or privilege set, an allowed - leaves it clear; it is
      bounced exactly if that was so before. */
  lemma AllowedChangeSets(rules: Rules, src: Source, ch: Channel, c: Change, bit: Bit)
    requires TargetPresent(ch, c) && MayChange(src, ch, c) && IsOf(c, bit)
    ensures var s := Step(rules, src, ch, c);
      && (c.what == Add ==> IsSet(s.channel, bit) && s.changes == [c.(bounced := IsSet(ch, bit))])
      && (c.what == Del ==> !IsSet(s.channel, bit) && s.changes == [c.(bounced := !IsSet(ch, bit))])
      && s.passed == (if s.changes[0].bounced then 0 else 1)
  {
    NotDenied(src, ch, c);
  }

  /** No other flag, privilege or list changes. */
  lemma OthersUnchanged(rules: Rules, src: Source, ch: Channel, c: Change)
    requires TargetPresent(ch, c)
    ensures var after := Step(rules, src, ch, c).channel;
      && (forall bit :: !IsOf(c, bit) ==> (IsSet(after, bit) <==> IsSet(ch, bit)))
      && after.members.Keys == ch.members.Keys
      && (forall l :: c.mode.kind != List || c.mode.letter != l ==> after.ListOf(l) == ch.ListOf(l))
  {
  }

  lemma {:induction false} DeletionsOf(mode: Mode, masks: seq<Mask>)
    ensures var dels := Deletions(mode, masks);
      |dels| == |masks| && forall i :: 0 <= i < |dels| ==> dels[i] == Change(Del, mode, masks[i], 0, false)
  {
    if masks == [] {
    } else {
      DeletionsOf(mode, masks[1..]);
    }
  }

  /** All changes in front of the last one are deletions ... */
  predicate Deletes(changes: seq<Change>, mode: Mode) {
    forall i :: 0 <= i < |changes| - 1 ==> changes[i] == Change(Del, mode, changes[i].arg, 0, false)
  }

  /** ... of these masks. */
  function Gone(changes: seq<Change>): set<Mask> {
    set i | 0 <= i < |changes| - 1 :: changes[i].arg
  }

  lemma DeletionsDelete(mode: Mode, masks: seq<Mask>, c: Change)
    ensures Deletes(Deletions(mode, masks) + [c], mode)
    ensures forall m :: m in Gone(Deletions(mode, masks) + [c]) <==> m in masks
  {
    DeletionsOf(mode, masks);
    var changes := Deletions(mode, masks) + [c];
    forall m | m in masks
      ensures m in Gone(changes)
    {
      var i :| 0 <= i < |masks| && masks[i] == m;
      assert changes[i].arg == m;
    }
  }

  /** An allowed + of a mask is for the mask in its normal form. It is bounced if a mask of the
      list matches that one, or the list is full and it matches none of it. If it gets through,
      the masks it matches are taken out and it is put in, tagged with its setter. */
  lemma AllowedMaskIsAdded(rules: Rules, src: Source, ch: Channel, c: Change)
    requires MayChange(src, ch, c) && c.mode.kind == List && c.what == Add
    requires |ch.ListOf(c.mode.letter)| <= MAXBANS
    ensures var s := Step(rules, src, ch, c);
      var items, now, mask := ch.ListOf(c.mode.letter), s.channel.ListOf(c.mode.letter), rules.normalize(c.arg);
      var bounced := Matched(rules.matches, mask, items)
                     || (|items| == MAXBANS && forall m :: m in Masks(items) ==> !rules.matches(m, mask));
      && s.changes != [] && Deletes(s.changes, c.mode) && s.changes[|s.changes| - 1] == c.(arg := mask, bounced := bounced)
      && (!Matched(rules.matches, mask, items) ==>
            Gone(s.changes) == set m | m in Masks(items) && rules.matches(m, mask))
      && (!bounced ==> Masks(now) == (set m | m in Masks(items) && !rules.matches(m, mask)) + {mask}
                       && Item(mask, src.ihash) in now)
      && (bounced && !Matched(rules.matches, mask, items) ==> now == items)
  {
    NotDenied(src, ch, c);
    var items, item := ch.ListOf(c.mode.letter), Item(rules.normalize(c.arg), src.ihash);
    var o := BounceAdd(rules.matches, items, item);
    AddIsExact(rules.matches, items, item);
    DeletionsDelete(c.mode, o.dels, c.(arg := item.mask, bounced := o.result != 0));
    AddFullIff(rules.matches, items, item);
  }

  lemma AddFullIff(matches: Matcher, items: seq<Item>, item: Item)
    requires |items| <= MAXBANS
    ensures var o := BounceAdd(matches, items, item);
      && (o.result == -2 <==> !Matched(matches, item.mask, items) && |items| == MAXBANS
                              && forall m :: m in Masks(items) ==> !matches(m, item.mask))
      && (o.result == 0 ==> item in o.items)
  {
    ScanHits(matches, items, item.mask);
    var s := ScanAdd(matches, items, item.mask);
    if !s.hit {
      ScanFilters(matches, items, item.mask);
      if s.dropped != [] {
        assert s.dropped[0] in s.dropped;
      }
      assert Inserted(s.kept, item)[InsertAt(s.kept, item.ihash)] == item;
    }
  }

  /** An allowed - of a mask takes out those it matches and those that match it, and is
      bounced itself. */
  lemma AllowedMaskIsRemoved(rules: Rules, src: Source, ch: Channel, c: Change)
    requires MayChange(src, ch, c) && c.mode.kind == List && c.what == Del
    ensures var s := Step(rules, src, ch, c);
      var items, now := ch.ListOf(c.mode.letter), s.channel.ListOf(c.mode.letter);
      && s.changes != [] && Deletes(s.changes, c.mode) && s.changes[|s.changes| - 1] == c.(bounced := true)
      && Gone(s.changes) == (set m | m in Masks(items) && (rules.matches(m, c.arg) || rules.matches(c.arg, m)))
      && Masks(now) == set m | m in Masks(items) && !rules.matches(m, c.arg) && !rules.matches(c.arg, m)
  {
    NotDenied(src, ch, c);
    var items := ch.ListOf(c.mode.letter);
    DelRemovesComparable(rules.matches, items, c.arg);
    DeletionsDelete(c.mode, BounceDel(rules.matches, items, c.arg).dels, c.(bounced := true));
  }

  // ---------- a whole pass ----------

  /** Whether a bit is set behind these changes, going by what got through of them: the last
      one of it decides. */
  function Now(ch: Channel, done: seq<Change>, bit: Bit): bool {
    if done == [] then IsSet(ch, bit)
    else
      var c := done[|done| - 1];
      if IsOf(c, bit) && !c.bounced then c.what == Add else Now(ch, done[..|done| - 1], bit)
  }

  ghost predicate MayChangeNow(src: Source, ch: Channel, done: seq<Change>, c: Change) {
    src.member.Some? && src.localUser ==> exists p :: p in c.mode.need && Now(ch, done, Held(src.member.value, p))
  }

  /** A change of a pass, by what is in front of it: a query and what is not allowed are
      bounced, and an allowed + or - of a flag or privilege exactly if that is so already. */
  ghost predicate Settled(src: Source, ch: Channel, done: seq<Change>, c: Change) {
    && (c.what == Query || !MayChangeNow(src, ch, done, c) ==> c.bounced)
    && forall bit :: IsOf(c, bit) && MayChangeNow(src, ch, done, c) ==>
         (c.bounced <==> Now(ch, done, bit) == (c.what == Add))
  }

  ghost predicate AllSettled(src: Source, ch: Channel, changes: seq<Change>) {
    forall i :: 0 <= i < |changes| ==> Settled(src, ch, changes[..i], changes[i])
  }

  ghost predicate Agrees(ch: Channel, done: seq<Change>, after: Channel) {
    forall bit :: IsSet(after, bit) <==> Now(ch, done, bit)
  }

  lemma {:induction false} NowConcat(ch: Channel, a: seq<Change>, mid: Channel, b: seq<Change>, bit: Bit)
    requires Agrees(ch, a, mid)
    ensures Now(ch, a + b, bit) == Now(mid, b, bit)
  {
    if b == [] {
      assert a + b == a;
    } else {
      NowConcat(ch, a, mid, b[..|b| - 1], bit);
      assert (a + b)[..|a + b| - 1] == a + b[..|b| - 1];
    }
  }

  lemma SettledBehind(src: Source, ch: Channel, a: seq<Change>, mid: Channel, b: seq<Change>, c: Change)
    requires Agrees(ch, a, mid) && Settled(src, mid, b, c)
    ensures Settled(src, ch, a + b, c)
  {
    forall bit
      ensures Now(ch, a + b, bit) == Now(mid, b, bit)
    {
      NowConcat(ch, a, mid, b, bit);
    }
  }

  lemma SettledConcat(src: Source, ch: Channel, a: seq<Change>, mid: Channel, b: seq<Change>, after: Channel)
    requires AllSettled(src, ch, a) && Agrees(ch, a, mid) && AllSettled(src, mid, b) && Agrees(mid, b, after)
    ensures AllSettled(src, ch, a + b) && Agrees(ch, a + b, after)
  {
    forall bit
      ensures Now(ch, a + b, bit) == Now(mid, b, bit)
    {
      NowConcat(ch, a, mid, b, bit);
    }
    forall i | 0 <= i < |a + b|
      ensures Settled(src, ch, (a + b)[..i], (a + b)[i])
    {
      if i < |a| {
        assert (a + b)[..i] == a[..i];
      } else {
        SettledBehind(src, ch, a, mid, b[..i - |a|], b[i - |a|]);
        assert (a + b)[..i] == a + b[..i - |a|];
      }
    }
  }

  /** Deletions of masks leave flags and privileges alone. */
  lemma {:induction false} NowOfDeletions(ch: Channel, mode: Mode, masks: seq<Mask>, k: nat, bit: Bit)
    requires mode.kind == List && k <= |Deletions(mode, masks)|
    ensures Now(ch, Deletions(mode, masks)[..k], bit) == IsSet(ch, bit)
  {
    var dels := Deletions(mode, masks);
    DeletionsOf(mode, masks);
    if k == 0 {
    } else {
      NowOfDeletions(ch, mode, masks, k - 1, bit);
      assert dels[..k][..k - 1] == dels[..k - 1];
    }
  }

  lemma MayNowIs(src: Source, ch: Channel, done: seq<Change>, c: Change)
    requires Agrees(ch, done, ch)
    ensures MayChangeNow(src, ch, done, c) <==> MayChange(src, ch, c)
  {
  }

  lemma DeletionsAgree(src: Source, ch: Channel, mode: Mode, masks: seq<Mask>, c: Change, k: nat)
    requires mode.kind == List && k <= |Deletions(mode, masks)|
    ensures Agrees(ch, Deletions(mode, masks)[..k], ch)
    ensures MayChangeNow(src, ch, Deletions(mode, masks)[..k], c) <==> MayChange(src, ch, c)
  {
    forall bit
      ensures Now(ch, Deletions(mode, masks)[..k], bit) == IsSet(ch, bit)
    {
      NowOfDeletions(ch, mode, masks, k, bit);
    }
    MayNowIs(src, ch, Deletions(mode, masks)[..k], c);
  }

  lemma DeletionsSettle(src: Source, ch: Channel, mode: Mode, masks: seq<Mask>, c: Change)
    requires MayChange(src, ch, c) && mode.kind == List && c.mode == mode && c.what != Query
    ensures AllSettled(src, ch, Deletions(mode, masks) + [c]) && Agrees(ch, Deletions(mode, masks) + [c], ch)
  {
    var dels, all := Deletions(mode, masks), Deletions(mode, masks) + [c];
    DeletionsOf(mode, masks);
    forall k | 0 <= k < |all|
      ensures Settled(src, ch, all[..k], all[k])
    {
      assert all[..k] == dels[..k];
      DeletionsAgree(src, ch, mode, masks, all[k], k);
      assert MayChange(src, ch, all[k]);
    }
    DeletionsAgree(src, ch, mode, masks, c, |dels|);
    assert all[..|all| - 1] == dels == dels[..|dels|];
  }

  lemma ListStepShape(rules: Rules, src: Source, ch: Channel, c: Change) returns (masks: seq<Mask>, last: Change)
    requires MayChange(src, ch, c) && c.mode.kind == List && c.what != Query
    ensures Step(rules, src, ch, c).changes == Deletions(c.mode, masks) + [last]
    ensures last.mode == c.mode && last.what == c.what
    ensures Step(rules, src, ch, c).channel.flags == ch.flags && Step(rules, src, ch, c).channel.members == ch.members
  {
    NotDenied(src, ch, c);
    var e := Callback(rules, src, ch, c);
    masks, last := e.dels, c.(arg := e.arg, bounced := e.result != 0);
  }

  lemma SameBitsAgree(ch: Channel, done: seq<Change>, after: Channel)
    requires Agrees(ch, done, ch) && after.flags == ch.flags && after.members == ch.members
    ensures Agrees(ch, done, after)
  {
    forall bit
      ensures IsSet(after, bit) <==> IsSet(ch, bit)
    {
    }
  }

  lemma StepSettlesList(rules: Rules, src: Source, ch: Channel, c: Change)
    requires MayChange(src, ch, c) && c.mode.kind == List && c.what != Query
    ensures AllSettled(src, ch, Step(rules, src, ch, c).changes)
    ensures Agrees(ch, Step(rules, src, ch, c).changes, Step(rules, src, ch, c).channel)
  {
    var masks, last := ListStepShape(rules, src, ch, c);
    DeletionsSettle(src, ch, c.mode, masks, last);
    SameBitsAgree(ch, Step(rules, src, ch, c).changes, Step(rules, src, ch, c).channel);
  }

  /** A change that stays alone. */
  lemma OneSettles(src: Source, ch: Channel, c: Change, after: Channel)
    requires c.what == Query || !MayChange(src, ch, c) ==> c.bounced
    requires forall bit :: IsOf(c, bit) && MayChange(src, ch, c) ==> (c.bounced <==> IsSet(ch, bit) == (c.what == Add))
    requires forall bit :: IsSet(after, bit) <==> if IsOf(c, bit) && !c.bounced then c.what == Add else IsSet(ch, bit)
    ensures AllSettled(src, ch, [c]) && Agrees(ch, [c], after)
  {
    assert [c][..0] == [];
    MayNowIs(src, ch, [], c);
  }

  lemma BitStep(rules: Rules, src: Source, ch: Channel, c: Change, bit: Bit)
    requires TargetPresent(ch, c) && MayChange(src, ch, c) && IsOf(c, bit)
    ensures AllSettled(src, ch, Step(rules, src, ch, c).changes)
    ensures Agrees(ch, Step(rules, src, ch, c).changes, Step(rules, src, ch, c).channel)
  {
    AllowedChangeSets(rules, src, ch, c, bit);
    OthersUnchanged(rules, src, ch, c);
    var s := Step(rules, src, ch, c);
    var d := c.(bounced := IsSet(ch, bit) == (c.what == Add));
    assert s.changes == [d];
    OneSettles(src, ch, d, s.channel);
  }

  lemma StepSettlesOther(rules: Rules, src: Source, ch: Channel, c: Change)
    requires TargetPresent(ch, c) && (c.mode.kind != List || c.what == Query || !MayChange(src, ch, c))
    ensures AllSettled(src, ch, Step(rules, src, ch, c).changes)
    ensures Agrees(ch, Step(rules, src, ch, c).changes, Step(rules, src, ch, c).channel)
  {
    if c.what == Query || !MayChange(src, ch, c) {
      RefusedChangesNothing(rules, src, ch, c);
      OneSettles(src, ch, c.(bounced := true), ch);
    } else {
      BitStep(rules, src, ch, c, if c.mode.kind == Single then Flag(c.mode.letter) else Held(c.target, c.mode.letter));
    }
  }

  /** Of every pass: what is set behind it follows from what got through, and what got through
      from what was set and who may change it. */
  lemma {:induction false} PassDecides(rules: Rules, src: Source, ch: Channel, changes: seq<Change>)
    requires TargetsPresent(ch, changes)
    ensures var p := Apply(rules, src, ch, changes);
      AllSettled(src, ch, p.changes) && Agrees(ch, p.changes, p.channel)
    decreases |changes|
  {
    if changes == [] {
    } else {
      var first := Step(rules, src, ch, changes[0]);
      StepKeepsMembers(rules, src, ch, changes[0]);
      if MayChange(src, ch, changes[0]) && changes[0].mode.kind == List && changes[0].what != Query {
        StepSettlesList(rules, src, ch, changes[0]);
      } else {
        StepSettlesOther(rules, src, ch, changes[0]);
      }
      PassDecides(rules, src, first.channel, changes[1..]);
      var rest := Apply(rules, src, first.channel, changes[1..]);
      SettledConcat(src, ch, first.changes, first.channel, rest.changes, rest.channel);
    }
  }

  // ---------- what the pass keeps of the list ----------

  /** The changes of flags and privileges, without their marks. */
  function Plain(changes: seq<Change>): seq<Change> {
    if changes == [] then []
    else
      var c, rest := changes[0], Plain(changes[1..]);
      if c.mode.kind == List then rest else [c.(bounced := false)] + rest
  }

  /** How many were not bounced. */
  function Through(changes: seq<Change>): nat {
    if changes == [] then 0 else (if changes[0].bounced then 0 else 1) + Through(changes[1..])
  }

  lemma {:induction false} PlainConcat(a: seq<Change>, b: seq<Change>)
    ensures Plain(a + b) == Plain(a) + Plain(b) && Through(a + b) == Through(a) + Through(b)
  {
    if a == [] {
      assert a + b == b;
    } else {
      assert (a + b)[1..] == a[1..] + b;
      PlainConcat(a[1..], b);
    }
  }

  lemma {:induction false} PlainOfDeletions(mode: Mode, masks: seq<Mask>)
    requires mode.kind == List
    ensures Plain(Deletions(mode, masks)) == [] && Through(Deletions(mode, masks)) == |masks|
    ensures |Deletions(mode, masks)| == |masks|
  {
    if masks == [] {
    } else {
      PlainOfDeletions(mode, masks[1..]);
      assert Deletions(mode, masks)[1..] == Deletions(mode, masks[1..]);
    }
  }

  lemma StepKeepsPlain(rules: Rules, src: Source, ch: Channel, c: Change)
    requires TargetPresent(ch, c)
    ensures var s := Step(rules, src, ch, c);
      Plain(s.changes) == Plain([c]) && Through(s.changes) + 1 == s.passed + |s.changes|
  {
    var s := Step(rules, src, ch, c);
    if c.mode.kind == List && !Denied(src, ch, c) {
      var e := Callback(rules, src, ch, c);
      PlainOfDeletions(c.mode, e.dels);
      PlainConcat(Deletions(c.mode, e.dels), [s.changes[|s.changes| - 1]]);
    } else {
      assert |s.changes| == 1;
      assert s.changes[1..] == [] && [c][1..] == [];
    }
  }

  /** The changes of flags and privileges stay in the list in their order; what is added are
      deletions, and what the pass counts is what else got through. */
  lemma {:induction false} PassKeepsPlain(rules: Rules, src: Source, ch: Channel, changes: seq<Change>)
    requires TargetsPresent(ch, changes)
    ensures var p := Apply(rules, src, ch, changes);
      Plain(p.changes) == Plain(changes) && Through(p.changes) + |changes| == p.passed + |p.changes|
    decreases |changes|
  {
    if changes == [] {
    } else {
      var first := Step(rules, src, ch, changes[0]);
      StepKeepsMembers(rules, src, ch, changes[0]);
      StepKeepsPlain(rules, src, ch, changes[0]);
      PassKeepsPlain(rules, src, first.channel, changes[1..]);
      PlainConcat(first.changes, Apply(rules, src, first.channel, changes[1..]).changes);
      PlainConcat([changes[0]], changes[1..]);
      assert changes == [changes[0]] + changes[1..];
    }
  }

  /** A list no change names stays as it is. */
  lemma {:induction false} UnnamedListStays(rules: Rules, src: Source, ch: Channel, changes: seq<Change>, letter: char)
    requires TargetsPresent(ch, changes)
    requires forall i :: 0 <= i < |changes| ==> changes[i].mode.kind != List || changes[i].mode.letter != letter
    ensures Apply(rules, src, ch, changes).channel.ListOf(letter) == ch.ListOf(letter)
    decreases |changes|
  {
    if changes == [] {
    } else {
      StepKeepsMembers(rules, src, ch, changes[0]);
      OthersUnchanged(rules, src, ch, changes[0]);
      UnnamedListStays(rules, src, Step(rules, src, ch, changes[0]).channel, changes[1..], letter);
    }
  }
}
