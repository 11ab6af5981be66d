/** What a server sends on after a mode pass brings a peer to the same modes:
    chanmode_apply on both sides of a link (src/chanmode.c). */
module Replication {
  import opened Prelude
  import opened MaskLists
  import opened ModeChanges
  import BanMasks
  import MatchBudget

  /** The changes that were not bounced; these are sent to the peers. */
  function Effective(changes: seq<Change>): seq<Change> {
    if changes == [] then []
    else if changes[0].bounced then Effective(changes[1..])
    else [changes[0]] + Effective(changes[1..])
  }

  lemma {:induction false} EffectiveConcat(a: seq<Change>, b: seq<Change>)
    ensures Effective(a + b) == Effective(a) + Effective(b)
  {
    if a == [] {
      assert a + b == b;
    } else {
      assert (a + b)[1..] == a[1..] + b;
      EffectiveConcat(a[1..], b);
      Assoc([a[0]], Effective(a[1..]), Effective(b));
    }
  }

  lemma {:induction false} DeletionsAreEffective(mode: Mode, masks: seq<Mask>)
    ensures Effective(Deletions(mode, masks)) == Deletions(mode, masks)
    ensures forall i :: 0 <= i < |Deletions(mode, masks)| ==> Deletions(mode, masks)[i].mode == mode
  {
    if masks == [] {
    } else {
      DeletionsAreEffective(mode, masks[1..]);
      assert Deletions(mode, masks)[1..] == Deletions(mode, masks[1..]);
    }
  }

  // ---------- states ----------

  /** Same flags, same member privileges, same masks in every list; the order within
      a list may differ. */
  ghost predicate Alike(a: Channel, b: Channel) {
    a.flags == b.flags && a.members == b.members && forall l :: Masks(a.ListOf(l)) == Masks(b.ListOf(l))
  }

  ghost predicate SoundList(rules: Rules, ms: set<Mask>, items: seq<Item>) {
    Antichain(rules.matches, items) && |items| <= MAXBANS && Masks(items) <= ms
  }

  /** Every list is an antichain of at most 64 masks among those considered. */
  ghost predicate Sound(rules: Rules, ms: set<Mask>, ch: Channel) {
    forall l :: SoundList(rules, ms, ch.ListOf(l))
  }

  /** Each of the masks considered is matched by itself. */
  ghost predicate Lawful(rules: Rules, ms: set<Mask>) {
    SelfMatched(rules.matches, ms)
  }

  /** The normal form of a mask to be set is among the masks considered. */
  ghost predicate Considered(rules: Rules, ms: set<Mask>, c: Change) {
    c.mode.kind == List && c.what == Add ==> rules.normalize(c.arg) in ms
  }

  /** ... and normalising it once more, as a peer does, changes nothing. */
  ghost predicate Stable(rules: Rules, c: Change) {
    c.mode.kind == List && c.what == Add ==> rules.normalize(rules.normalize(c.arg)) == rules.normalize(c.arg)
  }

  predicate TouchesList(src: Source, ch: Channel, c: Change) {
    c.mode.kind == List && c.what != Query && !Denied(src, ch, c)
  }

  /** The argument as stored, for a list mode. */
  function Argument(rules: Rules, c: Change): Mask {
    if c.what == Add then rules.normalize(c.arg) else c.arg
  }

  function ListOutcome(rules: Rules, src: Source, items: seq<Item>, c: Change): Outcome {
    if c.what == Add then BounceAdd(rules.matches, items, Item(Argument(rules, c), src.ihash))
    else BounceDel(rules.matches, items, c.arg)
  }

  function WithList(ch: Channel, letter: char, items: seq<Item>): Channel {
    ch.(lists := ch.lists[letter := items])
  }

  lemma StepOfList(rules: Rules, src: Source, ch: Channel, c: Change, o: Outcome)
    requires TouchesList(src, ch, c) && o == ListOutcome(rules, src, ch.ListOf(c.mode.letter), c)
    ensures Step(rules, src, ch, c).channel == WithList(ch, c.mode.letter, o.items)
    ensures Step(rules, src, ch, c).changes
         == Deletions(c.mode, o.dels) + [c.(arg := Argument(rules, c), bounced := o.result != 0)]
  {
  }

  lemma StepOfOther(rules: Rules, src: Source, ch: Channel, c: Change)
    requires TargetPresent(ch, c) && !TouchesList(src, ch, c)
    ensures Step(rules, src, ch, c).channel.lists == ch.lists
  {
  }

  lemma SoundWithList(rules: Rules, ms: set<Mask>, ch: Channel, letter: char, items: seq<Item>)
    requires Sound(rules, ms, ch) && SoundList(rules, ms, items)
    ensures Sound(rules, ms, WithList(ch, letter, items))
  {
    forall l
      ensures SoundList(rules, ms, WithList(ch, letter, items).ListOf(l))
    {
      assert SoundList(rules, ms, ch.ListOf(l));
      assert WithList(ch, letter, items).ListOf(l) == if l == letter then items else ch.ListOf(l);
    }
  }

  lemma OutcomeIsSound(rules: Rules, ms: set<Mask>, src: Source, items: seq<Item>, c: Change)
    requires SoundList(rules, ms, items)
    requires c.what == Add ==> Argument(rules, c) in ms
    ensures SoundList(rules, ms, ListOutcome(rules, src, items, c).items)
  {
    if c.what == Add {
      var item := Item(Argument(rules, c), src.ihash);
      AddIsExact(rules.matches, items, item);
      AddKeepsAntichain(rules.matches, items, item);
      ScanBringsNothing(rules.matches, items, item.mask);
    } else {
      DelRemovesComparable(rules.matches, items, c.arg);
    }
  }

  /** Every change leaves every list an antichain of at most 64 masks. */
  lemma StepKeepsSound(rules: Rules, ms: set<Mask>, src: Source, ch: Channel, c: Change)
    requires TargetPresent(ch, c) && Sound(rules, ms, ch) && Considered(rules, ms, c)
    ensures Sound(rules, ms, Step(rules, src, ch, c).channel)
  {
    if TouchesList(src, ch, c) {
      var items := ch.ListOf(c.mode.letter);
      assert SoundList(rules, ms, items);
      var o := ListOutcome(rules, src, items, c);
      OutcomeIsSound(rules, ms, src, items, c);
      StepOfList(rules, src, ch, c, o);
      SoundWithList(rules, ms, ch, c.mode.letter, o.items);
    } else {
      StepOfOther(rules, src, ch, c);
      forall l
        ensures SoundList(rules, ms, Step(rules, src, ch, c).channel.ListOf(l))
      {
        assert SoundList(rules, ms, ch.ListOf(l));
      }
    }
  }

  /** So does every run. */
  lemma {:induction false} ApplyKeepsSound(rules: Rules, ms: set<Mask>, src: Source, ch: Channel, changes: seq<Change>)
    requires TargetsPresent(ch, changes) && Sound(rules, ms, ch)
    requires forall i :: 0 <= i < |changes| ==> Considered(rules, ms, changes[i])
    ensures Sound(rules, ms, Apply(rules, src, ch, changes).channel)
    decreases |changes|
  {
    if changes == [] {
    } else {
      var first := Step(rules, src, ch, changes[0]);
      StepKeepsMembers(rules, src, ch, changes[0]);
      StepKeepsSound(rules, ms, src, ch, changes[0]);
      ApplyKeepsSound(rules, ms, src, first.channel, changes[1..]);
    }
  }

  // ---------- passes one after the other ----------

  lemma {:induction false} ApplyKeepsMembers(rules: Rules, src: Source, ch: Channel, changes: seq<Change>)
    requires TargetsPresent(ch, changes)
    ensures Apply(rules, src, ch, changes).channel.members.Keys == ch.members.Keys
    decreases |changes|
  {
    if changes == [] {
    } else {
      StepKeepsMembers(rules, src, ch, changes[0]);
      ApplyKeepsMembers(rules, src, Step(rules, src, ch, changes[0]).channel, changes[1..]);
    }
  }

  lemma TargetsInParts(ch: Channel, a: seq<Change>, b: seq<Change>)
    requires TargetsPresent(ch, a + b)
    ensures TargetsPresent(ch, a) && TargetsPresent(ch, b)
  {
    forall i | 0 <= i < |a|
      ensures TargetPresent(ch, a[i])
    {
      assert (a + b)[i] == a[i];
    }
    forall i | 0 <= i < |b|
      ensures TargetPresent(ch, b[i])
    {
      assert (a + b)[|a| + i] == b[i];
    }
  }

  /** Applying a list is applying its first part and then, to the result, the second. */
  lemma {:induction false} ApplyConcat(rules: Rules, src: Source, ch: Channel, a: seq<Change>, b: seq<Change>)
    requires TargetsPresent(ch, a + b)
    ensures TargetsPresent(ch, a) && TargetsPresent(Apply(rules, src, ch, a).channel, b)
    ensures Apply(rules, src, ch, a + b)
         == Behind(Apply(rules, src, ch, a), Apply(rules, src, Apply(rules, src, ch, a).channel, b))
    decreases |a|
  {
    TargetsInParts(ch, a, b);
    ApplyKeepsMembers(rules, src, ch, a);
    if a == [] {
      assert a + b == b;
      var whole := Apply(rules, src, ch, b);
      assert [] + whole.changes == whole.changes;
    } else {
      var first := Step(rules, src, ch, a[0]);
      StepKeepsMembers(rules, src, ch, a[0]);
      assert (a + b)[0] == a[0] && (a + b)[1..] == a[1..] + b;
      ApplyConcat(rules, src, first.channel, a[1..], b);
      BehindTwo(first, Apply(rules, src, first.channel, a[1..]),
                Apply(rules, src, Apply(rules, src, first.channel, a[1..]).channel, b));
    }
  }

  // ---------- masks of an antichain are distinct ----------

  lemma DistinctCons(m: Mask, rest: seq<Mask>)
    requires Distinct(rest) && m !in rest
    ensures Distinct([m] + rest)
  {
  }

  /** A scan parts the masks of an antichain into kept and dropped ones, if those dropped
      match themselves. */
  lemma {:induction false} ScanParts(matches: Matcher, items: seq<Item>, a: Mask)
    requires Antichain(matches, items) && SelfMatched(matches, SetOf(ScanAdd(matches, items, a).dropped))
    ensures var s := ScanAdd(matches, items, a);
      && Distinct(s.dropped) && SetOf(s.dropped) <= Masks(items)
      && Masks(s.kept) == Masks(items) - SetOf(s.dropped)
  {
    if items == [] || matches(a, items[0].mask) {
    } else {
      MasksCons(items);
      AntichainTail(matches, items);
      var m, rest := items[0].mask, ScanAdd(matches, items[1..], a);
      if matches(m, a) {
        SetOfCons(m, rest.dropped);
        ScanParts(matches, items[1..], a);
        assert m in SetOf([m] + rest.dropped);
        DistinctCons(m, rest.dropped);
      } else {
        ScanParts(matches, items[1..], a);
        KeptHead(matches, items, rest);
        assert ([items[0]] + rest.kept)[1..] == rest.kept;
        MasksCons([items[0]] + rest.kept);
      }
    }
  }

  /** A mask that is kept is not among those dropped that match themselves. */
  lemma KeptHead(matches: Matcher, items: seq<Item>, rest: Scan)
    requires items != [] && SetOf(rest.dropped) <= Masks(items[1..]) && SelfMatched(matches, SetOf(rest.dropped))
    requires forall m :: m in Masks(items[1..]) ==> !matches(m, items[0].mask) && !matches(items[0].mask, m)
    ensures items[0].mask !in SetOf(rest.dropped)
  {
  }

  lemma SetOfCons(m: Mask, rest: seq<Mask>)
    ensures SetOf([m] + rest) == {m} + SetOf(rest)
  {
  }

  lemma {:induction false} DroppedDistinct(matches: Matcher, items: seq<Item>, a: Mask)
    requires Antichain(matches, items) && SelfMatched(matches, SetOf(Dropped(matches, items, a)))
    ensures Distinct(Dropped(matches, items, a))
  {
    if items == [] {
    } else {
      MasksCons(items);
      AntichainTail(matches, items);
      DelRemovesComparable(matches, items[1..], a);
      var m, rest := items[0].mask, Dropped(matches, items[1..], a);
      if Comparable(matches, a, m) {
        SetOfCons(m, rest);
        DroppedDistinct(matches, items[1..], a);
        assert m in SetOf([m] + rest);
        DistinctCons(m, rest);
      } else {
        DroppedDistinct(matches, items[1..], a);
      }
    }
  }

  lemma {:induction false} MasksCount(matches: Matcher, items: seq<Item>)
    requires Antichain(matches, items) && SelfMatched(matches, Masks(items))
    ensures |Masks(items)| == |items|
  {
    if items == [] {
    } else {
      MasksCons(items);
      AntichainTail(matches, items);
      assert items[0].mask in Masks(items);
      MasksCount(matches, items[1..]);
    }
  }

  // ---------- the peer ----------

  /** On a peer the source is no local user, so its privileges are not checked again. */
  predicate Remote(src: Source) {
    !(src.member.Some? && src.localUser)
  }

  /** The result of replaying changes on a peer: the lists differ from before in one
      letter, and the peer sends on what it was sent. */
  ghost predicate Replayed(rules: Rules, ms: set<Mask>, before: Channel, after: Pass, changes: seq<Change>,
                           letter: char, masks: set<Mask>) {
    && after.channel.flags == before.flags && after.channel.members == before.members
    && (forall l :: l != letter ==> Masks(after.channel.ListOf(l)) == Masks(before.ListOf(l)))
    && Masks(after.channel.ListOf(letter)) == masks
    && Effective(after.changes) == changes
    && Sound(rules, ms, after.channel)
  }

  lemma DeletionsHaveTargets(ch: Channel, mode: Mode, masks: seq<Mask>)
    requires mode.kind == List
    ensures TargetsPresent(ch, Deletions(mode, masks))
  {
    DeletionsAreEffective(mode, masks);
  }

  /** One deletion of a mask that is there removes that mask alone and is sent on. */
  lemma ReplayDeletion(rules: Rules, ms: set<Mask>, src: Source, ch: Channel, mode: Mode, m: Mask)
    requires mode.kind == List && Remote(src) && Sound(rules, ms, ch) && rules.matches(m, m)
    requires m in Masks(ch.ListOf(mode.letter))
    ensures Replayed(rules, ms, ch, Step(rules, src, ch, Deletion(mode, m)), [Deletion(mode, m)],
                     mode.letter, Masks(ch.ListOf(mode.letter)) - {m})
  {
    var items, c := ch.ListOf(mode.letter), Deletion(mode, m);
    assert SoundList(rules, ms, items);
    var o := ListOutcome(rules, src, items, c);
    DelOfMember(rules.matches, items, m);
    StepOfList(rules, src, ch, c, o);
    StepKeepsSound(rules, ms, src, ch, c);
    DeletionsAreEffective(mode, o.dels);
    assert o.dels[1..] == [];
    var bounced := c.(arg := m, bounced := true);
    EffectiveConcat(Deletions(mode, o.dels), [bounced]);
    assert [bounced][1..] == [];
  }

  lemma {:induction false} ReplayDeletions(rules: Rules, ms: set<Mask>, src: Source, ch: Channel, mode: Mode,
                                           masks: seq<Mask>)
    requires mode.kind == List && Remote(src) && SelfMatched(rules.matches, SetOf(masks)) && Sound(rules, ms, ch)
    requires Distinct(masks) && SetOf(masks) <= Masks(ch.ListOf(mode.letter))
    ensures TargetsPresent(ch, Deletions(mode, masks))
    ensures Replayed(rules, ms, ch, Apply(rules, src, ch, Deletions(mode, masks)), Deletions(mode, masks),
                     mode.letter, Masks(ch.ListOf(mode.letter)) - SetOf(masks))
    decreases |masks|
  {
    DeletionsHaveTargets(ch, mode, masks);
    if masks == [] {
    } else {
      var m, rest := masks[0], masks[1..];
      assert m in SetOf(masks);
      ReplayDeletion(rules, ms, src, ch, mode, m);
      var first := Step(rules, src, ch, Deletion(mode, m));
      assert SetOf(masks) == {m} + SetOf(rest);
      assert m !in SetOf(rest);
      ReplayDeletions(rules, ms, src, first.channel, mode, rest);
      var last := Apply(rules, src, first.channel, Deletions(mode, rest));
      assert Deletions(mode, masks)[1..] == Deletions(mode, rest);
      EffectiveConcat(first.changes, last.changes);
    }
  }

  /** A mask unrelated to those of a list that is not full is simply added. */
  lemma UnrelatedIsAdded(rules: Rules, ms: set<Mask>, items: seq<Item>, item: Item)
    requires SelfMatched(rules.matches, Masks(items)) && SoundList(rules, ms, items)
    requires |Masks(items)| < MAXBANS
    requires forall m :: m in Masks(items) ==> !Comparable(rules.matches, item.mask, m)
    ensures var o := BounceAdd(rules.matches, items, item);
      o.result == 0 && o.dels == [] && Masks(o.items) == Masks(items) + {item.mask}
  {
    var dels := BounceAdd(rules.matches, items, item).dels;
    assert dels != [] ==> dels[0] in dels;
    AddIsExact(rules.matches, items, item);
    MasksCount(rules.matches, items);
  }

  /** A mask that the deletions before it made room for is added, and sent on as it is. */
  lemma ReplayAddition(rules: Rules, ms: set<Mask>, src: Source, ch: Channel, c: Change)
    requires c.mode.kind == List && c.what == Add && !c.bounced && Remote(src)
    requires SelfMatched(rules.matches, Masks(ch.ListOf(c.mode.letter)))
    requires Sound(rules, ms, ch) && c.arg in ms && rules.normalize(c.arg) == c.arg
    requires |Masks(ch.ListOf(c.mode.letter))| < MAXBANS
    requires forall m :: m in Masks(ch.ListOf(c.mode.letter)) ==> !Comparable(rules.matches, c.arg, m)
    ensures Replayed(rules, ms, ch, Step(rules, src, ch, c), [c],
                     c.mode.letter, Masks(ch.ListOf(c.mode.letter)) + {c.arg})
  {
    var items := ch.ListOf(c.mode.letter);
    assert SoundList(rules, ms, items);
    UnrelatedIsAdded(rules, ms, items, Item(c.arg, src.ihash));
    AddedIsReplayed(rules, ms, src, ch, c, ListOutcome(rules, src, items, c));
  }

  lemma AddedIsReplayed(rules: Rules, ms: set<Mask>, src: Source, ch: Channel, c: Change, o: Outcome)
    requires c.mode.kind == List && c.what == Add && !c.bounced && Remote(src)
    requires Sound(rules, ms, ch) && c.arg in ms && rules.normalize(c.arg) == c.arg
    requires o == ListOutcome(rules, src, ch.ListOf(c.mode.letter), c) && o.result == 0 && o.dels == []
    requires Masks(o.items) == Masks(ch.ListOf(c.mode.letter)) + {c.arg}
    ensures Replayed(rules, ms, ch, Step(rules, src, ch, c), [c], c.mode.letter, Masks(o.items))
  {
    StepOfList(rules, src, ch, c, o);
    StepKeepsSound(rules, ms, src, ch, c);
    assert Step(rules, src, ch, c).changes == [] + [c] == [c];
    assert [c][1..] == [];
  }

  // ---------- one change and its replay ----------

  /** The peer, which was like this server, is so again, and sends on what it got. */
  ghost predicate InStep(rules: Rules, ms: set<Mask>, after: Pass, there: Source, peer: Channel) {
    var sent := Effective(after.changes);
    && TargetsPresent(peer, sent)
    && var p := Apply(rules, there, peer, sent);
       Alike(after.channel, p.channel) && Effective(p.changes) == sent && Sound(rules, ms, p.channel)
  }

  lemma NothingSent(rules: Rules, ms: set<Mask>, after: Pass, there: Source, peer: Channel)
    requires Effective(after.changes) == [] && Alike(after.channel, peer) && Sound(rules, ms, peer)
    ensures InStep(rules, ms, after, there, peer)
  {
  }

  /** Changes of flags and privileges, and changes that are refused or only ask. */
  lemma ReplayOther(rules: Rules, ms: set<Mask>, here: Source, there: Source, ch: Channel, peer: Channel, c: Change)
    requires TargetPresent(ch, c) && !TouchesList(here, ch, c) && !c.bounced && Remote(there)
    requires Alike(ch, peer) && Sound(rules, ms, peer)
    ensures InStep(rules, ms, Step(rules, here, ch, c), there, peer)
  {
    var s := Step(rules, here, ch, c);
    var sent := s.changes[|s.changes| - 1];
    assert s.changes == [sent];
    assert s.changes[1..] == [];
    StepOfOther(rules, here, ch, c);
    if sent.bounced {
      assert s.channel.members == ch.members;
      assert forall l :: Masks(s.channel.ListOf(l)) == Masks(ch.ListOf(l));
      NothingSent(rules, ms, s, there, peer);
    } else {
      assert sent == c && c.mode.kind != List;
      ReplayPlain(rules, ms, here, there, ch, peer, c);
    }
  }

  lemma ReplayPlain(rules: Rules, ms: set<Mask>, here: Source, there: Source, ch: Channel, peer: Channel, c: Change)
    requires TargetPresent(ch, c) && c.mode.kind != List && !c.bounced && Remote(there)
    requires Alike(ch, peer) && Sound(rules, ms, peer)
    requires Step(rules, here, ch, c).changes == [c]
    ensures InStep(rules, ms, Step(rules, here, ch, c), there, peer)
  {
    var s, p := Step(rules, here, ch, c), Step(rules, there, peer, c);
    assert p.changes == [c] && [c][1..] == [] && [c] + [] == [c];
    assert Apply(rules, there, peer, [c]) == Behind(p, Apply(rules, there, p.channel, []));
    assert s.channel.lists == ch.lists && p.channel.lists == peer.lists;
    assert forall l :: s.channel.ListOf(l) == ch.ListOf(l) && p.channel.ListOf(l) == peer.ListOf(l);
  }

  lemma SetOfMembers(masks: seq<Mask>, ms: set<Mask>)
    requires forall m :: m in masks <==> m in ms
    ensures SetOf(masks) == ms
  {
  }

  /** A change of a list that was bounced, but had deletions inserted, as a - always is:
      the deletions stand for it. */
  lemma ReplayDeletionsOnly(rules: Rules, ms: set<Mask>, here: Source, there: Source, ch: Channel, peer: Channel,
                            c: Change, o: Outcome)
    requires TouchesList(here, ch, c) && Remote(there) && o == ListOutcome(rules, here, ch.ListOf(c.mode.letter), c)
    requires Alike(ch, peer) && Sound(rules, ms, peer) && SelfMatched(rules.matches, SetOf(o.dels))
    requires o.result != 0 && Distinct(o.dels) && SetOf(o.dels) <= Masks(ch.ListOf(c.mode.letter))
    requires Masks(o.items) == Masks(ch.ListOf(c.mode.letter)) - SetOf(o.dels)
    ensures InStep(rules, ms, Step(rules, here, ch, c), there, peer)
  {
    var letter, s := c.mode.letter, Step(rules, here, ch, c);
    assert Masks(ch.ListOf(letter)) == Masks(peer.ListOf(letter));
    StepOfList(rules, here, ch, c, o);
    ReplayDeletions(rules, ms, there, peer, c.mode, o.dels);
    SentAfterDeletions(c.mode, o.dels, c.(arg := Argument(rules, c), bounced := true));
    ListsAlike(s.channel, Apply(rules, there, peer, Deletions(c.mode, o.dels)).channel, ch, peer, letter);
  }

  lemma ReplayListDel(rules: Rules, ms: set<Mask>, here: Source, there: Source, ch: Channel, peer: Channel, c: Change)
    requires TouchesList(here, ch, c) && c.what == Del && Remote(there)
    requires Sound(rules, ms, ch) && Alike(ch, peer) && Sound(rules, ms, peer)
    requires SelfMatched(rules.matches, SetOf(ListOutcome(rules, here, ch.ListOf(c.mode.letter), c).dels))
    ensures InStep(rules, ms, Step(rules, here, ch, c), there, peer)
  {
    var items := ch.ListOf(c.mode.letter);
    var o := ListOutcome(rules, here, items, c);
    assert SoundList(rules, ms, items);
    DelRemovesComparable(rules.matches, items, c.arg);
    DroppedDistinct(rules.matches, items, c.arg);
    SetOfMembers(o.dels, set m | m in Masks(items) && Comparable(rules.matches, c.arg, m));
    ReplayDeletionsOnly(rules, ms, here, there, ch, peer, c, o);
  }

  lemma SentAfterDeletions(mode: Mode, masks: seq<Mask>, last: Change)
    ensures Effective(Deletions(mode, masks) + [last])
         == if last.bounced then Deletions(mode, masks) else Deletions(mode, masks) + [last]
  {
    EffectiveConcat(Deletions(mode, masks), [last]);
    DeletionsAreEffective(mode, masks);
    assert [last][1..] == [];
    assert Deletions(mode, masks) + [] == Deletions(mode, masks);
  }

  lemma ListsAlike(a: Channel, b: Channel, ch: Channel, peer: Channel, letter: char)
    requires Alike(ch, peer) && a.flags == ch.flags && a.members == ch.members
    requires b.flags == peer.flags && b.members == peer.members
    requires forall l :: l != letter ==> Masks(a.ListOf(l)) == Masks(ch.ListOf(l))
    requires forall l :: l != letter ==> Masks(b.ListOf(l)) == Masks(peer.ListOf(l))
    requires Masks(a.ListOf(letter)) == Masks(b.ListOf(letter))
    ensures Alike(a, b)
  {
  }

  /** A + on a list that was bounced sends the deletions of the masks it dropped before. */
  lemma ReplayListRefused(rules: Rules, ms: set<Mask>, here: Source, there: Source, ch: Channel, peer: Channel,
                          c: Change)
    requires TouchesList(here, ch, c) && c.what == Add && Remote(there)
    requires Sound(rules, ms, ch) && Alike(ch, peer) && Sound(rules, ms, peer)
    requires var o := ListOutcome(rules, here, ch.ListOf(c.mode.letter), c);
      o.result != 0 && SelfMatched(rules.matches, SetOf(o.dels))
    ensures InStep(rules, ms, Step(rules, here, ch, c), there, peer)
  {
    var items := ch.ListOf(c.mode.letter);
    assert SoundList(rules, ms, items);
    ScanParts(rules.matches, items, Argument(rules, c));
    ReplayDeletionsOnly(rules, ms, here, there, ch, peer, c, ListOutcome(rules, here, items, c));
  }

  /** A + on a list that got through is preceded by the deletions of the masks it
      covers, which make room for it on the peer too. */
  lemma ReplayListAdd(rules: Rules, ms: set<Mask>, here: Source, there: Source, ch: Channel, peer: Channel, c: Change)
    requires TouchesList(here, ch, c) && c.what == Add && !c.bounced && Remote(there)
    requires SelfMatched(rules.matches, Masks(ch.ListOf(c.mode.letter)))
    requires Sound(rules, ms, ch) && Alike(ch, peer) && Sound(rules, ms, peer) && Argument(rules, c) in ms
    requires rules.normalize(Argument(rules, c)) == Argument(rules, c)
    requires ListOutcome(rules, here, ch.ListOf(c.mode.letter), c).result == 0
    ensures InStep(rules, ms, Step(rules, here, ch, c), there, peer)
  {
    var letter, items, a := c.mode.letter, ch.ListOf(c.mode.letter), Argument(rules, c);
    var o, s := ListOutcome(rules, here, items, c), Step(rules, here, ch, c);
    assert SoundList(rules, ms, items);
    assert Masks(items) == Masks(peer.ListOf(letter));
    var left := set m | m in Masks(items) && !rules.matches(m, a);
    AddedOutcome(rules, ms, items, Item(a, here.ihash), o, left);
    StepOfList(rules, here, ch, c, o);
    var sent := c.(arg := a, bounced := false);
    SentAfterDeletions(c.mode, o.dels, sent);
    DeliverAddition(rules, ms, there, peer, c.mode, o.dels, sent, left);
    ListsAlike(s.channel, Apply(rules, there, peer, Deletions(c.mode, o.dels) + [sent]).channel, ch, peer, letter);
  }

  lemma DeliverAddition(rules: Rules, ms: set<Mask>, there: Source, peer: Channel, mode: Mode, dels: seq<Mask>,
                        c: Change, left: set<Mask>)
    requires mode.kind == List && c.mode == mode && c.what == Add && !c.bounced && Remote(there)
    requires SelfMatched(rules.matches, Masks(peer.ListOf(mode.letter))) && Sound(rules, ms, peer)
    requires c.arg in ms && rules.normalize(c.arg) == c.arg
    requires Distinct(dels) && SetOf(dels) <= Masks(peer.ListOf(mode.letter))
    requires Masks(peer.ListOf(mode.letter)) - SetOf(dels) == left && |left| < MAXBANS
    requires forall m :: m in left ==> !Comparable(rules.matches, c.arg, m)
    ensures TargetsPresent(peer, Deletions(mode, dels) + [c])
    ensures Replayed(rules, ms, peer, Apply(rules, there, peer, Deletions(mode, dels) + [c]), Deletions(mode, dels) + [c],
                     mode.letter, left + {c.arg})
  {
    ReplayDeletions(rules, ms, there, peer, mode, dels);
    var cleared := Apply(rules, there, peer, Deletions(mode, dels)).channel;
    ReplayAddition(rules, ms, there, cleared, c);
    JoinReplays(rules, ms, there, peer, mode, dels, c);
  }

  /** What a successful addition did, in the terms the replay needs. */
  lemma AddedOutcome(rules: Rules, ms: set<Mask>, items: seq<Item>, item: Item, o: Outcome, left: set<Mask>)
    requires SelfMatched(rules.matches, Masks(items)) && SoundList(rules, ms, items) && item.mask in ms
    requires o == BounceAdd(rules.matches, items, item) && o.result == 0
    requires left == set m | m in Masks(items) && !rules.matches(m, item.mask)
    ensures Distinct(o.dels) && SetOf(o.dels) <= Masks(items) && Masks(items) - SetOf(o.dels) == left
    ensures Masks(o.items) == left + {item.mask} && |left| < MAXBANS
    ensures forall m :: m in left ==> !Comparable(rules.matches, item.mask, m)
  {
    AddIsExact(rules.matches, items, item);
    ScanParts(rules.matches, items, item.mask);
    SetOfMembers(o.dels, set m | m in Masks(items) && rules.matches(m, item.mask));
    RoomLeft(rules, items, item, left);
  }

  lemma RoomLeft(rules: Rules, items: seq<Item>, item: Item, left: set<Mask>)
    requires Antichain(rules.matches, items) && |items| <= MAXBANS && SelfMatched(rules.matches, Masks(items))
    requires BounceAdd(rules.matches, items, item).result == 0
    requires left == set m | m in Masks(items) && !rules.matches(m, item.mask)
    ensures |left| < MAXBANS && forall m :: m in left ==> !Comparable(rules.matches, item.mask, m)
  {
    KeptIsUnrelated(rules.matches, items, item.mask);
    ScanKeepsAntichain(rules.matches, items, item.mask);
    var kept := ScanAdd(rules.matches, items, item.mask).kept;
    MasksCount(rules.matches, kept);
    ScanFilters(rules.matches, items, item.mask);
  }

  lemma JoinReplays(rules: Rules, ms: set<Mask>, there: Source, peer: Channel, mode: Mode, masks: seq<Mask>, c: Change)
    requires mode.kind == List && c.mode == mode && TargetsPresent(peer, Deletions(mode, masks))
    requires Effective(Apply(rules, there, peer, Deletions(mode, masks)).changes) == Deletions(mode, masks)
    requires var cleared := Apply(rules, there, peer, Deletions(mode, masks)).channel;
      Effective(Step(rules, there, cleared, c).changes) == [c]
    ensures var all := Deletions(mode, masks) + [c];
      && TargetsPresent(peer, all)
      && Apply(rules, there, peer, all).channel
         == Step(rules, there, Apply(rules, there, peer, Deletions(mode, masks)).channel, c).channel
      && Effective(Apply(rules, there, peer, all).changes) == all
  {
    var dels := Deletions(mode, masks);
    var first := Apply(rules, there, peer, dels);
    var second := Step(rules, there, first.channel, c);
    ApplyConcat(rules, there, peer, dels, [c]);
    assert [c][1..] == [] && second.changes + [] == second.changes;
    EffectiveConcat(first.changes, second.changes);
  }

  lemma ReplayStep(rules: Rules, ms: set<Mask>, here: Source, there: Source, ch: Channel, peer: Channel, c: Change)
    requires TargetPresent(ch, c) && !c.bounced && Remote(there) && Lawful(rules, ms)
    requires Sound(rules, ms, ch) && Alike(ch, peer) && Sound(rules, ms, peer)
    requires Considered(rules, ms, c) && Stable(rules, c)
    ensures InStep(rules, ms, Step(rules, here, ch, c), there, peer)
  {
    if !TouchesList(here, ch, c) {
      ReplayOther(rules, ms, here, there, ch, peer, c);
    } else if c.what == Del {
      DelRemovesComparable(rules.matches, ch.ListOf(c.mode.letter), c.arg);
      assert SoundList(rules, ms, ch.ListOf(c.mode.letter));
      ReplayListDel(rules, ms, here, there, ch, peer, c);
    } else if ListOutcome(rules, here, ch.ListOf(c.mode.letter), c).result != 0 {
      assert SoundList(rules, ms, ch.ListOf(c.mode.letter));
      DroppedAreMembers(rules.matches, ch.ListOf(c.mode.letter), Argument(rules, c));
      ReplayListRefused(rules, ms, here, there, ch, peer, c);
    } else {
      assert SoundList(rules, ms, ch.ListOf(c.mode.letter));
      ReplayListAdd(rules, ms, here, there, ch, peer, c);
    }
  }

  lemma {:induction false} DroppedAreMembers(matches: Matcher, items: seq<Item>, a: Mask)
    ensures SetOf(ScanAdd(matches, items, a).dropped) <= Masks(items)
  {
    if items != [] && !matches(a, items[0].mask) {
      MasksCons(items);
      DroppedAreMembers(matches, items[1..], a);
    }
  }

  // ---------- a whole pass ----------

  /** After any pass, replaying what was not bounced, inserted deletions included, on
      a peer that was like this server leaves the peer like it again, and the peer's
      own unbounced changes are the ones it was sent: they can be relayed on. */
  lemma {:induction false} PassReplicates(rules: Rules, ms: set<Mask>, here: Source, there: Source, ch: Channel,
                                          peer: Channel, changes: seq<Change>)
    requires TargetsPresent(ch, changes) && Remote(there) && Lawful(rules, ms)
    requires Sound(rules, ms, ch) && Alike(ch, peer) && Sound(rules, ms, peer)
    requires forall i :: 0 <= i < |changes| ==>
               !changes[i].bounced && Considered(rules, ms, changes[i]) && Stable(rules, changes[i])
    ensures InStep(rules, ms, Apply(rules, here, ch, changes), there, peer)
    decreases |changes|
  {
    var whole := Apply(rules, here, ch, changes);
    if changes == [] {
      NothingSent(rules, ms, whole, there, peer);
    } else {
      var first := Step(rules, here, ch, changes[0]);
      ReplayStep(rules, ms, here, there, ch, peer, changes[0]);
      StepKeepsMembers(rules, here, ch, changes[0]);
      StepKeepsSound(rules, ms, here, ch, changes[0]);
      var sent := Effective(first.changes);
      var peer1 := Apply(rules, there, peer, sent);
      ApplyKeepsMembers(rules, there, peer, sent);
      var rest := Apply(rules, here, first.channel, changes[1..]);
      PassReplicates(rules, ms, here, there, first.channel, peer1.channel, changes[1..]);
      InStepConcat(rules, ms, first, rest, there, peer);
    }
  }

  lemma TargetsOfBoth(rules: Rules, src: Source, ch: Channel, a: seq<Change>, b: seq<Change>)
    requires TargetsPresent(ch, a) && TargetsPresent(Apply(rules, src, ch, a).channel, b)
    ensures TargetsPresent(ch, a + b)
  {
    ApplyKeepsMembers(rules, src, ch, a);
    forall i | 0 <= i < |a + b|
      ensures TargetPresent(ch, (a + b)[i])
    {
      if i < |a| {
        assert (a + b)[i] == a[i];
      } else {
        assert (a + b)[i] == b[i - |a|];
      }
    }
  }

  lemma InStepConcat(rules: Rules, ms: set<Mask>, first: Pass, rest: Pass, there: Source, peer: Channel)
    requires InStep(rules, ms, first, there, peer)
    requires InStep(rules, ms, rest, there, Apply(rules, there, peer, Effective(first.changes)).channel)
    ensures InStep(rules, ms, Behind(first, rest), there, peer)
  {
    var a, b := Effective(first.changes), Effective(rest.changes);
    EffectiveConcat(first.changes, rest.changes);
    TargetsOfBoth(rules, there, peer, a, b);
    ApplyConcat(rules, there, peer, a, b);
    var p := Apply(rules, there, peer, a);
    EffectiveConcat(p.changes, Apply(rules, there, p.channel, b).changes);
  }

  // ---------- when it fails ----------

  /** No outcome of adding b brings a mask other than b into a list. */
  lemma AddBringsOnly(matches: Matcher, items: seq<Item>, item: Item, a: Mask)
    requires a !in Masks(items) && a != item.mask
    ensures a !in Masks(BounceAdd(matches, items, item).items)
  {
    ScanBringsNothing(matches, items, item.mask);
    var kept := ScanAdd(matches, items, item.mask).kept;
    var all := Inserted(kept, item);
    forall i | 0 <= i < |all|
      ensures all[i].mask != a
    {
      var x := InsertedFrom(kept, item, i);
    }
  }

  lemma {:induction false} ScanBringsNothing(matches: Matcher, items: seq<Item>, a: Mask)
    ensures Masks(ScanAdd(matches, items, a).kept) <= Masks(items)
  {
    if items != [] && !matches(a, items[0].mask) {
      MasksCons(items);
      ScanBringsNothing(matches, items[1..], a);
      if !matches(items[0].mask, a) {
        var kept := ScanAdd(matches, items, a).kept;
        assert kept[1..] == ScanAdd(matches, items[1..], a).kept;
        MasksCons(kept);
      }
    }
  }

  /** A + on a list that gets through reaches the peer exactly when normalising the
      mask once more changes nothing. */
  lemma AddReplicatesExactlyWhenStable(rules: Rules, ms: set<Mask>, here: Source, there: Source, ch: Channel,
                                       peer: Channel, c: Change)
    requires TouchesList(here, ch, c) && c.what == Add && !c.bounced && Remote(there)
    requires SelfMatched(rules.matches, Masks(ch.ListOf(c.mode.letter)))
    requires Sound(rules, ms, ch) && Alike(ch, peer) && Sound(rules, ms, peer) && Argument(rules, c) in ms
    requires ListOutcome(rules, here, ch.ListOf(c.mode.letter), c).result == 0
    ensures var s := Step(rules, here, ch, c);
      && TargetsPresent(peer, Effective(s.changes))
      && (Alike(s.channel, Apply(rules, there, peer, Effective(s.changes)).channel) <==> Stable(rules, c))
  {
    if Stable(rules, c) {
      ReplayListAdd(rules, ms, here, there, ch, peer, c);
    } else {
      UnstableDiverges(rules, ms, here, there, ch, peer, c);
    }
  }

  lemma UnstableDiverges(rules: Rules, ms: set<Mask>, here: Source, there: Source, ch: Channel, peer: Channel,
                         c: Change)
    requires TouchesList(here, ch, c) && c.what == Add && !c.bounced && Remote(there)
    requires SelfMatched(rules.matches, Masks(ch.ListOf(c.mode.letter)))
    requires Sound(rules, ms, ch) && Alike(ch, peer) && Sound(rules, ms, peer) && Argument(rules, c) in ms
    requires ListOutcome(rules, here, ch.ListOf(c.mode.letter), c).result == 0
    requires rules.normalize(Argument(rules, c)) != Argument(rules, c)
    ensures var s := Step(rules, here, ch, c);
      && TargetsPresent(peer, Effective(s.changes))
      && !Alike(s.channel, Apply(rules, there, peer, Effective(s.changes)).channel)
  {
    var letter, items, a := c.mode.letter, ch.ListOf(c.mode.letter), Argument(rules, c);
    var o, s := ListOutcome(rules, here, items, c), Step(rules, here, ch, c);
    assert SoundList(rules, ms, items);
    assert Masks(items) == Masks(peer.ListOf(letter));
    var left := set m | m in Masks(items) && !rules.matches(m, a);
    AddedOutcome(rules, ms, items, Item(a, here.ihash), o, left);
    StepOfList(rules, here, ch, c, o);
    var sent := c.(arg := a, bounced := false);
    SentAfterDeletions(c.mode, o.dels, sent);
    ReplayDeletions(rules, ms, there, peer, c.mode, o.dels);
    DivergesAfterDeletions(rules, there, peer, c.mode, o.dels, sent);
    assert a in Masks(s.channel.ListOf(letter));
  }

  lemma DivergesAfterDeletions(rules: Rules, there: Source, peer: Channel, mode: Mode, dels: seq<Mask>, c: Change)
    requires mode.kind == List && c.mode == mode && c.what == Add && Remote(there)
    requires TargetsPresent(peer, Deletions(mode, dels)) && rules.normalize(c.arg) != c.arg
    requires c.arg !in Masks(Apply(rules, there, peer, Deletions(mode, dels)).channel.ListOf(mode.letter))
    ensures TargetsPresent(peer, Deletions(mode, dels) + [c])
    ensures c.arg !in Masks(Apply(rules, there, peer, Deletions(mode, dels) + [c]).channel.ListOf(mode.letter))
  {
    var first := Apply(rules, there, peer, Deletions(mode, dels)).channel;
    var items := first.ListOf(mode.letter);
    DeletionsHaveTargets(peer, mode, dels);
    ApplyConcat(rules, there, peer, Deletions(mode, dels), [c]);
    StepOfList(rules, there, first, c, ListOutcome(rules, there, items, c));
    AddBringsOnly(rules.matches, items, Item(rules.normalize(c.arg), there.ihash), c.arg);
    assert [c][1..] == [];
  }

  /** What is left of some masks when each of them has been asked for by its own text. */
  function Remaining(matches: Matcher, before: set<Mask>, masks: seq<Mask>): set<Mask> {
    set m | m in before && !(m in masks && matches(m, m))
  }

  /** Deletions of masks unrelated to the others of a list remove those that match
      themselves, and leave the others where they are. */
  lemma {:induction false} DeletionsRemoveSelfMatched(rules: Rules, src: Source, ch: Channel, mode: Mode, masks: seq<Mask>)
    requires mode.kind == List && Remote(src)
    requires forall x, m :: x in masks && m in Masks(ch.ListOf(mode.letter)) && x != m ==> !Comparable(rules.matches, x, m)
    ensures TargetsPresent(ch, Deletions(mode, masks))
    ensures var p := Apply(rules, src, ch, Deletions(mode, masks)).channel;
      && p.flags == ch.flags && p.members == ch.members
      && (forall l :: l != mode.letter ==> p.ListOf(l) == ch.ListOf(l))
      && Masks(p.ListOf(mode.letter)) == Remaining(rules.matches, Masks(ch.ListOf(mode.letter)), masks)
    decreases |masks|
  {
    DeletionsHaveTargets(ch, mode, masks);
    if masks == [] {
    } else {
      var x, items := masks[0], ch.ListOf(mode.letter);
      assert x in masks;
      DelRemovesComparable(rules.matches, items, x);
      StepOfList(rules, src, ch, Deletion(mode, x), ListOutcome(rules, src, items, Deletion(mode, x)));
      var next := Step(rules, src, ch, Deletion(mode, x)).channel;
      assert Masks(next.ListOf(mode.letter)) == Remaining(rules.matches, Masks(items), [x]);
      DeletionsRemoveSelfMatched(rules, src, next, mode, masks[1..]);
      RemainingTwice(rules.matches, Masks(items), x, masks);
      assert Deletions(mode, masks)[1..] == Deletions(mode, masks[1..]);
    }
  }

  lemma RemainingTwice(matches: Matcher, before: set<Mask>, x: Mask, masks: seq<Mask>)
    requires masks != [] && masks[0] == x
    ensures Remaining(matches, Remaining(matches, before, [x]), masks[1..]) == Remaining(matches, before, masks)
  {
    assert forall m :: m in masks <==> m == x || m in masks[1..];
  }

  /** A change of a list that sends nothing but the deletions it had inserted reaches the
      peer exactly when what they remove there is what went here. */
  lemma DeletionsReplicateIff(rules: Rules, ms: set<Mask>, here: Source, there: Source, ch: Channel, peer: Channel,
                              c: Change, o: Outcome)
    requires TouchesList(here, ch, c) && Remote(there) && o == ListOutcome(rules, here, ch.ListOf(c.mode.letter), c)
    requires Sound(rules, ms, ch) && Alike(ch, peer) && Sound(rules, ms, peer) && o.result != 0
    requires forall m :: m in o.dels ==> m in Masks(ch.ListOf(c.mode.letter))
    ensures var s := Step(rules, here, ch, c);
      && TargetsPresent(peer, Effective(s.changes))
      && (Alike(s.channel, Apply(rules, there, peer, Effective(s.changes)).channel)
          <==> Masks(o.items) == Remaining(rules.matches, Masks(ch.ListOf(c.mode.letter)), o.dels))
  {
    var letter, s := c.mode.letter, Step(rules, here, ch, c);
    StepOfList(rules, here, ch, c, o);
    SentAfterDeletions(c.mode, o.dels, c.(arg := Argument(rules, c), bounced := true));
    assert Masks(ch.ListOf(letter)) == Masks(peer.ListOf(letter));
    MembersUnrelated(rules, ms, peer, letter, o.dels);
    DeletionsRemoveSelfMatched(rules, there, peer, c.mode, o.dels);
    var p := Apply(rules, there, peer, Deletions(c.mode, o.dels)).channel;
    if Masks(o.items) == Masks(p.ListOf(letter)) {
      ListsAlike(s.channel, p, ch, peer, letter);
    }
  }

  lemma MembersUnrelated(rules: Rules, ms: set<Mask>, ch: Channel, letter: char, masks: seq<Mask>)
    requires Sound(rules, ms, ch) && forall m :: m in masks ==> m in Masks(ch.ListOf(letter))
    ensures forall x, m :: x in masks && m in Masks(ch.ListOf(letter)) && x != m ==> !Comparable(rules.matches, x, m)
  {
    assert SoundList(rules, ms, ch.ListOf(letter));
    forall x, m | x in masks && m in Masks(ch.ListOf(letter)) && x != m
      ensures !Comparable(rules.matches, x, m)
    {
      MembersIncomparable(rules.matches, ch.ListOf(letter), x);
    }
  }

  /** A - on a list reaches the peer exactly when every mask it removes matches itself:
      the peer gets each mask's own text, and only what matches it goes. */
  lemma DelReplicatesExactlyWhenSelfMatched(rules: Rules, ms: set<Mask>, here: Source, there: Source, ch: Channel,
                                            peer: Channel, c: Change)
    requires TouchesList(here, ch, c) && c.what == Del && Remote(there)
    requires Sound(rules, ms, ch) && Alike(ch, peer) && Sound(rules, ms, peer)
    ensures var s := Step(rules, here, ch, c);
      && TargetsPresent(peer, Effective(s.changes))
      && (Alike(s.channel, Apply(rules, there, peer, Effective(s.changes)).channel)
          <==> SelfMatched(rules.matches, ComparableIn(rules.matches, ch.ListOf(c.mode.letter), c.arg)))
  {
    var items := ch.ListOf(c.mode.letter);
    var o := ListOutcome(rules, here, items, c);
    DelRemovesComparable(rules.matches, items, c.arg);
    DeletionsReplicateIff(rules, ms, here, there, ch, peer, c, o);
    var gone := ComparableIn(rules.matches, items, c.arg);
    assert Masks(o.items) == Masks(items) - gone;
    if !SelfMatched(rules.matches, gone) {
      var m :| m in gone && !rules.matches(m, m);
      assert m in Remaining(rules.matches, Masks(items), o.dels) && m !in Masks(o.items);
    }
  }

  /** The masks of a list that match a or are matched by it. */
  function ComparableIn(matches: Matcher, items: seq<Item>, a: Mask): set<Mask> {
    set m | m in Masks(items) && Comparable(matches, a, m)
  }

  /** A refused + reaches the peer exactly when each mask it dropped on the way, which is
      each it matches in front of the one that stopped it, matches itself or is in the list
      once more. */
  lemma RefusedAddReplicatesIff(rules: Rules, ms: set<Mask>, here: Source, there: Source, ch: Channel, peer: Channel,
                                c: Change, k: nat)
    requires TouchesList(here, ch, c) && c.what == Add && Remote(there)
    requires Sound(rules, ms, ch) && Alike(ch, peer) && Sound(rules, ms, peer)
    requires ListOutcome(rules, here, ch.ListOf(c.mode.letter), c).result != 0
    requires k == FirstMatch(rules.matches, ch.ListOf(c.mode.letter), Argument(rules, c))
    ensures var s, items := Step(rules, here, ch, c), ch.ListOf(c.mode.letter);
      && TargetsPresent(peer, Effective(s.changes))
      && (Alike(s.channel, Apply(rules, there, peer, Effective(s.changes)).channel)
          <==> NoneLost(rules.matches, items, Argument(rules, c), k))
  {
    var items := ch.ListOf(c.mode.letter);
    assert SoundList(rules, ms, items);
    RefusedRemaining(rules.matches, items, Item(Argument(rules, c), here.ihash), k);
    DeletionsReplicateIff(rules, ms, here, there, ch, peer, c, ListOutcome(rules, here, items, c));
  }

  /** What a refused + leaves, and what the deletions it sends leave. */
  lemma RefusedRemaining(matches: Matcher, items: seq<Item>, item: Item, k: nat)
    requires Antichain(matches, items) && |items| <= MAXBANS && BounceAdd(matches, items, item).result != 0
    requires k == FirstMatch(matches, items, item.mask)
    ensures var o := BounceAdd(matches, items, item);
      && (forall m :: m in o.dels ==> m in Masks(items))
      && (Masks(o.items) == Remaining(matches, Masks(items), o.dels) <==> NoneLost(matches, items, item.mask, k))
  {
    var o := BounceAdd(matches, items, item);
    if o.result == 1 {
      ScanBefore(matches, items, item.mask);
      MasksInParts(items, k);
      SelfMatchedOnce(matches, items, k);
      RefusedParts(matches, items, item.mask, k, Masks(o.items), o.dels);
    } else {
      AddIsExact(matches, items, item);
      assert items[..k] == items;
    }
  }

  lemma RefusedParts(matches: Matcher, items: seq<Item>, a: Mask, k: nat, left: set<Mask>, dels: seq<Mask>)
    requires k <= |items| && Masks(items) == Masks(items[..k]) + Masks(items[k..])
    requires forall m :: m in Masks(items[..k]) && matches(m, m) ==> m !in Masks(items[k..])
    requires forall m :: m in dels <==> m in Masks(items[..k]) && matches(m, a)
    requires left == (set m | m in Masks(items[..k]) && !matches(m, a)) + Masks(items[k..])
    ensures left == Remaining(matches, Masks(items), dels) <==> NoneLost(matches, items, a, k)
  {
    if NoneLost(matches, items, a, k) {
      assert left == Remaining(matches, Masks(items), dels);
    } else {
      var m :| m in Masks(items[..k]) && matches(m, a) && !(matches(m, m) || m in Masks(items[k..]));
      assert m in Remaining(matches, Masks(items), dels) && m !in left;
    }
  }

  /** Of the first k items, each mask that a matches matches itself or comes again later. */
  ghost predicate NoneLost(matches: Matcher, items: seq<Item>, a: Mask, k: nat)
    requires k <= |items|
  {
    forall m :: m in Masks(items[..k]) && matches(m, a) ==> matches(m, m) || m in Masks(items[k..])
  }

  lemma MasksInParts(items: seq<Item>, k: nat)
    requires k <= |items|
    ensures Masks(items) == Masks(items[..k]) + Masks(items[k..])
  {
    assert forall i :: 0 <= i < |items| ==> items[i] == if i < k then items[..k][i] else items[k..][i - k];
  }

  /** A mask that matches itself is in an antichain once. */
  lemma SelfMatchedOnce(matches: Matcher, items: seq<Item>, k: nat)
    requires Antichain(matches, items) && k <= |items|
    ensures forall m :: m in Masks(items[..k]) && matches(m, m) ==> m !in Masks(items[k..])
  {
    forall m | m in Masks(items[..k]) && matches(m, m)
      ensures m !in Masks(items[k..])
    {
      var i :| 0 <= i < k && items[..k][i].mask == m;
      forall j | 0 <= j < |items| - k
        ensures items[k..][j].mask != m
      {
        assert items[k..][j] == items[k + j] && items[i].mask == m;
      }
    }
  }

  // ---------- with the server's own matching and normalising ----------

  /** All masks of all lists, and those a pass wants to set. */
  function AllMasks(ch: Channel, changes: seq<Change>): set<Mask> {
    (set l, m | l in ch.lists && m in Masks(ch.lists[l]) :: m)
    + (set c | c in changes && c.mode.kind == List && c.what == Add :: BanMasks.Normalize(c.arg))
  }

  /** Masks that match themselves, and arguments without a second `@` to be kept, replicate. */
  lemma IrcdPassReplicates(here: Source, there: Source, ch: Channel, peer: Channel, changes: seq<Change>)
    requires TargetsPresent(ch, changes) && Remote(there) && Alike(ch, peer)
    requires forall l :: Antichain(IRCD_RULES.matches, ch.ListOf(l)) && |ch.ListOf(l)| <= MAXBANS
    requires forall l :: Antichain(IRCD_RULES.matches, peer.ListOf(l)) && |peer.ListOf(l)| <= MAXBANS
    requires SelfMatched(IRCD_RULES.matches, AllMasks(ch, changes))
    requires forall c :: c in changes ==> !c.bounced
    requires forall c :: c in changes && c.mode.kind == List && c.what == Add ==> !BanMasks.KeepsSecondAt(c.arg)
    ensures InStep(IRCD_RULES, AllMasks(ch, changes), Apply(IRCD_RULES, here, ch, changes), there, peer)
  {
    var ms := AllMasks(ch, changes);
    forall l
      ensures SoundList(IRCD_RULES, ms, ch.ListOf(l)) && SoundList(IRCD_RULES, ms, peer.ListOf(l))
    {
      assert Masks(ch.ListOf(l)) == Masks(peer.ListOf(l));
    }
    forall i | 0 <= i < |changes|
      ensures !changes[i].bounced && Considered(IRCD_RULES, ms, changes[i]) && Stable(IRCD_RULES, changes[i])
    {
      assert changes[i] in changes;
      BanMasks.NormalizeAgain(changes[i].arg);
    }
    PassReplicates(IRCD_RULES, ms, here, there, ch, peer, changes);
  }

  /** A mask too costly to match itself stays on the peers when "-b *" removes it here. */
  lemma CostlyMaskStays(here: Source, there: Source, ms: set<Mask>, ch: Channel, peer: Channel, c: Change, m: Mask)
    requires TouchesList(here, ch, c) && c.what == Del && c.arg == "*" && Remote(there)
    requires Sound(IRCD_RULES, ms, ch) && Alike(ch, peer) && Sound(IRCD_RULES, ms, peer)
    requires MatchBudget.IsWildHost(m) && m in Masks(ch.ListOf(c.mode.letter))
    ensures var s := Step(IRCD_RULES, here, ch, c);
      && TargetsPresent(peer, Effective(s.changes))
      && !Alike(s.channel, Apply(IRCD_RULES, there, peer, Effective(s.changes)).channel)
  {
    DelReplicatesExactlyWhenSelfMatched(IRCD_RULES, ms, here, there, ch, peer, c);
    DelRemovesComparable(IRCD_RULES.matches, ch.ListOf(c.mode.letter), "*");
    MatchBudget.BareStarIff(m);
    MatchBudget.BudgetBreaksReflexivity(m);
  }

  /** So it does when "*!*@*" is refused on account of "*!*@?" and has dropped it before. */
  lemma CostlyMaskStaysOnRefusal(here: Source, there: Source, ms: set<Mask>, ch: Channel, peer: Channel, c: Change, x: Item)
    requires TouchesList(here, ch, c) && c.what == Add && BanMasks.Normalize(c.arg) == "*!*@*" && Remote(there)
    requires Sound(IRCD_RULES, ms, ch) && Alike(ch, peer) && Sound(IRCD_RULES, ms, peer)
    requires MatchBudget.IsWildHost(x.mask) && ch.ListOf(c.mode.letter) == [x, Item("*!*@?", 0)]
    ensures var s := Step(IRCD_RULES, here, ch, c);
      && TargetsPresent(peer, Effective(s.changes))
      && !Alike(s.channel, Apply(IRCD_RULES, there, peer, Effective(s.changes)).channel)
  {
    var one, all := "*!*@?", "*!*@*";
    var items := [x, Item(one, 0)];
    MatchBudget.WildAmongHosts(x.mask, one, all);
    DropsFirst(IRCD_RULES.matches, x, Item(one, 0), Item(all, here.ihash));
    MatchBudget.BudgetBreaksReflexivity(x.mask);
    assert items[1..][0].mask == one;
    assert FirstMatch(IRCD_RULES.matches, items, all) == 1;
    LosesFirst(x, Item(one, 0), all);
    RefusedAddReplicatesIff(IRCD_RULES, ms, here, there, ch, peer, c, 1);
  }

  lemma LosesFirst(x: Item, y: Item, a: Mask)
    requires IRCD_RULES.matches(x.mask, a) && !IRCD_RULES.matches(x.mask, x.mask) && x.mask != y.mask
    ensures !NoneLost(IRCD_RULES.matches, [x, y], a, 1)
  {
    var items := [x, y];
    assert items[..1] == [x] && items[1..] == [y];
    assert [x][0].mask in Masks([x]);
  }

  /** A ban for any nick and user is stored as it is written. */
  lemma AnyAtIsStored(host: string)
    requires 1 <= |host| <= BanMasks.HOSTLEN
    requires forall i :: 0 <= i < |host| ==> host[i] == 'a' || host[i] == 'b' || host[i] == '*' || host[i] == '?'
    ensures BanMasks.Normalize(MatchBudget.AnyAt(host)) == MatchBudget.AnyAt(host)
  {
    var m := BanMasks.Mask("*", "*", host);
    assert BanMasks.Text(m) == MatchBudget.AnyAt(host);
    BanMasks.NormalizeText(m);
    BanMasks.CutNothing(host, '@');
    BanMasks.CleanAgain(host, BanMasks.Host);
  }

  lemma FailingMaskIsStored(host: string, m: Mask)
    requires 1 <= |host| <= BanMasks.HOSTLEN && m == MatchBudget.AnyAt(host)
    requires MatchBudget.IsLong(m) || MatchBudget.IsMiddle(m) || MatchBudget.IsShort(m) || MatchBudget.IsWildHost(m)
    ensures BanMasks.Normalize(m) == m
  {
    forall i | 0 <= i < |host|
      ensures host[i] == 'a' || host[i] == 'b' || host[i] == '*' || host[i] == '?'
    {
      assert m[i + 4] == host[i];
    }
    AnyAtIsStored(host);
  }

  /** The masks on which matching fails can be bans. */
  lemma FailingMasksAreStored()
    ensures BanMasks.Normalize(MatchBudget.LONG) == MatchBudget.LONG
    ensures BanMasks.Normalize(MatchBudget.MIDDLE) == MatchBudget.MIDDLE
    ensures BanMasks.Normalize(MatchBudget.SHORT) == MatchBudget.SHORT
    ensures BanMasks.Normalize(MatchBudget.WILD) == MatchBudget.WILD
  {
    MatchBudget.Shapes();
    FailingMaskIsStored(Copies('a', 59) + "b", MatchBudget.LONG);
    FailingMaskIsStored(Copies('a', 5) + ("*" + (Copies('a', 9) + "b")), MatchBudget.MIDDLE);
    FailingMaskIsStored("*" + (Copies('a', 9) + "b"), MatchBudget.SHORT);
    FailingMaskIsStored(Copies('*', 20) + (Copies('?', 30) + "a"), MatchBudget.WILD);
  }
}
