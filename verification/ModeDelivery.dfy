/** A mode pass on one server, its lines, and the peer that reads and applies them. */
module ModeDelivery {
  import opened Prelude
  import opened MaskLists
  import opened ModeChanges
  import opened ModeLines
  import opened ModeParsing
  import Replication

  /** The receiving end: how it reads lines, by which rules it applies them, and for whom. */
  datatype Receiver = Receiver(peer: Peer, rules: Rules, source: Source, pc: nat)

  /** One line is read and applied. */
  function Receive(to: Receiver, ch: Channel, line: Line): Option<Channel> {
    var changes := Parsed(to.peer, line, to.pc);
    if TargetsPresent(ch, changes) then Some(Apply(to.rules, to.source, ch, changes).channel) else None
  }

  /** Lines are read and applied one after the other. */
  function Deliver(to: Receiver, ch: Channel, lines: seq<Line>): Option<Channel> {
    if lines == [] then Some(ch)
    else
      var before := Deliver(to, ch, Front(lines));
      if before == None then None else Receive(to, before.value, Last(lines))
  }

  // ---------- reading replaces the arguments, not their effect ----------

  lemma StepOfReceived(rules: Rules, src: Source, ch: Channel, names: Names, c: Change)
    requires TargetPresent(ch, c) && c.what != Query
    ensures TargetPresent(ch, Received(names, c))
    ensures Step(rules, src, ch, Received(names, c)).channel == Step(rules, src, ch, c).channel
  {
  }

  lemma {:induction false} ApplyReceived(rules: Rules, src: Source, ch: Channel, names: Names, sent: seq<Change>)
    requires TargetsPresent(ch, sent) && forall i :: 0 <= i < |sent| ==> sent[i].what != Query
    ensures TargetsPresent(ch, ReceivedAll(names, sent))
    ensures Apply(rules, src, ch, ReceivedAll(names, sent)).channel == Apply(rules, src, ch, sent).channel
    decreases |sent|
  {
    if sent == [] {
    } else {
      StepOfReceived(rules, src, ch, names, sent[0]);
      StepKeepsMembers(rules, src, ch, sent[0]);
      ApplyReceived(rules, src, Step(rules, src, ch, sent[0]).channel, names, sent[1..]);
      assert ReceivedAll(names, sent)[1..] == ReceivedAll(names, sent[1..]);
    }
  }

  // ---------- lines of at most four changes ----------

  predicate AllUnderstood(to: Receiver, names: Names, sent: seq<Change>) {
    forall i :: 0 <= i < |sent| ==> Understood(to.peer, names, sent[i])
  }

  lemma ReceiveShortLine(to: Receiver, ch: Channel, names: Names, sent: seq<Change>)
    requires |sent| <= MODES_PER_LINE && AllUnderstood(to, names, sent) && TargetsPresent(ch, sent) && to.pc > 0
    ensures Receive(to, ch, LineOf(names, sent)) == Some(Apply(to.rules, to.source, ch, sent).channel)
  {
    LineRoundTrip(to.peer, names, sent, to.pc);
    assert FirstOf(sent) == sent;
    ApplyReceived(to.rules, to.source, ch, names, sent);
  }

  ghost predicate ShortParts(to: Receiver, names: Names, parts: seq<seq<Change>>) {
    forall i :: 0 <= i < |parts| ==> |parts[i]| <= MODES_PER_LINE && AllUnderstood(to, names, parts[i])
  }

  lemma DeliverOneMore(to: Receiver, ch: Channel, names: Names, lines: seq<Line>, before: seq<Change>, last: seq<Change>)
    requires TargetsPresent(ch, before) && TargetsPresent(ch, before + last) && to.pc > 0
    requires Deliver(to, ch, lines) == Some(Apply(to.rules, to.source, ch, before).channel)
    requires |last| <= MODES_PER_LINE && AllUnderstood(to, names, last)
    ensures Deliver(to, ch, lines + [LineOf(names, last)])
         == Some(Apply(to.rules, to.source, ch, before + last).channel)
  {
    Replication.ApplyConcat(to.rules, to.source, ch, before, last);
    ReceiveShortLine(to, Apply(to.rules, to.source, ch, before).channel, names, last);
    assert Front(lines + [LineOf(names, last)]) == lines;
  }

  lemma CarryOneLess(lines: seq<Line>, parts: seq<seq<Change>>, names: Names, n: nat, count: nat)
    requires Carry(lines, parts, names, n, count) && parts != []
    ensures Carry(Front(lines), Front(parts), names, n, count)
    ensures Front(lines) + [LineOf(names, Last(parts))] == lines
  {
  }

  /** Lines of at most four changes have the effect of all their changes in order. */
  lemma {:induction false} DeliverShortLines(to: Receiver, ch: Channel, names: Names, lines: seq<Line>,
                                             parts: seq<seq<Change>>, n: nat, count: nat)
    requires Carry(lines, parts, names, n, count) && ShortParts(to, names, parts) && to.pc > 0
    requires TargetsPresent(ch, Flat(parts))
    ensures Deliver(to, ch, lines) == Some(Apply(to.rules, to.source, ch, Flat(parts)).channel)
  {
    if parts == [] {
    } else {
      CarryOneLess(lines, parts, names, n, count);
      Replication.TargetsInParts(ch, Flat(Front(parts)), Last(parts));
      DeliverShortLines(to, ch, names, Front(lines), Front(parts), n, count);
      DeliverOneMore(to, ch, names, Front(lines), Flat(Front(parts)), Last(parts));
    }
  }

  /** From one server's pass over the wire to its peer: when no line has more than four
      changes, the peer ends with the same flags, privileges and masks. */
  lemma WireReplicates(to: Receiver, ms: set<Mask>, after: Pass, ch: Channel, names: Names, lines: seq<Line>,
                       parts: seq<seq<Change>>, n: nat, count: nat)
    requires Replication.InStep(to.rules, ms, after, to.source, ch)
    requires Carry(lines, parts, names, n, count) && Flat(parts) == Replication.Effective(after.changes)
    requires ShortParts(to, names, parts) && to.pc > 0
    ensures var got := Deliver(to, ch, lines);
      got.Some? && Replication.Alike(after.channel, got.value)
  {
    DeliverShortLines(to, ch, names, lines, parts, n, count);
  }

  // ---------- longer lines ----------

  /** A line that begins with four deletions is read as these alone. */
  lemma OnlyFourDeletions(to: Receiver, names: Names, mode: Mode, dels: seq<Mask>, c: Change)
    requires mode.kind == List && |dels| >= MODES_PER_LINE && to.pc > 0
    requires var sent := Deletions(mode, dels) + [c];
      |sent| <= PER_LINE && AllUnderstood(to, names, sent)
    ensures Parsed(to.peer, LineOf(names, Deletions(mode, dels) + [c]), to.pc)
         == ReceivedAll(names, Deletions(mode, dels[..MODES_PER_LINE]))
  {
    var sent := Deletions(mode, dels) + [c];
    LineRoundTrip(to.peer, names, sent, to.pc);
    DeletionsPrefix(mode, dels, MODES_PER_LINE);
    assert FirstOf(sent) == Deletions(mode, dels)[..MODES_PER_LINE];
  }

  lemma {:induction false} DeletionsPrefix(mode: Mode, masks: seq<Mask>, k: nat)
    requires k <= |masks|
    ensures |Deletions(mode, masks)| == |masks| && Deletions(mode, masks)[..k] == Deletions(mode, masks[..k])
    decreases masks
  {
    if masks == [] {
    } else if k == 0 {
      DeletionsPrefix(mode, masks[1..], 0);
    } else {
      DeletionsPrefix(mode, masks[1..], k - 1);
      assert masks[..k][1..] == masks[1..][..k - 1];
    }
  }

  /** So the peer loses four masks and gets none. */
  lemma ReceiveFourDeletions(to: Receiver, ms: set<Mask>, peer: Channel, names: Names, mode: Mode, dels: seq<Mask>,
                             c: Change)
    requires mode.kind == List && |dels| >= MODES_PER_LINE && to.pc > 0
    requires var sent := Deletions(mode, dels) + [c];
      |sent| <= PER_LINE && AllUnderstood(to, names, sent)
    requires Replication.Remote(to.source) && SelfMatched(to.rules.matches, SetOf(dels))
    requires Replication.Sound(to.rules, ms, peer) && Distinct(dels)
    requires SetOf(dels) <= Masks(peer.ListOf(mode.letter))
    ensures var got := Receive(to, peer, LineOf(names, Deletions(mode, dels) + [c]));
      && got.Some?
      && Masks(got.value.ListOf(mode.letter))
         == Masks(peer.ListOf(mode.letter)) - SetOf(dels[..MODES_PER_LINE])
  {
    var four := dels[..MODES_PER_LINE];
    OnlyFourDeletions(to, names, mode, dels, c);
    assert forall m :: m in SetOf(four) ==> m in SetOf(dels);
    Replication.ReplayDeletions(to.rules, ms, to.source, peer, mode, four);
    Replication.DeletionsAreEffective(mode, four);
    DeletionsAsk(mode, four);
    ApplyReceived(to.rules, to.source, peer, names, Deletions(mode, four));
  }

  lemma {:induction false} DeletionsAsk(mode: Mode, masks: seq<Mask>)
    ensures forall i :: 0 <= i < |Deletions(mode, masks)| ==> Deletions(mode, masks)[i].what == Del
  {
    if masks == [] {
    } else {
      DeletionsAsk(mode, masks[1..]);
    }
  }

  lemma AddedIsNew(matches: Matcher, items: seq<Item>, item: Item)
    requires matches(item.mask, item.mask) && BounceAdd(matches, items, item).result == 0
    ensures item.mask !in Masks(items)
  {
    ScanHits(matches, items, item.mask);
  }

  /** A + that covers 4 to 15 masks is put on one line behind their deletions, and a
      peer reads only four changes of it: there the masks go and the new one never comes. */
  lemma CoveringMaskIsLost(to: Receiver, ms: set<Mask>, here: Source, ch: Channel, peer: Channel, names: Names, c: Change)
    requires Replication.TouchesList(here, ch, c) && c.what == Add && !c.bounced && to.pc > 0
    requires Replication.Remote(to.source) && SelfMatched(to.rules.matches, Masks(ch.ListOf(c.mode.letter)))
    requires to.rules.matches(Replication.Argument(to.rules, c), Replication.Argument(to.rules, c))
    requires Replication.Argument(to.rules, c) in ms
    requires Replication.Sound(to.rules, ms, ch) && Replication.Alike(ch, peer) && Replication.Sound(to.rules, ms, peer)
    requires var o := Replication.ListOutcome(to.rules, here, ch.ListOf(c.mode.letter), c);
      o.result == 0 && MODES_PER_LINE <= |o.dels| < PER_LINE
    requires AllUnderstood(to, names, Replication.Effective(Step(to.rules, here, ch, c).changes))
    ensures var s := Step(to.rules, here, ch, c);
      var got := Receive(to, peer, LineOf(names, Replication.Effective(s.changes)));
      got.Some? && !Replication.Alike(s.channel, got.value)
  {
    var letter, items, a := c.mode.letter, ch.ListOf(c.mode.letter), Replication.Argument(to.rules, c);
    var o, s := Replication.ListOutcome(to.rules, here, items, c), Step(to.rules, here, ch, c);
    assert Replication.SoundList(to.rules, ms, items) && Masks(items) == Masks(peer.ListOf(letter));
    var left := set m | m in Masks(items) && !to.rules.matches(m, a);
    Replication.AddedOutcome(to.rules, ms, items, Item(a, here.ihash), o, left);
    AddedIsNew(to.rules.matches, items, Item(a, here.ihash));
    Replication.StepOfList(to.rules, here, ch, c, o);
    var sent := c.(arg := a, bounced := false);
    Replication.SentAfterDeletions(c.mode, o.dels, sent);
    DeletionsPrefix(c.mode, o.dels, 0);
    ReceiveFourDeletions(to, ms, peer, names, c.mode, o.dels, sent);
    assert a in Masks(s.channel.ListOf(letter));
  }
}
