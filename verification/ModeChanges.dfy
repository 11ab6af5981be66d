/** Applying a list of channel mode changes and replicating what got through:
    chanmode_apply, chanmode_bounce_simple, chanmode_bounce_ban, chanmode_bounce_mask
    and chanmode_change_insert of src/chanmode.c, chanuser_mode_bounce of
    src/chanuser.c. */
module ModeChanges {
  import opened Prelude
  import opened MaskLists
  import BanMasks
  import Glob

  // ---------- modes, changes, channels ----------

  datatype Kind = Single | List | Privilege

  /** A mode's letter stands for its flag; `need` are the privileges that may change it. */
  datatype Mode = Mode(letter: char, kind: Kind, need: set<char>)

  datatype What = Add | Del | Query

  datatype Change = Change(what: What, mode: Mode, arg: string, target: nat, bounced: bool)

  datatype Channel = Channel(flags: set<char>, lists: map<char, seq<Item>>, members: map<nat, set<char>>) {
    function ListOf(letter: char): seq<Item> {
      if letter in lists then lists[letter] else []
    }
  }

  /** Who makes the changes: a member or not, on a connection of this server or not;
      `ihash` tags the masks it sets. */
  datatype Source = Source(member: Option<nat>, localUser: bool, ihash: int)

  /** Mask matching, and the rewriting of mask arguments. */
  datatype Rules = Rules(matches: Matcher, normalize: string -> string)

  /** str_match and chanmode_bounce_ban's rewriting. */
  const IRCD_RULES := Rules(Glob.StrMatches, BanMasks.Normalize)

  // ---------- one change ----------

  /** A mode callback's result, the channel after it, the argument it may have
      rewritten, and the deletions it inserted. */
  datatype Effect = Effect(result: int, channel: Channel, arg: string, dels: seq<Mask>)

  function Toggle(what: What, flags: set<char>, letter: char): (int, set<char>) {
    match what
    case Del => if letter in flags then (0, flags - {letter}) else (1, flags)
    case Add => if letter in flags then (1, flags) else (0, flags + {letter})
    case Query => (0, flags)
  }

  /** The member a privilege change names is on the channel. */
  predicate TargetPresent(ch: Channel, c: Change) {
    c.mode.kind == Privilege && c.what != Query ==> c.target in ch.members
  }

  function Callback(rules: Rules, src: Source, ch: Channel, c: Change): Effect
    requires TargetPresent(ch, c)
  {
    var letter := c.mode.letter;
    match c.mode.kind
    case Single =>
      var (result, flags) := Toggle(c.what, ch.flags, letter);
      Effect(result, ch.(flags := flags), c.arg, [])
    case Privilege =>
      if c.what == Query then Effect(0, ch, c.arg, [])
      else
        var (result, flags) := Toggle(c.what, ch.members[c.target], letter);
        Effect(result, ch.(members := ch.members[c.target := flags]), c.arg, [])
    case List =>
      match c.what
      case Add =>
        var mask := rules.normalize(c.arg);
        var o := BounceAdd(rules.matches, ch.ListOf(letter), Item(mask, src.ihash));
        Effect(o.result, ch.(lists := ch.lists[letter := o.items]), mask, o.dels)
      case Del =>
        var o := BounceDel(rules.matches, ch.ListOf(letter), c.arg);
        Effect(o.result, ch.(lists := ch.lists[letter := o.items]), c.arg, o.dels)
      case Query => Effect(0, ch, c.arg, [])
  }

  /** A local user who is on the channel needs one of the mode's privileges. */
  predicate Denied(src: Source, ch: Channel, c: Change) {
    && src.member.Some? && src.localUser && c.what != Query
    && (src.member.value in ch.members ==> ch.members[src.member.value] * c.mode.need == {})
  }

  /** The inserted deletion of one mask. */
  function Deletion(mode: Mode, mask: Mask): Change {
    Change(Del, mode, mask, 0, false)
  }

  function Deletions(mode: Mode, masks: seq<Mask>): seq<Change> {
    if masks == [] then [] else [Deletion(mode, masks[0])] + Deletions(mode, masks[1..])
  }

  /** A pass over changes: the channel and the change list after it, and how many
      changes got through. */
  datatype Pass = Pass(channel: Channel, changes: seq<Change>, passed: nat)

  /** One change; its place in the list is taken by `changes`. */
  function Step(rules: Rules, src: Source, ch: Channel, c: Change): Pass
    requires TargetPresent(ch, c)
  {
    if Denied(src, ch, c) then Pass(ch, [c.(bounced := true)], 0)
    else
      var e := Callback(rules, src, ch, c);
      var bounced := e.result != 0 || c.what == Query;
      Pass(e.channel, Deletions(c.mode, e.dels) + [c.(arg := e.arg, bounced := bounced)], if bounced then 0 else 1)
  }

  /** No step adds or removes a member. */
  lemma StepKeepsMembers(rules: Rules, src: Source, ch: Channel, c: Change)
    requires TargetPresent(ch, c)
    ensures Step(rules, src, ch, c).channel.members.Keys == ch.members.Keys
  {
  }

  predicate TargetsPresent(ch: Channel, changes: seq<Change>) {
    forall i :: 0 <= i < |changes| ==> TargetPresent(ch, changes[i])
  }

  // ---------- a list of changes ----------

  function Apply(rules: Rules, src: Source, ch: Channel, changes: seq<Change>): Pass
    requires TargetsPresent(ch, changes)
    decreases |changes|
  {
    if changes == [] then Pass(ch, [], 0)
    else
      var first := Step(rules, src, ch, changes[0]);
      StepKeepsMembers(rules, src, ch, changes[0]);
      Behind(first, Apply(rules, src, first.channel, changes[1..]))
  }

  /** A pass seen from the part already done. */
  function Behind(done: Pass, rest: Pass): Pass {
    Pass(rest.channel, done.changes + rest.changes, done.passed + rest.passed)
  }

  lemma BehindTwo(a: Pass, b: Pass, c: Pass)
    ensures Behind(a, Behind(b, c)) == Behind(Behind(a, b), c)
  {
    Assoc(a.changes, b.changes, c.changes);
  }

  /** chanmode_apply. The deletions a change causes are linked in front of it, so the
      walk does not come by them. */
  class ModePass {
    var channel: Channel
    var changes: seq<Change>

    constructor (ch: Channel, list: seq<Change>)
      ensures channel == ch && changes == list
    {
      channel, changes := ch, list;
    }

    /** Treats one change: the channel changes, and `here` takes the change's place.
        Together with the rest of the pass that makes up the whole. */
    method One(rules: Rules, src: Source, c: Change, ghost done: Pass, ghost left: seq<Change>, ghost whole: Pass)
      returns (here: seq<Change>, through: nat)
      requires left != [] && left[0] == c && TargetsPresent(channel, left)
      requires Behind(done, Apply(rules, src, channel, left)) == whole
      modifies this`channel
      ensures TargetsPresent(channel, left[1..]) && through <= 1
      ensures Behind(Behind(done, Pass(channel, here, through)), Apply(rules, src, channel, left[1..])) == whole
    {
      ghost var step := PassStep(rules, src, done, channel, left, whole);
      if Denied(src, channel, c) {
        return [c.(bounced := true)], 0;
      }
      var e := Callback(rules, src, channel, c);
      var bounced := e.result != 0 || c.what == Query;
      channel := e.channel;
      here := Deletions(c.mode, e.dels) + [c.(arg := e.arg, bounced := bounced)];
      through := if bounced then 0 else 1;
    }

    /** The list in two parts: what the walk has come by, and what is left. */
    ghost predicate Parts(k: nat, done: seq<Change>, left: seq<Change>)
      reads this`changes
    {
      changes == done + left && |done| == k
    }

    /** The body of the loop. */
    method Treat(rules: Rules, src: Source, k: nat, ghost done: Pass, ghost left: seq<Change>, ghost whole: Pass)
      returns (next: nat, through: nat, ghost after: Pass)
      requires Parts(k, done.changes, left) && left != [] && TargetsPresent(channel, left)
      requires Behind(done, Apply(rules, src, channel, left)) == whole
      modifies this
      ensures after.channel == channel && after.passed == done.passed + through
      ensures Parts(next, after.changes, left[1..]) && TargetsPresent(channel, left[1..])
      ensures Behind(after, Apply(rules, src, channel, left[1..])) == whole
    {
      var c := changes[k];
      var here;
      here, through := One(rules, src, c, done, left, whole);
      after := Behind(done, Pass(channel, here, through));
      Splice(done.changes, here, left);
      changes := changes[..k] + (here + changes[k + 1..]);
      next := k + |here|;
    }

    method Run(rules: Rules, src: Source) returns (passed: nat)
      requires TargetsPresent(channel, changes)
      modifies this
      ensures Pass(channel, changes, passed) == Apply(rules, src, old(channel), old(changes))
    {
      passed := 0;
      var k: nat := 0;
      ghost var whole := Apply(rules, src, channel, changes);
      ghost var done, left := Pass(channel, [], 0), changes;
      assert [] + whole.changes == whole.changes && [] + left == left;
      while k < |changes|
        invariant Parts(k, done.changes, left) && TargetsPresent(channel, left)
        invariant done.channel == channel && done.passed == passed
        invariant Behind(done, Apply(rules, src, channel, left)) == whole
        decreases |left|
      {
        var through;
        k, through, done := Treat(rules, src, k, done, left, whole);
        passed := passed + through;
        left := left[1..];
      }
      assert done.changes + [] == changes == done.changes;
    }
  }

  lemma Splice<T>(done: seq<T>, here: seq<T>, left: seq<T>)
    requires left != []
    ensures var all := done + left;
      all[..|done|] + (here + all[|done| + 1..]) == done + here + left[1..]
  {
    assert (done + left)[|done| + 1..] == left[1..];
    Assoc(done, here, left[1..]);
  }

  lemma PassStep(rules: Rules, src: Source, done: Pass, ch: Channel, left: seq<Change>, whole: Pass)
    returns (step: Pass)
    requires left != [] && TargetsPresent(ch, left)
    requires Behind(done, Apply(rules, src, ch, left)) == whole
    ensures step == Step(rules, src, ch, left[0])
    ensures TargetsPresent(step.channel, left[1..])
    ensures Behind(Behind(done, step), Apply(rules, src, step.channel, left[1..])) == whole
  {
    step := Step(rules, src, ch, left[0]);
    StepKeepsMembers(rules, src, ch, left[0]);
    BehindTwo(done, step, Apply(rules, src, step.channel, left[1..]));
  }
}
