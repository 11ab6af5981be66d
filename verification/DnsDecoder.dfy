/** Octets, and labels in the wire format of section 3.1 of RFC 1035. */
module Octets {

  type Byte = x: int | 0 <= x < 256

  type Label = seq<Byte>

  /** A label preceded by its length. */
  function Piece(l: Label): seq<int> {
    [|l|] + l
  }

  /** The labels in turn; the zero-length root label ends the name. */
  function Wire(labels: seq<Label>): (w: seq<int>)
    ensures |w| >= 1
  {
    if labels == [] then [0] else Piece(labels[0]) + Wire(labels[1..])
  }

  predicate WellFormedLabel(l: Label) {
    1 <= |l| <= 63
  }

  predicate WellFormed(labels: seq<Label>) {
    forall i :: 0 <= i < |labels| ==> WellFormedLabel(labels[i])
  }

  lemma {:induction false} WireIsOctets(labels: seq<Label>)
    requires WellFormed(labels)
    ensures forall i :: 0 <= i < |Wire(labels)| ==> 0 <= Wire(labels)[i] < 256
  {
    if labels == [] {
    } else {
      WireIsOctets(labels[1..]);
    }
  }

  /** memcpy of `piece` to dst[at..]. */
  method CopyIn(dst: array<Byte>, at: nat, piece: seq<Byte>)
    requires at + |piece| <= dst.Length
    modifies dst
    ensures dst[..at + |piece|] == old(dst[..at]) + piece
    ensures dst[at + |piece|..] == old(dst[at + |piece|..])
  {
    forall k | 0 <= k < |piece| {
      dst[at + k] := piece[k];
    }
  }
}

/** The compressed-name decoder and the name skipper of lib/servauth/dns.c. */
module DnsDecoder {
  import opened Prelude
  import opened Octets

  const MAX_STEPS := 1000
  const NAME_SIZE := 256

  // ---------- the meaning of a compressed name ----------

  function Target(high: Byte, low: Byte): nat
    requires high >= 192
  {
    (high - 192) * 256 + low
  }

  /** Section 4.1.4 of RFC 1035: at `pos` starts a name that denotes `labels`
      once `hops` pointers have been followed. */
  ghost predicate Denotes(buf: seq<Byte>, pos: nat, labels: seq<Label>, hops: nat)
    decreases |labels| + hops
  {
    && pos < |buf|
    && var c := buf[pos];
       if c == 0 then
         labels == [] && hops == 0
       else if c < 64 then
         && labels != []
         && pos + 1 + c <= |buf|
         && labels[0] == buf[pos + 1..pos + 1 + c]
         && Denotes(buf, pos + 1 + c, labels[1..], hops)
       else
         && c >= 192
         && pos + 1 < |buf|
         && hops > 0
         && Denotes(buf, Target(c, buf[pos + 1]), labels, hops - 1)
  }

  /** A position starts at most one name. */
  lemma {:induction false} DenotesUnique(buf: seq<Byte>, pos: nat, a: seq<Label>, i: nat, b: seq<Label>, j: nat)
    requires Denotes(buf, pos, a, i) && Denotes(buf, pos, b, j)
    ensures a == b && i == j
    decreases |a| + i
  {
    var c := buf[pos];
    if c == 0 {
    } else if c < 64 {
      DenotesUnique(buf, pos + 1 + c, a[1..], i, b[1..], j);
      assert a == [a[0]] + a[1..] && b == [b[0]] + b[1..];
    } else {
      DenotesUnique(buf, Target(c, buf[pos + 1]), a, i - 1, b, j - 1);
    }
  }

  lemma {:induction false} DenotesWellFormed(buf: seq<Byte>, pos: nat, labels: seq<Label>, hops: nat)
    requires Denotes(buf, pos, labels, hops)
    ensures WellFormed(labels)
    decreases |labels| + hops
  {
    var c := buf[pos];
    if c == 0 {
    } else if c < 64 {
      DenotesWellFormed(buf, pos + 1 + c, labels[1..], hops);
      assert forall i :: 1 <= i < |labels| ==> labels[i] == labels[1..][i - 1];
    } else {
      DenotesWellFormed(buf, Target(c, buf[pos + 1]), labels, hops - 1);
    }
  }

  // ---------- the decoder, octet by octet ----------

  /** What the decoder still appends to the name when it is about to read `pos`
      with `state` octets of the current label to come, `loop` steps taken and
      `length` octets stored; None if it gives up. */
  function Decode(buf: seq<Byte>, pos: nat, state: nat, loop: nat, length: nat): (r: Option<seq<Byte>>)
    decreases MAX_STEPS - loop
  {
    if pos >= |buf| || loop + 1 >= MAX_STEPS then None
    else
      var ch := buf[pos];
      if state > 0 then
        if length > NAME_SIZE - 1 then None
        else Prepend(ch, Decode(buf, pos + 1, state - 1, loop + 1, length + 1))
      else if ch >= 192 then
        if pos + 1 >= |buf| then None
        else Decode(buf, Target(ch, buf[pos + 1]), 0, loop + 1, length)
      else if ch >= 64 || length > NAME_SIZE - 1 then None
      else if ch == 0 then Some([0])
      else Prepend(ch, Decode(buf, pos + 1, ch, loop + 1, length + 1))
  }

  function Prepend(ch: Byte, rest: Option<seq<Byte>>): Option<seq<Byte>> {
    match rest
    case None => None
    case Some(tail) => Some([ch] + tail)
  }

  function Extends(stored: seq<Byte>, rest: Option<seq<Byte>>): Option<seq<Byte>> {
    match rest
    case None => None
    case Some(tail) => Some(stored + tail)
  }

  lemma ExtendsNothing(rest: Option<seq<Byte>>)
    ensures Extends([], rest) == rest
  {
    if rest.Some? {
      assert [] + rest.value == rest.value;
    }
  }

  lemma ExtendsOneMore(stored: seq<Byte>, ch: Byte, rest: Option<seq<Byte>>)
    ensures Extends(stored, Prepend(ch, rest)) == Extends(stored + [ch], rest)
  {
    if rest.Some? {
      Assoc(stored, [ch], rest.value);
    }
  }

  /** Inside a label the decoder copies the octets that are left of it. */
  lemma {:induction false} DecodeInLabel(buf: seq<Byte>, pos: nat, state: nat, loop: nat, length: nat)
    ensures Decode(buf, pos, state, loop, length)
         == if pos + state > |buf| then None
            else Extends(buf[pos..pos + state], Decode(buf, pos + state, 0, loop + state, length + state))
    decreases state
  {
    var after := Decode(buf, pos + state, 0, loop + state, length + state);
    if after.Some? {
      DecodeNeedsRoom(buf, pos + state, 0, loop + state, length + state);
    }
    if state == 0 {
      ExtendsNothing(after);
      assert pos <= |buf| ==> buf[pos..pos] == [];
    } else if pos < |buf| && loop + 1 < MAX_STEPS && length <= NAME_SIZE - 1 {
      DecodeInLabel(buf, pos + 1, state - 1, loop + 1, length + 1);
      if pos + state <= |buf| {
        assert buf[pos..pos + state] == [buf[pos]] + buf[pos + 1..pos + state];
        if after.Some? {
          Assoc([buf[pos]], buf[pos + 1..pos + state], after.value);
        }
      }
    }
  }

  lemma {:induction false} DecodeNeedsRoom(buf: seq<Byte>, pos: nat, state: nat, loop: nat, length: nat)
    requires Decode(buf, pos, state, loop, length).Some?
    ensures pos < |buf| && loop + 1 < MAX_STEPS
    ensures length + |Decode(buf, pos, state, loop, length).value| <= NAME_SIZE
    decreases MAX_STEPS - loop
  {
    var ch := buf[pos];
    if state > 0 {
      DecodeNeedsRoom(buf, pos + 1, state - 1, loop + 1, length + 1);
    } else if ch >= 192 {
      DecodeNeedsRoom(buf, Target(ch, buf[pos + 1]), 0, loop + 1, length);
    } else if ch > 0 {
      DecodeNeedsRoom(buf, pos + 1, ch, loop + 1, length + 1);
    }
  }

  lemma DenotesLabel(buf: seq<Byte>, pos: nat, rest: seq<Label>, hops: nat)
    requires pos < |buf| && 0 < buf[pos] < 64 && pos + 1 + buf[pos] <= |buf|
    requires Denotes(buf, pos + 1 + buf[pos], rest, hops)
    ensures var l := buf[pos + 1..pos + 1 + buf[pos]];
            Denotes(buf, pos, [l] + rest, hops) && Wire([l] + rest) == [buf[pos]] + (l + Wire(rest))
  {
    var l := buf[pos + 1..pos + 1 + buf[pos]];
    assert ([l] + rest)[1..] == rest;
    Assoc([buf[pos]], l, Wire(rest));
  }

  /** Whatever the decoder produces is the name that starts there, and its step
      and size limits hold of it. */
  lemma {:induction false} DecodeSound(buf: seq<Byte>, pos: nat, loop: nat, length: nat)
    returns (labels: seq<Label>, hops: nat)
    requires Decode(buf, pos, 0, loop, length).Some?
    ensures Denotes(buf, pos, labels, hops)
    ensures Decode(buf, pos, 0, loop, length).value == Wire(labels)
    ensures loop + |Wire(labels)| + hops < MAX_STEPS && length + |Wire(labels)| <= NAME_SIZE
    decreases MAX_STEPS - loop
  {
    var ch := buf[pos];
    if ch >= 192 {
      labels, hops := DecodeSound(buf, Target(ch, buf[pos + 1]), loop + 1, length);
      hops := hops + 1;
    } else if ch == 0 {
      labels, hops := [], 0;
    } else {
      DecodeInLabel(buf, pos + 1, ch, loop + 1, length + 1);
      var rest;
      rest, hops := DecodeSound(buf, pos + 1 + ch, loop + 1 + ch, length + 1 + ch);
      labels := [buf[pos + 1..pos + 1 + ch]] + rest;
      DenotesLabel(buf, pos, rest, hops);
    }
  }

  /** A name within the limits is decoded. */
  lemma {:induction false} DecodeComplete(buf: seq<Byte>, pos: nat, loop: nat, length: nat,
                                          labels: seq<Label>, hops: nat)
    requires Denotes(buf, pos, labels, hops)
    requires loop + |Wire(labels)| + hops < MAX_STEPS && length + |Wire(labels)| <= NAME_SIZE
    ensures Decode(buf, pos, 0, loop, length).Some?
    decreases |labels| + hops
  {
    var ch := buf[pos];
    if ch >= 192 {
      DecodeComplete(buf, Target(ch, buf[pos + 1]), loop + 1, length, labels, hops - 1);
    } else if ch > 0 {
      DecodeComplete(buf, pos + 1 + ch, loop + 1 + ch, length + 1 + ch, labels[1..], hops);
      DecodeInLabel(buf, pos + 1, ch, loop + 1, length + 1);
    }
  }

  /** A name the decoder has room and steps for: an octet of the wire form costs
      a step, and so does each pointer. */
  ghost predicate WithinLimits(buf: seq<Byte>, pos: nat, labels: seq<Label>, hops: nat) {
    && Denotes(buf, pos, labels, hops)
    && |Wire(labels)| + hops < MAX_STEPS
    && |Wire(labels)| <= NAME_SIZE
  }

  /** The decoder succeeds on exactly the positions where a name within its
      limits starts, and yields that name in wire form. */
  lemma DecodesExactlyTheName(buf: seq<Byte>, pos: nat)
    ensures Decode(buf, pos, 0, 0, 0).Some? <==> exists labels, hops :: WithinLimits(buf, pos, labels, hops)
    ensures forall labels, hops :: WithinLimits(buf, pos, labels, hops)
                                   ==> Decode(buf, pos, 0, 0, 0) == Some(Wire(labels))
  {
    if Decode(buf, pos, 0, 0, 0).Some? {
      var l, h := DecodeSound(buf, pos, 0, 0);
      assert WithinLimits(buf, pos, l, h);
    }
    forall labels, hops | WithinLimits(buf, pos, labels, hops)
      ensures Decode(buf, pos, 0, 0, 0) == Some(Wire(labels))
    {
      DecodeComplete(buf, pos, 0, 0, labels, hops);
      var l, h := DecodeSound(buf, pos, 0, 0);
      DenotesUnique(buf, pos, labels, hops, l, h);
    }
  }

  // ---------- where a name ends ----------

  /** The position just past the name at `pos`, stepping label by label; 0 when
      there is none. A pointer ends the name. */
  function NameEnd(buf: seq<Byte>, pos: nat): nat
    decreases |buf| - pos
  {
    if pos >= |buf| then 0
    else
      var c := buf[pos];
      if c >= 192 then pos + 2
      else if c >= 64 then 0
      else if c == 0 then pos + 1
      else NameEnd(buf, pos + 1 + c)
  }

  /** dns_packet_skipname. */
  method SkipName(buf: seq<Byte>, start: nat) returns (end: nat)
    ensures end == NameEnd(buf, start)
  {
    var pos := start;
    while pos < |buf|
      invariant NameEnd(buf, pos) == NameEnd(buf, start)
    {
      var ch := buf[pos];
      pos := pos + 1;
      if ch >= 192 {
        return pos + 1;
      }
      if ch >= 64 {
        break;
      }
      if ch == 0 {
        return pos;
      }
      pos := pos + ch;
    }
    return 0;
  }

  // ---------- dns_packet_getname ----------

  /** The inner loop of dns_packet_getname: follows pointers, each time reading
      the octet they lead to, until a label starts. */
  method FollowPointers(buf: seq<Byte>, pos0: nat, ch0: Byte, loop0: nat, first0: nat, ghost length: nat)
    returns (ok: bool, pos: nat, ch: Byte, loop: nat, firstcompress: nat)
    requires 1 <= loop0 < MAX_STEPS && 1 <= pos0 <= |buf| && buf[pos0 - 1] == ch0
    ensures !ok ==> Decode(buf, pos0 - 1, 0, loop0 - 1, length) == None
    ensures ok ==>
              && loop0 <= loop < MAX_STEPS && 1 <= pos <= |buf| && buf[pos - 1] == ch < 192
              && Decode(buf, pos0 - 1, 0, loop0 - 1, length) == Decode(buf, pos - 1, 0, loop - 1, length)
              && firstcompress == (if first0 == 0 && ch0 >= 192 then pos0 + 1 else first0)
              && (ch0 < 192 ==> pos == pos0)
  {
    pos, ch, loop, firstcompress := pos0, ch0, loop0, first0;
    while ch >= 192
      invariant loop0 <= loop < MAX_STEPS && 1 <= pos <= |buf| && buf[pos - 1] == ch
      invariant Decode(buf, pos0 - 1, 0, loop0 - 1, length) == Decode(buf, pos - 1, 0, loop - 1, length)
      invariant ch0 < 192 ==> loop == loop0
      invariant loop == loop0 ==> pos == pos0 && ch == ch0
      invariant firstcompress == if first0 == 0 && loop > loop0 then pos0 + 1 else first0
      decreases MAX_STEPS - loop
    {
      var high := ch;
      if pos >= |buf| {
        return false, pos, ch, loop, firstcompress;
      }
      ch := buf[pos];
      pos := pos + 1;
      if firstcompress == 0 {
        firstcompress := pos;
      }
      pos := Target(high, ch);
      if pos >= |buf| {
        return false, pos, ch, loop, firstcompress;
      }
      ch := buf[pos];
      pos := pos + 1;
      loop := loop + 1;
      if loop >= MAX_STEPS {
        return false, pos, ch, loop, firstcompress;
      }
    }
    ok := true;
  }

  /** One octet more in the buffer, in front of what is still to come. */
  method StoreOctet(name: array<Byte>, namelen: nat, ch: Byte, ghost rest: Option<seq<Byte>>) returns (newlen: nat)
    requires namelen < name.Length
    modifies name
    ensures newlen == namelen + 1 && name[..newlen] == old(name[..namelen]) + [ch]
    ensures Extends(name[..newlen], rest) == Extends(old(name[..namelen]), Prepend(ch, rest))
  {
    ghost var before := name[..namelen];
    ExtendsOneMore(before, ch, rest);
    name[namelen] := ch;
    newlen := namelen + 1;
    assert name[..newlen] == before + [ch];
  }

  /** The branch of the decoder loop that starts a label, or ends the name: pos0 and loop0
      already count the octet ch0. */
  method StartLabel(buf: seq<Byte>, pos0: nat, ch0: Byte, loop0: nat, first0: nat, name: array<Byte>, namelen: nat)
    returns (ok: bool, pos: nat, state: Byte, loop: nat, firstcompress: nat, newlen: nat)
    requires 1 <= loop0 < MAX_STEPS && 1 <= pos0 <= |buf| && buf[pos0 - 1] == ch0
    requires name.Length == NAME_SIZE && namelen <= NAME_SIZE
    modifies name
    ensures !ok ==> Decode(buf, pos0 - 1, 0, loop0 - 1, namelen) == None
    ensures ok ==> loop0 <= loop < MAX_STEPS && newlen == namelen + 1 <= NAME_SIZE
    ensures ok ==>
              var rest := if state == 0 then Some([]) else Decode(buf, pos, state, loop, newlen);
              Extends(name[..newlen], rest) == Extends(old(name[..namelen]), Decode(buf, pos0 - 1, 0, loop0 - 1, namelen))
    ensures ok && state == 0 ==> Extends(name[..newlen], Some([])) == Some(name[..newlen])
    ensures ok && first0 != 0 ==> firstcompress == first0
    ensures ok && first0 == 0 && firstcompress != 0 ==> firstcompress == NameEnd(buf, pos0 - 1)
    ensures ok && firstcompress == 0 ==>
              (if state == 0 then pos else NameEnd(buf, pos + state)) == NameEnd(buf, pos0 - 1)
  {
    var ch;
    ok, pos, ch, loop, firstcompress := FollowPointers(buf, pos0, ch0, loop0, first0, namelen);
    state, newlen := ch, namelen;
    if !ok {
      return;
    }
    if ch >= 64 || namelen > NAME_SIZE - 1 {
      ok := false;
      return;
    }
    newlen := StoreOctet(name, namelen, ch, if ch == 0 then Some([]) else Decode(buf, pos, ch, loop, namelen + 1));
    ExtendsEmpty(name[..newlen]);
  }

  lemma ExtendsEmpty(stored: seq<Byte>)
    ensures Extends(stored, Some([])) == Some(stored)
  {
    assert stored + [] == stored;
  }

  /** What one turn of the decoder loop comes to. */
  datatype Progress = GaveUp | Ended | Goes

  /** What is stored and what is still to come make up the name, and the first pointer, if
      there was one, marks its end. */
  ghost predicate Underway(buf: seq<Byte>, start: nat, pos: nat, state: nat, loop: nat, stored: seq<Byte>, first: nat) {
    && loop < MAX_STEPS && |stored| <= NAME_SIZE
    && Extends(stored, Decode(buf, pos, state, loop, |stored|)) == Decode(buf, start, 0, 0, 0)
    && (if first != 0 then first else NameEnd(buf, pos + state)) == NameEnd(buf, start)
  }

  /** The loop body of dns_packet_getname. */
  method NextOctet(buf: seq<Byte>, ghost start: nat, pos0: nat, state0: nat, loop0: nat, first0: nat,
                   name: array<Byte>, namelen: nat)
    returns (v: Progress, pos: nat, state: nat, loop: nat, firstcompress: nat, newlen: nat)
    requires name.Length == NAME_SIZE && namelen <= NAME_SIZE
    requires Underway(buf, start, pos0, state0, loop0, name[..namelen], first0)
    modifies name
    ensures newlen <= NAME_SIZE
    ensures v == GaveUp ==> Decode(buf, start, 0, 0, 0) == None
    ensures v == Goes ==> Underway(buf, start, pos, state, loop, name[..newlen], firstcompress) && loop > loop0
    ensures v == Ended ==> Some(name[..newlen]) == Decode(buf, start, 0, 0, 0)
    ensures v == Ended ==> (if firstcompress != 0 then firstcompress else pos) == NameEnd(buf, start)
  {
    pos, state, loop, firstcompress, newlen := pos0, state0, loop0, first0, namelen;
    if pos >= |buf| {
      v := GaveUp;
      return;
    }
    var ch := buf[pos];
    pos := pos + 1;
    loop := loop + 1;
    if loop >= MAX_STEPS {
      v := GaveUp;
      return;
    }
    if state > 0 {
      if namelen > NAME_SIZE - 1 {
        v := GaveUp;
        return;
      }
      newlen := StoreOctet(name, namelen, ch, Decode(buf, pos, state - 1, loop, namelen + 1));
      state := state - 1;
      v := Goes;
    } else {
      var ok;
      ok, pos, state, loop, firstcompress, newlen := StartLabel(buf, pos, ch, loop, firstcompress, name, namelen);
      if !ok {
        newlen := namelen;
      }
      v := if !ok then GaveUp else if state == 0 then Ended else Goes;
    }
  }

  /** The decoder loop of dns_packet_getname. `name` is the 256-octet buffer; on
      success its first `namelen` octets are the name and `end` is the position
      after it. All reads are below |buf| and all writes inside `name`. */
  method DecodeName(buf: seq<Byte>, start: nat, name: array<Byte>) returns (end: nat, namelen: nat)
    requires name.Length == NAME_SIZE
    modifies name
    ensures end != 0 <==> Decode(buf, start, 0, 0, 0).Some?
    ensures end != 0 ==> namelen <= NAME_SIZE && Some(name[..namelen]) == Decode(buf, start, 0, 0, 0)
    ensures end != 0 ==> end == NameEnd(buf, start)
  {
    var loop: nat, state: nat, firstcompress: nat, pos: nat := 0, 0, 0, start;
    namelen := 0;
    ExtendsNothing(Decode(buf, start, 0, 0, 0));
    assert name[..0] == [];
    DecodedHasEnd(buf, start, 0, 0);
    while true
      invariant namelen <= NAME_SIZE && Underway(buf, start, pos, state, loop, name[..namelen], firstcompress)
      decreases MAX_STEPS - loop
    {
      var v;
      v, pos, state, loop, firstcompress, namelen := NextOctet(buf, start, pos, state, loop, firstcompress, name, namelen);
      if v == GaveUp {
        return 0, namelen;
      }
      if v == Ended {
        break;
      }
    }
    return if firstcompress != 0 then firstcompress else pos, namelen;
  }

  /** A decoded name has an end. */
  lemma {:induction false} DecodedHasEnd(buf: seq<Byte>, pos: nat, loop: nat, length: nat)
    ensures Decode(buf, pos, 0, loop, length).Some? ==> NameEnd(buf, pos) != 0
    decreases MAX_STEPS - loop
  {
    if Decode(buf, pos, 0, loop, length).Some? {
      var ch := buf[pos];
      if 0 < ch < 64 {
        DecodeInLabel(buf, pos + 1, ch, loop + 1, length + 1);
        DecodedHasEnd(buf, pos + 1 + ch, loop + 1 + ch, length + 1 + ch);
      }
    }
  }
}
