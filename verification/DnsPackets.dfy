/** Queries and replies: dns_packet_copy, dns_packet_getname with its copy-out,
    dns_transmit_start, dns_irrelevant, dns_extract_addr and dns_extract_name of
    lib/servauth/dns.c. */
module DnsPackets {
  import opened Prelude
  import opened Octets
  import opened DnsDecoder
  import opened DnsNames
  import opened DnsDotted

  const C_IN: seq<Byte> := [0, 1]

  // ---------- copying out of a packet ----------

  /** dns_packet_copy: the position after the octets copied, or 0 when the packet
      ends before. */
  method PacketCopy(buf: seq<Byte>, start: nat, outlen: nat) returns (pos: nat, out: seq<Byte>)
    ensures start + outlen <= |buf| ==> pos == start + outlen && out == buf[start..pos]
    ensures start + outlen > |buf| && outlen > 0 ==> pos == 0
  {
    pos, out := start, [];
    var left := outlen;
    while left > 0
      invariant 0 <= left <= outlen && pos == start + (outlen - left)
      invariant pos <= |buf| || left == outlen
      invariant start <= |buf| ==> out == buf[start..pos]
      invariant left == outlen ==> out == []
    {
      left := left - 1;
      if pos >= |buf| {
        return 0, out;
      }
      out := out + [buf[pos]];
      pos := pos + 1;
    }
  }

  /** The number of octets before the first zero. */
  function ZeroIndex(s: seq<int>): (k: nat)
    ensures k <= |s| && (k < |s| ==> s[k] == 0) && forall i :: 0 <= i < k ==> s[i] != 0
  {
    if s == [] || s[0] == 0 then 0 else 1 + ZeroIndex(s[1..])
  }

  /** The octets up to the first zero, `room` of them at most, and a zero. */
  function CopyOf(s: seq<int>, room: nat): seq<int> {
    s[..Min(ZeroIndex(s), room)] + [0]
  }

  /** strlcpy into `size` octets; `written` of them are overwritten. */
  method CopyString(dst: array<Byte>, src: seq<Byte>, size: nat) returns (written: nat)
    requires 0 in src && size <= dst.Length
    modifies dst
    ensures written <= size
    ensures size == 0 ==> dst[..] == old(dst[..])
    ensures size > 0 ==> written > 0 && dst[..written] == CopyOf(src, size - 1)
    ensures forall j :: written <= j < dst.Length ==> dst[j] == old(dst[j])
  {
    if size == 0 {
      return 0;
    }
    var i: nat, n := 0, size - 1;
    if n > 0 {
      while true
        invariant 0 <= i < n && i <= ZeroIndex(src) < |src| && dst[..i] == src[..i]
        invariant forall j :: i <= j < dst.Length ==> dst[j] == old(dst[j])
        decreases n - i
      {
        dst[i] := src[i];
        if dst[i] == 0 {
          break;
        }
        i := i + 1;
        assert dst[..i] == src[..i - 1] + [src[i - 1]] == src[..i];
        if i == n {
          break;
        }
      }
    }
    dst[i] := 0;
    assert dst[..i + 1] == src[..i] + [0];
    return i + 1;
  }

  /** No octet inside a label is zero. */
  ghost predicate ZeroFree(labels: seq<Label>) {
    forall l :: l in labels ==> 0 !in l
  }

  /** The only zero of s is its last element. */
  ghost predicate EndsAtFirstZero(s: seq<int>) {
    s != [] && s[|s| - 1] == 0 && forall i :: 0 <= i < |s| - 1 ==> s[i] != 0
  }

  lemma {:induction false} ZeroFreeWire(labels: seq<Label>)
    requires WellFormed(labels) && ZeroFree(labels)
    ensures EndsAtFirstZero(Wire(labels))
  {
    if labels == [] {
    } else {
      assert forall l :: l in labels[1..] ==> l in labels;
      assert ZeroFree(labels[1..]);
      ZeroFreeWire(labels[1..]);
      assert labels[0] in labels;
      PieceBeforeZero(Wire(labels), labels[0], Wire(labels[1..]));
    }
  }

  lemma PieceBeforeZero(w: seq<int>, l: Label, rest: seq<int>)
    requires w == Piece(l) + rest && l != [] && 0 !in l && EndsAtFirstZero(rest)
    ensures EndsAtFirstZero(w)
  {
    PieceOctets(w, l, rest);
    forall i | 0 <= i < |w| - 1
      ensures w[i] != 0
    {
      if 0 < i <= |l| {
        assert w[i] == l[i - 1];
      } else if i > |l| {
        assert w[i] == rest[i - 1 - |l|];
      }
    }
    assert w[|w| - 1] == rest[|rest| - 1];
  }

  /** dns_packet_getname. The copy-out leaves the buffer as it was behind the first
      `written` octets. */
  method GetName(buf: seq<Byte>, pos: nat, domain: array<Byte>, n: nat) returns (end: nat, written: nat)
    requires 0 < domain.Length && n <= domain.Length
    modifies domain
    ensures end != 0 <==> Decode(buf, pos, 0, 0, 0).Some?
    ensures end != 0 ==> end == NameEnd(buf, pos)
    ensures written <= domain.Length && forall j :: written <= j < domain.Length ==> domain[j] == old(domain[j])
    ensures end == 0 ==> written == 0
    ensures end != 0 && n >= 2 ==> domain[..written] == CopyOf(Decode(buf, pos, 0, 0, 0).value, n - 2)
    ensures end != 0 && n == 0 ==> written == 1 && domain[0] == 0
  {
    var name := new Byte[NAME_SIZE];
    var namelen;
    end, namelen := DecodeName(buf, pos, name);
    if end == 0 {
      return 0, 0;
    }
    DecodedEndsInZero(buf, pos);
    if n != 0 {
      written := CopyString(domain, name[..namelen], n - 1);
    } else {
      domain[0] := 0;
      written := 1;
    }
  }

  lemma DecodedEndsInZero(buf: seq<Byte>, pos: nat)
    requires Decode(buf, pos, 0, 0, 0).Some?
    ensures 0 in Decode(buf, pos, 0, 0, 0).value
  {
    var labels, hops := DecodeSound(buf, pos, 0, 0);
    WireIsBody(labels);
    var w := Wire(labels);
    assert w[|w| - 1] == 0;
  }

  // ---------- reading the copy ----------

  /** The labels dns_dn_len finds in the copy of a name cut after `room` octets; None
      when it reads on behind the copy. */
  function ReadBack(labels: seq<Label>, room: nat): Option<seq<Label>>
    decreases |labels|
  {
    if labels == [] || room == 0 then Some([])
    else if 0 in labels[0] || |labels[0]| + 1 > room then None
    else
      match ReadBack(labels[1..], room - 1 - |labels[0]|)
      case None => None
      case Some(rest) => Some([labels[0]] + rest)
  }

  /** A label with a zero in it, or with no room, ends the copy. */
  lemma CopyEndsInLabel(l: Label, rest: seq<int>, room: nat)
    requires l != [] && room > 0 && (0 in l || |l| + 1 > room)
    ensures var c := CopyOf(Piece(l) + rest, room); |c| <= |l| + 1 && c[0] == |l|
  {
    var w := Piece(l) + rest;
    PieceOctets(w, l, rest);
    if 0 in l {
      var i :| 0 <= i < |l| && l[i] == 0;
      assert w[i + 1] == 0;
    }
  }

  lemma {:induction false} ZeroIndexBehind(a: seq<int>, rest: seq<int>)
    requires 0 !in a
    ensures ZeroIndex(a + rest) == |a| + ZeroIndex(rest)
  {
    if a == [] {
      assert a + rest == rest;
    } else {
      assert (a + rest)[1..] == a[1..] + rest;
      ZeroIndexBehind(a[1..], rest);
    }
  }

  lemma CopyBehind(a: seq<int>, rest: seq<int>, room: nat)
    requires 0 !in a && |a| <= room
    ensures CopyOf(a + rest, room) == a + CopyOf(rest, room - |a|)
  {
    ZeroIndexBehind(a, rest);
    TakeBehind(a, rest, ZeroIndex(rest), room);
  }

  lemma TakeBehind(a: seq<int>, rest: seq<int>, z: nat, room: nat)
    requires z <= |rest| && |a| <= room
    ensures (a + rest)[..Min(|a| + z, room)] + [0] == a + (rest[..Min(z, room - |a|)] + [0])
  {
    var k := Min(z, room - |a|);
    assert (a + rest)[..|a| + k] == a + rest[..k];
    Assoc(a, rest[..k], [0]);
  }

  ghost predicate ReadsAs(known: seq<Byte>, shown: Option<seq<Label>>) {
    match shown
    case None => KnownLength(known) == None
    case Some(labels) => KnownLength(known) == Some(|Wire(labels)|) && Holds(known, labels)
  }

  /** A label in front of what is read. */
  lemma LabelInFront(known: seq<Byte>, l: Label, rest: seq<Byte>, shown: Option<seq<Label>>)
    requires WellFormedLabel(l) && known == Piece(l) + rest && ReadsAs(rest, shown)
    ensures ReadsAs(known, if shown.Some? then Some([l] + shown.value) else None)
  {
    assert known[1 + |l|..] == rest && known[..1 + |l|] == Piece(l) && known[0] == |l|;
    if shown.Some? {
      HoldsLabel(known, l, shown.value);
    }
  }

  lemma CopyIsOctets(labels: seq<Label>, room: nat)
    requires WellFormed(labels)
    ensures forall i :: 0 <= i < |CopyOf(Wire(labels), room)| ==> 0 <= CopyOf(Wire(labels), room)[i] < 256
  {
    WireIsOctets(labels);
  }

  predicate FirstFits(labels: seq<Label>, room: nat)
    requires labels != []
  {
    0 !in labels[0] && |labels[0]| + 1 <= room
  }

  lemma CutIsUnread(known: seq<Byte>, labels: seq<Label>, room: nat)
    requires labels != [] && WellFormedLabel(labels[0]) && room > 0 && !FirstFits(labels, room)
    requires known == CopyOf(Wire(labels), room)
    ensures ReadsAs(known, ReadBack(labels, room))
  {
    CopyEndsInLabel(labels[0], Wire(labels[1..]), room);
  }

  lemma CopyBehindLabel(known: seq<Byte>, labels: seq<Label>, room: nat) returns (tail: seq<Byte>)
    requires WellFormed(labels) && labels != [] && FirstFits(labels, room)
    requires known == CopyOf(Wire(labels), room)
    ensures known == Piece(labels[0]) + tail && tail == CopyOf(Wire(labels[1..]), room - 1 - |labels[0]|)
  {
    var l, rest := labels[0], labels[1..];
    CopyBehind(Piece(l), Wire(rest), room);
    CopyIsOctets(rest, room - 1 - |l|);
    tail := CopyOf(Wire(rest), room - 1 - |l|);
  }

  lemma RootIsRead(known: seq<Byte>)
    requires known == [0]
    ensures ReadsAs(known, Some([]))
  {
    assert Wire([]) == known;
  }

  /** What is read back, found by dns_dn_len octet by octet. */
  lemma {:induction false} CopyIsReadBack(known: seq<Byte>, labels: seq<Label>, room: nat)
    requires WellFormed(labels) && known == CopyOf(Wire(labels), room)
    ensures ReadsAs(known, ReadBack(labels, room))
    decreases |labels|, 1
  {
    if labels == [] || room == 0 {
      RootIsRead(known);
    } else if FirstFits(labels, room) {
      LabelIsRead(known, labels, room);
    } else {
      CutIsUnread(known, labels, room);
    }
  }

  lemma {:induction false} LabelIsRead(known: seq<Byte>, labels: seq<Label>, room: nat)
    requires WellFormed(labels) && known == CopyOf(Wire(labels), room) && labels != [] && FirstFits(labels, room)
    ensures ReadsAs(known, ReadBack(labels, room))
    decreases |labels|, 0
  {
    var l, rest := labels[0], labels[1..];
    var tail := CopyBehindLabel(known, labels, room);
    CopyIsReadBack(tail, rest, room - 1 - |l|);
    LabelInFront(known, l, tail, ReadBack(rest, room - 1 - |l|));
  }

  lemma HoldsLabel(d: seq<Byte>, l: Label, shown: seq<Label>)
    requires WellFormedLabel(l) && 1 + |l| <= |d| && d[..1 + |l|] == Piece(l) && Holds(d[1 + |l|..], shown)
    ensures Holds(d, [l] + shown) && |Wire([l] + shown)| == 1 + |l| + |Wire(shown)|
  {
    var all := [l] + shown;
    assert all[1..] == shown && Wire(all) == Piece(l) + Wire(shown);
    assert d == d[..1 + |l|] + d[1 + |l|..];
    PrefixBehind(d, Piece(l), Wire(shown));
  }

  lemma PrefixBehind(d: seq<int>, a: seq<int>, b: seq<int>)
    requires |a| <= |d| && d[..|a|] == a && b <= d[|a|..]
    ensures a + b <= d
  {
    assert d == a + d[|a|..];
  }

  /** What is read back is the name, or a name cut between two labels, exactly where the
      room ends. */
  ghost predicate CutAt(labels: seq<Label>, shown: seq<Label>, room: nat) {
    && |shown| < |labels| && shown == labels[..|shown|] && ZeroFree(shown)
    && |Wire(shown)| == room + 1 && |Wire(labels)| >= |Wire(shown)| + 2
  }

  lemma CutBehind(l: Label, rest: seq<Label>, shown: seq<Label>, room: nat)
    requires CutAt(rest, shown, room) && 0 !in l
    ensures CutAt([l] + rest, [l] + shown, room + 1 + |l|)
  {
    assert ([l] + shown)[1..] == shown && ([l] + rest)[1..] == rest;
    assert [l] + shown == ([l] + rest)[..|shown| + 1];
  }

  lemma ZeroFreeCons(l: Label, rest: seq<Label>)
    ensures ZeroFree([l] + rest) <==> 0 !in l && ZeroFree(rest)
    ensures |Wire([l] + rest)| == 1 + |l| + |Wire(rest)|
  {
    assert ([l] + rest)[1..] == rest;
    assert forall x :: x in [l] + rest <==> x == l || x in rest;
  }

  /** Only a name without zero octets that fits is read back whole. */
  lemma {:induction false} ReadBackIff(labels: seq<Label>, room: nat)
    requires WellFormed(labels)
    ensures ReadBack(labels, room) == Some(labels) <==> ZeroFree(labels) && |Wire(labels)| <= room + 1
    ensures ReadBack(labels, room).Some? && ReadBack(labels, room) != Some(labels) ==>
              CutAt(labels, ReadBack(labels, room).value, room)
    decreases |labels|
  {
    if labels == [] {
    } else {
      var l, rest := labels[0], labels[1..];
      assert labels == [l] + rest;
      ZeroFreeCons(l, rest);
      if room == 0 {
        assert labels[..0] == [];
      } else if 0 !in l && |l| + 1 <= room {
        ReadBackIff(rest, room - 1 - |l|);
        var shown := ReadBack(rest, room - 1 - |l|);
        if shown.Some? && shown.value != rest {
          CutBehind(l, rest, shown.value, room - 1 - |l|);
          assert ([l] + shown.value)[1..] == shown.value;
        }
      }
    }
  }

  /** The labels at pos, when a name that getname can return whole starts there. */
  ghost predicate NameAt(buf: seq<Byte>, pos: nat, labels: seq<Label>, room: nat) {
    && (exists hops :: WithinLimits(buf, pos, labels, hops))
    && ZeroFree(labels)
    && |Wire(labels)| <= room
  }

  /** A name is copied whole exactly when its only zero is its end and it fits. */
  lemma CopiedWholeIff(w: seq<int>, room: nat)
    requires 0 in w
    ensures CopyOf(w, room) == w <==> EndsAtFirstZero(w) && |w| <= room + 1
  {
    if CopyOf(w, room) == w {
      var k := Min(ZeroIndex(w), room);
      assert |w| == k + 1 && w[k] == 0;
    }
  }

  /** Where getname succeeds, and what dns_dn_len then finds in the buffer. */
  lemma NameIsReadBack(buf: seq<Byte>, pos: nat, known: seq<Byte>, n: nat) returns (labels: seq<Label>, hops: nat)
    requires Decode(buf, pos, 0, 0, 0).Some? && n >= 2 && known == CopyOf(Decode(buf, pos, 0, 0, 0).value, n - 2)
    ensures WithinLimits(buf, pos, labels, hops) && WellFormed(labels)
    ensures ReadsAs(known, ReadBack(labels, n - 2))
    ensures forall other, h :: WithinLimits(buf, pos, other, h) ==> other == labels
  {
    labels, hops := DecodeSound(buf, pos, 0, 0);
    DenotesWellFormed(buf, pos, labels, hops);
    CopyIsReadBack(known, labels, n - 2);
    forall other, h | WithinLimits(buf, pos, other, h)
      ensures other == labels
    {
      DenotesUnique(buf, pos, other, h, labels, hops);
    }
  }

  // ---------- the query ----------

  const QUERY_HEADER: seq<Byte> := [1, 0, 0, 1, 0, 0, 0, 0, 0, 0]

  /** A packet that asks one question: ID, recursion desired, the name in full,
      type and class IN (sections 4.1.1 and 4.1.2 of RFC 1035). */
  ghost predicate IsQuery(packet: seq<Byte>, id: seq<Byte>, labels: seq<Label>, qtype: seq<Byte>) {
    && |id| == 2 && |qtype| == 2 && WellFormed(labels)
    && |packet| == |Wire(labels)| + 16
    && packet[..2] == id && packet[2..12] == QUERY_HEADER
    && packet[12..12 + |Wire(labels)|] == Wire(labels)
    && packet[|packet| - 4..|packet| - 2] == qtype && packet[|packet| - 2..] == C_IN
  }

  /** Writes the pieces one after the other; each can be read back. */
  method WritePieces(q: array<Byte>, a: seq<Byte>, b: seq<Byte>, c: seq<Byte>, d: seq<Byte>)
    requires q.Length == 2 + |a| + |b| + |c| + |d|
    modifies q
    ensures q[..2] == old(q[..2])
    ensures q[2..2 + |a|] == a && q[2 + |a|..2 + |a| + |b|] == b
    ensures q[2 + |a| + |b|..2 + |a| + |b| + |c|] == c && q[2 + |a| + |b| + |c|..] == d
  {
    ghost var p := q[..2];
    CopyIn(q, 2, a);
    CopyIn(q, 2 + |a|, b);
    CopyIn(q, 2 + |a| + |b|, c);
    CopyIn(q, 2 + |a| + |b| + |c|, d);
    PiecesOf(q[..], p, a, b, c, d);
  }

  lemma PiecesOf(q: seq<Byte>, p: seq<Byte>, a: seq<Byte>, b: seq<Byte>, c: seq<Byte>, d: seq<Byte>)
    requires q == p + a + b + c + d && |p| == 2
    ensures q[..2] == p && q[2..2 + |a|] == a && q[2 + |a|..2 + |a| + |b|] == b
    ensures q[2 + |a| + |b|..2 + |a| + |b| + |c|] == c && q[2 + |a| + |b| + |c|..] == d
  {
  }

  class Resolver {
    var query: array<Byte>
    var rtype: seq<Byte>
    var addrindex: nat

    /** The resolver's query, without the length prefix used on TCP, asks for `labels`. */
    ghost predicate Asks(id: seq<Byte>, labels: seq<Label>)
      reads this, query
    {
      query.Length >= 2 && |Wire(labels)| <= NAME_MAX && IsQuery(query[2..], id, labels, rtype)
    }

    constructor ()
      ensures fresh(query)
    {
      query := new Byte[0];
      rtype := [];
      addrindex := 0;
    }

    /** The packet layout of dns_transmit_start; the ID is drawn later. */
    method TransmitStart(domain: seq<Byte>, len: nat, qtype: seq<Byte>, ghost labels: seq<Label>)
      requires WellFormed(labels) && len == |Wire(labels)| <= NAME_MAX && len <= |domain|
      requires domain[..len] == Wire(labels) && |qtype| == 2
      modifies this
      ensures fresh(query) && Asks([0, 0], labels)
      ensures rtype == qtype && query[0] == (len + 16) / 256 && query[1] == (len + 16) % 256
    {
      query := new Byte[len + 18];
      query[0], query[1] := (len + 16) / 256, (len + 16) % 256;
      ghost var prefix := query[..2];
      WritePieces(query, [0, 0], QUERY_HEADER, domain[..len], qtype + C_IN);
      rtype := qtype;
      assert query[0] == query[..2][0] && query[1] == query[..2][1];
      QueryFromPieces(query[2..], domain[..len], qtype, query[..], labels);
    }

    /** dns_irrelevant, for every packet. What it answers when the question's name cannot
        be read back depends on memory it never wrote. */
    method Irrelevant(buf: seq<Byte>, ghost id: seq<Byte>, ghost labels: seq<Label>) returns (v: Verdict)
      requires Asks(id, labels)
      modifies this`addrindex
      ensures addrindex == 0
      ensures v == Answer <==> Answers(buf, id, labels, rtype)
      ensures v == Unspecified <==> OneQuestion(buf, id) && QuestionUnreadable(buf)
    {
      addrindex := 0;
      var pos, header := PacketCopy(buf, 0, 12);
      if pos == 0 {
        return NoAnswer;
      }
      assert query[2..4] == query[2..][..2] == id;
      if header[..2] != query[2..4] || header[4] != 0 || header[5] != 1 {
        assert header == buf[..12] && header[..2] == buf[..2];
        return NoAnswer;
      }
      assert header[..2] == buf[..2];
      QueryHolds(query[2..], id, labels, rtype);
      assert query[14..] == query[2..][12..];
      AnswersAreReadable(buf, id, labels, rtype);
      pos, v := SameQuestion(buf, query[14..], labels);
      if v != Answer {
        return v;
      }
      pos, header := PacketCopy(buf, pos, 4);
      if pos == 0 {
        return NoAnswer;
      }
      var end := NameEnd(buf, 12);
      assert header[..2] == buf[end..end + 2] && header[2..] == buf[end + 2..end + 4];
      return if header[..2] != rtype || header[2..4] != C_IN then NoAnswer else Answer;
    }
  }

  lemma QueryHolds(packet: seq<Byte>, id: seq<Byte>, labels: seq<Label>, qtype: seq<Byte>)
    requires IsQuery(packet, id, labels, qtype)
    ensures Holds(packet[12..], labels)
  {
    assert packet[12..][..|Wire(labels)|] == packet[12..12 + |Wire(labels)|];
  }

  // ---------- which packets answer a query ----------

  /** What dns_irrelevant makes of a packet. */
  datatype Verdict = Answer | NoAnswer | Unspecified

  /** The packet repeats the ID and holds one question. */
  ghost predicate OneQuestion(buf: seq<Byte>, id: seq<Byte>) {
    |buf| >= 12 && buf[..2] == id && buf[4] == 0 && buf[5] == 1
  }

  /** ... the query's, the name up to letter case. */
  ghost predicate Answers(buf: seq<Byte>, id: seq<Byte>, labels: seq<Label>, qtype: seq<Byte>) {
    && OneQuestion(buf, id)
    && (exists name :: NameAt(buf, 12, name, NAME_MAX) && SameName(name, labels))
    && NameEnd(buf, 12) + 4 <= |buf|
    && buf[NameEnd(buf, 12)..NameEnd(buf, 12) + 2] == qtype
    && buf[NameEnd(buf, 12) + 2..NameEnd(buf, 12) + 4] == C_IN
  }

  /** The question's name is within the decoder's limits, but has a zero octet in a label
      or is 256 octets long. The source then compares what strlcpy left of it. */
  ghost predicate QuestionUnreadable(buf: seq<Byte>) {
    exists labels, hops :: WithinLimits(buf, 12, labels, hops) && !(ZeroFree(labels) && |Wire(labels)| <= NAME_MAX)
  }

  lemma AnswersAreReadable(buf: seq<Byte>, id: seq<Byte>, labels: seq<Label>, qtype: seq<Byte>)
    ensures Answers(buf, id, labels, qtype) ==> !QuestionUnreadable(buf)
  {
    if Answers(buf, id, labels, qtype) {
      var name :| NameAt(buf, 12, name, NAME_MAX);
      var hops :| WithinLimits(buf, 12, name, hops);
      forall other, h | WithinLimits(buf, 12, other, h)
        ensures other == name
      {
        DenotesUnique(buf, 12, other, h, name, hops);
      }
    }
  }

  /** Reads the question's name and compares it with the query's. */
  method SameQuestion(buf: seq<Byte>, asked: seq<Byte>, ghost labels: seq<Label>) returns (pos: nat, v: Verdict)
    requires Holds(asked, labels)
    ensures v == Unspecified <==> QuestionUnreadable(buf)
    ensures v == Answer <==> exists name :: NameAt(buf, 12, name, NAME_MAX) && SameName(name, labels)
    ensures v == Answer ==> pos == NameEnd(buf, 12)
  {
    var domain := new Byte[NAME_SIZE];
    var written;
    pos, written := GetName(buf, 12, domain, NAME_SIZE);
    DecodesExactlyTheName(buf, 12);
    if pos == 0 {
      return 0, NoAnswer;
    }
    ghost var name, hops := NameIsReadBack(buf, 12, domain[..written], NAME_SIZE);
    ReadBackIff(name, NAME_SIZE - 2);
    if KnownLength(domain[..written]) == None {
      return pos, Unspecified;
    }
    assert NameAt(buf, 12, name, NAME_MAX);
    assert domain[..written] <= domain[..];
    var r := CompareNames(domain[..], asked, name, labels);
    v := if r != 0 then Answer else NoAnswer;
  }

  /** A question for the one-octet label 0 is decoded, but its copy is the octets 1 and 0,
      in which no name ends: whatever else the packet holds, the verdict is open. */
  lemma ZeroLabelIsUnreadable(buf: seq<Byte>)
    requires |buf| >= 15 && buf[12] == 1 && buf[13] == 0 && buf[14] == 0
    ensures QuestionUnreadable(buf)
    ensures Decode(buf, 12, 0, 0, 0).Some? && CopyOf(Decode(buf, 12, 0, 0, 0).value, NAME_SIZE - 2) == [1, 0]
    ensures KnownLength([1, 0]) == None
  {
    var name: seq<Label> := [[0]];
    ZeroLabelAt(buf, name);
    DecodesExactlyTheName(buf, 12);
    assert 0 in name[0] && name[0] in name;
    ZeroLabelCopy([1, 0, 0]);
  }

  lemma ZeroLabelCopy(w: seq<int>)
    requires w == [1, 0, 0]
    ensures CopyOf(w, NAME_SIZE - 2) == [1, 0] && KnownLength([1, 0]) == None
  {
    assert ZeroIndex(w) == 1;
    var known: seq<Byte> := [1, 0];
    assert known[2..] == [];
  }

  lemma ZeroLabelAt(buf: seq<Byte>, name: seq<Label>)
    requires |buf| >= 15 && buf[12] == 1 && buf[13] == 0 && buf[14] == 0 && name == [[0]]
    ensures WithinLimits(buf, 12, name, 0) && Wire(name) == [1, 0, 0]
  {
    assert name[1..] == [] && buf[13..14] == [0];
    assert Denotes(buf, 14, [], 0);
  }

  ghost predicate Contains(buf: seq<Byte>, pos: nat, piece: seq<int>) {
    pos + |piece| <= |buf| && forall i :: 0 <= i < |piece| ==> buf[pos + i] == piece[i]
  }

  lemma ContainsRest(buf: seq<Byte>, pos: nat, w: seq<int>, l: Label, rest: seq<int>)
    requires Contains(buf, pos, w) && w == Piece(l) + rest
    ensures buf[pos] == |l| && pos + 1 + |l| <= |buf| && buf[pos + 1..pos + 1 + |l|] == l
    ensures Contains(buf, pos + 1 + |l|, rest)
  {
    PieceOctets(w, l, rest);
    assert buf[pos + 0] == w[0];
    forall i | 0 <= i < |l|
      ensures buf[pos + 1 + i] == l[i]
    {
      assert buf[pos + (i + 1)] == w[i + 1];
    }
    forall i | 0 <= i < |rest|
      ensures buf[pos + 1 + |l| + i] == rest[i]
    {
      assert buf[pos + (i + 1 + |l|)] == w[i + 1 + |l|];
    }
  }

  /** A name written out in full is there, and ends where its octets end. */
  lemma {:induction false} WireDenotes(buf: seq<Byte>, pos: nat, labels: seq<Label>)
    requires WellFormed(labels) && Contains(buf, pos, Wire(labels))
    ensures Denotes(buf, pos, labels, 0) && NameEnd(buf, pos) == pos + |Wire(labels)|
    decreases |labels|
  {
    if labels == [] {
      assert buf[pos + 0] == Wire(labels)[0];
    } else {
      ContainsRest(buf, pos, Wire(labels), labels[0], Wire(labels[1..]));
      WireDenotes(buf, pos + 1 + |labels[0]|, labels[1..]);
    }
  }

  /** A packet laid out like the query answers it. */
  lemma OwnQueryAnswers(packet: seq<Byte>, id: seq<Byte>, labels: seq<Label>, qtype: seq<Byte>)
    requires IsQuery(packet, id, labels, qtype) && ZeroFree(labels) && |Wire(labels)| <= NAME_MAX
    ensures Answers(packet, id, labels, qtype)
  {
    forall i | 0 <= i < |Wire(labels)|
      ensures packet[12 + i] == Wire(labels)[i]
    {
      assert packet[12 + i] == packet[12..12 + |Wire(labels)|][i];
    }
    WireDenotes(packet, 12, labels);
    assert WithinLimits(packet, 12, labels, 0);
    assert NameAt(packet, 12, labels, NAME_MAX);
    assert SameName(labels, labels);
    assert packet[4] == packet[2..12][2] && packet[5] == packet[2..12][3];
  }

  lemma QueryFromPieces(packet: seq<Byte>, wire: seq<Byte>, qtype: seq<Byte>, q: seq<Byte>, labels: seq<Label>)
    requires |q| == |wire| + 18 && packet == q[2..] && |qtype| == 2
    requires q[2..4] == [0, 0] && q[4..14] == QUERY_HEADER
    requires q[14..14 + |wire|] == wire && q[14 + |wire|..] == qtype + C_IN
    requires WellFormed(labels) && wire == Wire(labels)
    ensures IsQuery(packet, [0, 0], labels, qtype)
  {
    assert packet[..2] == q[2..4] && packet[2..12] == q[4..14];
    assert packet[12..12 + |wire|] == q[14..14 + |wire|];
    assert packet[12 + |wire|..14 + |wire|] == q[14 + |wire|..][..2];
    assert packet[14 + |wire|..] == q[14 + |wire|..][2..];
  }
}
