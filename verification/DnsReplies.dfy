/** The resource-record walkers of lib/servauth/dns.c: dns_extract_addr and
    dns_extract_name, and the replies they walk. */
module DnsReplies {
  import opened Prelude
  import opened Octets
  import opened DnsDecoder
  import opened DnsNames
  import opened DnsDotted
  import opened DnsPackets

  // ---------- replies (sections 4.1.1 to 4.1.4 of RFC 1035) ----------

  /** How a name is written: labels, then the root or a pointer. */
  datatype Tail = Root | Pointer(high: Byte, low: Byte)
  datatype Written = Written(labels: seq<Label>, tail: Tail)

  datatype Record = Record(owner: Written, rtype: nat, rclass: nat, rdata: seq<Byte>)

  const TYPE_A := 1
  const TYPE_PTR := 12
  const CLASS_IN := 1

  /** The 16-bit number at p, high octet first. */
  function U16(buf: seq<Byte>, p: nat): nat
    requires p + 2 <= |buf|
  {
    var high, low: nat := buf[p], buf[p + 1];
    high * 256 + low
  }

  function TailOctets(t: Tail): seq<Byte> {
    match t
    case Root => [0]
    case Pointer(high, low) => [high, low]
  }

  function WrittenOctets(w: Written): (o: seq<int>)
    ensures |o| >= 1
    decreases |w.labels|
  {
    if w.labels == [] then TailOctets(w.tail)
    else Piece(w.labels[0]) + WrittenOctets(Written(w.labels[1..], w.tail))
  }

  predicate ValidWritten(w: Written) {
    WellFormed(w.labels) && (w.tail.Pointer? ==> w.tail.high >= 192)
  }

  function DataPos(pos: nat, r: Record): nat {
    pos + |WrittenOctets(r.owner)| + 10
  }

  /** The record is encoded at pos: the name, type, class, four octets of
      time-to-live, the data's length and the data. */
  ghost predicate RecordAt(buf: seq<Byte>, pos: nat, r: Record) {
    var p := pos + |WrittenOctets(r.owner)|;
    && ValidWritten(r.owner) && Contains(buf, pos, WrittenOctets(r.owner))
    && p + 10 <= |buf| && U16(buf, p) == r.rtype && U16(buf, p + 2) == r.rclass && U16(buf, p + 8) == |r.rdata|
    && Contains(buf, p + 10, r.rdata)
  }

  ghost predicate RecordsAt(buf: seq<Byte>, pos: nat, records: seq<Record>)
    decreases |records|
  {
    records == [] ||
    (RecordAt(buf, pos, records[0]) && RecordsAt(buf, DataPos(pos, records[0]) + |records[0].rdata|, records[1..]))
  }

  /** A reply with one question and these answer records; anything may follow. */
  ghost predicate IsReply(buf: seq<Byte>, question: Written, records: seq<Record>) {
    && |buf| >= 12 && U16(buf, 6) == |records|
    && ValidWritten(question) && Contains(buf, 12, WrittenOctets(question))
    && RecordsAt(buf, 12 + |WrittenOctets(question)| + 4, records)
  }

  /** A name as written, compressed or not, is skipped. */
  lemma {:induction false} WrittenIsSkipped(buf: seq<Byte>, pos: nat, w: Written)
    requires ValidWritten(w) && Contains(buf, pos, WrittenOctets(w))
    ensures NameEnd(buf, pos) == pos + |WrittenOctets(w)|
    decreases |w.labels|
  {
    var o := WrittenOctets(w);
    assert buf[pos + 0] == o[0];
    if w.labels != [] {
      var l, rest := w.labels[0], Written(w.labels[1..], w.tail);
      var next := pos + 1 + |l|;
      ContainsRest(buf, pos, o, l, WrittenOctets(rest));
      WrittenIsSkipped(buf, next, rest);
    }
  }

  // ---------- addresses ----------

  predicate IsAddress(r: Record) {
    r.rtype == TYPE_A && r.rclass == CLASS_IN && |r.rdata| == 4
  }

  function Addresses(records: seq<Record>): seq<seq<Byte>> {
    if records == [] then []
    else if IsAddress(records[0]) then [records[0].rdata] + Addresses(records[1..])
    else Addresses(records[1..])
  }

  function Pick<T>(s: seq<T>, k: nat): Option<T> {
    if k < |s| then Some(s[k]) else None
  }

  predicate IsAddressHeader(buf: seq<Byte>, p: nat)
    requires p + 10 <= |buf|
  {
    U16(buf, p) == TYPE_A && U16(buf, p + 2) == CLASS_IN && U16(buf, p + 8) == 4
  }

  /** The k-th address among the next `count` records of any packet; the walk stops
      at the first record that is cut off. */
  function ScanAddress(buf: seq<Byte>, pos: nat, count: nat, k: nat): Option<seq<Byte>>
    decreases count
  {
    var p := NameEnd(buf, pos);
    if count == 0 || p == 0 || p + 10 > |buf| then None
    else
      var next := p + 10 + U16(buf, p + 8);
      if !IsAddressHeader(buf, p) then ScanAddress(buf, next, count - 1, k)
      else if next > |buf| then None
      else if k == 0 then Some(buf[p + 10..next])
      else ScanAddress(buf, next, count - 1, k - 1)
  }

  /** The loop of dns_extract_addr. */
  method WalkRecords(reply: seq<Byte>, start: nat, count: nat, n: nat) returns (status: int, address: seq<Byte>)
    ensures var found := ScanAddress(reply, start, count, n);
      if found == None then status == 0 else status == 1 && address == found.value
  {
    var pos, numans, skipped := start, count, 0;
    while numans > 0
      invariant skipped <= n
      invariant ScanAddress(reply, pos, numans, n - skipped) == ScanAddress(reply, start, count, n)
    {
      numans := numans - 1;
      pos := SkipName(reply, pos);
      if pos == 0 {
        return 0, [];
      }
      var header;
      pos, header := PacketCopy(reply, pos, 10);
      if pos == 0 {
        return 0, [];
      }
      var len := U16(header, 8);
      if IsAddressHeader(header, 0) {
        var copied, octets := PacketCopy(reply, pos, 4);
        if copied == 0 {
          return 0, [];
        }
        if skipped == n {
          return 1, octets;
        }
        skipped := skipped + 1;
      }
      pos := pos + len;
    }
    return 0, [];
  }

  /** dns_extract_addr: 1 and the address, 0 when there is none, -1 when the header
      or the question is cut off. */
  method ExtractAddress(reply: seq<Byte>, n: nat) returns (status: int, address: seq<Byte>)
    ensures |reply| < 12 || NameEnd(reply, 12) == 0 ==> status == -1
    ensures |reply| >= 12 && NameEnd(reply, 12) != 0 ==>
              var found := ScanAddress(reply, NameEnd(reply, 12) + 4, U16(reply, 6), n);
              if found == None then status == 0 else status == 1 && address == found.value
  {
    var pos, header := PacketCopy(reply, 0, 12);
    if pos == 0 {
      return -1, [];
    }
    var numans := U16(header, 6);
    pos := SkipName(reply, pos);
    if pos == 0 {
      return -1, [];
    }
    pos := pos + 4;
    if n >= numans {
      FewerRecords(reply, pos, numans, n);
      return 0, [];
    }
    status, address := WalkRecords(reply, pos, numans, n);
  }

  lemma {:induction false} FewerRecords(buf: seq<Byte>, pos: nat, count: nat, k: nat)
    requires k >= count
    ensures ScanAddress(buf, pos, count, k) == None
    decreases count
  {
    var p := NameEnd(buf, pos);
    if count > 0 && p != 0 && p + 10 <= |buf| {
      var next := p + 10 + U16(buf, p + 8);
      if !IsAddressHeader(buf, p) {
        FewerRecords(buf, next, count - 1, k);
      } else if k > 0 {
        FewerRecords(buf, next, count - 1, k - 1);
      }
    }
  }

  /** The walker reads an encoded record's header and data. */
  lemma RecordIsRead(buf: seq<Byte>, pos: nat, r: Record, next: nat, count: nat, k: nat)
    requires RecordAt(buf, pos, r) && count > 0 && next == DataPos(pos, r) + |r.rdata|
    ensures ScanAddress(buf, pos, count, k)
         == if !IsAddress(r) then ScanAddress(buf, next, count - 1, k)
            else if k == 0 then Some(r.rdata)
            else ScanAddress(buf, next, count - 1, k - 1)
  {
    WrittenIsSkipped(buf, pos, r.owner);
    assert buf[next - |r.rdata|..next] == r.rdata;
  }

  lemma {:induction false} ScanFindsAddresses(buf: seq<Byte>, pos: nat, records: seq<Record>, k: nat)
    requires RecordsAt(buf, pos, records)
    ensures ScanAddress(buf, pos, |records|, k)
         == Pick(Addresses(records), k)
    decreases |records|
  {
    if records == [] {
    } else {
      var r, rest := records[0], records[1..];
      var next := DataPos(pos, r) + |r.rdata|;
      RecordIsRead(buf, pos, r, next, |records|, k);
      PickAddress(records, k);
      if !IsAddress(r) {
        ScanFindsAddresses(buf, next, rest, k);
      } else if k > 0 {
        ScanFindsAddresses(buf, next, rest, k - 1);
      }
    }
  }

  lemma PickAddress(records: seq<Record>, k: nat)
    requires records != []
    ensures Pick(Addresses(records), k)
         == if !IsAddress(records[0]) then Pick(Addresses(records[1..]), k)
            else if k == 0 then Some(records[0].rdata)
            else Pick(Addresses(records[1..]), k - 1)
  {
    PickCons(records[0].rdata, Addresses(records[1..]), k);
  }

  lemma PickCons<T>(x: T, rest: seq<T>, k: nat)
    ensures Pick([x] + rest, k) == if k == 0 then Some(x) else Pick(rest, k - 1)
  {
  }

  /** On a well-formed reply the k-th A record of class IN and length 4 is found,
      however its owner name is written. */
  lemma AddressOfReply(buf: seq<Byte>, question: Written, records: seq<Record>, k: nat)
    requires IsReply(buf, question, records)
    ensures |buf| >= 12 && NameEnd(buf, 12) != 0
    ensures ScanAddress(buf, NameEnd(buf, 12) + 4, U16(buf, 6), k)
         == Pick(Addresses(records), k)
  {
    WrittenIsSkipped(buf, 12, question);
    ScanFindsAddresses(buf, 12 + |WrittenOctets(question)| + 4, records, k);
  }

  // ---------- packets that are cut off ----------

  /** Where the records end. */
  function EndOf(pos: nat, records: seq<Record>): nat
    decreases |records|
  {
    if records == [] then pos else EndOf(DataPos(pos, records[0]) + |records[0].rdata|, records[1..])
  }

  /** No name ends there, or fewer than ten octets follow it. */
  predicate IsCutAt(buf: seq<Byte>, pos: nat) {
    NameEnd(buf, pos) == 0 || NameEnd(buf, pos) + 10 > |buf|
  }

  /** ... or an address is announced of which octets are missing. */
  predicate LacksAddress(buf: seq<Byte>, pos: nat) {
    var p := NameEnd(buf, pos);
    IsCutAt(buf, pos) || (IsAddressHeader(buf, p) && p + 14 > |buf|)
  }

  /** Addresses in front of the place where a packet is cut off are found, none behind it. */
  lemma {:induction false} AddressOfCutReply(buf: seq<Byte>, pos: nat, records: seq<Record>, count: nat, k: nat)
    requires RecordsAt(buf, pos, records) && |records| < count && LacksAddress(buf, EndOf(pos, records))
    ensures ScanAddress(buf, pos, count, k) == Pick(Addresses(records), k)
    decreases |records|
  {
    if records == [] {
    } else {
      var r, rest := records[0], records[1..];
      var next := DataPos(pos, r) + |r.rdata|;
      RecordIsRead(buf, pos, r, next, count, k);
      PickAddress(records, k);
      if !IsAddress(r) {
        AddressOfCutReply(buf, next, rest, count - 1, k);
      } else if k > 0 {
        AddressOfCutReply(buf, next, rest, count - 1, k - 1);
      }
    }
  }

  // ---------- reverse names ----------

  predicate IsPointer(r: Record) {
    r.rtype == TYPE_PTR && r.rclass == CLASS_IN
  }

  /** Where the walk for a PTR record ends: at data, past the last record, or at a
      record that is cut off. */
  datatype PointerScan = At(pos: nat) | NoPointer | CutOff

  function ScanPointer(buf: seq<Byte>, pos: nat, count: nat): PointerScan
    decreases count
  {
    var p := NameEnd(buf, pos);
    if count == 0 then NoPointer
    else if p == 0 || p + 10 > |buf| then CutOff
    else if U16(buf, p) == TYPE_PTR && U16(buf, p + 2) == CLASS_IN then At(p + 10)
    else ScanPointer(buf, p + 10 + U16(buf, p + 8), count - 1)
  }

  /** The walk ends at the data of the first PTR record of class IN. */
  ghost predicate FirstPointerAt(pos: nat, records: seq<Record>, data: nat)
    decreases |records|
  {
    && records != []
    && if IsPointer(records[0]) then data == DataPos(pos, records[0])
       else FirstPointerAt(DataPos(pos, records[0]) + |records[0].rdata|, records[1..], data)
  }

  lemma RecordIsPassed(buf: seq<Byte>, pos: nat, r: Record, count: nat)
    requires RecordAt(buf, pos, r) && count > 0
    ensures ScanPointer(buf, pos, count)
         == if IsPointer(r) then At(DataPos(pos, r)) else ScanPointer(buf, DataPos(pos, r) + |r.rdata|, count - 1)
  {
    WrittenIsSkipped(buf, pos, r.owner);
  }

  lemma {:induction false} ScanFindsPointer(buf: seq<Byte>, pos: nat, records: seq<Record>)
    requires RecordsAt(buf, pos, records)
    ensures var found := ScanPointer(buf, pos, |records|);
      if exists r :: r in records && IsPointer(r) then found.At? && FirstPointerAt(pos, records, found.pos)
      else found == NoPointer
    decreases |records|
  {
    if records == [] {
    } else {
      var r, rest := records[0], records[1..];
      RecordIsPassed(buf, pos, r, |records|);
      if !IsPointer(r) {
        ScanFindsPointer(buf, DataPos(pos, r) + |r.rdata|, rest);
        assert forall x :: x in records <==> x == r || x in rest;
      }
    }
  }

  /** A packet that is cut off shows the first PTR record in front of that place, or that it
      is cut off. */
  lemma {:induction false} PointerOfCutReply(buf: seq<Byte>, pos: nat, records: seq<Record>, count: nat)
    requires RecordsAt(buf, pos, records) && |records| < count && IsCutAt(buf, EndOf(pos, records))
    ensures var found := ScanPointer(buf, pos, count);
      if exists r :: r in records && IsPointer(r) then found.At? && FirstPointerAt(pos, records, found.pos)
      else found == CutOff
    decreases |records|
  {
    if records == [] {
    } else {
      var r, rest := records[0], records[1..];
      RecordIsPassed(buf, pos, r, count);
      if !IsPointer(r) {
        PointerOfCutReply(buf, DataPos(pos, r) + |r.rdata|, rest, count - 1);
        assert forall x :: x in records <==> x == r || x in rest;
      }
    }
  }

  /** What dns_packet_getname copies when it is offered 255: 253 octets and a zero. */
  const RDATA_ROOM := 253

  /** What dns_extract_name makes of a packet; what it makes of a name that cannot be read
      back depends on memory it never wrote. */
  datatype Extracted = Named | Missing | Failed | Unspecified

  /** The result for a PTR record whose data starts at `data`: the text of the name there,
      or of what is read back of its copy. */
  ghost predicate PointerText(reply: seq<Byte>, data: nat, out: seq<Byte>, len: nat, r: Extracted) {
    && ((exists labels, hops :: WithinLimits(reply, data, labels, hops)) || r == Failed)
    && forall labels, hops :: WithinLimits(reply, data, labels, hops) ==>
         match ReadBack(labels, RDATA_ROOM)
         case None => r == Extracted.Unspecified
         case Some(shown) => if Dotted(shown) == [] || len == 0 then r == Failed
                             else r == Named && TextIn(out, Dotted(shown), len)
  }

  /** The loop of dns_extract_name, up to the data of the first PTR record. */
  method FindPointer(reply: seq<Byte>, start: nat, count: nat) returns (found: PointerScan)
    ensures found == ScanPointer(reply, start, count)
  {
    var pos: nat, numans: nat := start, count;
    while numans > 0
      invariant ScanPointer(reply, pos, numans) == ScanPointer(reply, start, count)
    {
      numans := numans - 1;
      pos := SkipName(reply, pos);
      if pos == 0 {
        return CutOff;
      }
      var header;
      pos, header := PacketCopy(reply, pos, 10);
      if pos == 0 {
        return CutOff;
      }
      if U16(header, 0) == TYPE_PTR {
        if U16(header, 2) == CLASS_IN {
          return At(pos);
        }
      }
      pos := pos + U16(header, 8);
    }
    return NoPointer;
  }

  /** dns_extract_name, for every packet: the text of the first PTR record's name, or that
      there is none, or that something is cut off or empty. */
  method ExtractName(reply: seq<Byte>, out: array<Byte>, len: nat) returns (r: Extracted)
    requires len < out.Length
    modifies out
    ensures |reply| < 12 || NameEnd(reply, 12) == 0 ==> r == Failed
    ensures |reply| >= 12 && NameEnd(reply, 12) != 0 ==>
              match ScanPointer(reply, NameEnd(reply, 12) + 4, U16(reply, 6))
              case NoPointer => r == Missing
              case CutOff => r == Failed
              case At(data) => PointerText(reply, data, out[..], len, r)
  {
    var pos, header := PacketCopy(reply, 0, 12);
    if pos == 0 {
      return Failed;
    }
    var numans := U16(header, 6);
    pos := SkipName(reply, pos);
    if pos == 0 {
      return Failed;
    }
    pos := pos + 4;
    var found := FindPointer(reply, pos, numans);
    match found {
      case NoPointer => return Missing;
      case CutOff => return Failed;
      case At(data) =>
        r := NameText(reply, data, out, len);
    }
  }

  ghost predicate TextIn(out: seq<Byte>, text: seq<Byte>, len: nat) {
    var k := Min(|text|, len);
    k < |out| && k > 0 && out[..k] == text[..k] && out[k] == 0
  }

  /** The PTR record's data as dotted text. */
  method NameText(reply: seq<Byte>, data: nat, out: array<Byte>, len: nat) returns (r: Extracted)
    requires len < out.Length
    modifies out
    ensures PointerText(reply, data, out[..], len, r)
  {
    var name := new Byte[NAME_SIZE];
    var end, written := GetName(reply, data, name, NAME_MAX);
    DecodesExactlyTheName(reply, data);
    if end == 0 {
      return Failed;
    }
    ghost var labels, hops := NameIsReadBack(reply, data, name[..written], NAME_MAX);
    if KnownLength(name[..written]) == None {
      return Extracted.Unspecified;
    }
    ghost var shown := ReadBack(labels, RDATA_ROOM).value;
    assert name[..written] <= name[..];
    var d := name[..];
    var idx := WireToDotted(out, d, len, shown);
    assert idx > 0 ==> TextIn(out[..], Dotted(shown), len);
    return if idx == 0 then Failed else Named;
  }

  // ---------- names that do not fit ----------

  /** Of the names the decoder returns, dns_extract_name reads back whole those of up to
      254 octets without a zero in a label, and in part those of 256 whose last label has
      one octet, which is lost. */
  lemma PointerNameIff(labels: seq<Label>)
    requires WellFormed(labels) && |Wire(labels)| <= NAME_SIZE
    ensures ReadBack(labels, RDATA_ROOM) == Some(labels) <==> ZeroFree(labels) && |Wire(labels)| <= 254
    ensures ReadBack(labels, RDATA_ROOM).Some? && ReadBack(labels, RDATA_ROOM) != Some(labels)
       <==> && |Wire(labels)| == NAME_SIZE && |labels[|labels| - 1]| == 1 && ZeroFree(labels[..|labels| - 1])
    ensures ReadBack(labels, RDATA_ROOM).Some? ==>
              ReadBack(labels, RDATA_ROOM).value == if |Wire(labels)| <= 254 then labels else labels[..|labels| - 1]
  {
    ReadBackIff(labels, RDATA_ROOM);
    var shown := ReadBack(labels, RDATA_ROOM);
    if shown.Some? && shown.value != labels {
      WireOfFront(labels, |shown.value|);
    }
    if |Wire(labels)| == NAME_SIZE && |labels[|labels| - 1]| == 1 && ZeroFree(labels[..|labels| - 1]) {
      WireOfFront(labels, |labels| - 1);
      FrontIsReadBack(labels, RDATA_ROOM);
    }
  }

  /** The octets of the first k labels, and those behind. */
  lemma {:induction false} WireOfFront(labels: seq<Label>, k: nat)
    requires WellFormed(labels) && k < |labels|
    ensures |Wire(labels)| == |Wire(labels[..k])| + |labels[k]| + |Wire(labels[k + 1..])|
    ensures k + 1 < |labels| ==> |Wire(labels[k + 1..])| >= 3
    decreases k
  {
    if k > 0 {
      WireOfFront(labels[1..], k - 1);
      assert labels[..k][1..] == labels[1..][..k - 1] && labels[1..][k..] == labels[k + 1..];
    } else {
      assert labels[..0] == [];
    }
    if k + 1 < |labels| {
      var rest := labels[k + 1..];
      assert rest[0] == labels[k + 1] && WellFormedLabel(rest[0]);
    }
  }

  lemma {:induction false} FrontIsReadBack(labels: seq<Label>, room: nat)
    requires WellFormed(labels) && labels != [] && ZeroFree(labels[..|labels| - 1])
    requires |Wire(labels[..|labels| - 1])| == room + 1
    ensures ReadBack(labels, room) == Some(labels[..|labels| - 1])
    decreases |labels|
  {
    var front := labels[..|labels| - 1];
    if |labels| == 1 {
      assert front == [];
    } else {
      assert front[0] == labels[0] && front[1..] == labels[1..][..|labels| - 2];
      assert front == [front[0]] + front[1..];
      ZeroFreeCons(front[0], front[1..]);
      FrontIsReadBack(labels[1..], room - 1 - |labels[0]|);
    }
  }

  /** 63, 63, 63 and 61 letters: 255 octets, as many as section 2.3.4 of RFC 1035 allows. */
  const LONGEST: seq<Label> := [Copies(97, 63), Copies(97, 63), Copies(97, 63), Copies(97, 61)]

  /** The only record's data is found. */
  lemma OnlyPointerIsFound(reply: seq<Byte>, question: Written, r: Record) returns (data: nat)
    requires IsReply(reply, question, [r]) && IsPointer(r)
    ensures |reply| >= 12 && NameEnd(reply, 12) != 0
    ensures ScanPointer(reply, NameEnd(reply, 12) + 4, U16(reply, 6)) == At(data) && Contains(reply, data, r.rdata)
  {
    var pos := 12 + |WrittenOctets(question)| + 4;
    data := DataPos(pos, r);
    WrittenIsSkipped(reply, 12, question);
    assert RecordsAt(reply, pos, [r]) && [r][0] == r;
    WrittenIsSkipped(reply, pos, r.owner);
  }

  /** A PTR record with a name of 255 octets, the longest there are, is not returned: the
      root label is cut off, and dns_dn_to_dot reads on behind the copy. */
  lemma LongestNameIsCut(reply: seq<Byte>, question: Written, r: Record, labels: seq<Label>)
    requires IsReply(reply, question, [r]) && IsPointer(r)
    requires WellFormed(labels) && r.rdata == Wire(labels) && |Wire(labels)| == NAME_MAX
    ensures |reply| >= 12 && NameEnd(reply, 12) != 0
    ensures var found := ScanPointer(reply, NameEnd(reply, 12) + 4, U16(reply, 6));
      found.At? && WithinLimits(reply, found.pos, labels, 0)
    ensures ReadBack(labels, RDATA_ROOM) == None
  {
    var data := OnlyPointerIsFound(reply, question, r);
    WireDenotes(reply, data, labels);
    PointerNameIff(labels);
  }

  lemma LongestIsLegal()
    ensures WellFormed(LONGEST) && ZeroFree(LONGEST) && |Wire(LONGEST)| == NAME_MAX
  {
    var l := LONGEST;
    forall x | x in l
      ensures 0 !in x && WellFormedLabel(x)
    {
    }
    assert |Wire(l[4..])| == 1;
    assert l[3..][1..] == l[4..] && l[2..][1..] == l[3..] && l[1..][1..] == l[2..];
    assert |Wire(l[3..])| == 1 + 61 + 1;
    assert |Wire(l[2..])| == 1 + 63 + 63;
    assert |Wire(l[1..])| == 1 + 63 + 127;
  }

  /** A header that counts one question and one answer, the root as question, and a PTR
      record of the root up to its data of 255 octets. */
  const LONG_REPLY: seq<Byte> :=
    [0, 0, 129, 128, 0, 1, 0, 1, 0, 0, 0, 0] + [0, 0, 12, 0, 1] + [0, 0, 12, 0, 1, 0, 0, 0, 0, 0, 255]

  lemma LongReplyOctets(buf: seq<Byte>, w: seq<Byte>)
    requires buf == LONG_REPLY + w && |w| == 255
    ensures |buf| == 283 && U16(buf, 6) == 1 && buf[12] == 0 && buf[17] == 0
    ensures U16(buf, 18) == TYPE_PTR && U16(buf, 20) == CLASS_IN && U16(buf, 26) == 255
    ensures forall i :: 0 <= i < |w| ==> buf[28 + i] == w[i]
  {
    assert |LONG_REPLY| == 28;
    assert buf[..28] == LONG_REPLY;
  }

  lemma LongReplyIsReply(buf: seq<Byte>, w: seq<Byte>)
    requires w == Wire(LONGEST) && buf == LONG_REPLY + w
    ensures IsReply(buf, Written([], Root), [Record(Written([], Root), TYPE_PTR, CLASS_IN, w)])
  {
    LongestIsLegal();
    LongReplyOctets(buf, w);
    ReplyFromOctets(buf, w);
  }

  lemma ReplyFromOctets(buf: seq<Byte>, w: seq<Byte>)
    requires |buf| == 283 && U16(buf, 6) == 1 && buf[12] == 0 && buf[17] == 0 && |w| == 255
    requires U16(buf, 18) == TYPE_PTR && U16(buf, 20) == CLASS_IN && U16(buf, 26) == 255
    requires forall i :: 0 <= i < |w| ==> buf[28 + i] == w[i]
    ensures IsReply(buf, Written([], Root), [Record(Written([], Root), TYPE_PTR, CLASS_IN, w)])
  {
    var root, r := Written([], Root), Record(Written([], Root), TYPE_PTR, CLASS_IN, w);
    assert WrittenOctets(root) == [0];
    assert RecordAt(buf, 17, r);
    assert [r][1..] == [];
  }
}
