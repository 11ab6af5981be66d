/** Conversion between dotted text and wire names: dns_dn_to_dot, dns_dot_to_dn
    and dns_dn_ptr of lib/servauth/dns.c. Text is a sequence of octets without the
    terminating zero. */
module DnsDotted {
  import opened Prelude
  import opened Octets
  import opened DnsNames

  // ---------- wire form to dotted text ----------

  /** Lower-case letters, digits, `-` and `_`; other octets are dropped. */
  predicate IsKept(c: int) {
    97 <= c <= 122 || 48 <= c <= 57 || c == 45 || c == 95
  }

  function Clean(l: Label): Label {
    if l == [] then []
    else
      (if IsKept(Lower(l[0])) then [Lower(l[0])] else []) + Clean(l[1..])
  }

  /** The labels, cleaned, with a dot between each two. */
  function Dotted(labels: seq<Label>): seq<Byte> {
    if labels == [] then []
    else if |labels| == 1 then Clean(labels[0])
    else Clean(labels[0]) + ([DOT] + Dotted(labels[1..]))
  }

  /** The inner loop of dns_dn_to_dot: appends the octets of one label that are
      kept, folded to lower case, until n octets are written. `text` is the whole
      text under way. */
  method CopyLabel(out: array<Byte>, l: Label, at: nat, n: nat, ghost text: seq<Byte>) returns (idx: nat)
    requires at < n < out.Length
    requires at + |Clean(l)| <= |text| && text[at..at + |Clean(l)|] == Clean(l)
    requires out[..at] == text[..at]
    modifies out
    ensures idx == Min(at + |Clean(l)|, n)
    ensures out[..idx] == text[..idx]
  {
    idx := at;
    ghost var end := at + |Clean(l)|;
    for k := 0 to |l|
      invariant at <= idx <= end && idx < n && text[idx..end] == Clean(l[k..])
      invariant out[..idx] == text[..idx]
    {
      assert l[k..][1..] == l[k + 1..];
      var ch2 := Lower(l[k]);
      if IsKept(ch2) {
        assert text[idx] == text[idx..end][0] == ch2;
        assert text[idx + 1..end] == text[idx..end][1..];
        out[idx] := ch2;
        idx := idx + 1;
        assert out[..idx] == text[..idx - 1] + [ch2] == text[..idx];
        if idx == n {
          return;
        }
      }
    }
    assert l[|l|..] == [];
  }

  /** dns_dn_to_dot: writes at most n octets of the text and a zero after them.
      When the text does not fit, that zero lands at index n. */
  method WireToDotted(out: array<Byte>, d: seq<Byte>, n: nat, ghost labels: seq<Label>) returns (idx: nat)
    requires Holds(d, labels) && n < out.Length
    modifies out
    ensures n == 0 ==> idx == 0 && out[..] == old(out[..])
    ensures n != 0 ==> idx == Min(|Dotted(labels)|, n)
    ensures n != 0 ==> out[..idx] == Dotted(labels)[..idx] && out[idx] == 0
  {
    idx := 0;
    if n == 0 {
      return 0;
    }
    var done := AtRoot(d, 0, labels);
    if done {
      out[0] := 0;
      return 0;
    }
    var p: nat := 0;
    ghost var left, text := labels, Dotted(labels);
    while idx < n
      invariant p <= |d| && idx <= n && left != [] && Holds(d[p..], left)
      invariant idx <= |text| && out[..idx] == text[..idx] && text[idx..] == Dotted(left)
      decreases |left|
    {
      var l := LabelAt(d, p, left);
      TextOfLabel(text, idx, left);
      idx := CopyLabel(out, l, idx, n, text);
      p := p + 1 + |l|;
      left := left[1..];
      done := AtRoot(d, p, left);
      if done || idx == n {
        break;
      }
      out[idx] := DOT;
      idx := idx + 1;
      assert out[..idx] == text[..idx - 1] + [DOT] == text[..idx];
    }
    out[idx] := 0;
  }

  method AtRoot(d: seq<Byte>, p: nat, ghost left: seq<Label>) returns (b: bool)
    requires p <= |d| && Holds(d[p..], left)
    ensures b <==> left == []
  {
    WireUnfold(d[p..], left);
    b := d[p] == 0;
  }

  /** The label at p; the rest of the name follows it. */
  method LabelAt(d: seq<Byte>, p: nat, ghost left: seq<Label>) returns (l: Label)
    requires p <= |d| && left != [] && Holds(d[p..], left)
    ensures l == left[0] && p + 1 + |l| <= |d| && Holds(d[p + 1 + |l|..], left[1..])
  {
    WireUnfold(d[p..], left);
    var ch := d[p];
    l := d[p + 1..p + 1 + ch];
    assert d[p..][1..1 + ch] == l;
    assert d[p + 1 + ch..] == d[p..][1 + ch..];
  }

  lemma TextOfLabel(text: seq<Byte>, idx: nat, left: seq<Label>)
    requires idx <= |text| && left != [] && text[idx..] == Dotted(left)
    ensures var next := idx + |Clean(left[0])|;
            && next <= |text| && text[idx..next] == Clean(left[0])
            && (left[1..] == [] ==> next == |text|)
            && (left[1..] != [] ==> next < |text| && text[next] == DOT && text[next + 1..] == Dotted(left[1..]))
  {
    DottedUnfold(left);
    TextInFront(text, idx, Clean(left[0]), left[1..] != [], Dotted(left[1..]));
  }

  /** A piece of text, and behind a dot what follows it, if anything does. */
  lemma TextInFront(text: seq<Byte>, idx: nat, c: seq<Byte>, more: bool, d: seq<Byte>)
    requires idx <= |text| && text[idx..] == c + if more then [DOT] + d else []
    ensures var next := idx + |c|;
            && next <= |text| && text[idx..next] == c
            && (!more ==> next == |text|)
            && (more ==> next < |text| && text[next] == DOT && text[next + 1..] == d)
  {
    SplitText(text, idx, c, if more then [DOT] + d else []);
    if more {
      SplitDot(text, idx + |c|, d);
    }
  }

  function Tail(left: seq<Label>): seq<Byte>
    requires left != []
  {
    if left[1..] == [] then [] else [DOT] + Dotted(left[1..])
  }

  lemma DottedUnfold(left: seq<Label>)
    requires left != []
    ensures Dotted(left) == Clean(left[0]) + Tail(left)
  {
    assert Clean(left[0]) + [] == Clean(left[0]);
  }

  lemma SplitDot(text: seq<Byte>, idx: nat, b: seq<Byte>)
    requires idx <= |text| && text[idx..] == [DOT] + b
    ensures idx < |text| && text[idx] == DOT && text[idx + 1..] == b
  {
    SplitText(text, idx, [DOT], b);
    assert text[idx] == text[idx..][0];
  }

  lemma SplitText(text: seq<Byte>, idx: nat, a: seq<Byte>, b: seq<Byte>)
    requires idx <= |text| && text[idx..] == a + b
    ensures idx + |a| <= |text| && text[idx..idx + |a|] == a && text[idx + |a|..] == b
  {
    assert text[idx..idx + |a|] == text[idx..][..|a|] == a;
    assert text[idx + |a|..] == text[idx..][|a|..] == b;
  }

  // ---------- dotted text to wire form ----------

  /** The labels of a text, `label` being the one under way: runs between dots,
      empty ones skipped. */
  function LabelsFrom(label_: Label, text: seq<Byte>): seq<Label>
    decreases |text|
  {
    if text == [] then
      if label_ == [] then [] else [label_]
    else if text[0] == DOT then
      (if label_ == [] then [] else [label_]) + LabelsFrom([], text[1..])
    else
      LabelsFrom(label_ + [text[0]], text[1..])
  }

  function Labels(text: seq<Byte>): seq<Label> {
    LabelsFrom([], text)
  }

  /** The size limits of section 2.3.4 of RFC 1035. */
  predicate FitsLimits(labels: seq<Label>) {
    WellFormed(labels) && |Wire(labels)| <= NAME_MAX
  }

  /** The wire form without the root label that ends it. */
  function Body(labels: seq<Label>): seq<int> {
    if labels == [] then [] else Piece(labels[0]) + Body(labels[1..])
  }

  lemma {:induction false} WireIsBody(labels: seq<Label>)
    ensures Wire(labels) == Body(labels) + [0]
  {
    if labels == [] {
    } else {
      WireIsBody(labels[1..]);
      Assoc(Piece(labels[0]), Body(labels[1..]), [0]);
    }
  }

  lemma {:induction false} BodyConcat(a: seq<Label>, b: seq<Label>)
    ensures Body(a + b) == Body(a) + Body(b)
  {
    if a == [] {
      assert a + b == b;
    } else {
      BodyConcat(a[1..], b);
      assert (a + b)[1..] == a[1..] + b;
      Assoc(Piece(a[0]), Body(a[1..]), Body(b));
    }
  }

  /** The label under way is the start of the next label, if it is not empty. */
  lemma {:induction false} LabelUnderWay(l: Label, text: seq<Byte>)
    requires l != []
    ensures LabelsFrom(l, text) != [] && l <= LabelsFrom(l, text)[0]
    decreases |text|
  {
    if text != [] && text[0] != DOT {
      LabelUnderWay(l + [text[0]], text[1..]);
    }
  }

  lemma TooLong(done: seq<Label>, l: Label, text: seq<Byte>)
    requires l != []
    requires |l| > LABEL_MAX || |Body(done)| + |l| + 1 >= NAME_MAX
    ensures !FitsLimits(done + LabelsFrom(l, text))
  {
    LabelUnderWay(l, text);
    var rest := LabelsFrom(l, text);
    var all := done + rest;
    assert all[|done|] == rest[0];
    WireIsBody(all);
    BodyConcat(done, rest);
    assert |Body(rest)| >= 1 + |rest[0]|;
  }

  /** Moves the finished label, with its length in front, from the label buffer
      to the name buffer, if it fits there. */
  method StoreLabel(name: array<Byte>, namelen: nat, l: Label, ghost done: seq<Label>, ghost text: seq<Byte>)
    returns (ok: bool, newlen: nat)
    requires name.Length == NAME_MAX && 1 <= |l| <= LABEL_MAX && namelen <= NAME_MAX
    requires WellFormed(done) && name[..namelen] == Body(done)
    modifies name
    ensures ok ==> newlen <= NAME_MAX && name[..newlen] == Body(done + [l]) && WellFormed(done + [l])
    ensures !ok ==> !FitsLimits(done + LabelsFrom(l, text))
  {
    if namelen + |l| + 1 > NAME_MAX {
      TooLong(done, l, text);
      return false, 0;
    }
    CopyIn(name, namelen, Piece(l));
    BodyOfOneMore(done, l);
    return true, namelen + 1 + |l|;
  }

  lemma BodyOfOneMore(done: seq<Label>, l: Label)
    ensures Body(done + [l]) == Body(done) + Piece(l)
  {
    BodyConcat(done, [l]);
    assert [l][1..] == [];
    assert Piece(l) + [] == Piece(l);
  }

  /** The loop of dns_dot_to_dn over the text: finished labels go to `name`, the
      one under way to `lbl`. */
  method CollectLabels(name: array<Byte>, lbl: array<Byte>, d: seq<Byte>, n: nat)
    returns (ok: bool, namelen: nat, labellen: nat, ghost done: seq<Label>)
    requires name != lbl && name.Length == NAME_MAX && lbl.Length == LABEL_MAX && NAME_MAX <= n
    modifies name, lbl
    ensures labellen <= LABEL_MAX && namelen <= NAME_MAX
    ensures ok ==> name[..namelen] == Body(done) && WellFormed(done)
    ensures ok ==> done + LabelsFrom(lbl[..labellen], []) == Labels(d)
    ensures !ok ==> !FitsLimits(Labels(d))
  {
    ok, namelen, labellen, done := true, 0, 0, [];
    assert d[0..] == d && lbl[..0] == [];
    for i := 0 to |d|
      invariant ok && labellen <= LABEL_MAX && namelen <= NAME_MAX
      invariant name[..namelen] == Body(done) && WellFormed(done)
      invariant done + LabelsFrom(lbl[..labellen], d[i..]) == Labels(d)
    {
      var ch, l := d[i], lbl[..labellen];
      assert d[i..][1..] == d[i + 1..];
      if ch == DOT {
        if labellen != 0 {
          ok, namelen := StoreLabel(name, namelen, l, done, d[i..]);
          if !ok {
            return false, 0, 0, done;
          }
          Assoc(done, [l], LabelsFrom([], d[i + 1..]));
          done := done + [l];
          labellen := 0;
        }
        assert lbl[..0] == [];
        continue;
      }
      if labellen >= LABEL_MAX {
        TooLong(done, l + [ch], d[i + 1..]);
        return false, 0, 0, done;
      }
      if namelen > n {
        break;
      }
      lbl[labellen] := ch;
      labellen := labellen + 1;
      assert lbl[..labellen] == l + [ch];
    }
    assert d[|d|..] == [];
  }

  /** dns_dot_to_dn on text without a backslash: the wire form of the labels, or 0
      when they break a size limit. `n` is the size of the caller's buffer; only
      the octets of the name are copied there. */
  method DottedToWire(out: array<Byte>, d: seq<Byte>, n: nat) returns (namelen: nat)
    requires NAME_MAX <= n <= out.Length
    requires 0 !in d && 92 !in d
    modifies out
    ensures namelen == if FitsLimits(Labels(d)) then |Wire(Labels(d))| else 0
    ensures namelen != 0 ==> out[..namelen] == Wire(Labels(d))
  {
    var lbl := new Byte[LABEL_MAX];
    var name := new Byte[NAME_MAX];
    var ok, labellen;
    ghost var done;
    ok, namelen, labellen, done := CollectLabels(name, lbl, d, n);
    if !ok {
      return 0;
    }
    if labellen != 0 {
      ok, namelen := StoreLabel(name, namelen, lbl[..labellen], done, []);
      if !ok {
        return 0;
      }
      done := done + [lbl[..labellen]];
    }
    assert done == Labels(d);
    WireIsBody(done);
    if namelen + 1 > NAME_MAX {
      return 0;
    }
    name[namelen] := 0;
    assert name[..namelen + 1] == name[..namelen] + [0];
    namelen := namelen + 1;
    CopyIn(out, 0, name[..namelen]);
  }

  // ---------- round trips ----------

  /** Text whose characters all survive dns_dn_to_dot, apart from the dots. */
  predicate IsHostText(text: seq<Byte>) {
    forall i :: 0 <= i < |text| ==> text[i] == DOT || IsKept(Lower(text[i]))
  }

  /** Lower case, with leading, trailing and repeated dots removed. `any` tells
      whether something was kept before, `gap` whether a dot is due. */
  function Normal(text: seq<Byte>, any: bool, gap: bool): seq<Byte> {
    if text == [] then []
    else if text[0] == DOT then Normal(text[1..], any, any)
    else (if gap then [DOT] else []) + ([Lower(text[0])] + Normal(text[1..], true, false))
  }

  function DottedAfter(any: bool, labels: seq<Label>): seq<Byte> {
    (if any && labels != [] then [DOT] else []) + Dotted(labels)
  }

  lemma {:induction false} CleanConcat(a: Label, b: Label)
    ensures Clean(a + b) == Clean(a) + Clean(b)
  {
    if a == [] {
      assert a + b == b;
    } else {
      CleanConcat(a[1..], b);
      assert (a + b)[1..] == a[1..] + b;
      var head := if IsKept(Lower(a[0])) then [Lower(a[0])] else [];
      Assoc(head, Clean(a[1..]), Clean(b));
    }
  }

  lemma {:induction false} DottedOfText(l: Label, text: seq<Byte>, any: bool)
    requires IsHostText(text)
    ensures l == [] ==> DottedAfter(any, LabelsFrom([], text)) == Normal(text, any, any)
    ensures l != [] ==> Dotted(LabelsFrom(l, text)) == Clean(l) + Normal(text, true, false)
    decreases |text|
  {
    if text == [] {
      assert [l][1..] == [];
    } else if text[0] == DOT {
      if l == [] {
        DottedOfText([], text[1..], any);
        assert [] + LabelsFrom([], text[1..]) == LabelsFrom([], text[1..]);
      } else {
        DottedOfText([], text[1..], true);
        DottedCons(l, LabelsFrom([], text[1..]));
      }
    } else {
      DottedOfText(l + [text[0]], text[1..], any);
      LabelUnderWay(l + [text[0]], text[1..]);
      CleanConcat(l, [text[0]]);
      assert [text[0]][1..] == [];
      assert Clean([text[0]]) == [Lower(text[0])];
      Assoc(Clean(l), [Lower(text[0])], Normal(text[1..], true, false));
    }
  }

  lemma DottedCons(l: Label, rest: seq<Label>)
    ensures Dotted([l] + rest) == Clean(l) + DottedAfter(true, rest)
  {
    assert ([l] + rest)[1..] == rest;
  }

  /** Dotted text to wire form and back gives the text in lower case without its
      empty labels. */
  lemma TextRoundTrip(text: seq<Byte>)
    requires IsHostText(text)
    ensures Dotted(Labels(text)) == Normal(text, false, false)
  {
    DottedOfText([], text, false);
  }

  /** Names whose labels are non-empty and already in the form dns_dn_to_dot writes. */
  predicate IsHostName(labels: seq<Label>) {
    forall i :: 0 <= i < |labels| ==> labels[i] != [] && IsCleanLabel(labels[i])
  }

  predicate IsCleanLabel(l: Label) {
    forall i :: 0 <= i < |l| ==> IsKept(l[i])
  }

  lemma {:induction false} CleanIsIdentity(l: Label)
    requires IsCleanLabel(l)
    ensures Clean(l) == l
  {
    if l == [] {
    } else {
      assert IsKept(l[0]);
      assert IsCleanLabel(l[1..]);
      CleanIsIdentity(l[1..]);
    }
  }

  lemma {:induction false} LabelsOfRun(l: Label, run: Label, text: seq<Byte>)
    requires IsCleanLabel(run)
    ensures LabelsFrom(l, run + text) == LabelsFrom(l + run, text)
    decreases |run|
  {
    if run == [] {
      assert run + text == text && l + run == l;
    } else {
      assert IsKept(run[0]);
      assert IsCleanLabel(run[1..]);
      LabelsOfRun(l + [run[0]], run[1..], text);
      assert (run + text)[1..] == run[1..] + text;
      assert l + [run[0]] + run[1..] == l + run;
    }
  }

  /** Lower-case wire names survive the trip through dotted text. */
  lemma {:induction false} NameRoundTrip(labels: seq<Label>)
    requires IsHostName(labels)
    ensures Labels(Dotted(labels)) == labels
  {
    if labels == [] {
    } else {
      var l, rest := labels[0], labels[1..];
      CleanIsIdentity(l);
      if rest == [] {
        LabelsOfRun([], l, []);
        assert l + [] == l && [] + l == l;
      } else {
        NameRoundTrip(rest);
        var tail := [DOT] + Dotted(rest);
        LabelsOfRun([], l, tail);
        assert [] + l == l && tail[1..] == Dotted(rest);
      }
    }
  }

  // ---------- what the conversions do to any octets ----------

  /** Letters are kept in lower case; digits, `-` and `_` are kept; all else is dropped. */
  lemma CleanOctet(c: Byte)
    ensures Clean([c]) ==
      if 'A' as int <= c <= 'Z' as int then [c - 'A' as int + 'a' as int]
      else if 'a' as int <= c <= 'z' as int || '0' as int <= c <= '9' as int || c == '-' as int || c == '_' as int then [c]
      else []
  {
    assert [c][1..] == [];
  }

  /** A dot ends a label, and so does the end of the text; there are no empty labels. */
  lemma {:induction false} LabelsSplit(l: Label, a: seq<Byte>, b: seq<Byte>)
    ensures LabelsFrom(l, a + ([DOT] + b)) == LabelsFrom(l, a) + Labels(b)
    decreases |a|
  {
    if a == [] {
      assert a + ([DOT] + b) == [DOT] + b && ([DOT] + b)[1..] == b;
    } else {
      assert (a + ([DOT] + b))[1..] == a[1..] + ([DOT] + b);
      if a[0] == DOT {
        LabelsSplit([], a[1..], b);
        Assoc(if l == [] then [] else [l], LabelsFrom([], a[1..]), Labels(b));
      } else {
        LabelsSplit(l + [a[0]], a[1..], b);
      }
    }
  }

  lemma {:induction false} LabelsOfLabel(l: Label, a: Label)
    requires DOT !in a
    ensures LabelsFrom(l, a) == if l + a == [] then [] else [l + a]
    decreases |a|
  {
    if a == [] {
      assert l + a == l;
    } else {
      assert a[0] in a && forall x :: x in a[1..] ==> x in a;
      LabelsOfLabel(l + [a[0]], a[1..]);
      assert l + [a[0]] + a[1..] == l + a;
    }
  }

  /** The labels of a text are its longest stretches without dots, whatever else it holds. */
  lemma LabelsAreRuns(a: Label, b: seq<Byte>)
    requires DOT !in a
    ensures Labels(a) == (if a == [] then [] else [a])
    ensures Labels(a + ([DOT] + b)) == (if a == [] then [] else [a]) + Labels(b)
  {
    LabelsSplit([], a, b);
    LabelsOfLabel([], a);
    assert [] + a == a;
  }

  lemma {:induction false} CleanHasNoDot(l: Label)
    ensures DOT !in Clean(l)
  {
    if l == [] {
    } else {
      CleanHasNoDot(l[1..]);
    }
  }

  /** What is left of the labels, cleaned. */
  function CleanLabels(labels: seq<Label>): seq<Label> {
    if labels == [] then []
    else
      var rest := CleanLabels(labels[1..]);
      if Clean(labels[0]) == [] then rest else [Clean(labels[0])] + rest
  }

  /** The text of any name holds its labels, cleaned, and one dot less than there are labels. */
  lemma {:induction false} DottedHoldsLabels(labels: seq<Label>)
    ensures Labels(Dotted(labels)) == CleanLabels(labels)
    ensures multiset(Dotted(labels))[DOT] == if labels == [] then 0 else |labels| - 1
  {
    if labels == [] {
    } else {
      var l, rest := labels[0], labels[1..];
      CleanHasNoDot(l);
      DottedHoldsLabels(rest);
      LabelsAreRuns(Clean(l), Dotted(rest));
      if rest != [] {
        assert multiset([DOT] + Dotted(rest))[DOT] == |labels| - 1;
      }
    }
  }

  // ---------- reverse lookup names ----------

  function Decimal(x: nat): Label
    requires x < 1000
  {
    if x < 10 then [48 + x] else Decimal(x / 10) + [48 + x % 10]
  }

  const IN_ADDR: Label := [105, 110, 45, 97, 100, 100, 114]
  const ARPA: Label := [97, 114, 112, 97]

  function ReversedOctets(address: seq<Byte>): seq<Label> {
    if address == [] then []
    else [Decimal(address[|address| - 1])] + ReversedOctets(address[..|address| - 1])
  }

  /** Section 3.5 of RFC 1035: the address octets in reverse order, in decimal,
      under in-addr.arpa. */
  function ReverseName(address: seq<Byte>): seq<Label> {
    ReversedOctets(address) + [IN_ADDR] + [ARPA]
  }

  /** One octet as a length and decimal digits: the three cases of dns_dn_ptr. */
  function DecimalLabel(tmp: Byte): (piece: seq<Byte>)
    ensures piece == Piece(Decimal(tmp)) && |piece| <= 4
  {
    assert tmp / 10 / 10 == tmp / 100 && tmp / 10 % 10 == tmp % 100 / 10;
    assert tmp > 99 ==> Decimal(tmp / 10) == Decimal(tmp / 100) + [48 + tmp / 10 % 10];
    if tmp > 99 then [3, 48 + tmp / 100, 48 + tmp % 100 / 10, 48 + tmp % 10]
    else if tmp > 9 then [2, 48 + tmp % 100 / 10, 48 + tmp % 10]
    else [1, 48 + tmp % 10]
  }

  // ---------- what a reverse name says ----------

  /** The number decimal digits write, the first one counting most. */
  function NumberOf(digits: Label): int {
    if digits == [] then 0 else 10 * NumberOf(digits[..|digits| - 1]) + digits[|digits| - 1] - 48
  }

  /** Decimal digits, without a zero in front unless it is the only one. */
  predicate IsNumeral(l: Label) {
    && l != [] && (forall i :: 0 <= i < |l| ==> '0' as int <= l[i] <= '9' as int)
    && (l[0] == '0' as int ==> |l| == 1)
  }

  predicate IsText(l: Label, text: string) {
    |l| == |text| && forall i :: 0 <= i < |l| ==> l[i] == text[i] as int
  }

  /** Four numbers, the octets from the last to the first, under in-addr.arpa. */
  predicate IsReverseOf(name: seq<Label>, address: seq<Byte>) {
    && |address| == 4 && |name| == 6
    && (forall i :: 0 <= i < 4 ==> IsNumeral(name[i]) && NumberOf(name[i]) == address[3 - i])
    && IsText(name[4], "in-addr") && IsText(name[5], "arpa")
  }

  lemma {:induction false} DecimalReads(x: nat)
    requires x < 1000
    ensures IsNumeral(Decimal(x)) && NumberOf(Decimal(x)) == x && (Decimal(x)[0] == 48 <==> x == 0)
  {
    if x < 10 {
      assert [48 + x][..0] == [];
    } else {
      DecimalReads(x / 10);
      var front, all := Decimal(x / 10), Decimal(x);
      assert all[..|all| - 1] == front;
    }
  }

  /** The reverse name says the address. */
  lemma ReverseNameReads(address: seq<Byte>)
    requires |address| == 4
    ensures IsReverseOf(ReverseName(address), address)
  {
    var name := ReverseName(address);
    OctetsReversed(address);
    forall i | 0 <= i < 4
      ensures IsNumeral(name[i]) && NumberOf(name[i]) == address[3 - i]
    {
      DecimalReads(address[3 - i]);
    }
  }

  lemma {:induction false} OctetsReversed(address: seq<Byte>)
    ensures |ReversedOctets(address)| == |address|
    ensures forall i :: 0 <= i < |address| ==> ReversedOctets(address)[i] == Decimal(address[|address| - 1 - i])
  {
    if address == [] {
    } else {
      OctetsReversed(address[..|address| - 1]);
    }
  }

  /** dns_dn_ptr for IPv4. */
  method AddressToWire(dst: array<Byte>, address: seq<Byte>) returns (len: nat)
    requires |address| == 4 && dst.Length >= 30
    modifies dst
    ensures len <= 30 && dst[..len] == Wire(ReverseName(address)) && IsReverseOf(ReverseName(address), address)
  {
    ReverseNameReads(address);
    var p := PutOctets(dst, address);
    SuffixBody(ReversedOctets(address));
    var suffix := Piece(IN_ADDR) + (Piece(ARPA) + [0]);
    CopyIn(dst, p, suffix);
    len := p + 14;
  }

  method PutOctets(dst: array<Byte>, address: seq<Byte>) returns (p: nat)
    requires |address| == 4 && dst.Length >= 30
    modifies dst
    ensures p <= 16 && dst[..p] == Body(ReversedOctets(address))
  {
    p := 0;
    var i := 3;
    ghost var done: seq<Label> := [];
    assert address[..4] == address;
    while i >= 0
      invariant -1 <= i <= 3 && p <= 4 * (3 - i)
      invariant done + ReversedOctets(address[..i + 1]) == ReversedOctets(address)
      invariant dst[..p] == Body(done)
    {
      var piece := DecimalLabel(address[i]);
      CopyIn(dst, p, piece);
      p := p + |piece|;
      BodyOfOneMore(done, Decimal(address[i]));
      NextOctet(done, address, i);
      done := done + [Decimal(address[i])];
      i := i - 1;
    }
    assert address[..0] == [] && done + [] == done;
  }

  lemma NextOctet(done: seq<Label>, address: seq<Byte>, i: nat)
    requires i < |address|
    ensures done + ReversedOctets(address[..i + 1]) == done + [Decimal(address[i])] + ReversedOctets(address[..i])
  {
    assert address[..i + 1][..i] == address[..i];
    Assoc(done, [Decimal(address[i])], ReversedOctets(address[..i]));
  }

  lemma SuffixBody(done: seq<Label>)
    ensures Wire(done + [IN_ADDR] + [ARPA]) == Body(done) + (Piece(IN_ADDR) + (Piece(ARPA) + [0]))
  {
    BodyOfOneMore(done, IN_ADDR);
    BodyOfOneMore(done + [IN_ADDR], ARPA);
    WireIsBody(done + [IN_ADDR] + [ARPA]);
    Assoc(Body(done), Piece(IN_ADDR), Piece(ARPA));
    Assoc(Body(done), Piece(IN_ADDR) + Piece(ARPA), [0]);
    Assoc(Piece(IN_ADDR), Piece(ARPA), [0]);
  }
}
