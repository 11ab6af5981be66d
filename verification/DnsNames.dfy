/** Domain names in wire form and in dotted form: the utility functions of
    lib/servauth/dns.c. */
module DnsNames {
  import opened Prelude
  import opened Octets

  const DOT: Byte := 46
  const NAME_MAX := 255
  const LABEL_MAX := 63

  // ---------- letter case ----------

  predicate IsUpper(c: int) {
    65 <= c <= 90
  }

  function Lower(c: int): int {
    if IsUpper(c) then c + 32 else c
  }

  /** The letters A to Z are folded to a to z, and nothing else is. */
  lemma LowerFoldsLetters(c: int)
    ensures Lower(c) == if 'A' as int <= c <= 'Z' as int then c - 'A' as int + 'a' as int else c
  {
  }

  ghost predicate SameLabel(a: Label, b: Label) {
    |a| == |b| && forall i :: 0 <= i < |a| ==> Lower(a[i]) == Lower(b[i])
  }

  /** Section 2.3.3 of RFC 1035: names are compared label by label without regard
      to case. */
  ghost predicate SameName(a: seq<Label>, b: seq<Label>) {
    |a| == |b| && forall i :: 0 <= i < |a| ==> SameLabel(a[i], b[i])
  }

  /** dns_cmp: 1 as soon as two octets differ after folding, else 0. */
  method CompareFolded(s1: seq<Byte>, s2: seq<Byte>, len: nat) returns (r: int)
    requires len <= |s1| && len <= |s2|
    ensures r == 0 || r == 1
    ensures r == 0 <==> forall i :: 0 <= i < len ==> Lower(s1[i]) == Lower(s2[i])
  {
    for i := 0 to len
      invariant forall j :: 0 <= j < i ==> Lower(s1[j]) == Lower(s2[j])
    {
      var c1, c2 := s1[i], s2[i];
      if IsUpper(c1) {
        c1 := c1 + 32;
      }
      if IsUpper(c2) {
        c2 := c2 + 32;
      }
      if c1 != c2 {
        return 1;
      }
    }
    return 0;
  }

  // ---------- wire names in memory ----------

  /** A buffer that starts with the wire form of `labels`. */
  ghost predicate Holds(d: seq<Byte>, labels: seq<Label>) {
    WellFormed(labels) && Wire(labels) <= d
  }

  lemma WireUnfold(d: seq<Byte>, labels: seq<Label>)
    requires Holds(d, labels)
    ensures labels == [] ==> d[0] == 0
    ensures labels != [] ==> d[0] == |labels[0]| && 1 + |labels[0]| <= |d| && d[1..1 + |labels[0]|] == labels[0]
    ensures labels != [] ==> Holds(d[1 + |labels[0]|..], labels[1..])
    ensures labels != [] ==> |Wire(labels)| == 1 + |labels[0]| + |Wire(labels[1..])|
  {
    if labels != [] {
      var w := Wire(labels);
      assert w == Piece(labels[0]) + Wire(labels[1..]);
      assert d[..|w|] == w;
      assert d[1..1 + |labels[0]|] == w[1..1 + |labels[0]|];
      var rest := d[1 + |labels[0]|..];
      assert rest[..|Wire(labels[1..])|] == w[1 + |labels[0]|..];
    }
  }

  /** dns_dn_len. */
  method WireLength(domain: seq<Byte>, ghost labels: seq<Label>) returns (len: nat)
    requires Holds(domain, labels)
    ensures len == |Wire(labels)|
  {
    var p: nat := 0;
    ghost var left := labels;
    while domain[p] != 0
      invariant p < |domain|
      invariant Holds(domain[p..], left)
      invariant p + |Wire(left)| == |Wire(labels)|
      decreases |left|
    {
      WireUnfold(domain[p..], left);
      ghost var rest := domain[p..][1 + |left[0]|..];
      assert rest == domain[p + 1 + |left[0]|..];
      p := p + 1 + domain[p];
      left := left[1..];
    }
    WireUnfold(domain[p..], left);
    return p + 1;
  }

  /** dns_dn_len in memory of which only these octets are known; None when it reads on
      behind them. */
  function KnownLength(known: seq<Byte>): Option<nat>
    decreases |known|
  {
    if known == [] then None
    else
      var c: nat := known[0];
      if c == 0 then Some(1)
      else if |known| <= c then None
      else
        match KnownLength(known[1 + c..])
        case None => None
        case Some(n) => Some(1 + c + n)
  }

  ghost predicate FoldedEqual(s: seq<int>, t: seq<int>)
    requires |s| == |t|
  {
    forall i :: 0 <= i < |s| ==> Lower(s[i]) == Lower(t[i])
  }

  /** Folding case never changes a length octet, so comparing wire forms octet by
      octet compares names label by label. */
  lemma {:induction false} FoldedWireEqual(a: seq<Label>, b: seq<Label>)
    requires WellFormed(a) && WellFormed(b)
    ensures |Wire(a)| == |Wire(b)| && FoldedEqual(Wire(a), Wire(b)) <==> SameName(a, b)
  {
    if a == [] || b == [] {
      assert a != [] ==> Wire(a)[0] == |a[0]| > 0;
      assert b != [] ==> Wire(b)[0] == |b[0]| > 0;
    } else {
      FoldedWireEqual(a[1..], b[1..]);
      if |Wire(a)| == |Wire(b)| && FoldedEqual(Wire(a), Wire(b)) {
        FoldedHead(a, b);
        SameNameFromHead(a, b);
      }
      if SameName(a, b) {
        assert SameLabel(a[0], b[0]);
        assert SameName(a[1..], b[1..]) by {
          assert forall i :: 0 <= i < |a| - 1 ==> a[1..][i] == a[i + 1] && b[1..][i] == b[i + 1];
        }
        FoldedFromHead(a, b);
      }
    }
  }

  lemma FoldedHead(a: seq<Label>, b: seq<Label>)
    requires a != [] && b != [] && WellFormed(a) && WellFormed(b)
    requires |Wire(a)| == |Wire(b)| && FoldedEqual(Wire(a), Wire(b))
    ensures SameLabel(a[0], b[0])
    ensures |Wire(a[1..])| == |Wire(b[1..])| && FoldedEqual(Wire(a[1..]), Wire(b[1..]))
  {
    var wa, wb := Wire(a), Wire(b);
    PieceOctets(wa, a[0], Wire(a[1..]));
    PieceOctets(wb, b[0], Wire(b[1..]));
    assert Lower(wa[0]) == Lower(wb[0]);
    forall i | 0 <= i < |a[0]|
      ensures Lower(a[0][i]) == Lower(b[0][i])
    {
      assert Lower(wa[i + 1]) == Lower(wb[i + 1]);
    }
    forall i | 0 <= i < |Wire(a[1..])|
      ensures Lower(Wire(a[1..])[i]) == Lower(Wire(b[1..])[i])
    {
      assert Lower(wa[i + 1 + |a[0]|]) == Lower(wb[i + 1 + |a[0]|]);
    }
  }

  lemma PieceOctets(w: seq<int>, l: Label, rest: seq<int>)
    requires w == Piece(l) + rest
    ensures |w| == 1 + |l| + |rest| && w[0] == |l|
    ensures forall i :: 0 <= i < |l| ==> w[i + 1] == l[i]
    ensures forall i :: 0 <= i < |rest| ==> w[i + 1 + |l|] == rest[i]
  {
  }

  lemma FoldedFromHead(a: seq<Label>, b: seq<Label>)
    requires a != [] && b != [] && SameLabel(a[0], b[0])
    requires |Wire(a[1..])| == |Wire(b[1..])| && FoldedEqual(Wire(a[1..]), Wire(b[1..]))
    ensures |Wire(a)| == |Wire(b)| && FoldedEqual(Wire(a), Wire(b))
  {
    var wa, wb := Wire(a), Wire(b);
    forall i | 0 <= i < |wa|
      ensures Lower(wa[i]) == Lower(wb[i])
    {
      if 1 <= i <= |a[0]| {
        assert wa[i] == a[0][i - 1] && wb[i] == b[0][i - 1];
      } else if i > |a[0]| {
        assert wa[i] == Wire(a[1..])[i - 1 - |a[0]|] && wb[i] == Wire(b[1..])[i - 1 - |a[0]|];
      }
    }
  }

  lemma SameNameFromHead(a: seq<Label>, b: seq<Label>)
    requires a != [] && b != [] && SameLabel(a[0], b[0]) && SameName(a[1..], b[1..])
    ensures SameName(a, b)
  {
    forall i | 0 <= i < |a|
      ensures SameLabel(a[i], b[i])
    {
      if i > 0 {
        assert SameLabel(a[1..][i - 1], b[1..][i - 1]);
      }
    }
  }

  /** dns_dn_cmp: 1 when two names in memory are the same name. */
  method CompareNames(domain1: seq<Byte>, domain2: seq<Byte>, ghost a: seq<Label>, ghost b: seq<Label>)
    returns (r: int)
    requires Holds(domain1, a) && Holds(domain2, b)
    ensures r == if SameName(a, b) then 1 else 0
  {
    FoldedWireEqual(a, b);
    var len := WireLength(domain1, a);
    var len2 := WireLength(domain2, b);
    if len != len2 {
      return 0;
    }
    assert forall i :: 0 <= i < len ==> Wire(a)[i] == domain1[i] && Wire(b)[i] == domain2[i];
    var differ := CompareFolded(domain1, domain2, len);
    if differ != 0 {
      return 0;
    }
    return 1;
  }
}
