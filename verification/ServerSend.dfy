/** Sending to server links: server_vsend of src/server.c, to all of them or to those
    that lead to a channel's members. */
module ServerSend {
  import opened Prelude
  import opened Network
  import Flooding

  type Cap = nat

  const UID: Cap := 1

  /** A connection to a server: which one, what it can do, and whether it is usable. */
  datatype Conn = Conn(id: nat, caps: set<Cap>, usable: bool)

  /** What a call asks for: not this one, all of these capabilities, none of those. */
  datatype Filter = Filter(one: Option<nat>, want: set<Cap>, no: set<Cap>)

  predicate Passes(c: Conn, f: Filter) {
    f.one != Some(c.id) && f.want <= c.caps && c.caps * f.no == {}
  }

  // ---------- to all servers ----------

  /** Who of the first n connections gets a message, in order; `me` stands for this
      server itself. */
  function Recipients(conns: seq<Conn>, n: nat, me: nat, f: Filter): seq<nat>
    requires n <= |conns|
  {
    if n == 0 then []
    else
      var c := conns[n - 1];
      Recipients(conns, n - 1, me, f) + if c.id != me && c.usable && Passes(c, f) then [c.id] else []
  }

  method SendAll(conns: seq<Conn>, me: nat, f: Filter) returns (to: seq<nat>)
    ensures to == Recipients(conns, |conns|, me, f)
  {
    to := [];
    for i := 0 to |conns|
      invariant to == Recipients(conns, i, me, f)
    {
      var c := conns[i];
      if f.one == Some(c.id) || c.id == me {
        continue;
      }
      if c.caps * f.want != f.want || c.caps * f.no != {} {
        continue;
      }
      if c.usable {
        to := to + [c.id];
      }
    }
  }

  /** One connection gets the message if it is not this server's own nor the one left out, is
      usable, and can do all that is wanted and nothing that is not. */
  lemma SendsToOne(c: Conn, me: nat, f: Filter)
    ensures Recipients([c], 1, me, f)
         == if c.id != me && f.one != Some(c.id) && c.usable
               && (forall x :: x in f.want ==> x in c.caps) && (forall x :: x in f.no ==> x !in c.caps)
            then [c.id] else []
  {
    if c.caps * f.no != {} {
      var x :| x in c.caps * f.no;
    }
    if x :| x in f.no && x in c.caps {
      assert x in c.caps * f.no;
    }
    assert Recipients([c], 0, me, f) == [];
  }

  /** ... and more of them do in turn. */
  lemma {:induction false} SendsInTurn(a: seq<Conn>, b: seq<Conn>, n: nat, me: nat, f: Filter)
    requires n <= |b|
    ensures Recipients(a + b, |a| + n, me, f) == Recipients(a, |a|, me, f) + Recipients(b, n, me, f)
  {
    if n == 0 {
      SendsPrefix(a, b, |a|, me, f);
    } else {
      SendsInTurn(a, b, n - 1, me, f);
      assert (a + b)[|a| + n - 1] == b[n - 1];
    }
  }

  lemma {:induction false} SendsPrefix(a: seq<Conn>, b: seq<Conn>, n: nat, me: nat, f: Filter)
    requires n <= |a|
    ensures Recipients(a + b, n, me, f) == Recipients(a, n, me, f)
  {
    if n > 0 {
      SendsPrefix(a, b, n - 1, me, f);
      assert (a + b)[n - 1] == a[n - 1];
    }
  }

  predicate Gets(c: Conn, me: nat, f: Filter) {
    c.id != me && c.usable && Passes(c, f)
  }

  /** How many messages a server gets. */
  function Count(conns: seq<Conn>, n: nat, me: nat, f: Filter, u: nat): nat
    requires n <= |conns|
  {
    if n == 0 then 0
    else Count(conns, n - 1, me, f, u) + if Gets(conns[n - 1], me, f) && conns[n - 1].id == u then 1 else 0
  }

  lemma {:induction false} CountsRecipients(conns: seq<Conn>, n: nat, me: nat, f: Filter, u: nat)
    requires n <= |conns|
    ensures multiset(Recipients(conns, n, me, f))[u] == Count(conns, n, me, f, u)
  {
    if n == 0 {
    } else {
      CountsRecipients(conns, n - 1, me, f, u);
    }
  }

  /** A message in the form for links that know identifiers, and one in the form for the
      others: each link gets exactly one of the two. */
  lemma {:induction false} FormsPartition(conns: seq<Conn>, n: nat, me: nat, one: Option<nat>, u: nat)
    requires n <= |conns|
    ensures Count(conns, n, me, Filter(one, {UID}, {}), u) + Count(conns, n, me, Filter(one, {}, {UID}), u)
         == Count(conns, n, me, Filter(one, {}, {}), u)
  {
    if n == 0 {
    } else {
      FormsPartition(conns, n - 1, me, one, u);
      var caps := conns[n - 1].caps;
      assert UID in caps <==> UID in caps * {UID};
      assert caps * {} == {} && (UID !in caps ==> caps * {UID} == {});
    }
  }

  // ---------- in the tree ----------

  predicate Distinct(conns: seq<Conn>) {
    forall i, j :: 0 <= i < j < |conns| ==> conns[i].id != conns[j].id
  }

  /** A server's connections are its links in the tree. */
  ghost predicate Connects(net: Net, t: nat, conns: seq<Conn>) {
    && Distinct(conns)
    && (forall i :: 0 <= i < |conns| ==> conns[i].usable && Linked(net, t, conns[i].id))
    && (forall u :: Linked(net, t, u) ==> u in Ids(conns, |conns|))
  }

  function Ids(conns: seq<Conn>, n: nat): set<nat>
    requires n <= |conns|
  {
    set i | 0 <= i < n :: conns[i].id
  }

  lemma IdsOneMore(conns: seq<Conn>, n: nat)
    requires 0 < n <= |conns| && Distinct(conns)
    ensures Ids(conns, n) == Ids(conns, n - 1) + {conns[n - 1].id} && conns[n - 1].id !in Ids(conns, n - 1)
  {
  }

  lemma {:induction false} CountOfEach(conns: seq<Conn>, n: nat, me: nat, one: Option<nat>, u: nat)
    requires n <= |conns| && Distinct(conns) && forall i :: 0 <= i < |conns| ==> conns[i].usable && conns[i].id != me
    ensures Count(conns, n, me, Filter(one, {}, {}), u) == if u in Ids(conns, n) && one != Some(u) then 1 else 0
  {
    if n == 0 {
    } else {
      CountOfEach(conns, n - 1, me, one, u);
      IdsOneMore(conns, n);
      assert conns[n - 1].caps * {} == {};
    }
  }

  /** The two sends of a server together are the forwarding of the flood: one message
      over each of its links but the one of arrival. */
  lemma PairForwards(net: Net, t: nat, conns: seq<Conn>, arrival: Option<nat>, u: nat)
    requires IsTree(net) && t in Servers(net) && Connects(net, t, conns)
    ensures multiset(Recipients(conns, |conns|, t, Filter(arrival, {UID}, {})))[u]
          + multiset(Recipients(conns, |conns|, t, Filter(arrival, {}, {UID})))[u]
         == if Flooding.Hop(t, u) in Flooding.Outgoing(net, t, arrival) then 1 else 0
  {
    var m := CanBeRooted(net, t);
    forall x | Linked(net, t, x)
      ensures x in Servers(net) && x != t
    {
      assert OneWay(m, t, t, x);
    }
    CountsRecipients(conns, |conns|, t, Filter(arrival, {UID}, {}), u);
    CountsRecipients(conns, |conns|, t, Filter(arrival, {}, {UID}), u);
    FormsPartition(conns, |conns|, t, arrival, u);
    CountOfEach(conns, |conns|, t, arrival, u);
  }

  // ---------- to a channel's servers ----------

  /** Those of the first n members' connections that get a message, each once, in order
      of their first member. */
  function Once(via: seq<Conn>, n: nat, f: Filter): (to: seq<nat>)
    requires n <= |via|
  {
    if n == 0 then []
    else
      var to := Once(via, n - 1, f);
      if via[n - 1].id !in to && Passes(via[n - 1], f) then to + [via[n - 1].id] else to
  }

  /** Marks of the last send on each connection; none is ahead of the counter. */
  class Marks {
    var serial: nat
    var marks: map<nat, nat>

    ghost predicate Valid()
      reads this
    {
      forall id :: id in marks ==> marks[id] <= serial
    }

    /** `via` are the connections of the channel's remote members, in their order. */
    method SendToMembers(via: seq<Conn>, f: Filter) returns (to: seq<nat>)
      requires Valid()
      modifies this
      ensures Valid() && serial == old(serial) + 1
      ensures to == Once(via, |via|, f)
      ensures forall id :: id in marks && marks[id] == serial <==> id in to
    {
      serial := serial + 1;
      to := [];
      for i := 0 to |via|
        invariant serial == old(serial) + 1 && Valid() && to == Once(via, i, f)
        invariant forall id :: id in marks && marks[id] == serial <==> id in to
      {
        var c := via[i];
        if c.id in marks && marks[c.id] == serial {
          continue;
        }
        if !Passes(c, f) {
          continue;
        }
        to := to + [c.id];
        marks := marks[c.id := serial];
      }
    }
  }

  ghost predicate Leads(via: seq<Conn>, n: nat, f: Filter, id: nat)
    requires n <= |via|
  {
    exists i :: 0 <= i < n && via[i].id == id && Passes(via[i], f)
  }

  /** Each connection that leads to a member and passes gets the message exactly once. */
  lemma {:induction false} OnceReachesEach(via: seq<Conn>, n: nat, f: Filter)
    requires n <= |via|
    ensures forall id :: id in Once(via, n, f) <==> Leads(via, n, f, id)
    ensures forall i, j :: 0 <= i < j < |Once(via, n, f)| ==> Once(via, n, f)[i] != Once(via, n, f)[j]
  {
    if n == 0 {
    } else {
      OnceReachesEach(via, n - 1, f);
      var before, c := Once(via, n - 1, f), via[n - 1];
      forall id
        ensures id in Once(via, n, f) <==> Leads(via, n, f, id)
      {
        if Leads(via, n - 1, f, id) {
          assert Leads(via, n, f, id);
        }
        if id == c.id && Passes(c, f) {
          assert Leads(via, n, f, id);
        }
      }
      if c.id !in before && Passes(c, f) {
        assert Once(via, n, f) == before + [c.id];
      }
    }
  }

  /** One that passes leads to a, and none of those up to it to b. */
  ghost predicate LeadsSooner(via: seq<Conn>, n: nat, f: Filter, a: nat, b: nat)
    requires n <= |via|
  {
    exists p :: 0 <= p < n && via[p].id == a && Passes(via[p], f) && !Leads(via, p + 1, f, b)
  }

  /** ... in the order of their first members. */
  lemma {:induction false} OnceInOrder(via: seq<Conn>, n: nat, f: Filter, i: nat, j: nat)
    requires n <= |via| && i < j < |Once(via, n, f)|
    ensures LeadsSooner(via, n, f, Once(via, n, f)[i], Once(via, n, f)[j])
  {
    OnceReachesEach(via, n - 1, f);
    var before := Once(via, n - 1, f);
    if j < |before| {
      OnceInOrder(via, n - 1, f, i, j);
    } else {
      assert before[i] in before;
      var p :| 0 <= p < n - 1 && via[p].id == before[i] && Passes(via[p], f);
    }
  }
}
