/** The network of servers: a spanning tree (section 1.1 of RFC 1459), and the tree seen
    from any of its servers. */
module Network {

  /** A link that was added, with the server that came by it. */
  datatype Link = Link(server: nat, uplink: nat)

  /** A network that grew link by link from one server. */
  datatype Net = Net(first: nat, links: seq<Link>)

  function Servers(net: Net): set<nat> {
    {net.first} + set i | 0 <= i < |net.links| :: net.links[i].server
  }

  function Front(net: Net): Net
    requires net.links != []
  {
    net.(links := net.links[..|net.links| - 1])
  }

  function Last(net: Net): Link
    requires net.links != []
  {
    net.links[|net.links| - 1]
  }

  /** Every link brings a new server to one that is there. */
  predicate IsTree(net: Net)
    decreases |net.links|
  {
    net.links == [] ||
    (IsTree(Front(net)) && Last(net).server !in Servers(Front(net)) && Last(net).uplink in Servers(Front(net)))
  }

  predicate Linked(net: Net, a: nat, b: nat) {
    Link(a, b) in net.links || Link(b, a) in net.links
  }

  /** A server's place as seen from another: through whom it is reached, and how far it is. */
  datatype Place = Place(through: nat, distance: nat)

  type Map = map<nat, Place>

  /** The tree hung up at one server: every other one is reached through a neighbour
      nearer to it, and every link is used that way. */
  ghost predicate Rooted(net: Net, origin: nat, m: Map) {
    && m.Keys == Servers(net) && origin in m
    && (forall t :: t in m && t != origin ==> Nearer(net, m, t))
    && (forall a, b :: Linked(net, a, b) ==> OneWay(m, origin, a, b))
  }

  predicate Nearer(net: Net, m: Map, t: nat)
    requires t in m
  {
    var u := m[t].through;
    u in m && Linked(net, u, t) && m[u].distance < m[t].distance
  }

  predicate OneWay(m: Map, origin: nat, a: nat, b: nat) {
    a in m && b in m && (Below(m, origin, a, b) || Below(m, origin, b, a))
  }

  /** b is reached through a. */
  predicate Below(m: Map, origin: nat, a: nat, b: nat)
    requires b in m
  {
    b != origin && m[b].through == a
  }

  lemma ServersOfFront(net: Net)
    requires net.links != []
    ensures Servers(net) == Servers(Front(net)) + {Last(net).server}
    ensures forall a, b :: Linked(net, a, b) <==>
              Linked(Front(net), a, b) || Link(a, b) == Last(net) || Link(b, a) == Last(net)
  {
    var links := net.links;
    assert links == Front(net).links + [Last(net)];
    forall s | s in Servers(net)
      ensures s in Servers(Front(net)) + {Last(net).server}
    {
      if s != net.first {
        var i :| 0 <= i < |links| && links[i].server == s;
        assert i < |links| - 1 ==> Front(net).links[i].server == s;
      }
    }
    forall s | s in Servers(Front(net))
      ensures s in Servers(net)
    {
      if s != net.first {
        var i :| 0 <= i < |links| - 1 && Front(net).links[i].server == s;
        assert links[i].server == s;
      }
    }
  }

  function WithBelow(m: Map, link: Link): Map
    requires link.uplink in m
  {
    m[link.server := Place(link.uplink, m[link.uplink].distance + 1)]
  }

  /** The new server hung below its uplink. */
  lemma HangBelow(net: Net, origin: nat, m: Map)
    requires net.links != [] && IsTree(net) && Rooted(Front(net), origin, m)
    ensures Rooted(net, origin, WithBelow(m, Last(net)))
  {
    ServersOfFront(net);
    var m1, c := WithBelow(m, Last(net)), Last(net).server;
    forall t | t in m1 && t != origin
      ensures Nearer(net, m1, t)
    {
      assert t != c ==> Nearer(Front(net), m, t);
    }
    forall a, b | Linked(net, a, b)
      ensures OneWay(m1, origin, a, b)
    {
      if Linked(Front(net), a, b) {
        assert OneWay(m, origin, a, b);
      }
    }
  }

  function WithAbove(m: Map, link: Link): Map {
    var farther := map t | t in m :: Place(m[t].through, m[t].distance + 2);
    farther[link.uplink := Place(link.server, 1)][link.server := Place(link.server, 0)]
  }

  /** All others hung below the new server. */
  lemma HangAbove(net: Net, m: Map)
    requires net.links != [] && IsTree(net) && Rooted(Front(net), Last(net).uplink, m)
    ensures Rooted(net, Last(net).server, WithAbove(m, Last(net)))
  {
    ServersOfFront(net);
    var m1, c, u := WithAbove(m, Last(net)), Last(net).server, Last(net).uplink;
    forall t | t in m1 && t != c
      ensures Nearer(net, m1, t)
    {
      assert t != u ==> Nearer(Front(net), m, t);
    }
    forall a, b | Linked(net, a, b)
      ensures OneWay(m1, c, a, b)
    {
      if Linked(Front(net), a, b) {
        assert OneWay(m, u, a, b);
      }
    }
  }

  /** A tree can be hung up at any of its servers. */
  lemma {:induction false} CanBeRooted(net: Net, origin: nat) returns (m: Map)
    requires IsTree(net) && origin in Servers(net)
    ensures Rooted(net, origin, m)
    decreases |net.links|
  {
    if net.links == [] {
      m := map[origin := Place(origin, 0)];
    } else if origin == Last(net).server {
      var below := CanBeRooted(Front(net), Last(net).uplink);
      HangAbove(net, below);
      m := WithAbove(below, Last(net));
    } else {
      ServersOfFront(net);
      var rest := CanBeRooted(Front(net), origin);
      HangBelow(net, origin, rest);
      m := WithBelow(rest, Last(net));
    }
  }
}
