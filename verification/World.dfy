/** The servers, users and channels a server knows, and the world without some of them:
    the lists of src/client.c, src/chanuser.c and src/channel.c. */
module World {
  import opened Prelude

  // ---------- lists ----------

  /** A list without the members of a set; the others keep their order. */
  function Filter(s: seq<nat>, gone: set<nat>): (r: seq<nat>)
    ensures forall x :: x in r <==> x in s && x !in gone
    ensures Distinct(s) ==> Distinct(r)
  {
    if s == [] then []
    else
      var rest := Filter(s[1..], gone);
      if s[0] in gone then rest else [s[0]] + rest
  }

  lemma {:induction false} FilterTwice(s: seq<nat>, a: set<nat>, b: set<nat>)
    ensures Filter(Filter(s, a), b) == Filter(s, a + b)
  {
    if s == [] {
    } else {
      FilterTwice(s[1..], a, b);
      if s[0] !in a {
        assert ([s[0]] + Filter(s[1..], a))[1..] == Filter(s[1..], a);
      }
    }
  }

  lemma {:induction false} FilterNothing(s: seq<nat>, gone: set<nat>)
    requires forall x :: x in s ==> x !in gone
    ensures Filter(s, gone) == s
  {
    if s == [] {
    } else {
      FilterNothing(s[1..], gone);
    }
  }

  // ---------- the world ----------

  /** A channel's member lists: all, those on this server, those on others; and whether
      it has mode +P. */
  datatype Room = Room(all: seq<nat>, local: seq<nat>, remote: seq<nat>, persistent: bool) {
    function Without(users: set<nat>): Room {
      Room(Filter(all, users), Filter(local, users), Filter(remote, users), persistent)
    }
  }

  /** Of each server but this one where it hangs; of each server how many hops away it is,
      the connection it is reached by, named by the neighbour at its other end, and its
      dependent servers and users; of each user the server and the channels. */
  datatype World = World(
    uplink: map<nat, nat>, hops: map<nat, nat>, source: map<nat, nat>, servers: map<nat, seq<nat>>, users: map<nat, seq<nat>>,
    home: map<nat, nat>, joined: map<nat, seq<nat>>, rooms: map<nat, Room>)

  /** The lists are those of the things that hang on each key. */
  ghost predicate Mirrors(lists: map<nat, seq<nat>>, parent: map<nat, nat>) {
    && (forall x :: x in parent ==> parent[x] in lists)
    && (forall p :: p in lists ==> Distinct(lists[p]) && Exactly(lists[p], parent, p))
  }

  ghost predicate Exactly(list: seq<nat>, parent: map<nat, nat>, p: nat) {
    forall x :: x in list <==> x in parent && parent[x] == p
  }

  ghost predicate SameKeys(w: World, me: nat) {
    me !in w.uplink && w.servers.Keys == w.uplink.Keys + {me} && w.users.Keys == w.servers.Keys && w.hops.Keys == w.servers.Keys
  }

  /** How many hops away each server is: as many as there are links on the way up. */
  ghost predicate Depths(uplink: map<nat, nat>, hops: map<nat, nat>, me: nat) {
    && me in hops && hops[me] == 0
    && forall x :: x in uplink ==> x in hops && uplink[x] in hops && hops[x] == hops[uplink[x]] + 1
  }

  /** The servers form a tree below `me`, each as many hops away as it is deep, and the dependent
      lists mirror it. */
  ghost predicate TreeValid(w: World, me: nat) {
    && SameKeys(w, me)
    && Mirrors(w.servers, w.uplink) && Mirrors(w.users, w.home)
    && Depths(w.uplink, w.hops, me)
  }

  /** A server is reached by the connection its uplink is reached by, a neighbour by its
      own. */
  ghost predicate Sourced(source: map<nat, nat>, uplink: map<nat, nat>, me: nat) {
    && source.Keys == uplink.Keys + {me} && source[me] == me
    && forall x :: x in uplink ==>
         uplink[x] in source && source[x] == if uplink[x] == me then x else source[uplink[x]]
  }

  function Elsewhere(home: map<nat, nat>, me: nat): set<nat> {
    set u | u in home && home[u] != me
  }

  function Here(home: map<nat, nat>, me: nat): set<nat> {
    set u | u in home && home[u] == me
  }

  /** A channel's members are users; its local and remote lists split its member list. */
  ghost predicate RoomValid(home: map<nat, nat>, me: nat, r: Room) {
    && Distinct(r.all) && (forall u :: u in r.all ==> u in home)
    && r.local == Filter(r.all, Elsewhere(home, me)) && r.remote == Filter(r.all, Here(home, me))
  }

  /** A user's channel list is of the channels that have it as a member. */
  ghost predicate ListsRooms(list: seq<nat>, rooms: map<nat, Room>, u: nat) {
    Distinct(list) && forall c :: c in list <==> c in rooms && u in rooms[c].all
  }

  ghost predicate Members(home: map<nat, nat>, joined: map<nat, seq<nat>>, rooms: map<nat, Room>, me: nat) {
    && joined.Keys == home.Keys
    && (forall u :: u in joined ==> ListsRooms(joined[u], rooms, u))
    && (forall c :: c in rooms ==> RoomValid(home, me, rooms[c]))
  }

  /** Users' channel lists and channels' member lists are inverse to each other. */
  ghost predicate MembersValid(w: World, me: nat) {
    Members(w.home, w.joined, w.rooms, me)
  }

  ghost predicate Valid(w: World, me: nat) {
    TreeValid(w, me) && Sourced(w.source, w.uplink, me) && MembersValid(w, me)
  }

  // ---------- the world without some servers and users ----------

  /** A channel goes when its last member goes, unless channels with +P are kept. */
  predicate Emptied(r: Room, users: set<nat>, keep: bool) {
    r.all != [] && (forall u :: u in r.all ==> u in users) && !(keep && r.persistent)
  }

  function Lists(lists: map<nat, seq<nat>>, keys: set<nat>, gone: set<nat>): (r: map<nat, seq<nat>>)
    ensures r.Keys == lists.Keys - keys
  {
    map p | p in lists && p !in keys :: Filter(lists[p], gone)
  }

  function RoomsWithout(rooms: map<nat, Room>, users: set<nat>, keep: bool): map<nat, Room> {
    map c | c in rooms && !Emptied(rooms[c], users, keep) :: rooms[c].Without(users)
  }

  function Without(w: World, servers: set<nat>, users: set<nat>, keep: bool): World {
    World(w.uplink - servers, w.hops - servers, w.source - servers,
          Lists(w.servers, servers, servers), Lists(w.users, servers, users),
          w.home - users, w.joined - users, RoomsWithout(w.rooms, users, keep))
  }

  lemma LessTwice<T>(m: map<nat, T>, a: set<nat>, b: set<nat>)
    ensures m - a - b == m - (a + b)
  {
  }

  lemma ListsTwice(lists: map<nat, seq<nat>>, k1: set<nat>, a: set<nat>, k2: set<nat>, b: set<nat>)
    ensures Lists(Lists(lists, k1, a), k2, b) == Lists(lists, k1 + k2, a + b)
  {
    var v, all := Lists(Lists(lists, k1, a), k2, b), Lists(lists, k1 + k2, a + b);
    assert v.Keys == all.Keys;
    forall p | p in v
      ensures v[p] == all[p]
    {
      FilterTwice(lists[p], a, b);
    }
  }

  lemma RoomTwice(r: Room, a: set<nat>, b: set<nat>)
    ensures r.Without(a).Without(b) == r.Without(a + b)
  {
    FilterTwice(r.all, a, b);
    FilterTwice(r.local, a, b);
    FilterTwice(r.remote, a, b);
  }

  lemma EmptiedTwice(r: Room, a: set<nat>, b: set<nat>, keep: bool)
    ensures Emptied(r, a + b, keep) <==> Emptied(r, a, keep) || Emptied(r.Without(a), b, keep)
  {
    var left := Filter(r.all, a);
    assert left != [] ==> left[0] in left;
    assert r.all != [] ==> r.all[0] in r.all;
  }

  lemma OneRoomTwice(rooms: map<nat, Room>, a: set<nat>, b: set<nat>, keep: bool, c: nat)
    ensures var v, all := RoomsWithout(RoomsWithout(rooms, a, keep), b, keep), RoomsWithout(rooms, a + b, keep);
      (c in v <==> c in all) && (c in v ==> v[c] == all[c])
  {
    if c in rooms {
      EmptiedTwice(rooms[c], a, b, keep);
      RoomTwice(rooms[c], a, b);
    }
  }

  lemma RoomsTwice(rooms: map<nat, Room>, a: set<nat>, b: set<nat>, keep: bool)
    ensures RoomsWithout(RoomsWithout(rooms, a, keep), b, keep) == RoomsWithout(rooms, a + b, keep)
  {
    forall c
      ensures var v, all := RoomsWithout(RoomsWithout(rooms, a, keep), b, keep), RoomsWithout(rooms, a + b, keep);
        (c in v <==> c in all) && (c in v ==> v[c] == all[c])
    {
      OneRoomTwice(rooms, a, b, keep, c);
    }
  }

  /** Taking away in two steps is taking away at once. */
  lemma WithoutTwice(w: World, s1: set<nat>, u1: set<nat>, s2: set<nat>, u2: set<nat>, keep: bool)
    ensures Without(Without(w, s1, u1, keep), s2, u2, keep) == Without(w, s1 + s2, u1 + u2, keep)
  {
    LessTwice(w.uplink, s1, s2);
    LessTwice(w.hops, s1, s2);
    LessTwice(w.source, s1, s2);
    ListsTwice(w.servers, s1, s1, s2, s2);
    ListsTwice(w.users, s1, u1, s2, u2);
    LessTwice(w.home, u1, u2);
    LessTwice(w.joined, u1, u2);
    RoomsTwice(w.rooms, u1, u2, keep);
  }

  lemma ListsNothing(lists: map<nat, seq<nat>>)
    ensures Lists(lists, {}, {}) == lists
  {
    forall p | p in lists
      ensures Lists(lists, {}, {})[p] == lists[p]
    {
      FilterNothing(lists[p], {});
    }
  }

  lemma RoomNothing(r: Room, keep: bool)
    ensures !Emptied(r, {}, keep) && r.Without({}) == r
  {
    FilterNothing(r.all, {});
    FilterNothing(r.local, {});
    FilterNothing(r.remote, {});
    assert r.all != [] ==> r.all[0] in r.all;
  }

  lemma RoomsNothing(rooms: map<nat, Room>, keep: bool)
    ensures RoomsWithout(rooms, {}, keep) == rooms
  {
    forall c | c in rooms
      ensures !Emptied(rooms[c], {}, keep) && rooms[c].Without({}) == rooms[c]
    {
      RoomNothing(rooms[c], keep);
    }
  }

  lemma WithoutNothing(w: World, keep: bool)
    ensures Without(w, {}, {}, keep) == w
  {
    ListsNothing(w.servers);
    ListsNothing(w.users);
    RoomsNothing(w.rooms, keep);
  }

  // ---------- what stays valid ----------

  /** With a server go all that hang on it and its users. */
  ghost predicate Severed(w: World, me: nat, servers: set<nat>, users: set<nat>) {
    && me !in servers
    && (forall x :: x in w.uplink && w.uplink[x] in servers ==> x in servers)
    && (forall u :: u in w.home && w.home[u] in servers ==> u in users)
  }

  lemma MirrorsWithout(lists: map<nat, seq<nat>>, parent: map<nat, nat>, keys: set<nat>, gone: set<nat>)
    requires Mirrors(lists, parent) && forall x :: x in parent && parent[x] in keys ==> x in gone
    ensures Mirrors(Lists(lists, keys, gone), parent - gone)
  {
    var less := Lists(lists, keys, gone);
    forall p | p in less
      ensures Exactly(less[p], parent - gone, p)
    {
      assert Exactly(lists[p], parent, p);
    }
  }

  lemma KeysWithout(w: World, me: nat, servers: set<nat>, users: set<nat>, keep: bool)
    requires SameKeys(w, me) && me !in servers
    ensures SameKeys(Without(w, servers, users, keep), me)
  {
    var v := Without(w, servers, users, keep);
    assert v.uplink.Keys == w.uplink.Keys - servers && v.hops.Keys == w.hops.Keys - servers;
    assert w.servers.Keys - servers == (w.uplink.Keys - servers) + {me};
  }

  lemma TreeWithout(w: World, me: nat, servers: set<nat>, users: set<nat>, keep: bool)
    requires TreeValid(w, me) && Severed(w, me, servers, users)
    ensures TreeValid(Without(w, servers, users, keep), me)
  {
    KeysWithout(w, me, servers, users, keep);
    MirrorsWithout(w.servers, w.uplink, servers, servers);
    MirrorsWithout(w.users, w.home, servers, users);
  }

  lemma SourcesWithout(source: map<nat, nat>, uplink: map<nat, nat>, me: nat, servers: set<nat>)
    requires Sourced(source, uplink, me) && me !in servers
    requires forall x :: x in uplink && uplink[x] in servers ==> x in servers
    ensures Sourced(source - servers, uplink - servers, me)
  {
    assert (source - servers).Keys == (uplink - servers).Keys + {me};
  }

  lemma RoomStaysValid(home: map<nat, nat>, me: nat, users: set<nat>, r: Room)
    requires RoomValid(home, me, r)
    ensures RoomValid(home - users, me, r.Without(users))
  {
    SplitStays(r.all, Elsewhere(home, me), Elsewhere(home - users, me), users);
    SplitStays(r.all, Here(home, me), Here(home - users, me), users);
  }

  lemma SplitStays(all: seq<nat>, far: set<nat>, left: set<nat>, users: set<nat>)
    requires left == far - users
    ensures Filter(Filter(all, far), users) == Filter(Filter(all, users), left)
  {
    FilterTwice(all, far, users);
    FilterTwice(all, users, left);
    assert far + users == users + left;
  }

  lemma MembersWithout(home: map<nat, nat>, joined: map<nat, seq<nat>>, rooms: map<nat, Room>, me: nat,
                       users: set<nat>, keep: bool)
    requires Members(home, joined, rooms, me)
    ensures Members(home - users, joined - users, RoomsWithout(rooms, users, keep), me)
  {
    var left := RoomsWithout(rooms, users, keep);
    forall u | u in joined && u !in users
      ensures ListsRooms(joined[u], left, u)
    {
      assert ListsRooms(joined[u], rooms, u);
    }
    forall c | c in left
      ensures RoomValid(home - users, me, left[c])
    {
      RoomStaysValid(home, me, users, rooms[c]);
    }
  }

  /** Whatever is severed from a valid world leaves a valid world. */
  lemma WithoutStaysValid(w: World, me: nat, servers: set<nat>, users: set<nat>, keep: bool)
    requires Valid(w, me) && Severed(w, me, servers, users)
    ensures Valid(Without(w, servers, users, keep), me)
  {
    TreeWithout(w, me, servers, users, keep);
    SourcesWithout(w.source, w.uplink, me, servers);
    MembersWithout(w.home, w.joined, w.rooms, me, users, keep);
  }
}
