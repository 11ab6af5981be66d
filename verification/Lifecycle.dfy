/** What a server goes through: servers and users arrive, users join and leave channels and
    exit, servers split off (src/client.c, src/chanuser.c, src/channel.c, src/server.c). Every
    run of these keeps the tree of servers and the memberships valid. */
module Lifecycle {
  import opened Prelude
  import opened World
  import opened Netsplit

  datatype Event =
    | ServerArrives(server: nat, uplink: nat)
    | UserArrives(user: nat, at: nat)
    | Joins(user: nat, channel: nat)
    | Leaves(user: nat, channel: nat, how: Ending)
    | Persists(channel: nat, on: bool)
    | Exits(user: nat)
    | SplitsOff(server: nat)

  /** A membership ends by the user's PART here or on another server, or by a KICK. */
  datatype Ending = Parts | PartsElsewhere | IsKicked

  // ---------- arrivals ----------

  function Append(lists: map<nat, seq<nat>>, p: nat, x: nat): map<nat, seq<nat>>
    requires p in lists
  {
    lists[p := lists[p] + [x]]
  }

  /** A new server below one that is known, at the end of its list; a neighbour comes with
      a connection of its own, any other by that of its uplink. */
  function NewServer(w: World, me: nat, x: nat, up: nat): World
    requires up in w.servers && up in w.hops && up in w.source
  {
    w.(uplink := w.uplink[x := up], hops := w.hops[x := w.hops[up] + 1],
       source := w.source[x := if up == me then x else w.source[up]],
       servers := Append(w.servers, up, x)[x := []], users := w.users[x := []])
  }

  function NewUser(w: World, u: nat, s: nat): World
    requires s in w.users
  {
    w.(users := Append(w.users, s, u), home := w.home[u := s], joined := w.joined[u := []])
  }

  /** A member more, at the end of the member list and of the local or the remote one. */
  function WithMember(r: Room, u: nat, local: bool): Room {
    if local then Room(r.all + [u], r.local + [u], r.remote, r.persistent)
    else Room(r.all + [u], r.local, r.remote + [u], r.persistent)
  }

  function RoomOf(w: World, c: nat): Room {
    if c in w.rooms then w.rooms[c] else Room([], [], [], false)
  }

  /** channel_join: nothing if the user is a member; else the channel is made if need be. */
  function Join(w: World, me: nat, u: nat, c: nat): World
    requires u in w.joined && u in w.home
  {
    if c in w.joined[u] then w
    else w.(joined := Append(w.joined, u, c), rooms := w.rooms[c := WithMember(RoomOf(w, c), u, w.home[u] == me)])
  }

  /** Whether a channel left empty goes: m_part keeps it if it has +P, ms_part does not,
      and chanuser_kick leaves it in any case. */
  predicate EmptyGoes(how: Ending, persistent: bool) {
    match how
    case Parts => !persistent
    case PartsElsewhere => true
    case IsKicked => false
  }

  /** chanuser_delete, and what its caller does with an empty channel. */
  function Leave(w: World, u: nat, c: nat, how: Ending): World
    requires u in w.joined && c in w.rooms
  {
    var r := w.rooms[c].Without({u});
    w.(joined := w.joined[u := Filter(w.joined[u], {c})],
       rooms := if r.all == [] && EmptyGoes(how, r.persistent) then w.rooms - {c} else w.rooms[c := r])
  }

  // ---------- each keeps the world valid ----------

  lemma {:induction false} FilterAppend(s: seq<nat>, x: nat, gone: set<nat>)
    ensures Filter(s + [x], gone) == if x in gone then Filter(s, gone) else Filter(s, gone) + [x]
  {
    if s == [] {
      assert s + [x] == [x] && [x][1..] == s;
    } else {
      assert (s + [x])[1..] == s[1..] + [x];
      FilterAppend(s[1..], x, gone);
    }
  }

  lemma {:induction false} FilterSame(s: seq<nat>, a: set<nat>, b: set<nat>)
    requires forall x :: x in s ==> (x in a <==> x in b)
    ensures Filter(s, a) == Filter(s, b)
  {
    if s != [] {
      FilterSame(s[1..], a, b);
    }
  }

  lemma MirrorsAppend(lists: map<nat, seq<nat>>, parent: map<nat, nat>, p: nat, x: nat)
    requires Mirrors(lists, parent) && p in lists && x !in parent
    ensures Mirrors(Append(lists, p, x), parent[x := p])
  {
    var more := Append(lists, p, x);
    forall q | q in more
      ensures Distinct(more[q]) && Exactly(more[q], parent[x := p], q)
    {
      assert Exactly(lists[q], parent, q);
      if q == p {
        assert x !in lists[p];
      }
    }
  }

  lemma MirrorsNewKey(lists: map<nat, seq<nat>>, parent: map<nat, nat>, x: nat)
    requires Mirrors(lists, parent) && x !in lists
    ensures Mirrors(lists[x := []], parent)
  {
    var more := lists[x := []];
    forall q | q in more
      ensures Distinct(more[q]) && Exactly(more[q], parent, q)
    {
      assert q in lists ==> Exactly(lists[q], parent, q);
    }
  }

  /** Rooms depend only on which of their members are where. */
  lemma RoomStays(home: map<nat, nat>, more: map<nat, nat>, me: nat, r: Room)
    requires RoomValid(home, me, r) && forall u :: u in r.all ==> u in more && more[u] == home[u]
    ensures RoomValid(more, me, r)
  {
    FilterSame(r.all, Elsewhere(home, me), Elsewhere(more, me));
    FilterSame(r.all, Here(home, me), Here(more, me));
  }

  lemma DepthsGrow(uplink: map<nat, nat>, hops: map<nat, nat>, me: nat, x: nat, up: nat)
    requires Depths(uplink, hops, me) && up in hops && x !in hops
    ensures Depths(uplink[x := up], hops[x := hops[up] + 1], me)
  {
  }

  lemma NewServerKeepsTree(w: World, me: nat, x: nat, up: nat)
    requires TreeValid(w, me) && up in w.servers && x !in w.servers && up in w.source
    ensures TreeValid(NewServer(w, me, x, up), me)
  {
    var v := NewServer(w, me, x, up);
    assert Mirrors(v.servers, v.uplink) by {
      MirrorsAppend(w.servers, w.uplink, up, x);
      MirrorsNewKey(Append(w.servers, up, x), w.uplink[x := up], x);
    }
    MirrorsNewKey(w.users, w.home, x);
    NewServerKeepsKeys(w, me, x, up);
    DepthsGrow(w.uplink, w.hops, me, x, up);
  }

  lemma NewServerKeepsKeys(w: World, me: nat, x: nat, up: nat)
    requires SameKeys(w, me) && up in w.servers && x !in w.servers && up in w.source
    ensures SameKeys(NewServer(w, me, x, up), me)
  {
    var v := NewServer(w, me, x, up);
    assert v.uplink.Keys == w.uplink.Keys + {x} && v.hops.Keys == w.hops.Keys + {x};
    assert v.servers.Keys == w.servers.Keys + {x} && v.users.Keys == w.users.Keys + {x};
  }

  lemma SourcedGrows(source: map<nat, nat>, uplink: map<nat, nat>, me: nat, x: nat, up: nat)
    requires Sourced(source, uplink, me) && up in source && x !in source
    ensures Sourced(source[x := if up == me then x else source[up]], uplink[x := up], me)
  {
    assert uplink[x := up].Keys == uplink.Keys + {x};
  }

  lemma NewServerKeepsSources(w: World, me: nat, x: nat, up: nat)
    requires SameKeys(w, me) && up in w.servers && x !in w.servers && Sourced(w.source, w.uplink, me)
    ensures up in w.source && Sourced(NewServer(w, me, x, up).source, NewServer(w, me, x, up).uplink, me)
  {
    SourcedGrows(w.source, w.uplink, me, x, up);
  }

  lemma SameKeysAppend(lists: map<nat, seq<nat>>, p: nat, x: nat)
    requires p in lists
    ensures Append(lists, p, x).Keys == lists.Keys
  {
  }

  lemma NewUserKeepsTree(w: World, me: nat, u: nat, s: nat)
    requires TreeValid(w, me) && s in w.users && u !in w.home
    ensures TreeValid(NewUser(w, u, s), me)
  {
    MirrorsAppend(w.users, w.home, s, u);
    SameKeysAppend(w.users, s, u);
  }

  lemma NewUserKeepsMembers(home: map<nat, nat>, joined: map<nat, seq<nat>>, rooms: map<nat, Room>, me: nat, u: nat, s: nat)
    requires Members(home, joined, rooms, me) && u !in home
    ensures Members(home[u := s], joined[u := []], rooms, me)
  {
    forall c | c in rooms
      ensures RoomValid(home[u := s], me, rooms[c]) && u !in rooms[c].all
    {
      RoomStays(home, home[u := s], me, rooms[c]);
    }
    assert joined[u := []].Keys == joined.Keys + {u} && home[u := s].Keys == home.Keys + {u};
  }

  lemma WithMemberIsValid(home: map<nat, nat>, me: nat, r: Room, u: nat)
    requires RoomValid(home, me, r) && u in home && u !in r.all
    ensures RoomValid(home, me, WithMember(r, u, home[u] == me))
  {
    FilterAppend(r.all, u, Elsewhere(home, me));
    FilterAppend(r.all, u, Here(home, me));
  }

  /** One membership more, on both sides. */
  lemma OneMembershipMore(joined: map<nat, seq<nat>>, rooms: map<nat, Room>, u: nat, c: nat, r: Room, x: nat)
    requires x in joined && u in joined && ListsRooms(joined[x], rooms, x) && c !in joined[u]
    requires forall y :: y in r.all <==> y == u || (c in rooms && y in rooms[c].all)
    requires u in joined && ListsRooms(joined[u], rooms, u)
    ensures ListsRooms(Append(joined, u, c)[x], rooms[c := r], x)
  {
  }

  ghost predicate RoomsValid(home: map<nat, nat>, rooms: map<nat, Room>, me: nat) {
    forall d :: d in rooms ==> RoomValid(home, me, rooms[d])
  }

  lemma JoinKeepsRooms(home: map<nat, nat>, rooms: map<nat, Room>, me: nat, u: nat, c: nat, r: Room)
    requires u in home && RoomsValid(home, rooms, me) && (c in rooms ==> u !in rooms[c].all)
    requires r == WithMember(if c in rooms then rooms[c] else Room([], [], [], false), u, home[u] == me)
    ensures RoomsValid(home, rooms[c := r], me)
  {
    WithMemberIsValid(home, me, if c in rooms then rooms[c] else Room([], [], [], false), u);
  }

  lemma JoinKeepsMembers(home: map<nat, nat>, joined: map<nat, seq<nat>>, rooms: map<nat, Room>, me: nat, u: nat, c: nat,
                         r: Room)
    requires Members(home, joined, rooms, me) && u in home && c !in joined[u]
    requires r == WithMember(if c in rooms then rooms[c] else Room([], [], [], false), u, home[u] == me)
    ensures Members(home, Append(joined, u, c), rooms[c := r], me)
  {
    assert ListsRooms(joined[u], rooms, u);
    forall x | x in joined
      ensures ListsRooms(Append(joined, u, c)[x], rooms[c := r], x)
    {
      OneMembershipMore(joined, rooms, u, c, r, x);
    }
    JoinKeepsRooms(home, rooms, me, u, c, r);
    assert RoomsValid(home, rooms[c := r], me);
    SameKeysAppend(joined, u, c);
  }

  // ---------- runs ----------

  /** One event; it has no effect where the code refuses it: on somebody known already or
      not known. */
  function Step(w: World, me: nat, e: Event): World {
    match e
    case ServerArrives(x, up) =>
      if x !in w.servers && up in w.servers && up in w.hops && up in w.source then NewServer(w, me, x, up) else w
    case UserArrives(u, s) =>
      if u !in w.home && s in w.users then NewUser(w, u, s) else w
    case Joins(u, c) =>
      if u in w.home && u in w.joined then Join(w, me, u, c) else w
    case Leaves(u, c, how) =>
      if u in w.joined && c in w.rooms && u in w.rooms[c].all then Leave(w, u, c, how) else w
    case Persists(c, on) =>
      if c in w.rooms then w.(rooms := w.rooms[c := w.rooms[c].(persistent := on)]) else w
    case Exits(u) =>
      if u in w.home then Without(w, {}, {u}, true) else w
    case SplitsOff(s) =>
      if s in w.uplink then Without(AfterSplit(w, s), {s}, {}, false) else w
  }

  datatype Run = Begin | Then(before: Run, event: Event)

  /** A server alone. */
  function Alone(me: nat): World {
    World(map[], map[me := 0], map[me := me], map[me := []], map[me := []], map[], map[], map[])
  }

  function After(me: nat, run: Run): World {
    match run
    case Begin => Alone(me)
    case Then(before, e) => Step(After(me, before), me, e)
  }

  // ---------- what each event does ----------

  /** Nothing but the memberships of u in c differs. */
  ghost predicate OnlyMembership(w: World, v: World, u: nat, c: nat) {
    && v == w.(joined := v.joined, rooms := v.rooms) && v.joined.Keys == w.joined.Keys
    && (forall x :: x in w.joined && x != u ==> v.joined[x] == w.joined[x])
    && (forall d :: d != c ==> (d in v.rooms <==> d in w.rooms))
    && (forall d :: d in w.rooms && d != c ==> v.rooms[d] == w.rooms[d])
  }

  /** A join adds the user at the end of the channel's lists, and the channel at the end of the
      user's; a channel that is not there is made, without +P; a member's join does nothing. */
  lemma JoinIsExact(w: World, me: nat, u: nat, c: nat)
    requires u in w.home && u in w.joined && ListsRooms(w.joined[u], w.rooms, u)
    ensures var v := Step(w, me, Joins(u, c));
      && OnlyMembership(w, v, u, c) && c in v.rooms && u in v.rooms[c].all
      && (c in w.rooms && u in w.rooms[c].all ==> v == w)
      && (!(c in w.rooms && u in w.rooms[c].all) ==>
            && v.joined[u] == w.joined[u] + [c]
            && (c in w.rooms ==> JoinedBy(w.rooms[c], v.rooms[c], u, w.home[u] == me))
            && (c !in w.rooms ==> JoinedBy(Room([], [], [], false), v.rooms[c], u, w.home[u] == me)))
  {
  }

  predicate JoinedBy(before: Room, now: Room, u: nat, local: bool) {
    && now.all == before.all + [u] && now.persistent == before.persistent
    && (local ==> now.local == before.local + [u] && now.remote == before.remote)
    && (!local ==> now.remote == before.remote + [u] && now.local == before.local)
  }

  lemma WithoutOne(s: seq<nat>, k: nat)
    requires 0 < k < |s|
    ensures s[..k] + s[k + 1..] == [s[0]] + (s[1..][..k - 1] + s[1..][k..])
  {
  }

  lemma {:induction false} FilterTakesOut(s: seq<nat>, x: nat, k: nat)
    requires Distinct(s) && k < |s| && s[k] == x
    ensures Filter(s, {x}) == s[..k] + s[k + 1..]
  {
    if k == 0 {
      FilterNothing(s[1..], {x});
    } else {
      FilterTakesOut(s[1..], x, k - 1);
      WithoutOne(s, k);
    }
  }

  /** A list without one of its elements; the others stay in their order. */
  ghost predicate OneLess(before: seq<nat>, now: seq<nat>, x: nat) {
    exists k :: 0 <= k < |before| && before[k] == x && now == before[..k] + before[k + 1..]
  }

  lemma FilterIsOneLess(s: seq<nat>, x: nat)
    requires Distinct(s) && x in s
    ensures OneLess(s, Filter(s, {x}), x) && |Filter(s, {x})| == |s| - 1
  {
    var k :| 0 <= k < |s| && s[k] == x;
    FilterTakesOut(s, x, k);
  }

  lemma OnlyMember(all: seq<nat>, u: nat)
    requires Distinct(all) && u in all
    ensures Filter(all, {u}) == [] <==> all == [u]
  {
    FilterIsOneLess(all, u);
    assert |all| == 1 ==> all == [all[0]];
  }

  /** A member that leaves goes from both lists; the channel goes with its last member if that
      one parts and it has no +P, or parts elsewhere. */
  lemma LeaveIsExact(w: World, me: nat, u: nat, c: nat, how: Ending)
    requires u in w.joined && ListsRooms(w.joined[u], w.rooms, u)
    requires c in w.rooms && u in w.rooms[c].all && Distinct(w.rooms[c].all)
    ensures var v := Step(w, me, Leaves(u, c, how));
      && OnlyMembership(w, v, u, c) && OneLess(w.joined[u], v.joined[u], c)
      && (c !in v.rooms <==> w.rooms[c].all == [u] && (how == PartsElsewhere || (how == Parts && !w.rooms[c].persistent)))
      && (c in v.rooms ==> OneLess(w.rooms[c].all, v.rooms[c].all, u) && v.rooms[c].persistent == w.rooms[c].persistent)
  {
    FilterIsOneLess(w.joined[u], c);
    FilterIsOneLess(w.rooms[c].all, u);
    OnlyMember(w.rooms[c].all, u);
    LeaveReplacesMembers(w, u, c, how);
  }

  lemma EmptiedByOne(r: Room, u: nat)
    requires Distinct(r.all)
    ensures Emptied(r, {u}, true) <==> r.all == [u] && !r.persistent
  {
    if r.all != [] {
      assert r.all[0] in r.all && r.all[|r.all| - 1] in r.all;
    }
  }

  /** An exit takes the user from each of its channels; those it was alone on go, unless they
      have +P. All other channels keep their members. */
  lemma ExitIsExact(w: World, me: nat, u: nat, c: nat)
    requires u in w.home && c in w.rooms && Distinct(w.rooms[c].all)
    ensures var v, all := Step(w, me, Exits(u)), w.rooms[c].all;
      && v.home == w.home - {u} && v.joined == w.joined - {u}
      && (c in v.rooms <==> all != [u] || w.rooms[c].persistent)
      && (c in v.rooms && u in all ==> OneLess(all, v.rooms[c].all, u))
      && (c in v.rooms && u !in all ==> v.rooms[c].all == all)
  {
    EmptiedByOne(w.rooms[c], u);
    if u in w.rooms[c].all {
      FilterIsOneLess(w.rooms[c].all, u);
    } else {
      FilterNothing(w.rooms[c].all, {u});
    }
  }

  /** A list with one element more at its end, the others as they were. */
  predicate OneMoreAt(before: map<nat, seq<nat>>, now: map<nat, seq<nat>>, p: nat, x: nat) {
    && p in before && p in now && now[p] == before[p] + [x]
    && forall q :: q in before && q != p ==> q in now && now[q] == before[q]
  }

  /** What arrives hangs where it says, last in the list there; a server with nothing on it, a
      user on no channel. */
  lemma ArrivalIsExact(w: World, me: nat, x: nat, at: nat)
    requires at in w.servers && at in w.users && at in w.hops && at in w.source
    ensures x !in w.servers ==>
      var v := Step(w, me, ServerArrives(x, at));
      && OneMoreAt(w.servers, v.servers, at, x) && v.servers[x] == []
      && v == w.(uplink := w.uplink[x := at], servers := v.servers, users := w.users[x := []],
                 hops := v.hops, source := v.source)
    ensures x !in w.home ==>
      var v := Step(w, me, UserArrives(x, at));
      && OneMoreAt(w.users, v.users, at, x)
      && v == w.(home := w.home[x := at], users := v.users, joined := w.joined[x := []])
  {
  }

  /** +P and -P change nothing but that. */
  lemma PersistsIsExact(w: World, me: nat, c: nat, on: bool)
    requires c in w.rooms
    ensures var v := Step(w, me, Persists(c, on));
      && v == w.(rooms := v.rooms) && v.rooms.Keys == w.rooms.Keys && v.rooms[c] == w.rooms[c].(persistent := on)
      && forall d :: d in w.rooms && d != c ==> v.rooms[d] == w.rooms[d]
  {
  }

  lemma ArrivalKeepsValid(w: World, me: nat, e: Event)
    requires Valid(w, me) && (e.ServerArrives? || e.UserArrives?)
    ensures Valid(Step(w, me, e), me)
  {
    match e
    case ServerArrives(x, up) =>
      if x !in w.servers && up in w.servers {
        NewServerKeepsSources(w, me, x, up);
        NewServerKeepsTree(w, me, x, up);
      }
    case UserArrives(u, s) =>
      if u !in w.home && s in w.users {
        NewUserKeepsTree(w, me, u, s);
        NewUserKeepsMembers(w.home, w.joined, w.rooms, me, u, s);
      }
  }

  lemma JoinKeepsValid(w: World, me: nat, u: nat, c: nat)
    requires Valid(w, me) && u in w.home
    ensures Valid(Step(w, me, Joins(u, c)), me)
  {
    if c !in w.joined[u] {
      JoinKeepsMembers(w.home, w.joined, w.rooms, me, u, c, WithMember(RoomOf(w, c), u, w.home[u] == me));
    }
  }

  lemma {:induction false} FiltersSwap(s: seq<nat>, a: set<nat>, b: set<nat>)
    ensures Filter(Filter(s, a), b) == Filter(Filter(s, b), a)
  {
    FilterTwice(s, a, b);
    FilterTwice(s, b, a);
    assert a + b == b + a;
  }

  lemma RoomOfOthers(home: map<nat, nat>, me: nat, r: Room, u: nat)
    requires RoomValid(home, me, r)
    ensures RoomValid(home, me, r.Without({u}))
  {
    FiltersSwap(r.all, Elsewhere(home, me), {u});
    FiltersSwap(r.all, Here(home, me), {u});
  }

  /** One membership less, on both sides. */
  lemma OneMembershipLess(joined: map<nat, seq<nat>>, rooms: map<nat, Room>, left: map<nat, Room>, u: nat, c: nat, x: nat)
    requires x in joined && u in joined && c in rooms && ListsRooms(joined[x], rooms, x)
    requires left == rooms[c := rooms[c].Without({u})] || (left == rooms - {c} && Filter(rooms[c].all, {u}) == [])
    ensures ListsRooms(joined[u := Filter(joined[u], {c})][x], left, x)
  {
    var others := Filter(rooms[c].all, {u});
    assert x in rooms[c].all && x != u <==> x in others;
  }

  lemma LeaveKeepsMembers(home: map<nat, nat>, joined: map<nat, seq<nat>>, rooms: map<nat, Room>, left: map<nat, Room>,
                          me: nat, u: nat, c: nat)
    requires Members(home, joined, rooms, me) && u in joined && c in rooms
    requires left == rooms[c := rooms[c].Without({u})] || (left == rooms - {c} && Filter(rooms[c].all, {u}) == [])
    ensures Members(home, joined[u := Filter(joined[u], {c})], left, me)
  {
    var now := joined[u := Filter(joined[u], {c})];
    forall x | x in now
      ensures ListsRooms(now[x], left, x)
    {
      OneMembershipLess(joined, rooms, left, u, c, x);
    }
    RoomOfOthers(home, me, rooms[c], u);
    assert now.Keys == joined.Keys;
  }

  /** The last member of a channel leaves: here by PART the channel stays if it has +P, by
      the PART of another server's user it goes, after a KICK it stays, empty. */
  lemma EndingsDiffer(w: World, u: nat, c: nat)
    requires u in w.joined && c in w.rooms && w.rooms[c].all == [u]
    ensures c in Leave(w, u, c, Parts).rooms <==> w.rooms[c].persistent
    ensures c !in Leave(w, u, c, PartsElsewhere).rooms
    ensures var v := Leave(w, u, c, IsKicked); c in v.rooms && v.rooms[c].all == []
  {
    var all := w.rooms[c].all;
    assert all[0] == u && all[1..] == [];
    assert Filter(all, {u}) == Filter(all[1..], {u}) == [];
  }

  lemma PersistenceKeepsMembers(home: map<nat, nat>, joined: map<nat, seq<nat>>, rooms: map<nat, Room>, me: nat, c: nat,
                                on: bool)
    requires Members(home, joined, rooms, me) && c in rooms
    ensures Members(home, joined, rooms[c := rooms[c].(persistent := on)], me)
  {
    var now := rooms[c := rooms[c].(persistent := on)];
    forall u | u in joined
      ensures ListsRooms(joined[u], now, u)
    {
      assert ListsRooms(joined[u], rooms, u);
    }
    assert RoomValid(home, me, rooms[c]);
  }

  lemma ExitKeepsValid(w: World, me: nat, u: nat)
    requires Valid(w, me)
    ensures Valid(Without(w, {}, {u}, true), me)
  {
    WithoutStaysValid(w, me, {}, {u}, true);
  }

  lemma MembersReplaced(w: World, me: nat, joined: map<nat, seq<nat>>, rooms: map<nat, Room>)
    requires Valid(w, me) && Members(w.home, joined, rooms, me)
    ensures Valid(w.(joined := joined, rooms := rooms), me)
  {
  }

  lemma LeaveReplacesMembers(w: World, u: nat, c: nat, how: Ending)
    requires u in w.joined && c in w.rooms
    ensures var v := Leave(w, u, c, how);
      && v == w.(joined := v.joined, rooms := v.rooms) && v.joined == w.joined[u := Filter(w.joined[u], {c})]
      && (v.rooms == w.rooms[c := w.rooms[c].Without({u})] || (v.rooms == w.rooms - {c} && Filter(w.rooms[c].all, {u}) == []))
  {
  }

  lemma LeaveIsValid(w: World, me: nat, u: nat, c: nat, how: Ending)
    requires Valid(w, me) && u in w.joined && c in w.rooms
    ensures Valid(Leave(w, u, c, how), me)
  {
    var v := Leave(w, u, c, how);
    var joined, rooms := v.joined, v.rooms;
    LeaveReplacesMembers(w, u, c, how);
    LeaveKeepsMembers(w.home, w.joined, w.rooms, rooms, me, u, c);
    MembersReplaced(w, me, joined, rooms);
  }

  lemma LeaveKeepsValid(w: World, me: nat, u: nat, c: nat, how: Ending)
    requires Valid(w, me)
    ensures Valid(Step(w, me, Leaves(u, c, how)), me)
  {
    if u in w.joined && c in w.rooms && u in w.rooms[c].all {
      LeaveIsValid(w, me, u, c, how);
    }
  }

  lemma ChangeKeepsValid(w: World, me: nat, e: Event)
    requires Valid(w, me) && (e.Joins? || e.Leaves? || e.Persists? || e.Exits? || e.SplitsOff?)
    ensures Valid(Step(w, me, e), me)
  {
    if e.Joins? {
      if e.user in w.home {
        JoinKeepsValid(w, me, e.user, e.channel);
      }
    } else if e.Leaves? {
      LeaveKeepsValid(w, me, e.user, e.channel, e.how);
    } else if e.Persists? {
      if e.channel in w.rooms {
        PersistenceKeepsMembers(w.home, w.joined, w.rooms, me, e.channel, e.on);
      }
    } else if e.Exits? {
      ExitKeepsValid(w, me, e.user);
    } else if e.server in w.uplink {
      SplitOffKeepsValid(w, me, e.server);
    }
  }

  lemma StepKeepsValid(w: World, me: nat, e: Event)
    requires Valid(w, me)
    ensures Valid(Step(w, me, e), me)
  {
    match e
    case ServerArrives(_, _) => ArrivalKeepsValid(w, me, e);
    case UserArrives(_, _) => ArrivalKeepsValid(w, me, e);
    case Joins(_, _) => ChangeKeepsValid(w, me, e);
    case Leaves(_, _, _) => ChangeKeepsValid(w, me, e);
    case Persists(_, _) => ChangeKeepsValid(w, me, e);
    case Exits(_) => ChangeKeepsValid(w, me, e);
    case SplitsOff(_) => ChangeKeepsValid(w, me, e);
  }

  lemma NothingIsLeftBelow(w: World, s: nat)
    requires s in w.uplink && Climbs(w.uplink, w.hops) && forall u :: u in w.home ==> w.home[u] in w.hops
    ensures var v := AfterSplit(w, s);
      (forall x :: x in v.uplink ==> v.uplink[x] != s) && (forall u :: u in v.home ==> v.home[u] != s)
  {
    forall x | x in w.uplink && w.uplink[x] == s
      ensures x in Below(w, s)
    {
      assert Under(w.uplink, w.hops, x, s);
    }
  }

  lemma LeafGoneStaysValid(v: World, me: nat, s: nat)
    requires Valid(v, me) && s in v.uplink
    requires (forall x :: x in v.uplink ==> v.uplink[x] != s) && (forall u :: u in v.home ==> v.home[u] != s)
    ensures Valid(Without(v, {s}, {}, false), me)
  {
    WithoutStaysValid(v, me, {s}, {}, false);
  }

  lemma SplitOffKeepsValid(w: World, me: nat, s: nat)
    requires Valid(w, me) && s in w.uplink
    ensures Valid(Without(AfterSplit(w, s), {s}, {}, false), me)
  {
    NothingIsLeftBelow(w, s);
    SplitKeepsValid(w, me, s);
    LeafGoneStaysValid(AfterSplit(w, s), me, s);
  }

  /** Whatever happens, the servers form a tree that the dependent lists mirror, users'
      channels and channels' members are inverse to each other, a channel's local and
      remote lists split its member list, and each server's connection is the one that
      leads towards it. */
  lemma {:induction false} RunsKeepValid(me: nat, run: Run)
    ensures Valid(After(me, run), me)
  {
    if run.Then? {
      RunsKeepValid(me, run.before);
      StepKeepsValid(After(me, run.before), me, run.event);
    }
  }
}
