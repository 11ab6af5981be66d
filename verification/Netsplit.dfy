/** Netsplits: server_split of src/server.c, with chanuser_delete of src/chanuser.c,
    channel_delete of src/channel.c and client_delete of src/client.c. */
module Netsplit {
  import opened Prelude
  import opened World

  // ---------- what hangs below a server ----------

  /** The way up from x comes by s. */
  predicate Under(uplink: map<nat, nat>, hops: map<nat, nat>, x: nat, s: nat)
    decreases if x in hops then hops[x] else 0
  {
    x == s ||
    (x in uplink && x in hops && uplink[x] in hops && hops[uplink[x]] < hops[x] && Under(uplink, hops, uplink[x], s))
  }

  function BelowIn(uplink: map<nat, nat>, hops: map<nat, nat>, s: nat): set<nat> {
    set x | x in uplink && x != s && Under(uplink, hops, x, s)
  }

  function UsersIn(uplink: map<nat, nat>, hops: map<nat, nat>, home: map<nat, nat>, s: nat): set<nat> {
    set u | u in home && Under(uplink, hops, home[u], s)
  }

  /** The proper descendants of s. */
  function Below(w: World, s: nat): set<nat> {
    BelowIn(w.uplink, w.hops, s)
  }

  /** The users of s and of its descendants. */
  function UsersAt(w: World, s: nat): set<nat> {
    UsersIn(w.uplink, w.hops, w.home, s)
  }

  lemma {:induction false} UnderIsFarther(uplink: map<nat, nat>, hops: map<nat, nat>, x: nat, s: nat)
    requires Under(uplink, hops, x, s) && x != s
    ensures x in hops && s in hops && hops[s] < hops[x]
    decreases if x in hops then hops[x] else 0
  {
    if uplink[x] != s {
      UnderIsFarther(uplink, hops, uplink[x], s);
    }
  }

  /** A server's descendants and users can be severed. */
  lemma BelowIsSevered(w: World, me: nat, s: nat)
    requires TreeValid(w, me) && s in w.servers
    ensures Severed(w, me, Below(w, s), UsersAt(w, s))
  {
    forall x | x in w.uplink && w.uplink[x] in Below(w, s)
      ensures x in Below(w, s)
    {
      UnderIsFarther(w.uplink, w.hops, w.uplink[x], s);
    }
  }

  ghost predicate Climbs(uplink: map<nat, nat>, hops: map<nat, nat>) {
    forall x :: x in uplink ==> x in hops && uplink[x] in hops && hops[uplink[x]] < hops[x]
  }

  /** What is left hangs where it hung. */
  lemma {:induction false} UnderInRest(uplink: map<nat, nat>, hops: map<nat, nat>, gone: set<nat>, x: nat, s: nat)
    requires Climbs(uplink, hops) && x in hops && x !in gone
    requires forall y :: y in uplink && uplink[y] in gone ==> y in gone
    ensures Under(uplink - gone, hops - gone, x, s) <==> Under(uplink, hops, x, s)
    decreases hops[x]
  {
    if x != s && x in uplink {
      UnderInRest(uplink, hops, gone, uplink[x], s);
    }
  }

  lemma BelowInRest(w: World, me: nat, servers: set<nat>, users: set<nat>, keep: bool, s: nat)
    requires TreeValid(w, me) && Severed(w, me, servers, users)
    ensures Below(Without(w, servers, users, keep), s) == Below(w, s) - servers
  {
    forall x | x in w.uplink && x !in servers
      ensures Under(w.uplink - servers, w.hops - servers, x, s) <==> Under(w.uplink, w.hops, x, s)
    {
      UnderInRest(w.uplink, w.hops, servers, x, s);
    }
  }

  lemma UsersInRest(w: World, me: nat, servers: set<nat>, users: set<nat>, keep: bool, s: nat)
    requires TreeValid(w, me) && Severed(w, me, servers, users)
    ensures UsersAt(Without(w, servers, users, keep), s) == UsersAt(w, s) - users
  {
    forall p | p in w.hops && p !in servers
      ensures Under(w.uplink - servers, w.hops - servers, p, s) <==> Under(w.uplink, w.hops, p, s)
    {
      UnderInRest(w.uplink, w.hops, servers, p, s);
    }
    UsersStay(w.uplink, w.hops, w.home, servers, users, s);
  }

  lemma UsersStay(uplink: map<nat, nat>, hops: map<nat, nat>, home: map<nat, nat>, servers: set<nat>, users: set<nat>, s: nat)
    requires forall u :: u in home && u !in users ==> home[u] in hops && home[u] !in servers
    requires forall p :: p in hops && p !in servers ==>
               (Under(uplink - servers, hops - servers, p, s) <==> Under(uplink, hops, p, s))
    ensures UsersIn(uplink - servers, hops - servers, home - users, s) == UsersIn(uplink, hops, home, s) - users
  {
  }

  function AfterSplit(w: World, s: nat): World {
    Without(w, Below(w, s), UsersAt(w, s), false)
  }

  /** A netsplit keeps the tree and the memberships valid. */
  lemma SplitKeepsValid(w: World, me: nat, s: nat)
    requires Valid(w, me) && s in w.servers
    ensures Valid(AfterSplit(w, s), me)
  {
    BelowIsSevered(w, me, s);
    WithoutStaysValid(w, me, Below(w, s), UsersAt(w, s), false);
  }

  // ---------- a list of subtrees ----------

  function Subtree(w: World, c: nat): set<nat> {
    {c} + Below(w, c)
  }

  function Subtrees(w: World, list: seq<nat>, n: nat): set<nat>
    requires n <= |list|
  {
    if n == 0 then {} else Subtrees(w, list, n - 1) + Subtree(w, list[n - 1])
  }

  function UsersOf(w: World, list: seq<nat>, n: nat): set<nat>
    requires n <= |list|
  {
    if n == 0 then {} else UsersOf(w, list, n - 1) + UsersAt(w, list[n - 1])
  }

  lemma {:induction false} SubtreesHave(w: World, list: seq<nat>, n: nat)
    requires n <= |list|
    ensures forall x :: x in Subtrees(w, list, n) <==> exists i :: 0 <= i < n && x in Subtree(w, list[i])
    ensures forall u :: u in UsersOf(w, list, n) <==> exists i :: 0 <= i < n && u in UsersAt(w, list[i])
  {
    if n == 0 {
    } else {
      SubtreesHave(w, list, n - 1);
    }
  }

  /** The way up to s comes by one of its dependent servers. */
  lemma {:induction false} ByAChild(w: World, me: nat, x: nat, s: nat) returns (c: nat)
    requires TreeValid(w, me) && s in w.servers && Under(w.uplink, w.hops, x, s) && x != s
    ensures c in w.servers[s] && Under(w.uplink, w.hops, x, c)
    decreases w.hops[x]
  {
    if w.uplink[x] == s {
      assert Exactly(w.servers[s], w.uplink, s);
      c := x;
    } else {
      c := ByAChild(w, me, w.uplink[x], s);
    }
  }

  // ---------- the lists of one client ----------

  lemma UnlinkOne(lists: map<nat, seq<nat>>, parent: map<nat, nat>, x: nat)
    requires Mirrors(lists, parent) && x in parent
    ensures Lists(lists, {}, {x}) == lists[parent[x] := Filter(lists[parent[x]], {x})]
  {
    forall p | p in lists && p != parent[x]
      ensures Filter(lists[p], {x}) == lists[p]
    {
      assert Exactly(lists[p], parent, p);
      FilterNothing(lists[p], {x});
    }
  }

  /** The lists when a server with no dependent servers is unlinked and gone. */
  lemma UnlinkServer(lists: map<nat, seq<nat>>, parent: map<nat, nat>, x: nat)
    requires Mirrors(lists, parent) && x in parent
    ensures Lists(lists, {x}, {x}) == lists[parent[x] := Filter(lists[parent[x]], {x})] - {x}
  {
    UnlinkOne(lists, parent, x);
    var v, all := Lists(lists, {x}, {x}), Lists(lists, {}, {x}) - {x};
    assert v.Keys == all.Keys;
  }

  lemma DropKey(lists: map<nat, seq<nat>>, x: nat)
    ensures Lists(lists, {x}, {}) == lists - {x}
  {
    forall p | p in lists
      ensures Filter(lists[p], {}) == lists[p]
    {
      FilterNothing(lists[p], {});
    }
  }

  /** The channels once a user has left the first j of its channels. */
  function Leaving(rooms: map<nat, Room>, u: nat, left: set<nat>, keep: bool): map<nat, Room> {
    map c | c in rooms && !(c in left && Emptied(rooms[c], {u}, keep))
      :: if c in left then rooms[c].Without({u}) else rooms[c]
  }

  lemma RoomNothingOf(r: Room, u: nat, keep: bool)
    requires Absent(r, u)
    ensures !Emptied(r, {u}, keep) && r.Without({u}) == r
  {
    FilterNothing(r.all, {u});
    FilterNothing(r.local, {u});
    FilterNothing(r.remote, {u});
    assert r.all != [] ==> r.all[0] in r.all;
  }

  predicate Absent(r: Room, u: nat) {
    u !in r.all && u !in r.local && u !in r.remote
  }

  lemma LeavingIsWithout(rooms: map<nat, Room>, u: nat, left: set<nat>, keep: bool)
    requires forall c :: c in rooms && c !in left ==> Absent(rooms[c], u)
    ensures Leaving(rooms, u, left, keep) == RoomsWithout(rooms, {u}, keep)
  {
    forall c | c in rooms && c !in left
      ensures !Emptied(rooms[c], {u}, keep) && rooms[c].Without({u}) == rooms[c]
    {
      RoomNothingOf(rooms[c], u, keep);
    }
  }

  /** Having left all its channels, the user is in none. */
  lemma LeftAll(w: World, me: nat, u: nat, keep: bool)
    requires MembersValid(w, me) && u in w.joined
    ensures Leaving(w.rooms, u, First(w.joined[u], |w.joined[u]|), keep) == RoomsWithout(w.rooms, {u}, keep)
  {
    var left := First(w.joined[u], |w.joined[u]|);
    forall c | c in w.rooms && c !in left
      ensures Absent(w.rooms[c], u)
    {
      assert RoomValid(w.home, me, w.rooms[c]);
    }
    LeavingIsWithout(w.rooms, u, left, keep);
  }

  lemma FilterHead(s: seq<nat>)
    requires s != [] && Distinct(s)
    ensures Filter(s, {s[0]}) == s[1..]
  {
    assert forall x :: x in s[1..] ==> x != s[0];
    FilterNothing(s[1..], {s[0]});
  }

  ghost predicate OnChannel(w: World, me: nat, u: nat, c: nat) {
    c in w.rooms && u in w.rooms[c].all && RoomValid(w.home, me, w.rooms[c])
  }

  /** Leaving one channel: the member lists without the user, the local or the remote
      one according to where the user is. */
  lemma LeaveRoom(w: World, me: nat, c: nat, u: nat)
    requires OnChannel(w, me, u, c)
    ensures var r := w.rooms[c];
      r.Without({u}) == if w.home[u] == me then Room(Filter(r.all, {u}), Filter(r.local, {u}), r.remote, r.persistent)
                        else Room(Filter(r.all, {u}), r.local, Filter(r.remote, {u}), r.persistent)
    ensures var r := w.rooms[c];
      forall keep :: Emptied(r, {u}, keep) <==> Filter(r.all, {u}) == [] && !(keep && r.persistent)
  {
    var r := w.rooms[c];
    FilterNothing(if w.home[u] == me then r.remote else r.local, {u});
    assert Filter(r.all, {u}) != [] ==> Filter(r.all, {u})[0] in r.all;
  }

  lemma LeavingOneMore(rooms: map<nat, Room>, u: nat, left: set<nat>, keep: bool, c: nat)
    requires c in rooms && c !in left
    ensures var before := Leaving(rooms, u, left, keep);
      && c in before && before[c] == rooms[c]
      && Leaving(rooms, u, left + {c}, keep)
         == if Emptied(rooms[c], {u}, keep) then before - {c} else before[c := rooms[c].Without({u})]
  {
    var before, after := Leaving(rooms, u, left, keep), Leaving(rooms, u, left + {c}, keep);
    assert forall x :: x != c ==> (x in after <==> x in before) && (x in after ==> after[x] == before[x]);
  }

  lemma ReplacedAndDropped<T>(m: map<nat, T>, k: nat, v: T)
    ensures m[k := v] - {k} == m - {k}
  {
  }

  lemma FirstIsNew(list: seq<nat>, j: nat)
    requires j < |list| && Distinct(list)
    ensures list[j] !in First(list, j) && list[j] in list
    ensures Filter(list[j..], {list[j]}) == list[j + 1..]
  {
    FilterHead(list[j..]);
    assert list[j..][1..] == list[j + 1..];
  }

  lemma MayLeaveEach(w: World, me: nat, u: nat)
    requires MembersValid(w, me) && u in w.home
    ensures u in w.joined && Distinct(w.joined[u]) && forall c :: c in w.joined[u] ==> OnChannel(w, me, u, c)
  {
  }

  /** A user's lists and channels gone, as one step. */
  lemma UserGone(w: World, u: nat, keep: bool)
    requires Mirrors(w.users, w.home) && u in w.home
    ensures Without(w, {}, {u}, keep)
         == World(w.uplink, w.hops, w.source, w.servers, w.users[w.home[u] := Filter(w.users[w.home[u]], {u})], w.home - {u},
                  w.joined - {u}, RoomsWithout(w.rooms, {u}, keep))
  {
    ListsNothing(w.servers);
    UnlinkOne(w.users, w.home, u);
    assert w.uplink - {} == w.uplink && w.hops - {} == w.hops && w.source - {} == w.source;
  }

  /** A server without users and dependent servers gone, as one step. */
  lemma ServerGone(w: World, c: nat, keep: bool)
    requires Mirrors(w.servers, w.uplink) && c in w.uplink
    ensures Without(w, {c}, {}, keep)
         == World(w.uplink - {c}, w.hops - {c}, w.source - {c}, w.servers[w.uplink[c] := Filter(w.servers[w.uplink[c]], {c})] - {c},
                  w.users - {c}, w.home, w.joined, w.rooms)
  {
    UnlinkServer(w.servers, w.uplink, c);
    DropKey(w.users, c);
    RoomsNothing(w.rooms, keep);
    assert w.home - {} == w.home && w.joined - {} == w.joined;
  }

  // ---------- the server ----------

  class Server {
    const me: nat
    var w: World

    /** chanuser_delete, and channel_delete when the channel is empty. */
    method Leave(u: nat, c: nat, keep: bool, ghost before: World, ghost left: set<nat>)
      requires OnChannel(before, me, u, c) && c !in left
      requires w.rooms == Leaving(before.rooms, u, left, keep) && w.home == before.home && u in w.joined && u in w.home
      modifies this
      ensures w == old(w).(joined := old(w).joined[u := Filter(old(w).joined[u], {c})],
                           rooms := Leaving(before.rooms, u, left + {c}, keep))
    {
      LeaveRoom(before, me, c, u);
      LeavingOneMore(before.rooms, u, left, keep, c);
      w := w.(joined := w.joined[u := Filter(w.joined[u], {c})]);
      var r := w.rooms[c];
      if w.home[u] == me {
        r := Room(Filter(r.all, {u}), Filter(r.local, {u}), r.remote, r.persistent);
      } else {
        r := Room(Filter(r.all, {u}), r.local, Filter(r.remote, {u}), r.persistent);
      }
      ReplacedAndDropped(w.rooms, c, r);
      w := w.(rooms := w.rooms[c := r]);
      if r.all == [] && !(keep && r.persistent) {
        w := w.(rooms := w.rooms - {c});
      }
    }

    /** The loop over a user's channels. */
    method LeaveEach(u: nat, channels: seq<nat>, keep: bool)
      requires u in w.joined && w.joined[u] == channels && u in w.home
      requires Distinct(channels) && forall c :: c in channels ==> OnChannel(w, me, u, c)
      modifies this
      ensures w == old(w).(joined := old(w).joined[u := []],
                           rooms := Leaving(old(w).rooms, u, First(channels, |channels|), keep))
    {
      ghost var before := w;
      assert channels[0..] == channels && Leaving(before.rooms, u, {}, keep) == before.rooms;
      assert before.joined[u := channels] == before.joined;
      for j := 0 to |channels|
        invariant w == before.(joined := before.joined[u := channels[j..]],
                               rooms := Leaving(before.rooms, u, First(channels, j), keep))
      {
        FirstIsNew(channels, j);
        Leave(u, channels[j], keep, before, First(channels, j));
      }
      assert channels[|channels|..] == [];
    }

    /** Takes a user off all channels and deletes it (client_delete). Channels that lose
        their last member go too: all of them in a netsplit, those without +P when a
        client exits. */
    method RemoveUser(u: nat, keep: bool)
      requires Valid(w, me) && u in w.home
      modifies this
      ensures w == Without(old(w), {}, {u}, keep)
    {
      UserGone(w, u, keep);
      ReplacedAndDropped(w.joined, u, []);
      MayLeaveEach(w, me, u);
      LeftAll(w, me, u, keep);
      LeaveEach(u, w.joined[u], keep);
      var p := w.home[u];
      w := w.(users := w.users[p := Filter(w.users[p], {u})], home := w.home - {u}, joined := w.joined - {u});
    }

    /** client_delete of a server that has no users and dependent servers any more. */
    method RemoveServer(c: nat, ghost keep: bool)
      requires Valid(w, me) && c in w.uplink
      modifies this
      ensures w == Without(old(w), {c}, {}, keep)
    {
      ServerGone(w, c, keep);
      var p := w.uplink[c];
      w := w.(servers := w.servers[p := Filter(w.servers[p], {c})] - {c}, users := w.users - {c},
              uplink := w.uplink - {c}, hops := w.hops - {c}, source := w.source - {c});
    }

    method SplitUsers(s: nat)
      requires Valid(w, me) && s in w.users
      modifies this
      ensures w == UsersLeft(old(w), s, |old(w).users[s]|)
    {
      ghost var before := w;
      var people := w.users[s];
      WithoutNothing(w, false);
      for k := 0 to |people|
        invariant w == UsersLeft(before, s, k)
      {
        UserIsNext(before, me, s, k);
        RemoveUser(people[k], false);
      }
    }

    /** server_split: first the server's users, one by one, then its dependent servers,
        each split in turn and deleted. Exactly the proper descendants and the users at
        or below the server go; the server itself is left to its caller. */
    method Split(s: nat)
      requires Valid(w, me) && s in w.servers
      modifies this
      ensures w == AfterSplit(old(w), s)
      decreases |Below(w, s)|
    {
      ghost var before := w;
      var deps := w.servers[s];
      SplitUsers(s);
      PhaseTwo(before, s);
      for i := 0 to |deps|
        invariant w == PartLeft(before, s, i)
      {
        ChildIsNext(before, me, s, i);
        Split(deps[i]);
        ChildIsSplit(before, me, s, i);
        RemoveServer(deps[i], false);
      }
      SplitIsAll(before, me, s);
    }
  }

  // ---------- the steps of a split ----------

  function UsersLeft(w: World, s: nat, k: nat): World
    requires s in w.users && k <= |w.users[s]|
  {
    Without(w, {}, First(w.users[s], k), false)
  }

  lemma UserIsThere(w: World, s: nat, k: nat)
    requires Mirrors(w.users, w.home) && s in w.users && k < |w.users[s]|
    ensures w.users[s][k] in w.home && w.users[s][k] !in First(w.users[s], k)
  {
    assert Exactly(w.users[s], w.home, s) && w.users[s][k] in w.users[s];
  }

  lemma OneUserLess(w: World, s: nat, k: nat)
    requires s in w.users && k < |w.users[s]|
    ensures Without(UsersLeft(w, s, k), {}, {w.users[s][k]}, false) == UsersLeft(w, s, k + 1)
  {
    WithoutTwice(w, {}, First(w.users[s], k), {}, {w.users[s][k]}, false);
    var none: set<nat> := {};
    assert none + none == none;
  }

  lemma UserIsNext(w: World, me: nat, s: nat, k: nat)
    requires Valid(w, me) && s in w.users && k < |w.users[s]|
    ensures Valid(UsersLeft(w, s, k), me) && w.users[s][k] in UsersLeft(w, s, k).home
    ensures Without(UsersLeft(w, s, k), {}, {w.users[s][k]}, false) == UsersLeft(w, s, k + 1)
  {
    UserIsThere(w, s, k);
    OneUserLess(w, s, k);
    WithoutStaysValid(w, me, {}, First(w.users[s], k), false);
  }

  function GoneServers(w: World, s: nat, i: nat): set<nat>
    requires s in w.servers && i <= |w.servers[s]|
  {
    Subtrees(w, w.servers[s], i)
  }

  function GoneUsers(w: World, s: nat, i: nat): set<nat>
    requires s in w.users && s in w.servers && i <= |w.servers[s]|
  {
    First(w.users[s], |w.users[s]|) + UsersOf(w, w.servers[s], i)
  }

  function PartLeft(w: World, s: nat, i: nat): World
    requires s in w.users && s in w.servers && i <= |w.servers[s]|
  {
    Without(w, GoneServers(w, s, i), GoneUsers(w, s, i), false)
  }

  lemma PhaseTwo(w: World, s: nat)
    requires s in w.users && s in w.servers
    ensures UsersLeft(w, s, |w.users[s]|) == PartLeft(w, s, 0)
  {
    assert GoneUsers(w, s, 0) == First(w.users[s], |w.users[s]|);
  }

  lemma WhichSubtree(w: World, list: seq<nat>, i: nat, x: nat) returns (c: nat)
    requires i <= |list| && x in Subtrees(w, list, i)
    ensures c in list && x in Subtree(w, c)
    ensures forall y :: y in Subtree(w, c) ==> y in Subtrees(w, list, i)
    ensures forall u :: u in UsersAt(w, c) ==> u in UsersOf(w, list, i)
  {
    SubtreesHave(w, list, i);
    var j :| 0 <= j < i && x in Subtree(w, list[j]);
    c := list[j];
  }

  lemma PartIsClosed(w: World, s: nat, i: nat, x: nat)
    requires s in w.servers && i <= |w.servers[s]| && Climbs(w.uplink, w.hops)
    requires x in w.uplink && w.uplink[x] in GoneServers(w, s, i)
    ensures x in GoneServers(w, s, i)
  {
    var c := WhichSubtree(w, w.servers[s], i, w.uplink[x]);
    assert Under(w.uplink, w.hops, x, c);
  }

  lemma PartTakesUsers(w: World, s: nat, i: nat, u: nat)
    requires s in w.servers && s in w.users && i <= |w.servers[s]| && u in w.home && w.home[u] in GoneServers(w, s, i)
    ensures u in GoneUsers(w, s, i)
  {
    var c := WhichSubtree(w, w.servers[s], i, w.home[u]);
    assert u in UsersAt(w, c);
  }

  lemma PartSparesMe(w: World, me: nat, s: nat, i: nat)
    requires TreeValid(w, me) && s in w.servers && i <= |w.servers[s]|
    ensures me !in GoneServers(w, s, i)
  {
    assert Exactly(w.servers[s], w.uplink, s);
    if me in GoneServers(w, s, i) {
      var c := WhichSubtree(w, w.servers[s], i, me);
    }
  }

  lemma PartIsSevered(w: World, me: nat, s: nat, i: nat)
    requires TreeValid(w, me) && s in w.servers && i <= |w.servers[s]|
    ensures Severed(w, me, GoneServers(w, s, i), GoneUsers(w, s, i))
  {
    PartSparesMe(w, me, s, i);
    forall x | x in w.uplink && w.uplink[x] in GoneServers(w, s, i)
      ensures x in GoneServers(w, s, i)
    {
      PartIsClosed(w, s, i, x);
    }
    forall u | u in w.home && w.home[u] in GoneServers(w, s, i)
      ensures u in GoneUsers(w, s, i)
    {
      PartTakesUsers(w, s, i, u);
    }
  }

  lemma ChildIsThere(w: World, me: nat, s: nat, i: nat)
    requires TreeValid(w, me) && s in w.servers && i < |w.servers[s]|
    ensures w.servers[s][i] in w.uplink && w.servers[s][i] !in GoneServers(w, s, i)
  {
    var list := w.servers[s];
    var c := list[i];
    assert Exactly(list, w.uplink, s) && c in list;
    SubtreesHave(w, list, i);
    forall j | 0 <= j < i
      ensures c !in Subtree(w, list[j])
    {
      assert list[j] in list && list[j] != c;
      if Under(w.uplink, w.hops, c, list[j]) {
        UnderIsFarther(w.uplink, w.hops, s, list[j]);
      }
    }
  }

  lemma {:induction false} UnderByWay(uplink: map<nat, nat>, hops: map<nat, nat>, x: nat, c: nat, s: nat)
    requires Under(uplink, hops, x, c) && Under(uplink, hops, c, s)
    ensures Under(uplink, hops, x, s)
    decreases if x in hops then hops[x] else 0
  {
    if x != c {
      UnderByWay(uplink, hops, uplink[x], c, s);
    }
  }

  /** A dependent server's subtree is part of what is below s. */
  lemma ChildIsBelow(w: World, me: nat, s: nat, c: nat)
    requires TreeValid(w, me) && s in w.servers && c in w.servers[s]
    ensures c in w.uplink && w.uplink[c] == s && Subtree(w, c) <= Below(w, s) && UsersAt(w, c) <= UsersAt(w, s)
  {
    assert Exactly(w.servers[s], w.uplink, s);
    assert Under(w.uplink, w.hops, c, s);
    forall x | x in w.hops && Under(w.uplink, w.hops, x, c)
      ensures Under(w.uplink, w.hops, x, s) && x != s
    {
      UnderByWay(w.uplink, w.hops, x, c, s);
      if x != c {
        UnderIsFarther(w.uplink, w.hops, x, c);
      }
    }
  }

  lemma SmallerSet(a: set<nat>, b: set<nat>, c: nat)
    requires a <= b && c in b && c !in a
    ensures |a| < |b|
  {
    assert b == a + (b - a) && c in b - a;
  }

  /** Before a dependent server is split: it is there, and less hangs below it. */
  lemma ChildIsNext(w: World, me: nat, s: nat, i: nat)
    requires Valid(w, me) && s in w.servers && i < |w.servers[s]|
    ensures var v, c := PartLeft(w, s, i), w.servers[s][i];
      Valid(v, me) && c in v.servers && |Below(v, c)| < |Below(w, s)|
  {
    var c := w.servers[s][i];
    PartIsSevered(w, me, s, i);
    ChildIsThere(w, me, s, i);
    ChildIsBelow(w, me, s, c);
    WithoutStaysValid(w, me, GoneServers(w, s, i), GoneUsers(w, s, i), false);
    BelowInRest(w, me, GoneServers(w, s, i), GoneUsers(w, s, i), false, c);
    SmallerSet(Below(w, c) - GoneServers(w, s, i), Below(w, s), c);
  }

  lemma OneSubtreeMore(w: World, s: nat, i: nat, below: set<nat>, users: set<nat>)
    requires s in w.users && s in w.servers && i < |w.servers[s]|
    requires below == Below(w, w.servers[s][i]) - GoneServers(w, s, i)
    requires users == UsersAt(w, w.servers[s][i]) - GoneUsers(w, s, i)
    ensures Without(Without(PartLeft(w, s, i), below, users, false), {w.servers[s][i]}, {}, false) == PartLeft(w, s, i + 1)
  {
    var c, gone, people := w.servers[s][i], GoneServers(w, s, i), GoneUsers(w, s, i);
    WithoutTwice(w, gone, people, below, users, false);
    WithoutTwice(w, gone + below, people + users, {c}, {}, false);
    assert (gone + below) + {c} == GoneServers(w, s, i + 1);
    assert (people + users) + {} == GoneUsers(w, s, i + 1);
  }

  lemma ChildIsLeft(v: World, me: nat, c: nat)
    requires Valid(v, me) && c in v.uplink
    ensures var t := Without(v, Below(v, c), UsersAt(v, c), false);
      Valid(t, me) && c in t.uplink
  {
    SplitKeepsValid(v, me, c);
  }

  /** After a dependent server was split: it is still there, and deleting it makes one
      subtree more that is gone. */
  lemma ChildIsSplit(w: World, me: nat, s: nat, i: nat)
    requires Valid(w, me) && s in w.servers && i < |w.servers[s]|
    ensures var v, c := PartLeft(w, s, i), w.servers[s][i];
      var t := AfterSplit(v, c);
      Valid(t, me) && c in t.uplink && Without(t, {c}, {}, false) == PartLeft(w, s, i + 1)
  {
    var v, c := PartLeft(w, s, i), w.servers[s][i];
    ChildIsNext(w, me, s, i);
    ChildIsThere(w, me, s, i);
    PartIsSevered(w, me, s, i);
    ChildIsLeft(v, me, c);
    BelowInRest(w, me, GoneServers(w, s, i), GoneUsers(w, s, i), false, c);
    UsersInRest(w, me, GoneServers(w, s, i), GoneUsers(w, s, i), false, c);
    OneSubtreeMore(w, s, i, Below(v, c), UsersAt(v, c));
  }

  /** All subtrees of dependent servers together are all that is below. */
  lemma ServersAreAll(w: World, me: nat, s: nat)
    requires TreeValid(w, me) && s in w.servers
    ensures GoneServers(w, s, |w.servers[s]|) == Below(w, s)
  {
    var list := w.servers[s];
    SubtreesHave(w, list, |list|);
    forall x | x in GoneServers(w, s, |list|)
      ensures x in Below(w, s)
    {
      var c := WhichSubtree(w, list, |list|, x);
      ChildIsBelow(w, me, s, c);
    }
    forall x | x in Below(w, s)
      ensures x in GoneServers(w, s, |list|)
    {
      var c := ByAChild(w, me, x, s);
      assert x in Subtree(w, c);
    }
  }

  lemma WhoseUser(w: World, list: seq<nat>, i: nat, u: nat) returns (c: nat)
    requires i <= |list| && u in UsersOf(w, list, i)
    ensures c in list && u in UsersAt(w, c)
  {
    SubtreesHave(w, list, i);
    var j :| 0 <= j < i && u in UsersAt(w, list[j]);
    c := list[j];
  }

  lemma UsersAreBelow(w: World, me: nat, s: nat, u: nat)
    requires TreeValid(w, me) && s in w.servers && u in GoneUsers(w, s, |w.servers[s]|)
    ensures u in UsersAt(w, s)
  {
    var list := w.servers[s];
    assert Exactly(w.users[s], w.home, s);
    if u !in w.users[s] {
      var c := WhoseUser(w, list, |list|, u);
      ChildIsBelow(w, me, s, c);
    }
  }

  lemma UsersBelowAreIn(w: World, me: nat, s: nat, u: nat)
    requires TreeValid(w, me) && s in w.servers && u in UsersAt(w, s)
    ensures u in GoneUsers(w, s, |w.servers[s]|)
  {
    var list := w.servers[s];
    if w.home[u] == s {
      assert Exactly(w.users[s], w.home, s);
    } else {
      SubtreesHave(w, list, |list|);
      var c := ByAChild(w, me, w.home[u], s);
      assert u in UsersAt(w, c);
    }
  }

  /** Their users and the server's own are all users. */
  lemma UsersAreAll(w: World, me: nat, s: nat)
    requires TreeValid(w, me) && s in w.servers
    ensures GoneUsers(w, s, |w.servers[s]|) == UsersAt(w, s)
  {
    forall u | u in GoneUsers(w, s, |w.servers[s]|)
      ensures u in UsersAt(w, s)
    {
      UsersAreBelow(w, me, s, u);
    }
    forall u | u in UsersAt(w, s)
      ensures u in GoneUsers(w, s, |w.servers[s]|)
    {
      UsersBelowAreIn(w, me, s, u);
    }
  }

  lemma SplitIsAll(w: World, me: nat, s: nat)
    requires Valid(w, me) && s in w.servers
    ensures PartLeft(w, s, |w.servers[s]|) == AfterSplit(w, s)
  {
    ServersAreAll(w, me, s);
    UsersAreAll(w, me, s);
  }

  // ---------- what a split leaves ----------

  /** The servers left are s and those not below it, each where it hung. */
  lemma ServersAfterSplit(w: World, s: nat, x: nat)
    requires x in w.uplink && x in w.servers
    ensures var v := AfterSplit(w, s);
      && (x in v.servers <==> x == s || !Under(w.uplink, w.hops, x, s))
      && (x in v.servers ==> x in v.uplink && v.uplink[x] == w.uplink[x])
  {
  }

  /** The users left are those not at or below s, each with its server and all its channels. */
  lemma UsersAfterSplit(w: World, s: nat, u: nat)
    requires u in w.home && w.joined.Keys == w.home.Keys
    ensures var v := AfterSplit(w, s);
      && (u in v.home <==> !Under(w.uplink, w.hops, w.home[u], s))
      && (u in v.home ==> v.home[u] == w.home[u] && u in v.joined && v.joined[u] == w.joined[u])
  {
  }

  lemma FilterAll(s: seq<nat>, gone: set<nat>)
    ensures Filter(s, gone) == [] <==> forall x :: x in s ==> x in gone
  {
    var left := Filter(s, gone);
    if left != [] {
      assert left[0] in left;
    }
  }

  /** The channels left are those with a member that is left, and those that had none
      before; the members left keep their order. */
  lemma RoomsAfterSplit(w: World, me: nat, s: nat, c: nat)
    requires c in w.rooms && RoomValid(w.home, me, w.rooms[c])
    ensures var v, r := AfterSplit(w, s), w.rooms[c];
      && (c in v.rooms <==> r.all == [] || exists u :: u in r.all && !Under(w.uplink, w.hops, w.home[u], s))
      && (c in v.rooms ==> v.rooms[c].all == Filter(r.all, UsersAt(w, s)))
  {
  }

  /** A channel with +P whose members are all lost in a split goes, although it stays,
      empty, when the same users exit. */
  lemma SplitDropsPersistent(w: World, s: nat, c: nat)
    requires c in w.rooms && w.rooms[c].persistent && w.rooms[c].all != []
    requires forall u :: u in w.rooms[c].all ==> u in UsersAt(w, s)
    ensures c !in AfterSplit(w, s).rooms
    ensures var exited := Without(w, {}, UsersAt(w, s), true);
      c in exited.rooms && exited.rooms[c].all == []
  {
    FilterAll(w.rooms[c].all, UsersAt(w, s));
  }
}
