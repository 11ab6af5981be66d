/** What a server tells a new neighbour: server_introduce and server_burst of src/server.c,
    channel_burst of src/channel.c and client_burst of src/client.c. */
module Burst {
  import opened Prelude
  import opened World
  import opened Netsplit

  /** A server with the one it hangs on, a user with its server, a channel's members. */
  datatype Event = Server(id: nat, uplink: nat) | User(id: nat, at: nat) | Njoin(channel: nat, members: seq<nat>)

  /** What was sent, the last event outermost. */
  datatype Trace = Nothing | Said(before: Trace, event: Event)

  function ServersIn(t: Trace): set<nat> {
    match t
    case Nothing => {}
    case Said(before, e) => ServersIn(before) + if e.Server? then {e.id} else {}
  }

  function UsersToldIn(t: Trace): set<nat> {
    match t
    case Nothing => {}
    case Said(before, e) => UsersToldIn(before) + if e.User? then {e.id} else {}
  }

  function ChannelsIn(t: Trace): set<nat> {
    match t
    case Nothing => {}
    case Said(before, e) => ChannelsIn(before) + if e.Njoin? then {e.channel} else {}
  }

  /** The neighbour, and which members of channels are services rather than users. */
  datatype Scene = Scene(w: World, me: nat, peer: nat, services: set<nat>)

  /** The neighbour knows the server: it is the sender, was introduced, or is on the
      neighbour's own side. */
  predicate KnowsServer(sc: Scene, before: Trace, s: nat) {
    s == sc.me || s in ServersIn(before) || Under(sc.w.uplink, sc.w.hops, s, sc.peer)
  }

  /** An event that comes after all it refers to, and for the first time. */
  predicate InOrder(sc: Scene, before: Trace, e: Event) {
    match e
    case Server(x, up) => x !in ServersIn(before) && x in sc.w.uplink && sc.w.uplink[x] == up && KnowsServer(sc, before, up)
    case User(u, s) => u !in UsersToldIn(before) && u in sc.w.home && sc.w.home[u] == s && KnowsServer(sc, before, s)
    case Njoin(c, members) =>
      && c !in ChannelsIn(before) && c in sc.w.rooms && members == sc.w.rooms[c].all
      && forall u :: u in members ==> u in UsersToldIn(before) || u in sc.services
  }

  predicate Causal(sc: Scene, t: Trace) {
    t == Nothing || (Causal(sc, t.before) && InOrder(sc, t.before, t.event))
  }

  // ---------- which servers are introduced ----------

  predicate Introduces(sc: Scene, x: nat)
    requires x in sc.w.source
  {
    var source := sc.w.source;
    x != sc.me && sc.peer != x && source[x] != sc.peer
    && (x in sc.w.uplink && sc.w.uplink[x] in source ==> source[sc.w.uplink[x]] != sc.peer)
  }

  /** The neighbour is a server on a connection of this one. */
  predicate IsNeighbour(sc: Scene) {
    sc.peer in sc.w.uplink && sc.w.uplink[sc.peer] == sc.me
  }

  ghost predicate SidesKnown(sc: Scene) {
    && SameKeys(sc.w, sc.me) && Climbs(sc.w.uplink, sc.w.hops) && Sourced(sc.w.source, sc.w.uplink, sc.me)
    && IsNeighbour(sc)
  }

  lemma {:induction false} SourceIsSide(w: World, me: nat, peer: nat, x: nat)
    requires SameKeys(w, me) && Climbs(w.uplink, w.hops) && Sourced(w.source, w.uplink, me)
    requires peer in w.uplink && w.uplink[peer] == me && x in w.uplink
    ensures w.source[x] == peer <==> Under(w.uplink, w.hops, x, peer)
    decreases w.hops[x]
  {
    var up := w.uplink[x];
    if up == me {
    } else {
      assert up in w.uplink;
      SourceIsSide(w, me, peer, up);
    }
  }

  function Told(sc: Scene, some: set<nat>): set<nat> {
    set x | x in some && x != sc.me && !Under(sc.w.uplink, sc.w.hops, x, sc.peer)
  }

  /** The servers introduced are those not on the neighbour's side. */
  lemma IntroducesTold(sc: Scene, x: nat)
    requires SidesKnown(sc) && x in sc.w.servers
    ensures Introduces(sc, x) <==> x in Told(sc, {x})
  {
    if x != sc.me {
      SourceIsSide(sc.w, sc.me, sc.peer, x);
      var up := sc.w.uplink[x];
      if up != sc.me {
        SourceIsSide(sc.w, sc.me, sc.peer, up);
      }
    }
  }

  /** The test of server_introduce tells the sides apart. */
  ghost predicate TellsSides(sc: Scene) {
    sc.w.servers.Keys == sc.w.source.Keys && forall x :: x in sc.w.source ==> (Introduces(sc, x) <==> x in Told(sc, {x}))
  }

  lemma SidesAreTold(sc: Scene)
    requires SidesKnown(sc)
    ensures TellsSides(sc)
  {
    forall x | x in sc.w.source
      ensures Introduces(sc, x) <==> x in Told(sc, {x})
    {
      IntroducesTold(sc, x);
    }
  }

  // ---------- server_introduce ----------

  /** The server itself and the subtrees of its first i dependent servers. */
  function ToldUpTo(sc: Scene, s: nat, i: nat): set<nat>
    requires s in sc.w.servers && i <= |sc.w.servers[s]|
  {
    Told(sc, {s}) + Told(sc, Subtrees(sc.w, sc.w.servers[s], i))
  }

  method IntroduceOne(sc: Scene, out: Trace, s: nat) returns (now: Trace)
    requires TellsSides(sc) && MayIntroduce(sc, out, s)
    ensures Progress(sc, out, now, Told(sc, {s}))
  {
    now := out;
    if Introduces(sc, s) {
      now := Said(out, Server(s, sc.w.uplink[s]));
    }
  }

  /** The dependent server whose turn it is. */
  method IntroduceNext(sc: Scene, ghost before: Trace, out: Trace, s: nat, i: nat)
    returns (now: Trace)
    requires TreeValid(sc.w, sc.me) && TellsSides(sc)
    requires MayIntroduce(sc, before, s) && i < |sc.w.servers[s]| && Progress(sc, before, out, ToldUpTo(sc, s, i))
    ensures Progress(sc, before, now, ToldUpTo(sc, s, i + 1))
    decreases |Below(sc.w, s)|, 0
  {
    NextMayBeIntroduced(sc, before, out, s, i);
    now := Introduce(sc, out, sc.w.servers[s][i]);
    TurnDone(sc, before, out, now, s, i);
  }

  /** server_introduce: tells of a server and then, in turn, of its dependent servers. All
      below it are told of, each once and after its uplink, except the neighbour's side. */
  method Introduce(sc: Scene, out: Trace, s: nat) returns (now: Trace)
    requires TreeValid(sc.w, sc.me) && TellsSides(sc) && MayIntroduce(sc, out, s)
    ensures Progress(sc, out, now, Told(sc, Subtree(sc.w, s)))
    decreases |Below(sc.w, s)|, 1
  {
    now := IntroduceOne(sc, out, s);
    ToldStart(sc, s);
    for i := 0 to |sc.w.servers[s]|
      invariant Progress(sc, out, now, ToldUpTo(sc, s, i))
    {
      now := IntroduceNext(sc, out, now, s, i);
    }
    AllAreTold(sc, s);
  }

  // ---------- the steps of introducing ----------

  /** The server and all below it are new, and its uplink is known. */
  ghost predicate MayIntroduce(sc: Scene, t: Trace, s: nat) {
    && s in sc.w.servers && Causal(sc, t) && ServersIn(t) !! Subtree(sc.w, s)
    && (s == sc.me || (s in sc.w.uplink && KnowsServer(sc, t, sc.w.uplink[s])))
  }

  /** A trace as far as it matters here. */
  datatype View = View(causal: bool, servers: set<nat>, users: set<nat>, channels: set<nat>)

  function ViewOf(sc: Scene, t: Trace): View {
    View(Causal(sc, t), ServersIn(t), UsersToldIn(t), ChannelsIn(t))
  }

  predicate Progress(sc: Scene, before: Trace, now: Trace, told: set<nat>) {
    ViewOf(sc, now) == View(true, ServersIn(before) + told, UsersToldIn(before), ChannelsIn(before))
  }

  lemma ProgressTwice(sc: Scene, before: Trace, mid: Trace, now: Trace, a: set<nat>, b: set<nat>)
    requires Progress(sc, before, mid, a) && Progress(sc, mid, now, b)
    ensures Progress(sc, before, now, a + b)
  {
  }

  lemma TurnDone(sc: Scene, before: Trace, mid: Trace, now: Trace, s: nat, i: nat)
    requires s in sc.w.servers && i < |sc.w.servers[s]| && Progress(sc, before, mid, ToldUpTo(sc, s, i))
    requires Progress(sc, mid, now, Told(sc, Subtree(sc.w, sc.w.servers[s][i])))
    ensures Progress(sc, before, now, ToldUpTo(sc, s, i + 1))
  {
    ProgressTwice(sc, before, mid, now, ToldUpTo(sc, s, i), Told(sc, Subtree(sc.w, sc.w.servers[s][i])));
    ToldMore(sc, s, i);
  }

  lemma ToldStart(sc: Scene, s: nat)
    requires s in sc.w.servers
    ensures ToldUpTo(sc, s, 0) == Told(sc, {s})
  {
  }

  lemma NextMayBeIntroduced(sc: Scene, before: Trace, now: Trace, s: nat, i: nat)
    requires TreeValid(sc.w, sc.me) && MayIntroduce(sc, before, s) && i < |sc.w.servers[s]|
    requires Progress(sc, before, now, ToldUpTo(sc, s, i))
    ensures var c := sc.w.servers[s][i];
      MayIntroduce(sc, now, c) && |Below(sc.w, c)| < |Below(sc.w, s)|
  {
    NextIsNew(sc, before, now, s, i);
    ChildIsLess(sc.w, sc.me, s, i);
  }

  lemma {:induction false} OneUnderTheOther(uplink: map<nat, nat>, hops: map<nat, nat>, x: nat, c: nat, d: nat)
    requires Under(uplink, hops, x, c) && Under(uplink, hops, x, d)
    ensures Under(uplink, hops, c, d) || Under(uplink, hops, d, c)
    decreases if x in hops then hops[x] else 0
  {
    if x != c && x != d {
      OneUnderTheOther(uplink, hops, uplink[x], c, d);
    }
  }

  lemma NotUnderSibling(w: World, s: nat, c: nat, d: nat)
    requires Climbs(w.uplink, w.hops) && c in w.uplink && d in w.uplink && w.uplink[c] == s && w.uplink[d] == s && c != d
    ensures !Under(w.uplink, w.hops, c, d)
  {
    if Under(w.uplink, w.hops, c, d) {
      UnderIsFarther(w.uplink, w.hops, s, d);
    }
  }

  /** The subtrees of different dependent servers have nothing in common. */
  lemma SubtreesApart(w: World, s: nat, c: nat, d: nat)
    requires Climbs(w.uplink, w.hops) && c in w.uplink && d in w.uplink && w.uplink[c] == s && w.uplink[d] == s && c != d
    ensures Subtree(w, c) !! Subtree(w, d)
  {
    NotUnderSibling(w, s, c, d);
    NotUnderSibling(w, s, d, c);
    forall x | x in Subtree(w, c) && x in Subtree(w, d)
      ensures false
    {
      OneUnderTheOther(w.uplink, w.hops, x, c, d);
    }
  }

  lemma ApartFromEarlier(w: World, me: nat, s: nat, i: nat)
    requires TreeValid(w, me) && s in w.servers && i < |w.servers[s]|
    ensures Subtrees(w, w.servers[s], i) !! Subtree(w, w.servers[s][i])
  {
    var list := w.servers[s];
    SubtreesHave(w, list, i);
    assert Exactly(list, w.uplink, s) && list[i] in list;
    forall j | 0 <= j < i
      ensures Subtree(w, list[j]) !! Subtree(w, list[i])
    {
      assert list[j] in list;
      SubtreesApart(w, s, list[j], list[i]);
    }
  }

  lemma ChildIsLess(w: World, me: nat, s: nat, i: nat)
    requires TreeValid(w, me) && s in w.servers && i < |w.servers[s]|
    ensures var c := w.servers[s][i];
      && c in w.uplink && w.uplink[c] == s && Subtree(w, c) <= Below(w, s) && |Below(w, c)| < |Below(w, s)|
  {
    var c := w.servers[s][i];
    assert Exactly(w.servers[s], w.uplink, s) && c in w.servers[s];
    ChildIsBelow(w, me, s, c);
    SmallerSet(Below(w, c), Below(w, s), c);
  }

  lemma ToldMore(sc: Scene, s: nat, i: nat)
    requires s in sc.w.servers && i < |sc.w.servers[s]|
    ensures ToldUpTo(sc, s, i + 1) == ToldUpTo(sc, s, i) + Told(sc, Subtree(sc.w, sc.w.servers[s][i]))
  {
  }

  /** What is known when a dependent server's turn comes: it and all below it are new, and
      its uplink is known. */
  lemma NextIsNew(sc: Scene, before: Trace, now: Trace, s: nat, i: nat)
    requires TreeValid(sc.w, sc.me) && s in sc.w.servers && i < |sc.w.servers[s]|
    requires ServersIn(before) !! Subtree(sc.w, s) && ServersIn(now) == ServersIn(before) + ToldUpTo(sc, s, i)
    ensures KnowsServer(sc, now, s) && ServersIn(now) !! Subtree(sc.w, sc.w.servers[s][i])
  {
    ApartFromEarlier(sc.w, sc.me, s, i);
    ChildIsLess(sc.w, sc.me, s, i);
  }

  lemma AllAreTold(sc: Scene, s: nat)
    requires TreeValid(sc.w, sc.me) && s in sc.w.servers
    ensures ToldUpTo(sc, s, |sc.w.servers[s]|) == Told(sc, Subtree(sc.w, s))
  {
    ServersAreAll(sc.w, sc.me, s);
  }

  // ---------- users and channels ----------

  /** What was sent so far, and the mark each client got with the last burst it was in. */
  datatype Sending = Sending(out: Trace, marks: map<nat, nat>)

  /** The clients marked in this burst: of them the users have been told of. */
  ghost predicate Marked(sc: Scene, serial: nat, st: Sending, seen: set<nat>) {
    && Causal(sc, st.out) && UsersToldIn(st.out) == seen - sc.services
    && (forall u :: u in st.marks && st.marks[u] == serial <==> u in seen)
    && (forall u :: u in st.marks ==> st.marks[u] <= serial)
  }

  /** All servers on this side have been told of. */
  ghost predicate ServersTold(sc: Scene, t: Trace) {
    ServersIn(t) == Told(sc, sc.w.servers.Keys)
  }

  /** client_burst, unless the client is marked. */
  method BurstUser(sc: Scene, serial: nat, st: Sending, u: nat, ghost seen: set<nat>) returns (now: Sending)
    requires Marked(sc, serial, st, seen) && ServersTold(sc, st.out)
    requires u in sc.w.home && sc.w.home[u] in sc.w.servers
    ensures Marked(sc, serial, now, seen + {u}) && ServersTold(sc, now.out)
    ensures ChannelsIn(now.out) == ChannelsIn(st.out)
  {
    now := st;
    if !(u in st.marks && st.marks[u] == serial) {
      if u !in sc.services {
        now := now.(out := Said(now.out, User(u, sc.w.home[u])));
      }
      now := now.(marks := now.marks[u := serial]);
    } else {
      assert seen + {u} == seen;
    }
  }

  method BurstUsers(sc: Scene, serial: nat, st: Sending, list: seq<nat>, ghost seen: set<nat>) returns (now: Sending)
    requires Marked(sc, serial, st, seen) && ServersTold(sc, st.out)
    requires forall u :: u in list ==> u in sc.w.home && sc.w.home[u] in sc.w.servers
    ensures Marked(sc, serial, now, seen + First(list, |list|)) && ServersTold(sc, now.out)
    ensures ChannelsIn(now.out) == ChannelsIn(st.out)
  {
    now := st;
    assert seen + {} == seen;
    for i := 0 to |list|
      invariant Marked(sc, serial, now, seen + First(list, i)) && ServersTold(sc, now.out)
      invariant ChannelsIn(now.out) == ChannelsIn(st.out)
    {
      now := BurstUser(sc, serial, now, list[i], seen + First(list, i));
      assert seen + First(list, i) + {list[i]} == seen + First(list, i + 1);
    }
  }

  /** channel_burst: first the members not told of yet, then the NJOIN that names them. */
  method BurstChannel(sc: Scene, serial: nat, st: Sending, c: nat, ghost seen: set<nat>) returns (now: Sending)
    requires Marked(sc, serial, st, seen) && ServersTold(sc, st.out)
    requires c in sc.w.rooms && c !in ChannelsIn(st.out)
    requires forall u :: u in sc.w.rooms[c].all ==> u in sc.w.home && sc.w.home[u] in sc.w.servers
    ensures var all := sc.w.rooms[c].all;
      Marked(sc, serial, now, seen + First(all, |all|))
    ensures ServersTold(sc, now.out) && ChannelsIn(now.out) == ChannelsIn(st.out) + {c}
  {
    now := BurstUsers(sc, serial, st, sc.w.rooms[c].all, seen);
    now := now.(out := Said(now.out, Njoin(c, sc.w.rooms[c].all)));
  }

  // ---------- server_burst ----------

  /** Everything hangs below this server. */
  lemma {:induction false} AllUnderMe(w: World, me: nat, x: nat)
    requires SameKeys(w, me) && Climbs(w.uplink, w.hops) && x in w.servers
    ensures Under(w.uplink, w.hops, x, me)
    decreases w.hops[x]
  {
    if x != me {
      AllUnderMe(w, me, w.uplink[x]);
    }
  }

  lemma SubtreeOfMe(sc: Scene)
    requires SameKeys(sc.w, sc.me) && Climbs(sc.w.uplink, sc.w.hops)
    ensures Told(sc, Subtree(sc.w, sc.me)) == Told(sc, sc.w.servers.Keys)
  {
    forall x | x in sc.w.uplink
      ensures x in Subtree(sc.w, sc.me)
    {
      AllUnderMe(sc.w, sc.me, x);
    }
  }

  ghost predicate AtHome(w: World) {
    && (forall u :: u in w.home ==> w.home[u] in w.servers)
    && (forall c :: c in w.rooms ==> MembersAtHome(w, c))
  }

  ghost predicate MembersAtHome(w: World, c: nat)
    requires c in w.rooms
  {
    forall u :: u in w.rooms[c].all ==> u in w.home
  }

  lemma NewInChannels(list: seq<nat>, i: nat)
    requires i < |list| && Distinct(list)
    ensures list[i] !in First(list, i) && list[i] in list && First(list, i + 1) == First(list, i) + {list[i]}
  {
  }

  method BurstNext(sc: Scene, serial: nat, st: Sending, c: nat, ghost seen: set<nat>)
    returns (now: Sending, ghost more: set<nat>)
    requires Marked(sc, serial, st, seen) && ServersTold(sc, st.out) && seen <= sc.w.home.Keys
    requires AtHome(sc.w) && c in sc.w.rooms && c !in ChannelsIn(st.out)
    ensures Marked(sc, serial, now, more) && ServersTold(sc, now.out) && more <= sc.w.home.Keys
    ensures ChannelsIn(now.out) == ChannelsIn(st.out) + {c}
  {
    assert MembersAtHome(sc.w, c);
    now := BurstChannel(sc, serial, st, c, seen);
    more := seen + First(sc.w.rooms[c].all, |sc.w.rooms[c].all|);
  }

  method BurstChannels(sc: Scene, serial: nat, st: Sending, channels: seq<nat>) returns (now: Sending, ghost seen: set<nat>)
    requires Marked(sc, serial, st, {}) && ServersTold(sc, st.out) && ChannelsIn(st.out) == {} && AtHome(sc.w)
    requires Distinct(channels) && forall c :: c in channels ==> c in sc.w.rooms
    ensures Marked(sc, serial, now, seen) && ServersTold(sc, now.out) && seen <= sc.w.home.Keys
    ensures ChannelsIn(now.out) == First(channels, |channels|)
  {
    now, seen := st, {};
    for i := 0 to |channels|
      invariant Marked(sc, serial, now, seen) && ServersTold(sc, now.out) && seen <= sc.w.home.Keys
      invariant ChannelsIn(now.out) == First(channels, i)
    {
      NewInChannels(channels, i);
      now, seen := BurstNext(sc, serial, now, channels[i], seen);
    }
  }

  method IntroduceAll(sc: Scene) returns (out: Trace)
    requires TreeValid(sc.w, sc.me) && TellsSides(sc)
    requires Told(sc, Subtree(sc.w, sc.me)) == Told(sc, sc.w.servers.Keys)
    ensures Causal(sc, out) && ServersTold(sc, out) && UsersToldIn(out) == {} && ChannelsIn(out) == {}
  {
    NothingSaid(sc);
    out := Introduce(sc, Nothing, sc.me);
  }

  lemma NothingSaid(sc: Scene)
    requires sc.me in sc.w.servers
    ensures MayIntroduce(sc, Nothing, sc.me)
  {
  }

  method BurstClients(sc: Scene, out: Trace, marks: map<nat, nat>, serial: nat, channels: seq<nat>, users: seq<nat>)
    returns (st: Sending, ghost seen: set<nat>)
    requires Causal(sc, out) && ServersTold(sc, out) && UsersToldIn(out) == {} && ChannelsIn(out) == {} && AtHome(sc.w)
    requires forall u :: u in marks ==> marks[u] < serial
    requires Distinct(channels) && (forall c :: c in channels <==> c in sc.w.rooms)
    requires forall u :: u in users <==> u in sc.w.home && u !in sc.services
    ensures Marked(sc, serial, st, seen) && ServersTold(sc, st.out)
    ensures UsersToldIn(st.out) == sc.w.home.Keys - sc.services && ChannelsIn(st.out) == sc.w.rooms.Keys
  {
    st, seen := BurstChannels(sc, serial, Sending(out, marks), channels);
    AllUsersSeen(sc.w.home.Keys, sc.services, users, seen);
    AllChannelsSeen(sc.w.rooms.Keys, channels);
    st := BurstUsers(sc, serial, st, users, seen);
    seen := seen + First(users, |users|);
  }

  lemma AllChannelsSeen(rooms: set<nat>, channels: seq<nat>)
    requires forall c :: c in channels <==> c in rooms
    ensures First(channels, |channels|) == rooms
  {
    forall c | c in rooms
      ensures c in First(channels, |channels|)
    {
      assert c in channels;
    }
  }

  lemma WorldIsAtHome(w: World, me: nat)
    requires Valid(w, me)
    ensures AtHome(w)
  {
    forall c | c in w.rooms
      ensures MembersAtHome(w, c)
    {
      assert RoomValid(w.home, me, w.rooms[c]);
    }
  }

  lemma AllUsersSeen(home: set<nat>, services: set<nat>, users: seq<nat>, seen: set<nat>)
    requires seen <= home && forall u :: u in users <==> u in home && u !in services
    ensures (seen + First(users, |users|)) - services == home - services
  {
    forall u | u in home - services
      ensures u in First(users, |users|)
    {
      assert u in users;
    }
  }

  /** What a burst goes by: the tree, the side each server is on, and members that are
      clients of known servers. */
  ghost predicate Ready(sc: Scene) {
    && TreeValid(sc.w, sc.me) && TellsSides(sc) && AtHome(sc.w)
    && Told(sc, Subtree(sc.w, sc.me)) == Told(sc, sc.w.servers.Keys)
  }

  /** In a valid world a burst to a neighbour can be made. */
  lemma ValidIsReady(sc: Scene)
    requires Valid(sc.w, sc.me) && IsNeighbour(sc)
    ensures Ready(sc)
  {
    SidesAreTold(sc);
    SubtreeOfMe(sc);
    WorldIsAtHome(sc.w, sc.me);
  }

  /** server_burst: the trace is causal, every server not on the neighbour's side, every
      user and every channel is in it, each once; users in order after their servers,
      NJOINs after the users they name. */
  method ServerBurst(sc: Scene, marks: map<nat, nat>, lastSerial: nat, channels: seq<nat>, users: seq<nat>)
    returns (out: Trace, newMarks: map<nat, nat>)
    requires Valid(sc.w, sc.me) && IsNeighbour(sc) && forall u :: u in marks ==> marks[u] <= lastSerial
    requires Distinct(channels) && (forall c :: c in channels <==> c in sc.w.rooms)
    requires forall u :: u in users <==> u in sc.w.home && u !in sc.services
    ensures Causal(sc, out) && ServersIn(out) == Told(sc, sc.w.servers.Keys)
    ensures UsersToldIn(out) == sc.w.home.Keys - sc.services && ChannelsIn(out) == sc.w.rooms.Keys
    ensures forall u :: u in newMarks ==> newMarks[u] <= lastSerial + 1
  {
    ValidIsReady(sc);
    out := IntroduceAll(sc);
    var st;
    ghost var seen;
    st, seen := BurstClients(sc, out, marks, lastSerial + 1, channels, users);
    out, newMarks := st.out, st.marks;
  }

  /** An NJOIN names only users the neighbour was told of exactly when the channel has no
      service for a member: services are members, but client_burst passes over them. */
  lemma NjoinNamesUsersOnly(sc: Scene, before: Trace, c: nat, members: seq<nat>)
    requires InOrder(sc, before, Njoin(c, members)) && UsersToldIn(before) !! sc.services
    ensures (forall u :: u in members ==> u in UsersToldIn(before)) <==> (forall u :: u in members ==> u !in sc.services)
  {
  }
}
