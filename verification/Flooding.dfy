/** Flooding a message over the servers: what server_send to every server link but the
    one of arrival amounts to, in every interleaving (src/channel.c, src/server.c), and
    the direction check of lclient_command (src/lclient.c). */
module Flooding {
  import opened Prelude
  import opened Network

  /** A message on its way over a link. */
  datatype Hop = Hop(src: nat, dst: nat)

  /** What a server sends: one message over every link but the one of arrival. */
  function Outgoing(net: Net, t: nat, arrival: Option<nat>): set<Hop> {
    set u | u in Servers(net) && Linked(net, t, u) && arrival != Some(u) :: Hop(t, u)
  }

  /** A run: messages arriving one after the other, in any order they can. */
  datatype Run = Start | Arrive(before: Run, hop: Hop)

  /** The messages on their way after a run; none if a message of the run was not on its
      way when its turn came. */
  function InFlight(net: Net, origin: nat, run: Run): Option<multiset<Hop>> {
    match run
    case Start => Some(multiset(Outgoing(net, origin, None)))
    case Arrive(before, h) =>
      var flight := InFlight(net, origin, before);
      if flight.Some? && h in flight.value then
        Some(flight.value - multiset{h} + multiset(Outgoing(net, h.dst, Some(h.src))))
      else
        None
  }

  function Arrivals(run: Run): nat {
    match run
    case Start => 0
    case Arrive(before, _) => Arrivals(before) + 1
  }

  /** How often a server gets the message. */
  function Times(run: Run, t: nat): nat {
    match run
    case Start => 0
    case Arrive(before, h) => Times(before, t) + if h.dst == t then 1 else 0
  }

  function Reached(origin: nat, run: Run): (r: set<nat>)
    ensures origin in r
  {
    match run
    case Start => {origin}
    case Arrive(before, h) => Reached(origin, before) + {h.dst}
  }

  // ---------- one arrival ----------

  /** The servers next to those reached, each with the link it is reached by. */
  function Frontier(m: Map, origin: nat, reached: set<nat>): set<Hop> {
    set t | t in m && t != origin && t !in reached && m[t].through in reached :: Hop(m[t].through, t)
  }

  ghost predicate Closed(m: Map, origin: nat, reached: set<nat>) {
    origin in reached && reached <= m.Keys && forall t :: t in reached && t != origin ==> m[t].through in reached
  }

  /** Forwarding goes to those reached through the server. */
  lemma OutgoingIsBelow(net: Net, origin: nat, m: Map, t: nat)
    requires Rooted(net, origin, m) && t in m
    ensures Outgoing(net, t, if t == origin then None else Some(m[t].through))
         == set u | u in m && u != origin && m[u].through == t :: Hop(t, u)
  {
    var arrival := if t == origin then None else Some(m[t].through);
    forall u | u in m && Linked(net, t, u) && arrival != Some(u)
      ensures u != origin && m[u].through == t
    {
      assert OneWay(m, origin, t, u);
    }
    forall u | u in m && u != origin && m[u].through == t
      ensures Linked(net, t, u) && arrival != Some(u)
    {
      assert Nearer(net, m, u);
      assert t != origin ==> Nearer(net, m, t);
    }
  }

  lemma FrontierMoves(m: Map, origin: nat, reached: set<nat>, h: Hop)
    requires Closed(m, origin, reached) && h in Frontier(m, origin, reached)
    ensures var below := set u | u in m && u != origin && m[u].through == h.dst :: Hop(h.dst, u);
      && below !! Frontier(m, origin, reached) && h !in below
      && Frontier(m, origin, reached + {h.dst}) == Frontier(m, origin, reached) - {h} + below
    ensures Closed(m, origin, reached + {h.dst})
  {
  }

  lemma MultisetMoves(a: set<Hop>, h: Hop, b: set<Hop>)
    requires h in a && h !in b && b !! a
    ensures multiset(a) - multiset{h} + multiset(b) == multiset(a - {h} + b)
  {
  }

  // ---------- every run ----------

  /** Each server is reached by the link it is reached through, none twice, the origin never. */
  ghost predicate Orderly(m: Map, origin: nat, run: Run) {
    match run
    case Start => true
    case Arrive(before, h) =>
      && Orderly(m, origin, before)
      && h.dst in m && h.dst !in Reached(origin, before) && h.src == m[h.dst].through
  }

  lemma FlightOneMore(net: Net, origin: nat, m: Map, reached: set<nat>, h: Hop)
    requires Rooted(net, origin, m) && Closed(m, origin, reached) && h in Frontier(m, origin, reached)
    ensures Closed(m, origin, reached + {h.dst})
    ensures multiset(Frontier(m, origin, reached)) - multiset{h} + multiset(Outgoing(net, h.dst, Some(h.src)))
         == multiset(Frontier(m, origin, reached + {h.dst}))
  {
    OutgoingIsBelow(net, origin, m, h.dst);
    FrontierMoves(m, origin, reached, h);
    MultisetMoves(Frontier(m, origin, reached), h, Outgoing(net, h.dst, Some(h.src)));
  }

  lemma {:induction false} RunsAreOrderly(net: Net, origin: nat, m: Map, run: Run)
    requires Rooted(net, origin, m) && InFlight(net, origin, run).Some?
    ensures Orderly(m, origin, run) && Closed(m, origin, Reached(origin, run))
    ensures InFlight(net, origin, run).value == multiset(Frontier(m, origin, Reached(origin, run)))
  {
    match run
    case Start =>
      OutgoingIsBelow(net, origin, m, origin);
      assert Frontier(m, origin, {origin}) == Outgoing(net, origin, None);
    case Arrive(before, h) =>
      RunsAreOrderly(net, origin, m, before);
      FlightOneMore(net, origin, m, Reached(origin, before), h);
  }

  lemma {:induction false} OrderlyCounts(m: Map, origin: nat, run: Run)
    requires Orderly(m, origin, run)
    ensures |Reached(origin, run)| == Arrivals(run) + 1
    ensures forall t :: Times(run, t) == if t != origin && t in Reached(origin, run) then 1 else 0
  {
    match run
    case Start =>
    case Arrive(before, h) => OrderlyCounts(m, origin, before);
  }

  /** As long as a server is missing, one is next. */
  lemma {:induction false} NextIsThere(net: Net, origin: nat, m: Map, reached: set<nat>, t: nat)
    requires Rooted(net, origin, m) && Closed(m, origin, reached) && t in m && t !in reached
    ensures Frontier(m, origin, reached) != {}
    decreases m[t].distance
  {
    assert Nearer(net, m, t);
    if m[t].through in reached {
      assert Hop(m[t].through, t) in Frontier(m, origin, reached);
    } else {
      NextIsThere(net, origin, m, reached, m[t].through);
    }
  }

  lemma SubsetCount(a: set<nat>, b: set<nat>)
    requires a <= b
    ensures |a| <= |b| && (|a| == |b| <==> a == b)
  {
    assert b == a + (b - a);
  }

  lemma EmptyWhenAllReached(net: Net, origin: nat, m: Map, reached: set<nat>)
    requires Rooted(net, origin, m) && Closed(m, origin, reached)
    ensures multiset(Frontier(m, origin, reached)) == multiset{} <==> reached == Servers(net)
  {
    if reached == Servers(net) {
      assert Frontier(m, origin, reached) == {};
    } else {
      var t :| t in Servers(net) && t !in reached;
      NextIsThere(net, origin, m, reached, t);
      var h :| h in Frontier(m, origin, reached);
      assert h in multiset(Frontier(m, origin, reached));
    }
  }

  /** Flooding, in any order of arrival: no server gets the message twice, the origin
      never gets it back; while one has not got it, a message is on its way, so it ends
      after exactly N - 1 deliveries, and then every other server has got it once. */
  lemma FloodReachesEachOnce(net: Net, origin: nat, run: Run)
    requires IsTree(net) && origin in Servers(net) && InFlight(net, origin, run).Some?
    ensures Times(run, origin) == 0 && forall t :: Times(run, t) <= if t in Servers(net) then 1 else 0
    ensures Arrivals(run) <= |Servers(net)| - 1
    ensures InFlight(net, origin, run).value == multiset{} <==> Arrivals(run) == |Servers(net)| - 1
    ensures InFlight(net, origin, run).value == multiset{} ==>
              forall t :: t in Servers(net) && t != origin ==> Times(run, t) == 1
  {
    var m := CanBeRooted(net, origin);
    RunsAreOrderly(net, origin, m, run);
    OrderlyCounts(m, origin, run);
    SubsetCount(Reached(origin, run), Servers(net));
    EmptyWhenAllReached(net, origin, m, Reached(origin, run));
  }

  // ---------- the direction check ----------

  /** The link each server first heard of the origin by: its `source` there. */
  function Sources(run: Run): map<nat, nat> {
    match run
    case Start => map[]
    case Arrive(before, h) => Sources(before)[h.dst := h.src]
  }

  /** A flood in which a message that comes from the wrong direction is dropped. */
  function InFlightChecked(net: Net, origin: nat, sources: map<nat, nat>, run: Run): Option<multiset<Hop>> {
    match run
    case Start => Some(multiset(Outgoing(net, origin, None)))
    case Arrive(before, h) =>
      var flight := InFlightChecked(net, origin, sources, before);
      if !(flight.Some? && h in flight.value) then None
      else if h.dst in sources && sources[h.dst] == h.src then
        Some(flight.value - multiset{h} + multiset(Outgoing(net, h.dst, Some(h.src))))
      else
        Some(flight.value - multiset{h})
  }

  /** The sources are the right directions. */
  ghost predicate Directed(m: Map, servers: set<nat>, sources: map<nat, nat>) {
    sources.Keys == servers && forall t :: t in sources ==> t in m && sources[t] == m[t].through
  }

  lemma {:induction false} SourcesAreDirected(m: Map, origin: nat, run: Run)
    requires Orderly(m, origin, run)
    ensures Directed(m, Reached(origin, run) - {origin}, Sources(run))
  {
    match run
    case Start =>
    case Arrive(before, h) => SourcesAreDirected(m, origin, before);
  }

  lemma FromTheRightSide(net: Net, origin: nat, m: Map, run: Run, h: Hop)
    requires Rooted(net, origin, m) && InFlight(net, origin, run).Some? && h in InFlight(net, origin, run).value
    ensures h.dst in m && h.dst != origin && h.src == m[h.dst].through
  {
    RunsAreOrderly(net, origin, m, run);
  }

  lemma {:induction false} CheckedIsUnchecked(net: Net, origin: nat, m: Map, sources: map<nat, nat>, run: Run)
    requires Rooted(net, origin, m) && Directed(m, m.Keys - {origin}, sources)
    ensures InFlightChecked(net, origin, sources, run) == InFlight(net, origin, run)
  {
    if run.Arrive? {
      CheckedIsUnchecked(net, origin, m, sources, run.before);
      if InFlight(net, origin, run).Some? {
        FromTheRightSide(net, origin, m, run.before, run.hop);
      }
    }
  }

  /** Once the origin has been made known to all by a flood, the direction check drops
      no later message of it, whatever the order of arrival in either flood. */
  lemma DirectionCheckDropsNothing(net: Net, origin: nat, known: Run, run: Run)
    requires IsTree(net) && origin in Servers(net) && InFlight(net, origin, known) == Some(multiset{})
    ensures InFlightChecked(net, origin, Sources(known), run) == InFlight(net, origin, run)
  {
    var m := CanBeRooted(net, origin);
    RunsAreOrderly(net, origin, m, known);
    EmptyWhenAllReached(net, origin, m, Reached(origin, known));
    SourcesAreDirected(m, origin, known);
    CheckedIsUnchecked(net, origin, m, Sources(known), run);
  }

  // ---------- links that form loops ----------

  /** How often a server forwards the message: as often as it comes from the right direction. */
  function Forwards(sources: map<nat, nat>, run: Run, t: nat): nat {
    match run
    case Start => 0
    case Arrive(before, h) =>
      Forwards(sources, before, t) + if h.dst == t && t in sources && sources[t] == h.src then 1 else 0
  }

  /** How often the message arrives over a link, one way. */
  function Over(run: Run, hop: Hop): nat {
    match run
    case Start => 0
    case Arrive(before, h) => Over(before, hop) + if h == hop then 1 else 0
  }

  /** Going by the sources leads to the origin, whose own source is not asked for. */
  ghost predicate LeadHome(sources: map<nat, nat>, origin: nat, distance: map<nat, nat>) {
    && origin !in sources
    && forall t :: t in sources && sources[t] != origin ==>
         && t in distance && sources[t] in sources && sources[t] in distance && distance[sources[t]] < distance[t]
  }

  /** What arrives over a link or is on its way was sent: once by the origin, by the others each
      time they forward. */
  lemma {:induction false} SentBefore(net: Net, origin: nat, sources: map<nat, nat>, run: Run, hop: Hop)
    requires InFlightChecked(net, origin, sources, run).Some?
    ensures InFlightChecked(net, origin, sources, run).value[hop] + Over(run, hop)
         <= (if hop.src == origin then 1 else 0) + Forwards(sources, run, hop.src)
  {
    match run
    case Start =>
    case Arrive(before, h) => SentBefore(net, origin, sources, before, hop);
  }

  lemma {:induction false} ForwardsOnce(net: Net, origin: nat, sources: map<nat, nat>, distance: map<nat, nat>, run: Run,
                                        t: nat)
    requires InFlightChecked(net, origin, sources, run).Some? && LeadHome(sources, origin, distance)
    ensures Forwards(sources, run, t) + (if t == origin then 1 else 0) <= 1
    decreases if t in distance then distance[t] + 1 else 0
  {
    if t in sources {
      if sources[t] != origin {
        ForwardsOnce(net, origin, sources, distance, run, sources[t]);
      } else {
        NeverForwards(sources, run, origin);
      }
      SentBefore(net, origin, sources, run, Hop(sources[t], t));
      ForwardsWhatComes(sources, run, t);
    } else {
      NeverForwards(sources, run, t);
    }
  }

  lemma {:induction false} NeverForwards(sources: map<nat, nat>, run: Run, t: nat)
    requires t !in sources
    ensures Forwards(sources, run, t) == 0
  {
    if run.Arrive? {
      NeverForwards(sources, run.before, t);
    }
  }

  lemma {:induction false} ForwardsWhatComes(sources: map<nat, nat>, run: Run, t: nat)
    requires t in sources
    ensures Forwards(sources, run, t) == Over(run, Hop(sources[t], t))
  {
    if run.Arrive? {
      ForwardsWhatComes(sources, run.before, t);
    }
  }

  /** With the direction check a message comes over each link at most once in each direction,
      whatever loops the links form. */
  lemma DirectionCheckEndsLoops(net: Net, origin: nat, sources: map<nat, nat>, distance: map<nat, nat>, run: Run)
    requires InFlightChecked(net, origin, sources, run).Some? && LeadHome(sources, origin, distance)
    ensures forall hop :: Over(run, hop) <= 1
  {
    forall hop
      ensures Over(run, hop) <= 1
    {
      ForwardsOnce(net, origin, sources, distance, run, hop.src);
      SentBefore(net, origin, sources, run, hop);
    }
  }

  /** Three servers, each linked to the next. */
  const RING := Net(0, [Link(1, 0), Link(2, 1), Link(0, 2)])

  function Next(t: nat): nat {
    (t + 1) % 3
  }

  lemma RingLinks(t: nat)
    requires t < 3
    ensures Linked(RING, t, Next(t)) && Next(t) in Servers(RING) && Next(Next(t)) != t
  {
    var links := RING.links;
    assert links[0] == Link(1, 0) && links[1] == Link(2, 1) && links[2] == Link(0, 2);
    assert links[0].server == 1 && links[1].server == 2 && links[2].server == 0;
  }

  /** Without it a message goes round the ring for ever. */
  lemma {:induction false} LoopsWithoutCheck(n: nat) returns (run: Run, at: nat)
    ensures Arrivals(run) == n && InFlight(RING, 0, run).Some? && at < 3
    ensures Hop(at, Next(at)) in InFlight(RING, 0, run).value
  {
    if n == 0 {
      run, at := Start, 0;
      RingLinks(0);
    } else {
      var before, t := LoopsWithoutCheck(n - 1);
      run, at := Arrive(before, Hop(t, Next(t))), Next(t);
      RingLinks(t);
      RingLinks(Next(t));
      assert Hop(at, Next(at)) in Outgoing(RING, at, Some(t));
    }
  }
}
