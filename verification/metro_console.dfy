/**
 * The console route planner: a MetroSystem holding a dense station catalogue
 * (names indexed by id), an adjacency list indexed the same way, and the fare
 * rate per minute.  Setup grows the catalogue and adds reciprocal entries;
 * a route query runs lazy-deletion Dijkstra from the start station, rebuilds
 * the route from parent links and prices it.
 */
module MetroConsole {
  import opened Graph
  import opened Dijkstra
  import opened Fares

  /** The catalogue and the connections as a value: what the setup methods change. */
  datatype Network = Network(names: seq<string>, adj: Adjacency)

  /** One adjacency list per catalogue slot, well-formed entries, every connection stored both ways. */
  ghost predicate Consistent(net: Network) {
    |net.names| == |net.adj| && WellFormed(net.adj) && Undirected(net.adj)
  }

  /**
   * Registering station id under name: an id beyond the catalogue grows both
   * the catalogue and the adjacency list to exactly id + 1 slots, the new
   * slots unnamed and without entries; then the name of id is set.
   */
  function WithStation(net: Network, id: nat, name: string): (r: Network)
    requires |net.names| == |net.adj|
    ensures |r.names| == |r.adj| == (if id < |net.names| then |net.names| else id + 1)
    ensures r.names[id] == name
    ensures forall j :: 0 <= j < |r.names| && j != id ==>
      r.names[j] == (if j < |net.names| then net.names[j] else "")
    ensures forall j :: 0 <= j < |r.adj| ==> r.adj[j] == (if j < |net.adj| then net.adj[j] else [])
    ensures Consistent(net) ==> Consistent(r)
  {
    var grown :=
      if id < |net.names| then net
      else Network(net.names + seq(id + 1 - |net.names|, _ => ""), net.adj + seq(id + 1 - |net.adj|, _ => []));
    GrowKeepsConsistent(net, grown);
    grown.(names := grown.names[id := name])
  }

  /** Appending empty adjacency lists keeps a consistent network consistent. */
  lemma GrowKeepsConsistent(net: Network, grown: Network)
    requires |grown.names| == |grown.adj| && |net.adj| <= |grown.adj|
    requires forall j :: 0 <= j < |grown.adj| ==> grown.adj[j] == (if j < |net.adj| then net.adj[j] else [])
    ensures Consistent(net) ==> Consistent(grown)
  {
    if Consistent(net) {
      var a, b := net.adj, grown.adj;
      forall u, v, w | 0 <= u < |b| && 0 <= v < |b|
        ensures multiset(b[u])[Edge(v, w)] == multiset(b[v])[Edge(u, w)]
      {
        if u < |a| && v < |a| {
        } else if u < |a| {
          assert Edge(v, w) !in a[u];
        } else if v < |a| {
          assert Edge(u, w) !in a[v];
        }
      }
    }
  }

  /** Registering the same station twice in a row is the same as registering it once. */
  lemma WithStationIdempotent(net: Network, id: nat, name: string)
    requires |net.names| == |net.adj|
    ensures WithStation(WithStation(net, id, name), id, name) == WithStation(net, id, name)
  {
    var once := WithStation(net, id, name);
    assert once.names[id := name] == once.names;
  }

  /**
   * Connecting from and to: (to, time) is appended to the entries of from and
   * (from, time) to the entries of to; nothing else changes, and a repeated
   * connection becomes a parallel entry.
   */
  function WithConnection(net: Network, from: int, to: int, time: int): (r: Network)
    requires Consistent(net) && 0 <= from < |net.adj| && 0 <= to < |net.adj| && time > 0
    ensures r.names == net.names && |r.adj| == |net.adj|
    ensures forall u :: 0 <= u < |r.adj| ==> net.adj[u] <= r.adj[u]
    ensures forall u :: 0 <= u < |r.adj| ==>
      multiset(r.adj[u]) == multiset(net.adj[u])
                            + (if u == from then multiset{Edge(to, time)} else multiset{})
                            + (if u == to then multiset{Edge(from, time)} else multiset{})
    ensures Consistent(r)
  {
    var a := net.adj[from := net.adj[from] + [Edge(to, time)]];
    var b := a[to := a[to] + [Edge(from, time)]];
    ConnectCounts(net.adj, from, to, time, b);
    ConnectKeepsConsistent(net, from, to, time, b);
    Network(net.names, b)
  }

  /** Each list gains exactly the reciprocal entries that name it as an endpoint. */
  lemma ConnectCounts(a: Adjacency, from: int, to: int, time: int, b: Adjacency)
    requires 0 <= from < |a| && 0 <= to < |a|
    requires b == a[from := a[from] + [Edge(to, time)]][to := a[from := a[from] + [Edge(to, time)]][to] + [Edge(from, time)]]
    ensures |b| == |a|
    ensures forall u :: 0 <= u < |b| ==>
      multiset(b[u]) == multiset(a[u])
                        + (if u == from then multiset{Edge(to, time)} else multiset{})
                        + (if u == to then multiset{Edge(from, time)} else multiset{})
  {
    forall u | 0 <= u < |b|
      ensures multiset(b[u]) == multiset(a[u])
                                + (if u == from then multiset{Edge(to, time)} else multiset{})
                                + (if u == to then multiset{Edge(from, time)} else multiset{})
    {
      if u == from && u == to {
        assert b[u] == a[u] + [Edge(to, time)] + [Edge(from, time)];
      } else if u == from {
        assert b[u] == a[u] + [Edge(to, time)];
      } else if u == to {
        assert b[u] == a[u] + [Edge(from, time)];
      }
    }
  }

  /** The two reciprocal entries keep the entries well-formed and the counts of u towards v and of v towards u equal. */
  lemma ConnectKeepsConsistent(net: Network, from: int, to: int, time: int, b: Adjacency)
    requires Consistent(net) && 0 <= from < |net.adj| && 0 <= to < |net.adj| && time > 0
    requires |b| == |net.adj|
    requires forall u :: 0 <= u < |b| ==>
      multiset(b[u]) == multiset(net.adj[u])
                        + (if u == from then multiset{Edge(to, time)} else multiset{})
                        + (if u == to then multiset{Edge(from, time)} else multiset{})
    ensures Consistent(Network(net.names, b))
  {
    var a := net.adj;
    forall u, e | 0 <= u < |b| && e in b[u]
      ensures 0 <= e.to < |b| && e.time > 0
    {
      assert e in multiset(b[u]);
    }
    forall u, v, w | 0 <= u < |b| && 0 <= v < |b|
      ensures multiset(b[u])[Edge(v, w)] == multiset(b[v])[Edge(u, w)]
    {
      ConnectKeepsCount(a, b, from, to, time, u, v, w);
    }
  }

  /** One pair of counts: u's entries towards v and v's entries towards u, both with time w. */
  lemma ConnectKeepsCount(a: Adjacency, b: Adjacency, from: int, to: int, time: int, u: int, v: int, w: int)
    requires Undirected(a) && |b| == |a| && 0 <= u < |a| && 0 <= v < |a|
    requires multiset(b[u]) == multiset(a[u])
                               + (if u == from then multiset{Edge(to, time)} else multiset{})
                               + (if u == to then multiset{Edge(from, time)} else multiset{})
    requires multiset(b[v]) == multiset(a[v])
                               + (if v == from then multiset{Edge(to, time)} else multiset{})
                               + (if v == to then multiset{Edge(from, time)} else multiset{})
    ensures multiset(b[u])[Edge(v, w)] == multiset(b[v])[Edge(u, w)]
  {
    assert multiset(a[u])[Edge(v, w)] == multiset(a[v])[Edge(u, w)];
  }

  /** What a route query reports: no route, or the route and its fare. */
  datatype Trip = NoRoute | Trip(route: Route, fare: real)

  class MetroSystem {
    var stationNames: seq<string>
    var adjList: Adjacency
    var farePerMinute: real

    function Net(): (net: Network)
      reads this
    {
      Network(stationNames, adjList)
    }

    ghost predicate Valid()
      reads this
    {
      Consistent(Net()) && farePerMinute > 0.0
    }

    /** numStations unnamed stations without connections, and the default rate of 2 per minute. */
    constructor(numStations: nat)
      ensures Valid()
      ensures stationNames == seq(numStations, _ => "")
      ensures adjList == seq(numStations, _ => [])
      ensures farePerMinute == 2.0
    {
      stationNames := seq(numStations, _ => "");
      adjList := seq(numStations, _ => []);
      farePerMinute := 2.0;
    }

    method AddStation(id: nat, name: string)
      requires Valid()
      modifies this
      ensures Valid()
      ensures Net() == WithStation(old(Net()), id, name)
      ensures farePerMinute == old(farePerMinute)
    {
      if id >= |stationNames| {
        stationNames := stationNames + seq(id + 1 - |stationNames|, _ => "");
        adjList := adjList + seq(id + 1 - |adjList|, _ => []);
      }
      stationNames := stationNames[id := name];
    }

    method AddConnection(from: int, to: int, time: int)
      requires Valid()
      requires 0 <= from < |adjList| && 0 <= to < |adjList| && time > 0
      modifies this
      ensures Valid()
      ensures Net() == WithConnection(old(Net()), from, to, time)
      ensures farePerMinute == old(farePerMinute)
    {
      ghost var connected := WithConnection(Net(), from, to, time);
      adjList := adjList[from := adjList[from] + [Edge(to, time)]];
      adjList := adjList[to := adjList[to] + [Edge(from, time)]];
      assert Net() == connected;
    }

    /** The name registered for id, or the empty name for an id outside the catalogue; never fails. */
    function GetStationName(id: int): (name: string)
      reads this
      ensures 0 <= id < |stationNames| ==> name == stationNames[id]
      ensures !(0 <= id < |stationNames|) ==> name == ""
    {
      if 0 <= id < |stationNames| then stationNames[id] else ""
    }

    /** The current rate, which is always positive. */
    function GetFarePerMinute(): (rate: real)
      reads this
      requires Valid()
      ensures rate > 0.0
    {
      farePerMinute
    }

    /** A positive rate replaces the current one; any other value is rejected and changes nothing. */
    method SetFarePerMinute(newFare: real)
      requires Valid()
      modifies this`farePerMinute
      ensures Valid()
      ensures farePerMinute == if newFare > 0.0 then newFare else old(farePerMinute)
    {
      if newFare > 0.0 {
        farePerMinute := newFare;
      }
    }

    /**
     * The fastest route from start to end and its fare, or NoRoute when end
     * cannot be reached from start.
     */
    method ShowRoute(start: int, end: int) returns (r: Trip)
      requires Valid()
      requires 0 <= start < |stationNames| && 0 <= end < |stationNames|
      ensures r.NoRoute? <==> !Reachable(adjList, start, end)
      ensures r.Trip? ==> Fastest(adjList, start, end, r.route)
      ensures r.Trip? ==> r.fare == Fare(r.route.totalTime, farePerMinute)
    {
      var dist, parent;
      ghost var via;
      dist, parent, via := ShortestTimes(start);
      if dist[end].Unreached? {
        UnreachedIsUnreachable(adjList, start, end, dist);
        return NoRoute;
      }

      var path: seq<int> := [];
      ghost var ws: seq<int> := [];
      var v := end;
      BeginUnwind(adjList, start, end, dist);
      while v != -1
        invariant Unwinding(adjList, start, end, dist, v, path, ws)
        decreases Height(dist, v)
      {
        UnwindStep(adjList, start, end, dist, parent, via, v, path, ws);
        ws := if v == start then ws else [via[v]] + ws;
        path := [v] + path;
        v := parent[v];
      }
      RouteIsFastest(adjList, start, end, dist, path, ws);

      var totalTime := dist[end].m;
      var fare := Fare(totalTime, farePerMinute);
      r := Trip(Route(path, totalTime), fare);
    }

    /**
     * Relaxes every entry (v, w) of station u, reached in cd minutes: when
     * cd + w beats v's time, v gets that time, u as parent and a new frontier
     * entry.  Afterwards u is relaxed, and either nothing changed or the
     * search got closer to its end.
     */
    method RelaxEntries(start: int, dist: array<Dist>, parent: array<int>, ghost via: seq<int>,
                        pq: multiset<Entry>, u: int, cd: nat)
      returns (pq': multiset<Entry>, ghost via': seq<int>)
      requires Valid()
      requires Scanning(adjList, start, dist[..], parent[..], via, pq, u, cd, 0)
      requires Achieved(adjList, start, dist[..])
      modifies dist, parent
      ensures Searching(adjList, start, dist[..], parent[..], via', pq')
      ensures Relaxed(adjList, dist[..], u)
      ensures Moves(adjList, u, cd, dist[..], parent[..], old(dist[..]), old(parent[..]))
      ensures Achieved(adjList, start, dist[..]) && Lowered(dist[..], old(dist[..]))
      ensures (dist[..] == old(dist[..]) && pq' == pq) || Closer(dist[..], old(dist[..]))
    {
      pq', via' := pq, via;
      ghost var dist0, parent0 := dist[..], parent[..];
      RelaxingStart(adjList, start, dist0, parent[..], via, pq, u, cd);
      var edges := adjList[u];
      var i := 0;
      while i < |edges|
        invariant edges == adjList[u] && i <= |edges|
        invariant Relaxing(adjList, start, dist[..], parent[..], via', pq', u, cd, i, dist0, parent0, pq)
      {
        var v, w := edges[i].to, edges[i].time;
        if Improves(cd + w, dist[v]) {
          ghost var d0, p0 := dist[..], parent[..];
          RelaxingImproves(adjList, start, d0, p0, via', pq', u, cd, i, dist0, parent0, pq, v, w);
          dist[v] := Minutes(cd + w);
          parent[v] := u;
          via' := via'[v := w];
          pq' := pq' + multiset{(cd + w, v)};
          assert dist[..] == d0[v := Minutes(cd + w)];
          assert parent[..] == p0[v := u];
        } else {
          RelaxingSkips(adjList, start, dist[..], parent[..], via', pq', u, cd, i, dist0, parent0, pq);
        }
        i := i + 1;
      }
      RelaxingEnd(adjList, start, dist[..], parent[..], via', pq', u, cd, dist0, parent0, pq);
    }

    /**
     * The search part of a route query: lazy-deletion Dijkstra from start.
     * Afterwards every station's time is final (no walk from start is faster,
     * and a station is unreached only if no walk reaches it), and the parent
     * links hang every reached station off a real connection.
     */
    method ShortestTimes(start: int) returns (times: seq<Dist>, parents: seq<int>, ghost via: seq<int>)
      requires Valid()
      requires 0 <= start < |stationNames|
      ensures Tree(adjList, start, times, parents, via)
      ensures Achieved(adjList, start, times)
      ensures forall t :: 0 <= t < |times| ==> Settled(adjList, start, t, times)
    {
      var n := |stationNames|;
      var dist := new Dist[n](_ => Unreached);
      var parent := new int[n](_ => -1);
      via := seq(n, _ => 0);

      dist[start] := Minutes(0);
      var pq: multiset<Entry> := multiset{(0, start)};
      InitialSearch(adjList, start, dist[..], parent[..], via);
      InitialAchieved(adjList, start, dist[..]);

      while pq != multiset{}
        invariant Searching(adjList, start, dist[..], parent[..], via, pq)
        invariant Achieved(adjList, start, dist[..])
        decreases UnreachedCount(dist[..]), ReachedTotal(dist[..]), |pq|
      {
        TopExists(pq);
        var top :| IsTop(top, pq);
        ghost var queued := pq;
        pq := pq - multiset{top};
        var cd, u := top.0, top.1;

        if Exceeds(cd, dist[u]) {
          DropStale(adjList, start, dist[..], parent[..], via, queued, top);
          continue;
        }

        BeginScan(adjList, start, dist[..], parent[..], via, queued, top);
        pq, via := RelaxEntries(start, dist, parent, via, pq, u, cd);
      }

      times, parents := dist[..], parent[..];
      forall t | 0 <= t < n
        ensures Settled(adjList, start, t, times)
      {
        SettledWhenEmpty(adjList, start, t, times, parents, via);
      }
    }
  }
}
