/**
 * The map-based route planner: a MetroSystem holding the station catalogue as
 * a dictionary from id to name, the adjacency lists as a dictionary from id to
 * entries (a missing key means no entries), and the fare rate per minute.
 * Route search is lazy-deletion Dijkstra that stops as soon as the destination
 * leaves the frontier; the route is collected backwards from the destination
 * and then reversed.
 */
module MetroMap {
  import opened Wrappers
  import opened Graph
  import opened Dijkstra
  import opened Fares

  /** The adjacency the search sees over stations 0..n-1: a station without a key has no entries. */
  function GraphOf(n: nat, adjList: map<int, seq<Edge>>): (adj: Adjacency)
    ensures |adj| == n
    ensures forall u :: 0 <= u < n && u in adjList ==> adj[u] == adjList[u]
    ensures forall u :: 0 <= u < n && u !in adjList ==> adj[u] == []
  {
    seq(n, u => if u in adjList then adjList[u] else [])
  }

  /** The dictionary holding names[i] under key i. */
  function Catalogue(names: seq<string>): (catalogue: map<int, string>) {
    map i | 0 <= i < |names| :: names[i]
  }

  /** The ids 0..n-1. */
  function Ids(n: nat): (ids: set<int>) {
    if n == 0 then {} else Ids(n - 1) + {n - 1}
  }

  /** Ids(n) holds exactly the ids 0..n-1, so it has n elements. */
  lemma {:induction false} IdsExactly(n: nat)
    ensures forall x :: x in Ids(n) <==> 0 <= x < n
    ensures |Ids(n)| == n
  {
    if n > 0 {
      IdsExactly(n - 1);
    }
  }

  /** The catalogue built from a list of names has one key per name, the ids 0..|names|-1. */
  lemma CatalogueSize(names: seq<string>)
    ensures |Catalogue(names)| == |names|
    ensures forall i :: 0 <= i < |names| ==> i in Catalogue(names) && Catalogue(names)[i] == names[i]
  {
    IdsExactly(|names|);
    assert Catalogue(names).Keys == Ids(|names|);
  }

  class MetroSystem {
    var farePerMinute: real
    var stations: map<int, string>
    var adjList: map<int, seq<Edge>>

    /** The network as the search sees it. */
    function Adj(): (adj: Adjacency)
      reads this
    {
      GraphOf(|stations|, adjList)
    }

    /**
     * The ids are exactly 0..n-1, every entry reachable from them is
     * well-formed, every connection is stored both ways, and the rate is
     * positive.
     */
    ghost predicate Valid()
      reads this
    {
      && (forall i :: 0 <= i < |stations| ==> i in stations)
      && WellFormed(Adj()) && Undirected(Adj())
      && farePerMinute > 0.0
    }

    /**
     * The stations names[0], names[1], ... under ids 0, 1, ... in that order,
     * the given connections, and the default rate of 2 per minute.
     */
    constructor(names: seq<string>, connections: map<int, seq<Edge>>)
      requires WellFormed(GraphOf(|names|, connections)) && Undirected(GraphOf(|names|, connections))
      ensures Valid()
      ensures stations == Catalogue(names) && |stations| == |names|
      ensures adjList == connections
      ensures farePerMinute == 2.0
    {
      farePerMinute := 2.0;
      stations := Catalogue(names);
      adjList := connections;
      CatalogueSize(names);
    }

    /** The names of stations 0..n-1, in id order. */
    function StationNames(): (names: seq<string>)
      reads this
      requires Valid()
      ensures |names| == |stations|
      ensures forall i :: 0 <= i < |names| ==> names[i] == stations[i]
    {
      var catalogue := stations;
      seq(|catalogue|, i requires 0 <= i < |catalogue| && i in catalogue => catalogue[i])
    }

    /**
     * The id of the first station, in id order, whose name is name; None
     * exactly when no station has that name.
     */
    method StationIdByName(name: string) returns (id: Option<int>)
      requires Valid()
      ensures id.Some? ==> 0 <= id.value < |stations| && StationNames()[id.value] == name
      ensures id.Some? ==> name !in StationNames()[..id.value]
      ensures id.None? <==> name !in StationNames()
    {
      ghost var names := StationNames();
      var i := 0;
      while i < |stations|
        invariant 0 <= i <= |stations|
        invariant name !in names[..i]
      {
        if stations[i] == name {
          return Some(i);
        }
        assert names[..i + 1] == names[..i] + [stations[i]];
        i := i + 1;
      }
      assert names[..i] == names;
      return None;
    }

    /**
     * The fastest route from start to end, or None when end cannot be
     * reached from start.
     */
    method ShortestPath(start: int, end: int) returns (r: Option<Route>)
      requires Valid()
      requires 0 <= start < |stations| && 0 <= end < |stations|
      ensures r.None? <==> !Reachable(Adj(), start, end)
      ensures r.Some? ==> Fastest(Adj(), start, end, r.value)
    {
      var dist, parent;
      ghost var via;
      dist, parent, via := SearchUntil(start, end);
      if dist[end].Unreached? {
        UnreachedIsUnreachable(Adj(), start, end, dist);
        return None;
      }

      var path: seq<int> := [];
      ghost var ws: seq<int> := [];
      var cur := end;
      BeginUnwind(Adj(), start, end, dist);
      while cur != -1
        invariant Unwinding(Adj(), start, end, dist, cur, Reversed(path), ws)
        decreases Height(dist, cur)
      {
        UnwindStep(Adj(), start, end, dist, parent, via, cur, Reversed(path), ws);
        ReversedSnoc(path, cur);
        ws := if cur == start then ws else [via[cur]] + ws;
        path := path + [cur];
        cur := parent[cur];
      }
      path := Reversed(path);
      RouteIsFastest(Adj(), start, end, dist, path, ws);
      r := Some(Route(path, dist[end].m));
    }

    /**
     * The search part of a route query: lazy-deletion Dijkstra from start
     * that stops when end is handed out fresh.  Afterwards end's time is
     * final and the parent links hang every reached station off a real
     * connection.
     */
    method SearchUntil(start: int, end: int) returns (times: seq<Dist>, parents: seq<int>, ghost via: seq<int>)
      requires Valid()
      requires 0 <= start < |stations| && 0 <= end < |stations|
      ensures Tree(Adj(), start, times, parents, via)
      ensures Achieved(Adj(), start, times)
      ensures Settled(Adj(), start, end, times)
    {
      var n := |stations|;
      ghost var adj := Adj();
      var dist := new Dist[n](_ => Unreached);
      var parent := new int[n](_ => -1);
      via := seq(n, _ => 0);

      dist[start] := Minutes(0);
      var pq: multiset<Entry> := multiset{(0, start)};
      InitialSearch(adj, start, dist[..], parent[..], via);
      InitialAchieved(adj, start, dist[..]);

      ghost var hit := false;
      while pq != multiset{}
        invariant Searching(adj, start, dist[..], parent[..], via, pq)
        invariant Achieved(adj, start, dist[..])
        invariant !hit
        decreases UnreachedCount(dist[..]), ReachedTotal(dist[..]), |pq|
      {
        TopExists(pq);
        var top :| IsTop(top, pq);
        ghost var queued := pq;
        pq := pq - multiset{top};
        var cd, u := top.0, top.1;

        if Exceeds(cd, dist[u]) {
          DropStale(adj, start, dist[..], parent[..], via, queued, top);
          continue;
        }
        if u == end {
          SettledAtTop(adj, start, dist[..], parent[..], via, queued, top);
          hit := true;
          break;
        }

        BeginScan(adj, start, dist[..], parent[..], via, queued, top);
        pq, via := RelaxEntries(adj, start, dist, parent, via, pq, u, cd);
      }

      times, parents := dist[..], parent[..];
      if !hit {
        SettledWhenEmpty(adj, start, end, times, parents, via);
      }
    }

    /**
     * Relaxes every entry (v, w) of station u in adj, the network as the
     * search sees it, where u's time is cd minutes: when u's time plus w
     * beats v's time, v gets that time, u as parent and a new frontier
     * entry.  Afterwards u is relaxed, and either nothing changed or the
     * search got closer to its end.
     */
    method RelaxEntries(ghost adj: Adjacency, start: int, dist: array<Dist>, parent: array<int>, ghost via: seq<int>,
                        pq: multiset<Entry>, u: int, ghost cd: nat)
      returns (pq': multiset<Entry>, ghost via': seq<int>)
      requires Scanning(adj, start, dist[..], parent[..], via, pq, u, cd, 0)
      requires Achieved(adj, start, dist[..])
      requires adj[u] == if u in adjList then adjList[u] else []
      modifies dist, parent
      ensures Searching(adj, start, dist[..], parent[..], via', pq')
      ensures Relaxed(adj, dist[..], u)
      ensures Moves(adj, u, cd, dist[..], parent[..], old(dist[..]), old(parent[..]))
      ensures Achieved(adj, start, dist[..]) && Lowered(dist[..], old(dist[..]))
      ensures (dist[..] == old(dist[..]) && pq' == pq) || Closer(dist[..], old(dist[..]))
    {
      pq', via' := pq, via;
      ghost var dist0, parent0 := dist[..], parent[..];
      RelaxingStart(adj, start, dist0, parent[..], via, pq, u, cd);
      var edges := if u in adjList then adjList[u] else [];
      var i := 0;
      while i < |edges|
        invariant edges == adj[u] && i <= |edges|
        invariant Relaxing(adj, start, dist[..], parent[..], via', pq', u, cd, i, dist0, parent0, pq)
      {
        var v, w := edges[i].to, edges[i].time;
        var nd := dist[u].m + w;
        if Improves(nd, dist[v]) {
          ghost var d0, p0 := dist[..], parent[..];
          RelaxingImproves(adj, start, d0, p0, via', pq', u, cd, i, dist0, parent0, pq, v, w);
          dist[v] := Minutes(nd);
          parent[v] := u;
          via' := via'[v := w];
          pq' := pq' + multiset{(nd, v)};
          assert dist[..] == d0[v := Minutes(cd + w)];
          assert parent[..] == p0[v := u];
        } else {
          RelaxingSkips(adj, start, dist[..], parent[..], via', pq', u, cd, i, dist0, parent0, pq);
        }
        i := i + 1;
      }
      RelaxingEnd(adj, start, dist[..], parent[..], via', pq', u, cd, dist0, parent0, pq);
    }

    /** The price of a journey of time minutes at the current rate. */
    function CalculateFare(time: int): (fare: real)
      reads this
      requires Valid()
      ensures time > 0 ==> fare > 0.0
      ensures time == 0 ==> fare == 0.0
      ensures fare == Fare(time, farePerMinute)
    {
      time as real * farePerMinute
    }

    /** A positive rate replaces the current one and is reported as accepted; any other value is rejected and changes nothing. */
    method UpdateFare(newFare: real) returns (ok: bool)
      requires Valid()
      modifies this`farePerMinute
      ensures Valid()
      ensures ok <==> newFare > 0.0
      ensures farePerMinute == if ok then newFare else old(farePerMinute)
    {
      if newFare > 0.0 {
        farePerMinute := newFare;
        return true;
      }
      return false;
    }
  }
}
