/**
 * The transit network as a graph: stations are the dense ids 0..n-1 and
 * station u owns a list of adjacency entries (neighbour, minutes).  A walk is
 * a sequence of stations together with the travel time of each hop; the hop
 * times are explicit because parallel connections between the same two
 * stations may have different times.
 */
module Graph {

  /** One adjacency entry: the neighbouring station and the travel time to it. */
  datatype Edge = Edge(to: int, time: int)

  /** adj[u] lists the entries of station u. */
  type Adjacency = seq<seq<Edge>>

  /** A tentative travel time: the "not reached yet" sentinel or a number of minutes. */
  datatype Dist = Unreached | Minutes(m: nat)

  /** `x < d`, where the sentinel is larger than every number. */
  predicate Improves(x: int, d: Dist) {
    d.Unreached? || x < d.m
  }

  /** `x > d`, where no number exceeds the sentinel. */
  predicate Exceeds(x: int, d: Dist) {
    d.Minutes? && x > d.m
  }

  /** Every entry names an existing station and has a positive travel time. */
  ghost predicate WellFormed(adj: Adjacency) {
    forall u, e :: 0 <= u < |adj| && e in adj[u] ==> 0 <= e.to < |adj| && e.time > 0
  }

  /**
   * Every connection is stored as two reciprocal entries: u lists (v, w)
   * exactly as often as v lists (u, w).
   */
  ghost predicate Undirected(adj: Adjacency) {
    forall u, v, w :: 0 <= u < |adj| && 0 <= v < |adj| ==>
      multiset(adj[u])[Edge(v, w)] == multiset(adj[v])[Edge(u, w)]
  }

  /** p visits existing stations and hop i goes from p[i] to p[i+1] in ws[i] minutes. */
  ghost predicate IsWalk(adj: Adjacency, p: seq<int>, ws: seq<int>) {
    && |p| == |ws| + 1
    && (forall i :: 0 <= i < |p| ==> 0 <= p[i] < |adj|)
    && (forall i :: 0 <= i < |ws| ==> Edge(p[i + 1], ws[i]) in adj[p[i]])
  }

  ghost predicate WalkBetween(adj: Adjacency, s: int, t: int, p: seq<int>, ws: seq<int>) {
    IsWalk(adj, p, ws) && p[0] == s && p[|p| - 1] == t
  }

  /** Total travel time of a walk. */
  function Sum(ws: seq<int>): (total: int) {
    if ws == [] then 0 else Sum(ws[..|ws| - 1]) + ws[|ws| - 1]
  }

  ghost predicate Reachable(adj: Adjacency, s: int, t: int) {
    exists p, ws :: WalkBetween(adj, s, t, p, ws)
  }

  /** d is the least travel time of any walk from s to t, and some walk attains it. */
  ghost predicate IsShortest(adj: Adjacency, s: int, t: int, d: int) {
    && (exists p, ws :: WalkBetween(adj, s, t, p, ws) && Sum(ws) == d)
    && (forall p, ws :: WalkBetween(adj, s, t, p, ws) ==> d <= Sum(ws))
  }

  /** A route the planner reports: stations from start to end and its travel time. */
  datatype Route = Route(path: seq<int>, totalTime: nat)

  /** The route is a real walk from s to t of its stated time, and no walk is faster. */
  ghost predicate Fastest(adj: Adjacency, s: int, t: int, r: Route) {
    && (exists ws :: WalkBetween(adj, s, t, r.path, ws) && Sum(ws) == r.totalTime)
    && IsShortest(adj, s, t, r.totalTime)
  }

  /** The sequence read backwards: the first element becomes the last. */
  function Reversed<T>(s: seq<T>): (r: seq<T>)
    ensures |r| == |s|
    ensures forall i :: 0 <= i < |s| ==> r[i] == s[|s| - 1 - i]
  {
    seq(|s|, i requires 0 <= i < |s| => s[|s| - 1 - i])
  }

  /** Reversing twice gives back the original sequence. */
  lemma ReversedTwice<T>(s: seq<T>)
    ensures Reversed(Reversed(s)) == s
  {
  }

  lemma ReversedSnoc<T>(s: seq<T>, x: T)
    ensures Reversed(s + [x]) == [x] + Reversed(s)
  {
  }

  lemma {:induction false} SumPrepend(w: int, ws: seq<int>)
    ensures Sum([w] + ws) == w + Sum(ws)
    decreases |ws|
  {
    if ws != [] {
      var front := ws[..|ws| - 1];
      assert ([w] + ws)[..|ws|] == [w] + front;
      SumPrepend(w, front);
    }
  }

  /** Reversing the hops of a walk does not change its travel time. */
  lemma {:induction false} SumReversed(ws: seq<int>)
    ensures Sum(Reversed(ws)) == Sum(ws)
    decreases |ws|
  {
    if ws != [] {
      var front := ws[..|ws| - 1];
      assert Reversed(ws) == [ws[|ws| - 1]] + Reversed(front);
      SumReversed(front);
      SumPrepend(ws[|ws| - 1], Reversed(front));
    }
  }

  /** In an undirected network each entry of u towards v has a partner entry of v towards u. */
  lemma ReciprocalEntry(adj: Adjacency, u: int, e: Edge)
    requires WellFormed(adj) && Undirected(adj)
    requires 0 <= u < |adj| && e in adj[u]
    ensures Edge(u, e.time) in adj[e.to]
  {
    assert multiset(adj[u])[Edge(e.to, e.time)] > 0;
  }

  /** In an undirected network a walk read backwards is a walk. */
  lemma ReverseWalk(adj: Adjacency, p: seq<int>, ws: seq<int>)
    requires WellFormed(adj) && Undirected(adj)
    requires IsWalk(adj, p, ws)
    ensures IsWalk(adj, Reversed(p), Reversed(ws))
    ensures Sum(Reversed(ws)) == Sum(ws)
  {
    var rp, rw := Reversed(p), Reversed(ws);
    assert |rp| == |p| && |rw| == |ws|;
    forall i | 0 <= i < |rp|
      ensures 0 <= rp[i] < |adj|
    {
      assert rp[i] == p[|p| - 1 - i];
    }
    forall i | 0 <= i < |rw|
      ensures Edge(rp[i + 1], rw[i]) in adj[rp[i]]
    {
      var j := |ws| - 1 - i;
      assert Edge(p[j + 1], ws[j]) in adj[p[j]];
      ReciprocalEntry(adj, p[j], Edge(p[j + 1], ws[j]));
      ReverseHop(adj, p, ws, i);
    }
    SumReversed(ws);
  }

  /** Hop i of the reversed walk is the partner entry of hop |ws| - 1 - i of the walk. */
  lemma ReverseHop(adj: Adjacency, p: seq<int>, ws: seq<int>, i: int)
    requires |p| == |ws| + 1 && 0 <= i < |ws|
    requires 0 <= p[|ws| - i] < |adj|
    requires Edge(p[|ws| - 1 - i], ws[|ws| - 1 - i]) in adj[p[|ws| - i]]
    ensures Edge(Reversed(p)[i + 1], Reversed(ws)[i]) in adj[Reversed(p)[i]]
  {
    var j := |ws| - 1 - i;
    assert Reversed(p)[i] == p[j + 1] && Reversed(p)[i + 1] == p[j] && Reversed(ws)[i] == ws[j];
  }

  /** Station t can be reached from s exactly when s can be reached from t. */
  lemma ReachableSymmetric(adj: Adjacency, s: int, t: int)
    requires WellFormed(adj) && Undirected(adj)
    ensures Reachable(adj, s, t) <==> Reachable(adj, t, s)
  {
    if Reachable(adj, s, t) {
      var p, ws :| WalkBetween(adj, s, t, p, ws);
      ReverseWalk(adj, p, ws);
      assert WalkBetween(adj, t, s, Reversed(p), Reversed(ws));
    }
    if Reachable(adj, t, s) {
      var p, ws :| WalkBetween(adj, t, s, p, ws);
      ReverseWalk(adj, p, ws);
      assert WalkBetween(adj, s, t, Reversed(p), Reversed(ws));
    }
  }

  /** The least travel time from s to t is also the least from t to s. */
  lemma ShortestSymmetric(adj: Adjacency, s: int, t: int, d: int)
    requires WellFormed(adj) && Undirected(adj)
    requires IsShortest(adj, s, t, d)
    ensures IsShortest(adj, t, s, d)
  {
    var p, ws :| WalkBetween(adj, s, t, p, ws) && Sum(ws) == d;
    ReverseWalk(adj, p, ws);
    assert WalkBetween(adj, t, s, Reversed(p), Reversed(ws));
    forall q, vs | WalkBetween(adj, t, s, q, vs)
      ensures d <= Sum(vs)
    {
      ReverseWalk(adj, q, vs);
      assert WalkBetween(adj, s, t, Reversed(q), Reversed(vs));
    }
  }

  /** The least travel time is unique, so any two correct planners report the same time. */
  lemma ShortestUnique(adj: Adjacency, s: int, t: int, d1: int, d2: int)
    requires IsShortest(adj, s, t, d1) && IsShortest(adj, s, t, d2)
    ensures d1 == d2
  {
  }
}
