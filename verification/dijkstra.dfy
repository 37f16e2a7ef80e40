/**
 * What both route planners share: the frontier of (minutes, station) entries
 * with smallest-first extraction, the invariants of lazy-deletion Dijkstra
 * (a frontier entry is stale once the station has been reached faster), the
 * argument that the recorded times are the least ones, and the walk back along
 * parent links that rebuilds the route.
 */
module Dijkstra {
  import opened Graph

  /** A frontier entry: (minutes when inserted, station). */
  type Entry = (nat, int)

  /** The order of the frontier: by minutes, then by station id. */
  predicate LexLeq(a: Entry, b: Entry) {
    a.0 < b.0 || (a.0 == b.0 && a.1 <= b.1)
  }

  /** e is the entry the frontier hands out next: it is present and no entry precedes it. */
  predicate IsTop(e: Entry, pq: multiset<Entry>) {
    e in pq && forall x | x in pq :: LexLeq(e, x)
  }

  /** A non-empty frontier has an entry to hand out. */
  lemma {:induction false} TopExists(pq: multiset<Entry>)
    requires pq != multiset{}
    ensures exists e :: IsTop(e, pq)
    decreases |pq|
  {
    var x :| x in pq;
    var rest := pq - multiset{x};
    assert pq == rest + multiset{x};
    if rest == multiset{} {
      assert IsTop(x, pq);
    } else {
      TopExists(rest);
      var m :| IsTop(m, rest);
      var top := if LexLeq(x, m) then x else m;
      forall y | y in pq
        ensures LexLeq(top, y)
      {
        if y != x {
          assert y in rest;
          assert LexLeq(m, y);
        }
      }
      assert IsTop(top, pq);
    }
  }

  // ---------------------------------------------------------------------------
  // Search invariants

  /** Entry e of a station reached in dist[..] minutes needs no further relaxation. */
  ghost predicate EdgeRelaxed(dist: seq<Dist>, d: nat, e: Edge) {
    0 <= e.to < |dist| && dist[e.to].Minutes? && dist[e.to].m <= d + e.time
  }

  /** Station v is reached and none of its entries can shorten another station's time. */
  ghost predicate Relaxed(adj: Adjacency, dist: seq<Dist>, v: int) {
    && 0 <= v < |adj| && v < |dist| && dist[v].Minutes?
    && forall e :: e in adj[v] ==> EdgeRelaxed(dist, dist[v].m, e)
  }

  /**
   * Reached station v (not the start) hangs off its parent through a real
   * entry of via[v] minutes, and the parent's time plus that hop does not
   * exceed v's time.
   */
  ghost predicate HangsOff(adj: Adjacency, dist: seq<Dist>, parent: seq<int>, via: seq<int>, v: int)
    requires |dist| == |adj| && |parent| == |adj| && |via| == |adj| && 0 <= v < |adj|
  {
    && 0 <= parent[v] < |adj|
    && Edge(v, via[v]) in adj[parent[v]]
    && dist[parent[v]].Minutes? && dist[v].Minutes?
    && dist[parent[v]].m + via[v] <= dist[v].m
  }

  /** The start is reached in 0 minutes with no parent; every other reached station hangs off its parent. */
  ghost predicate Tree(adj: Adjacency, s: int, dist: seq<Dist>, parent: seq<int>, via: seq<int>) {
    && |dist| == |adj| && |parent| == |adj| && |via| == |adj| && 0 <= s < |adj|
    && dist[s] == Minutes(0) && parent[s] == -1
    && forall v {:trigger HangsOff(adj, dist, parent, via, v)} ::
         0 <= v < |adj| && v != s && dist[v].Minutes? ==> HangsOff(adj, dist, parent, via, v)
  }

  /** Every frontier entry names a reached station and is no better than its current time. */
  ghost predicate FrontierSound(dist: seq<Dist>, pq: multiset<Entry>) {
    forall e | e in pq :: 0 <= e.1 < |dist| && dist[e.1].Minutes? && dist[e.1].m <= e.0
  }

  /** Every reached station (other than skip) with an unrelaxed entry is in the frontier at its current time. */
  ghost predicate Covers(adj: Adjacency, dist: seq<Dist>, pq: multiset<Entry>, skip: int) {
    forall v {:trigger Relaxed(adj, dist, v)} ::
      0 <= v < |adj| && v != skip && v < |dist| && dist[v].Minutes? && !Relaxed(adj, dist, v) ==>
      (dist[v].m, v) in pq
  }

  /** The state at the head of the main loop. */
  ghost predicate Searching(adj: Adjacency, s: int, dist: seq<Dist>, parent: seq<int>, via: seq<int>, pq: multiset<Entry>) {
    WellFormed(adj) && Tree(adj, s, dist, parent, via) && FrontierSound(dist, pq) && Covers(adj, dist, pq, -1)
  }

  /** The state while the entries of station u, reached in d minutes, are scanned; the first j are done. */
  ghost predicate Scanning(adj: Adjacency, s: int, dist: seq<Dist>, parent: seq<int>, via: seq<int>,
                           pq: multiset<Entry>, u: int, d: nat, j: nat) {
    && WellFormed(adj) && Tree(adj, s, dist, parent, via) && FrontierSound(dist, pq)
    && 0 <= u < |adj| && dist[u] == Minutes(d) && j <= |adj[u]|
    && (forall k :: 0 <= k < j ==> EdgeRelaxed(dist, d, adj[u][k]))
    && Covers(adj, dist, pq, u)
  }

  /** Before the main loop only the start is reached and it is the only frontier entry. */
  lemma InitialSearch(adj: Adjacency, s: int, dist: seq<Dist>, parent: seq<int>, via: seq<int>)
    requires WellFormed(adj) && 0 <= s < |adj|
    requires |dist| == |adj| && |parent| == |adj| && |via| == |adj|
    requires forall v :: 0 <= v < |adj| ==> dist[v] == (if v == s then Minutes(0) else Unreached)
    requires forall v :: 0 <= v < |adj| ==> parent[v] == -1
    ensures Searching(adj, s, dist, parent, via, multiset{(0, s)})
  {
  }

  /** Dropping a stale entry keeps the search state. */
  lemma DropStale(adj: Adjacency, s: int, dist: seq<Dist>, parent: seq<int>, via: seq<int>, pq: multiset<Entry>, e: Entry)
    requires Searching(adj, s, dist, parent, via, pq)
    requires e in pq && Exceeds(e.0, dist[e.1])
    ensures Searching(adj, s, dist, parent, via, pq - multiset{e})
  {
    var pq' := pq - multiset{e};
    forall v | 0 <= v < |adj| && dist[v].Minutes? && !Relaxed(adj, dist, v)
      ensures (dist[v].m, v) in pq'
    {
      assert (dist[v].m, v) in pq;
      assert (dist[v].m, v) != e;
    }
  }

  /** A fresh entry is exact: its station's time equals the entry's minutes, and scanning it may begin. */
  lemma BeginScan(adj: Adjacency, s: int, dist: seq<Dist>, parent: seq<int>, via: seq<int>, pq: multiset<Entry>, e: Entry)
    requires Searching(adj, s, dist, parent, via, pq)
    requires e in pq && !Exceeds(e.0, dist[e.1])
    ensures dist[e.1] == Minutes(e.0)
    ensures Scanning(adj, s, dist, parent, via, pq - multiset{e}, e.1, e.0, 0)
  {
    var pq' := pq - multiset{e};
    forall v | 0 <= v < |adj| && v != e.1 && dist[v].Minutes? && !Relaxed(adj, dist, v)
      ensures (dist[v].m, v) in pq'
    {
      assert (dist[v].m, v) in pq;
    }
  }

  /** An entry that cannot shorten its neighbour's time is already relaxed. */
  lemma ScanKeep(adj: Adjacency, s: int, dist: seq<Dist>, parent: seq<int>, via: seq<int>,
                 pq: multiset<Entry>, u: int, d: nat, j: nat)
    requires Scanning(adj, s, dist, parent, via, pq, u, d, j) && j < |adj[u]|
    requires !Improves(d + adj[u][j].time, dist[adj[u][j].to])
    ensures Scanning(adj, s, dist, parent, via, pq, u, d, j + 1)
  {
    assert adj[u][j] in adj[u];
  }

  /** Station v is reached in fewer minutes than before (possibly for the first time). */
  ghost predicate Closer(now: seq<Dist>, before: seq<Dist>) {
    || UnreachedCount(now) < UnreachedCount(before)
    || (UnreachedCount(now) == UnreachedCount(before) && ReachedTotal(now) < ReachedTotal(before))
  }

  /** Getting closer is transitive, so a run of relaxations gets closer too. */
  lemma CloserTrans(a: seq<Dist>, b: seq<Dist>, c: seq<Dist>)
    requires Closer(a, b) && (b == c || Closer(b, c))
    ensures Closer(a, c)
  {
  }

  /** Giving v the time x through u's entry (v, w) keeps the parent links sound. */
  lemma RelaxKeepsTree(adj: Adjacency, s: int, dist: seq<Dist>, parent: seq<int>, via: seq<int>,
                       u: int, v: int, w: int, x: nat)
    requires Tree(adj, s, dist, parent, via) && 0 <= u < |adj| && 0 <= v < |adj|
    requires Edge(v, w) in adj[u] && dist[u].Minutes? && dist[u].m + w == x
    requires v != s && Improves(x, dist[v])
    ensures Tree(adj, s, dist[v := Minutes(x)], parent[v := u], via[v := w])
  {
    var dist', parent', via' := dist[v := Minutes(x)], parent[v := u], via[v := w];
    forall y | 0 <= y < |adj| && y != s && dist'[y].Minutes?
      ensures HangsOff(adj, dist', parent', via', y)
    {
      if y != v {
        assert HangsOff(adj, dist, parent, via, y);
      }
    }
  }

  /** Lowering v's time and inserting its entry keeps every other station (but u) covered. */
  lemma RelaxKeepsCovers(adj: Adjacency, dist: seq<Dist>, pq: multiset<Entry>, u: int, v: int, x: nat)
    requires |dist| == |adj| && 0 <= v < |adj| && Covers(adj, dist, pq, u) && Improves(x, dist[v])
    ensures Covers(adj, dist[v := Minutes(x)], pq + multiset{(x, v)}, u)
  {
    var dist', pq' := dist[v := Minutes(x)], pq + multiset{(x, v)};
    forall y | 0 <= y < |adj| && y != u && dist'[y].Minutes? && !Relaxed(adj, dist', y)
      ensures (dist'[y].m, y) in pq'
    {
      if y != v && Relaxed(adj, dist, y) {
        forall f | f in adj[y]
          ensures EdgeRelaxed(dist', dist'[y].m, f)
        {
          assert EdgeRelaxed(dist, dist[y].m, f);
        }
      }
    }
  }

  /** Lowering v's time and inserting its entry keeps the frontier sound. */
  lemma RelaxKeepsSound(dist: seq<Dist>, pq: multiset<Entry>, v: int, x: nat)
    requires FrontierSound(dist, pq) && 0 <= v < |dist| && Improves(x, dist[v])
    ensures FrontierSound(dist[v := Minutes(x)], pq + multiset{(x, v)})
  {
  }

  /**
   * Relaxing an entry that shortens its neighbour's time: the neighbour gets
   * the new time, u as parent and a fresh frontier entry; the search gets closer
   * to its end.
   */
  lemma ScanRelax(adj: Adjacency, s: int, dist: seq<Dist>, parent: seq<int>, via: seq<int>,
                  pq: multiset<Entry>, u: int, d: nat, j: nat, v: int, w: int)
    requires Scanning(adj, s, dist, parent, via, pq, u, d, j) && j < |adj[u]|
    requires adj[u][j] == Edge(v, w) && Improves(d + w, dist[v])
    ensures d + w >= 0 && v != s && v != u
    ensures Scanning(adj, s, dist[v := Minutes(d + w)], parent[v := u], via[v := w],
                     pq + multiset{(d + w, v)}, u, d, j + 1)
    ensures Closer(dist[v := Minutes(d + w)], dist)
  {
    assert Edge(v, w) in adj[u];
    var x: nat := d + w;
    var dist' := dist[v := Minutes(x)];
    RelaxKeepsTree(adj, s, dist, parent, via, u, v, w, x);
    RelaxKeepsCovers(adj, dist, pq, u, v, x);
    RelaxKeepsSound(dist, pq, v, x);
    forall k | 0 <= k < j + 1
      ensures EdgeRelaxed(dist', d, adj[u][k])
    {
      if k < j {
        assert EdgeRelaxed(dist, d, adj[u][k]);
      }
    }
    LowerIsCloser(dist, v, x);
  }

  /** Once every entry of u is scanned, u is relaxed and the main-loop state holds again. */
  lemma EndScan(adj: Adjacency, s: int, dist: seq<Dist>, parent: seq<int>, via: seq<int>,
                pq: multiset<Entry>, u: int, d: nat)
    requires 0 <= u < |adj| && Scanning(adj, s, dist, parent, via, pq, u, d, |adj[u]|)
    ensures Relaxed(adj, dist, u)
    ensures Searching(adj, s, dist, parent, via, pq)
  {
    forall e | e in adj[u]
      ensures EdgeRelaxed(dist, d, e)
    {
      var k :| 0 <= k < |adj[u]| && adj[u][k] == e;
    }
    assert Relaxed(adj, dist, u);
  }

  /** Some walk from s to v takes exactly m minutes. */
  ghost predicate WalkOf(adj: Adjacency, s: int, v: int, m: int) {
    exists p, ws :: WalkBetween(adj, s, v, p, ws) && Sum(ws) == m
  }

  /** Every reached station's time is the travel time of some walk from s to it. */
  ghost predicate Achieved(adj: Adjacency, s: int, dist: seq<Dist>) {
    forall v {:trigger WalkOf(adj, s, v, dist[v].m)} ::
      0 <= v < |dist| && dist[v].Minutes? ==> WalkOf(adj, s, v, dist[v].m)
  }

  /** A time that is reached now if it was before, and no later. */
  predicate NoLater(now: Dist, before: Dist) {
    before.Minutes? ==> now.Minutes? && now.m <= before.m
  }

  /** No reached station lost its time and no time went up. */
  ghost predicate Lowered(now: seq<Dist>, before: seq<Dist>) {
    |now| == |before| &&
    forall v {:trigger NoLater(now[v], before[v])} :: 0 <= v < |before| ==> NoLater(now[v], before[v])
  }

  /** At the start only the start station is reached, in 0 minutes, by the walk that stays put. */
  lemma InitialAchieved(adj: Adjacency, s: int, dist: seq<Dist>)
    requires 0 <= s < |adj| && |dist| == |adj|
    requires forall v :: 0 <= v < |adj| ==> dist[v] == (if v == s then Minutes(0) else Unreached)
    ensures Achieved(adj, s, dist)
  {
    assert WalkBetween(adj, s, s, [s], []) && Sum([]) == 0;
    forall v | 0 <= v < |dist| && dist[v].Minutes?
      ensures WalkOf(adj, s, v, dist[v].m)
    {
      assert v == s;
    }
  }

  /** A walk from s to u followed by u's entry (v, w) is a walk from s to v, w minutes longer. */
  lemma ExtendWalk(adj: Adjacency, s: int, u: int, p: seq<int>, ws: seq<int>, v: int, w: int)
    requires WalkBetween(adj, s, u, p, ws) && 0 <= v < |adj| && Edge(v, w) in adj[u]
    ensures WalkBetween(adj, s, v, p + [v], ws + [w])
    ensures Sum(ws + [w]) == Sum(ws) + w
  {
    assert (ws + [w])[..|ws|] == ws;
    var p', ws' := p + [v], ws + [w];
    forall i | 0 <= i < |ws'|
      ensures Edge(p'[i + 1], ws'[i]) in adj[p'[i]]
    {
      if i < |ws| {
        assert p'[i + 1] == p[i + 1] && p'[i] == p[i] && ws'[i] == ws[i];
      }
    }
  }

  /** Giving v the time of u's time plus the entry (v, w) keeps every reached time achieved. */
  lemma RelaxKeepsAchieved(adj: Adjacency, s: int, dist: seq<Dist>, u: int, v: int, w: int, x: nat)
    requires WellFormed(adj) && |dist| == |adj| && Achieved(adj, s, dist)
    requires 0 <= u < |adj| && Edge(v, w) in adj[u] && dist[u].Minutes? && dist[u].m + w == x
    ensures Achieved(adj, s, dist[v := Minutes(x)])
  {
    var dist' := dist[v := Minutes(x)];
    assert WalkOf(adj, s, u, dist[u].m);
    var p, ws :| WalkBetween(adj, s, u, p, ws) && Sum(ws) == dist[u].m;
    ExtendWalk(adj, s, u, p, ws, v, w);
    forall y | 0 <= y < |dist'| && dist'[y].Minutes?
      ensures WalkOf(adj, s, y, dist'[y].m)
    {
      if y == v {
        assert WalkBetween(adj, s, y, p + [v], ws + [w]) && Sum(ws + [w]) == dist'[y].m;
      } else {
        assert dist'[y] == dist[y];
        assert WalkOf(adj, s, y, dist[y].m);
      }
    }
  }

  /** Lowering one time keeps the times lowered with respect to an earlier state. */
  lemma LowerKeepsLowered(now: seq<Dist>, before: seq<Dist>, v: int, x: nat)
    requires Lowered(now, before) && 0 <= v < |now| && Improves(x, now[v])
    ensures Lowered(now[v := Minutes(x)], before)
  {
    forall y | 0 <= y < |before|
      ensures NoLater(now[v := Minutes(x)][y], before[y])
    {
      assert NoLater(now[y], before[y]);
    }
  }

  /**
   * Station x's time and parent (now, p) against those at the start of the
   * scan of u, reached in d minutes (before, p0): an unchanged time keeps its
   * parent; a changed time is d plus the time of an entry of u towards x, and
   * the parent is u.
   */
  ghost predicate StepOf(adj: Adjacency, u: int, d: nat, x: int, now: Dist, p: int, before: Dist, p0: int) {
    if now == before then p == p0
    else 0 <= u < |adj| && p == u && exists w :: Edge(x, w) in adj[u] && now.Minutes? && now.m == d + w
  }

  /** What the scan of u did to the times and parents, station by station. */
  ghost predicate Moves(adj: Adjacency, u: int, d: nat, dist: seq<Dist>, parent: seq<int>,
                        dist0: seq<Dist>, parent0: seq<int>) {
    && |dist| == |dist0| && |parent| == |parent0| && |parent0| == |dist0|
    && forall x {:trigger StepOf(adj, u, d, x, dist[x], parent[x], dist0[x], parent0[x])} ::
         0 <= x < |dist0| ==> StepOf(adj, u, d, x, dist[x], parent[x], dist0[x], parent0[x])
  }

  /**
   * The state while the entries of u are relaxed, compared with the state
   * dist0, parent0, pq0 at the start of the scan: the scanning state, every
   * time achieved, no time raised, every change made through an entry of u,
   * and either nothing changed yet or the search got closer to its end.
   */
  ghost predicate Relaxing(adj: Adjacency, s: int, dist: seq<Dist>, parent: seq<int>, via: seq<int>,
                           pq: multiset<Entry>, u: int, d: nat, j: nat,
                           dist0: seq<Dist>, parent0: seq<int>, pq0: multiset<Entry>) {
    && Scanning(adj, s, dist, parent, via, pq, u, d, j)
    && Achieved(adj, s, dist) && Lowered(dist, dist0)
    && Moves(adj, u, d, dist, parent, dist0, parent0)
    && ((dist == dist0 && pq == pq0) || Closer(dist, dist0))
  }

  /** Giving v the time d + w and the parent u through u's entry (v, w) is a move of the scan. */
  lemma RelaxKeepsMoves(adj: Adjacency, u: int, d: nat, dist: seq<Dist>, parent: seq<int>,
                        dist0: seq<Dist>, parent0: seq<int>, v: int, w: int)
    requires Moves(adj, u, d, dist, parent, dist0, parent0) && Lowered(dist, dist0)
    requires 0 <= u < |adj| && Edge(v, w) in adj[u] && 0 <= v < |dist| && Improves(d + w, dist[v]) && d + w >= 0
    ensures Moves(adj, u, d, dist[v := Minutes(d + w)], parent[v := u], dist0, parent0)
  {
    var dist', parent' := dist[v := Minutes(d + w)], parent[v := u];
    forall x | 0 <= x < |dist0|
      ensures StepOf(adj, u, d, x, dist'[x], parent'[x], dist0[x], parent0[x])
    {
      if x == v {
        assert NoLater(dist[v], dist0[v]);
        assert dist'[v] != dist0[v];
      } else {
        assert StepOf(adj, u, d, x, dist[x], parent[x], dist0[x], parent0[x]);
      }
    }
  }

  /** Before the first entry of u nothing has changed. */
  lemma RelaxingStart(adj: Adjacency, s: int, dist: seq<Dist>, parent: seq<int>, via: seq<int>,
                      pq: multiset<Entry>, u: int, d: nat)
    requires Scanning(adj, s, dist, parent, via, pq, u, d, 0) && Achieved(adj, s, dist)
    ensures Relaxing(adj, s, dist, parent, via, pq, u, d, 0, dist, parent, pq)
  {
    forall y | 0 <= y < |dist|
      ensures NoLater(dist[y], dist[y])
      ensures StepOf(adj, u, d, y, dist[y], parent[y], dist[y], parent[y])
    {
    }
  }

  /** Relaxing entry j of u when it improves its neighbour's time. */
  lemma RelaxingImproves(adj: Adjacency, s: int, dist: seq<Dist>, parent: seq<int>, via: seq<int>,
                         pq: multiset<Entry>, u: int, d: nat, j: nat,
                         dist0: seq<Dist>, parent0: seq<int>, pq0: multiset<Entry>, v: int, w: int)
    requires Relaxing(adj, s, dist, parent, via, pq, u, d, j, dist0, parent0, pq0) && j < |adj[u]|
    requires adj[u][j] == Edge(v, w) && Improves(d + w, dist[v])
    ensures d + w >= 0 && 0 <= v < |dist|
    ensures Relaxing(adj, s, dist[v := Minutes(d + w)], parent[v := u], via[v := w],
                     pq + multiset{(d + w, v)}, u, d, j + 1, dist0, parent0, pq0)
  {
    ScanRelax(adj, s, dist, parent, via, pq, u, d, j, v, w);
    CloserTrans(dist[v := Minutes(d + w)], dist, dist0);
    assert Edge(v, w) in adj[u];
    RelaxKeepsAchieved(adj, s, dist, u, v, w, d + w);
    LowerKeepsLowered(dist, dist0, v, d + w);
    RelaxKeepsMoves(adj, u, d, dist, parent, dist0, parent0, v, w);
  }

  /** Skipping entry j of u when it does not improve its neighbour's time. */
  lemma RelaxingSkips(adj: Adjacency, s: int, dist: seq<Dist>, parent: seq<int>, via: seq<int>,
                      pq: multiset<Entry>, u: int, d: nat, j: nat,
                      dist0: seq<Dist>, parent0: seq<int>, pq0: multiset<Entry>)
    requires Relaxing(adj, s, dist, parent, via, pq, u, d, j, dist0, parent0, pq0) && j < |adj[u]|
    requires !Improves(d + adj[u][j].time, dist[adj[u][j].to])
    ensures Relaxing(adj, s, dist, parent, via, pq, u, d, j + 1, dist0, parent0, pq0)
  {
    ScanKeep(adj, s, dist, parent, via, pq, u, d, j);
  }

  /** After the last entry of u, u is relaxed and the main-loop state holds again. */
  lemma RelaxingEnd(adj: Adjacency, s: int, dist: seq<Dist>, parent: seq<int>, via: seq<int>,
                    pq: multiset<Entry>, u: int, d: nat, dist0: seq<Dist>, parent0: seq<int>, pq0: multiset<Entry>)
    requires 0 <= u < |adj| && Relaxing(adj, s, dist, parent, via, pq, u, d, |adj[u]|, dist0, parent0, pq0)
    ensures Relaxed(adj, dist, u)
    ensures Searching(adj, s, dist, parent, via, pq)
  {
    EndScan(adj, s, dist, parent, via, pq, u, d);
  }

  // ---------------------------------------------------------------------------
  // Termination measure: unreached stations, then the sum of reached times

  function UnreachedCount(dist: seq<Dist>): (count: nat) {
    if dist == [] then 0
    else UnreachedCount(dist[..|dist| - 1]) + (if dist[|dist| - 1].Unreached? then 1 else 0)
  }

  function ReachedTotal(dist: seq<Dist>): (total: nat) {
    if dist == [] then 0
    else ReachedTotal(dist[..|dist| - 1]) + (if dist[|dist| - 1].Minutes? then dist[|dist| - 1].m else 0)
  }

  /** Lowering one station's time brings the search closer to its end. */
  lemma {:induction false} LowerIsCloser(dist: seq<Dist>, v: int, x: nat)
    requires 0 <= v < |dist| && Improves(x, dist[v])
    ensures Closer(dist[v := Minutes(x)], dist)
    decreases |dist|
  {
    var n := |dist|;
    var dist' := dist[v := Minutes(x)];
    if v < n - 1 {
      assert dist'[..n - 1] == dist[..n - 1][v := Minutes(x)];
      LowerIsCloser(dist[..n - 1], v, x);
    } else {
      assert dist'[..n - 1] == dist[..n - 1];
    }
  }

  // ---------------------------------------------------------------------------
  // Optimality

  /**
   * Along any walk from the start, either some frontier entry is no later than
   * the walk's time, or the walk's last station is already reached no later
   * than the walk's time.
   */
  lemma {:induction false} WalkBound(adj: Adjacency, s: int, dist: seq<Dist>, parent: seq<int>, via: seq<int>,
                                     pq: multiset<Entry>, p: seq<int>, ws: seq<int>)
    requires Searching(adj, s, dist, parent, via, pq)
    requires IsWalk(adj, p, ws) && p[0] == s
    ensures || (exists e :: e in pq && e.0 <= Sum(ws))
            || (dist[p[|p| - 1]].Minutes? && dist[p[|p| - 1]].m <= Sum(ws))
    decreases |p|
  {
    if |p| > 1 {
      var k := |ws| - 1;
      var p', ws' := p[..k + 1], ws[..k];
      assert IsWalk(adj, p', ws') by {
        forall i | 0 <= i < |ws'| ensures Edge(p'[i + 1], ws'[i]) in adj[p'[i]] {
          assert Edge(p[i + 1], ws[i]) in adj[p[i]];
        }
      }
      WalkBound(adj, s, dist, parent, via, pq, p', ws');
      var y, x, w := p[k], p[k + 1], ws[k];
      assert Edge(x, w) in adj[y];
      assert w > 0;
      assert Sum(ws) == Sum(ws') + w;
      if !exists e :: e in pq && e.0 <= Sum(ws') {
        assert dist[y].Minutes? && dist[y].m <= Sum(ws');
        if Relaxed(adj, dist, y) {
          assert EdgeRelaxed(dist, dist[y].m, Edge(x, w));
        }
      }
    }
  }

  /** Every walk from s to t takes at least dist[t] minutes, and dist[t] is a reached time. */
  ghost predicate Settled(adj: Adjacency, s: int, t: int, dist: seq<Dist>) {
    0 <= t < |dist| &&
    forall p, ws :: WalkBetween(adj, s, t, p, ws) ==> dist[t].Minutes? && dist[t].m <= Sum(ws)
  }

  /** With an empty frontier every station's time is final. */
  lemma SettledWhenEmpty(adj: Adjacency, s: int, t: int, dist: seq<Dist>, parent: seq<int>, via: seq<int>)
    requires Searching(adj, s, dist, parent, via, multiset{})
    requires 0 <= t < |adj|
    ensures Settled(adj, s, t, dist)
  {
    forall p, ws | WalkBetween(adj, s, t, p, ws)
      ensures dist[t].Minutes? && dist[t].m <= Sum(ws)
    {
      WalkBound(adj, s, dist, parent, via, multiset{}, p, ws);
    }
  }

  /** The station of the entry handed out next, when that entry is fresh, has its final time. */
  lemma SettledAtTop(adj: Adjacency, s: int, dist: seq<Dist>, parent: seq<int>, via: seq<int>,
                     pq: multiset<Entry>, top: Entry)
    requires Searching(adj, s, dist, parent, via, pq)
    requires IsTop(top, pq) && !Exceeds(top.0, dist[top.1])
    ensures dist[top.1] == Minutes(top.0)
    ensures Settled(adj, s, top.1, dist)
  {
    forall p, ws | WalkBetween(adj, s, top.1, p, ws)
      ensures dist[top.1].Minutes? && dist[top.1].m <= Sum(ws)
    {
      WalkBound(adj, s, dist, parent, via, pq, p, ws);
      if exists e :: e in pq && e.0 <= Sum(ws) {
        var e :| e in pq && e.0 <= Sum(ws);
        assert LexLeq(top, e);
      }
    }
  }

  /** A station that is not reached once its time is final cannot be reached at all. */
  lemma UnreachedIsUnreachable(adj: Adjacency, s: int, t: int, dist: seq<Dist>)
    requires Settled(adj, s, t, dist) && dist[t].Unreached?
    ensures !Reachable(adj, s, t)
  {
  }

  // ---------------------------------------------------------------------------
  // Route reconstruction

  /**
   * While walking back from t along parent links: at station v, [v] + path
   * is a walk to t whose time, added to v's time, stays within t's time; once
   * v is -1 the path is a whole walk from s to t.
   */
  ghost predicate Unwinding(adj: Adjacency, s: int, t: int, dist: seq<Dist>, v: int, path: seq<int>, ws: seq<int>) {
    && |dist| == |adj| && 0 <= t < |adj| && dist[t].Minutes?
    && (v == -1 ==> WalkBetween(adj, s, t, path, ws) && Sum(ws) <= dist[t].m)
    && (v != -1 ==> 0 <= v < |adj| && dist[v].Minutes? && WalkBetween(adj, v, t, [v] + path, ws)
                    && dist[v].m + Sum(ws) <= dist[t].m)
  }

  /** Distance of the walk back from v to the start, as a termination measure. */
  function Height(dist: seq<Dist>, v: int): (height: nat) {
    if 0 <= v < |dist| && dist[v].Minutes? then dist[v].m + 1 else 0
  }

  /** The walk back starts at t with an empty path. */
  lemma BeginUnwind(adj: Adjacency, s: int, t: int, dist: seq<Dist>)
    requires |dist| == |adj| && 0 <= t < |adj| && dist[t].Minutes?
    ensures Unwinding(adj, s, t, dist, t, [], [])
  {
    assert WalkBetween(adj, t, t, [t], []);
  }

  /** One step back: prepend v and move to its parent, adding the hop from the parent to v. */
  lemma UnwindStep(adj: Adjacency, s: int, t: int, dist: seq<Dist>, parent: seq<int>, via: seq<int>,
                   v: int, path: seq<int>, ws: seq<int>)
    requires WellFormed(adj) && Tree(adj, s, dist, parent, via)
    requires Unwinding(adj, s, t, dist, v, path, ws) && v != -1
    ensures Unwinding(adj, s, t, dist, parent[v], [v] + path, if v == s then ws else [via[v]] + ws)
    ensures Height(dist, parent[v]) < Height(dist, v)
  {
    if v != s {
      assert HangsOff(adj, dist, parent, via, v);
      var u := parent[v];
      assert Edge(v, via[v]) in adj[u];
      var p', ws' := [u] + ([v] + path), [via[v]] + ws;
      assert IsWalk(adj, p', ws') by {
        forall i | 0 <= i < |ws'| ensures Edge(p'[i + 1], ws'[i]) in adj[p'[i]] {
          if i > 0 {
            assert p'[i] == ([v] + path)[i - 1] && p'[i + 1] == ([v] + path)[i] && ws'[i] == ws[i - 1];
          }
        }
      }
      SumPrepend(via[v], ws);
    }
  }

  /** The rebuilt route is a walk from s to t whose time is t's final time, and no walk is faster. */
  lemma RouteIsFastest(adj: Adjacency, s: int, t: int, dist: seq<Dist>, path: seq<int>, ws: seq<int>)
    requires Settled(adj, s, t, dist) && Unwinding(adj, s, t, dist, -1, path, ws)
    ensures Sum(ws) == dist[t].m
    ensures Fastest(adj, s, t, Route(path, dist[t].m))
  {
  }
}
