/**
 * Dijkstra's algorithm with lazy deletion: a min-queue of `(distance, vertex)`
 * pairs, stale pairs skipped when popped, `IntMax` as the distance of a vertex
 * not reached yet, and the path rebuilt by following predecessors from the
 * end vertex. Weights must be non-negative.
 */
module Dijkstra {
  import opened Walks
  import opened PriorityQueue

  /** What the shortest-path query reports: nothing reaches `end`, or a path and its length. */
  datatype Route = Unreachable | Path(vertices: seq<int>, length: int)

  // ---------------------------------------------------------------------
  // Facts about distance tables
  // ---------------------------------------------------------------------

  /** Every record leaving `x` is relaxed: it offers no shorter distance to its target. */
  ghost predicate Relaxed(adj: seq<seq<Edge>>, distance: seq<int>, x: int)
    requires WellFormed(adj) && |distance| == |adj| && 0 <= x < |adj|
  {
    forall e {:trigger e in adj[x]} :: e in adj[x] ==> distance[e.to] <= distance[x] + e.weight
  }

  /** Distances lie in `0 .. IntMax` and the start vertex is at distance 0. */
  ghost predicate Bounded(adj: seq<seq<Edge>>, start: int, distance: seq<int>) {
    && |distance| == |adj| && 0 <= start < |adj|
    && distance[start] == 0
    && forall x :: 0 <= x < |adj| ==> 0 <= distance[x] <= IntMax
  }

  /**
   * The predecessor links during the run: a reached vertex other than the
   * start has a predecessor with a record to it of weight `predW[x]`, its
   * distance is at least the predecessor's plus that weight, and where equal
   * the predecessor was last improved earlier.
   */
  ghost predicate Links(adj: seq<seq<Edge>>, start: int, distance: seq<int>, predecessor: seq<int>,
                        predW: seq<int>, stamp: seq<int>)
    requires Bounded(adj, start, distance)
  {
    && |predecessor| == |predW| == |stamp| == |adj|
    && predecessor[start] == -1
    && (forall x :: 0 <= x < |adj| ==> stamp[x] >= 0)
    && (forall x {:trigger predecessor[x]} :: 0 <= x < |adj| && x != start ==> (distance[x] == IntMax <==> predecessor[x] == -1))
    && (forall x {:trigger predecessor[x]} :: 0 <= x < |adj| && x != start && distance[x] < IntMax ==>
          && 0 <= predecessor[x] < |adj|
          && Edge(x, predW[x]) in adj[predecessor[x]]
          && distance[x] >= distance[predecessor[x]] + predW[x]
          && (stamp[predecessor[x]] < stamp[x] || distance[x] > distance[predecessor[x]] + predW[x]))
  }

  /**
   * The predecessor tree at the end: every reached vertex other than the start
   * has a predecessor, of lower rank, holding a record to it whose weight is
   * exactly the difference of their distances.
   */
  ghost predicate PredecessorTree(adj: seq<seq<Edge>>, start: int, distance: seq<int>, predecessor: seq<int>, rank: seq<int>)
  {
    && Bounded(adj, start, distance)
    && |predecessor| == |rank| == |adj|
    && predecessor[start] == -1
    && (forall x :: 0 <= x < |adj| ==> rank[x] >= 0)
    && (forall x {:trigger predecessor[x]} :: 0 <= x < |adj| && x != start ==> (distance[x] == IntMax <==> predecessor[x] == -1))
    && (forall x {:trigger predecessor[x]} :: 0 <= x < |adj| && x != start && distance[x] < IntMax ==>
          && 0 <= predecessor[x] < |adj|
          && rank[predecessor[x]] < rank[x]
          && exists w :: Edge(x, w) in adj[predecessor[x]] && distance[x] == distance[predecessor[x]] + w)
  }

  /**
   * Once every reached vertex is relaxed, no walk from the start is shorter
   * than the distance of its last vertex.
   */
  lemma {:induction false} RelaxedLowerBound(adj: seq<seq<Edge>>, start: int, distance: seq<int>, p: seq<int>, ws: seq<int>)
    requires WellFormed(adj) && NonNegative(adj) && Bounded(adj, start, distance)
    requires forall x :: 0 <= x < |adj| && distance[x] < IntMax ==> Relaxed(adj, distance, x)
    requires IsWalk(adj, p, ws) && p[0] == start
    ensures distance[p[|p| - 1]] <= Sum(ws)
  {
    if |ws| > 0 {
      var p', ws' := p[..|p| - 1], ws[..|ws| - 1];
      assert IsWalk(adj, p', ws') by {
        forall i | 0 <= i < |ws'|
          ensures Edge(p'[i + 1], ws'[i]) in adj[p'[i]]
        {
          assert p'[i + 1] == p[i + 1] && p'[i] == p[i] && ws'[i] == ws[i];
        }
      }
      RelaxedLowerBound(adj, start, distance, p', ws');
      var x, v, w := p[|p| - 2], p[|p| - 1], ws[|ws| - 1];
      assert Edge(v, w) in adj[x];
      assert Sum(ws) == Sum(ws') + w;
      if Sum(ws) < IntMax {
        assert distance[x] < IntMax;
        assert Relaxed(adj, distance, x);
      }
    }
  }

  /**
   * Following predecessors from a reached vertex gives a walk from the start
   * no longer than its distance.
   */
  lemma ChainWalk(adj: seq<seq<Edge>>, start: int, distance: seq<int>, predecessor: seq<int>,
                  predW: seq<int>, stamp: seq<int>, v: int)
    requires WellFormed(adj) && NonNegative(adj) && Bounded(adj, start, distance)
    requires Links(adj, start, distance, predecessor, predW, stamp)
    requires 0 <= v < |adj| && distance[v] < IntMax
    ensures exists p, ws :: IsWalk(adj, p, ws) && p[0] == start && p[|p| - 1] == v && Sum(ws) <= distance[v]
    decreases distance[v], stamp[v]
  {
    if v == start {
      assert IsWalk(adj, [start], []);
    } else {
      var u, w := predecessor[v], predW[v];
      assert w >= 0;
      ChainWalk(adj, start, distance, predecessor, predW, stamp, u);
      var p, ws :| IsWalk(adj, p, ws) && p[0] == start && p[|p| - 1] == u && Sum(ws) <= distance[u];
      WalkAppend(adj, p, ws, v, w);
      assert Sum(ws + [w]) == Sum(ws) + w;
      assert (p + [v])[0] == start;
    }
  }

  // ---------------------------------------------------------------------
  // The search
  // ---------------------------------------------------------------------

  /** Every queued pair names a vertex and is never below that vertex's distance. */
  ghost predicate Queued(adj: seq<seq<Edge>>, distance: seq<int>, pq: seq<(int, int)>)
    requires |distance| == |adj|
  {
    forall i :: 0 <= i < |pq| ==> 0 <= pq[i].1 < |adj| && distance[pq[i].1] <= pq[i].0 < IntMax
  }

  /** Every reached vertex other than `skip` is queued at its distance or relaxed. */
  ghost predicate Pending(adj: seq<seq<Edge>>, distance: seq<int>, pq: seq<(int, int)>, skip: int)
    requires WellFormed(adj) && |distance| == |adj|
  {
    forall x {:trigger Relaxed(adj, distance, x)} :: 0 <= x < |adj| && distance[x] < IntMax && x != skip ==>
      (distance[x], x) in pq || Relaxed(adj, distance, x)
  }

  /**
   * The state of the search between steps: bounded distances, consistent
   * predecessor links stamped before `clock`, queued pairs never below their
   * vertex's distance, and every reached vertex other than `skip` either
   * queued at its distance or relaxed.
   */
  ghost predicate Searching(adj: seq<seq<Edge>>, start: int, distance: seq<int>, predecessor: seq<int>,
                            predW: seq<int>, stamp: seq<int>, clock: int, pq: seq<(int, int)>, skip: int)
  {
    && WellFormed(adj)
    && Bounded(adj, start, distance)
    && Links(adj, start, distance, predecessor, predW, stamp)
    && (forall x :: 0 <= x < |adj| ==> stamp[x] < clock)
    && Queued(adj, distance, pq)
    && Pending(adj, distance, pq, skip)
  }

  /** Improving `v` through the record `u -> v` keeps the predecessor links. */
  lemma LinksStep(adj: seq<seq<Edge>>, start: int, u: int, v: int, weight: int, distance: seq<int>, predecessor: seq<int>,
                  predW: seq<int>, stamp: seq<int>, clock: int)
    requires WellFormed(adj) && NonNegative(adj) && Bounded(adj, start, distance)
    requires Links(adj, start, distance, predecessor, predW, stamp)
    requires forall x :: 0 <= x < |adj| ==> stamp[x] < clock
    requires 0 <= u < |adj| && distance[u] < IntMax
    requires Edge(v, weight) in adj[u] && distance[u] + weight < distance[v]
    ensures Bounded(adj, start, distance[v := distance[u] + weight])
    ensures Links(adj, start, distance[v := distance[u] + weight], predecessor[v := u], predW[v := weight], stamp[v := clock])
  {
    var n := |adj|;
    var distance', predecessor', predW', stamp' := distance[v := distance[u] + weight], predecessor[v := u], predW[v := weight], stamp[v := clock];
    assert 0 <= v < n && weight >= 0;
    assert v != u && v != start;
    assert Bounded(adj, start, distance');
    forall x | 0 <= x < n && x != start && distance'[x] < IntMax
      ensures && 0 <= predecessor'[x] < n
              && Edge(x, predW'[x]) in adj[predecessor'[x]]
              && distance'[x] >= distance'[predecessor'[x]] + predW'[x]
              && (stamp'[predecessor'[x]] < stamp'[x] || distance'[x] > distance'[predecessor'[x]] + predW'[x])
    {
      if x != v {
        assert distance[x] < IntMax;
        if predecessor[x] == v {
          assert distance'[v] < distance[v];
        }
      }
    }
  }

  /** Improving `v` and queueing it at its new distance keeps the queue invariant. */
  lemma QueuedStep(adj: seq<seq<Edge>>, distance: seq<int>, pq: seq<(int, int)>, v: int, d: int)
    requires |distance| == |adj| && Queued(adj, distance, pq)
    requires 0 <= v < |adj| && 0 <= d < distance[v] <= IntMax
    ensures Queued(adj, distance[v := d], pq + [(d, v)])
  {
    var distance', pq' := distance[v := d], pq + [(d, v)];
    forall i | 0 <= i < |pq'|
      ensures 0 <= pq'[i].1 < |adj| && distance'[pq'[i].1] <= pq'[i].0 < IntMax
    {
      if i < |pq| {
        assert pq'[i] == pq[i];
      }
    }
  }

  /** Improving `v` through a record leaving `u` keeps every vertex but `u` pending. */
  lemma PendingStep(adj: seq<seq<Edge>>, distance: seq<int>, pq: seq<(int, int)>, u: int, v: int, d: int)
    requires WellFormed(adj) && |distance| == |adj| && Pending(adj, distance, pq, u)
    requires 0 <= v < |adj| && d < distance[v]
    ensures Pending(adj, distance[v := d], pq + [(d, v)], u)
  {
    var distance', pq' := distance[v := d], pq + [(d, v)];
    forall x | 0 <= x < |adj| && distance'[x] < IntMax && x != u
      ensures (distance'[x], x) in pq' || Relaxed(adj, distance', x)
    {
      if x == v {
        assert pq'[|pq|] == (distance'[x], x);
      } else if (distance[x], x) in pq {
      } else {
        assert Relaxed(adj, distance, x);
      }
    }
  }

  /** Improving `v` through the record `u -> v` keeps the search state, `u` still excepted. */
  lemma RelaxStep(adj: seq<seq<Edge>>, start: int, u: int, v: int, weight: int, distance: seq<int>, predecessor: seq<int>,
                  pq: seq<(int, int)>, predW: seq<int>, stamp: seq<int>, clock: int)
    requires Searching(adj, start, distance, predecessor, predW, stamp, clock, pq, u)
    requires NonNegative(adj) && 0 <= u < |adj| && distance[u] < IntMax
    requires Edge(v, weight) in adj[u] && distance[u] + weight < distance[v]
    ensures Searching(adj, start, distance[v := distance[u] + weight], predecessor[v := u], predW[v := weight],
                      stamp[v := clock], clock + 1, pq + [(distance[u] + weight, v)], u)
  {
    var d := distance[u] + weight;
    assert 0 <= v < |adj| && 0 <= d;
    LinksStep(adj, start, u, v, weight, distance, predecessor, predW, stamp, clock);
    QueuedStep(adj, distance, pq, v, d);
    PendingStep(adj, distance, pq, u, v, d);
    var stamp' := stamp[v := clock];
    assert forall x :: 0 <= x < |adj| ==> stamp'[x] < clock + 1;
  }

  /**
   * The inner loop of the search: every record leaving `u` is relaxed,
   * improving distances, predecessors and the queue. The sum of distances
   * drops, or nothing changes at all.
   */
  method RelaxEdges(adj: seq<seq<Edge>>, start: int, u: int, distance: seq<int>, predecessor: seq<int>, pq: seq<(int, int)>,
                    ghost predW: seq<int>, ghost stamp: seq<int>, ghost clock: int)
    returns (distance': seq<int>, predecessor': seq<int>, pq': seq<(int, int)>,
             ghost predW': seq<int>, ghost stamp': seq<int>, ghost clock': int)
    requires Searching(adj, start, distance, predecessor, predW, stamp, clock, pq, u)
    requires NonNegative(adj) && 0 <= u < |adj| && distance[u] < IntMax
    ensures Searching(adj, start, distance', predecessor', predW', stamp', clock', pq', -1)
    ensures Sum(distance') < Sum(distance) || (Sum(distance') == Sum(distance) && |pq'| == |pq|)
  {
    distance', predecessor', pq', predW', stamp', clock' := distance, predecessor, pq, predW, stamp, clock;
    var du := distance[u];
    var k := 0;
    while k < |adj[u]|
      invariant 0 <= k <= |adj[u]|
      invariant Searching(adj, start, distance', predecessor', predW', stamp', clock', pq', u)
      invariant distance'[u] == du
      invariant forall j :: 0 <= j < k ==> distance'[adj[u][j].to] <= du + adj[u][j].weight
      invariant Sum(distance') < Sum(distance) || (Sum(distance') == Sum(distance) && |pq'| == |pq|)
    {
      var edge := adj[u][k];
      assert edge in adj[u];
      var v, weight := edge.to, edge.weight;
      if distance'[u] + weight < distance'[v] {
        RelaxStep(adj, start, u, v, weight, distance', predecessor', pq', predW', stamp', clock');
        SumUpdate(distance', v, distance'[u] + weight);
        distance' := distance'[v := distance'[u] + weight];
        predecessor' := predecessor'[v := u];
        predW' := predW'[v := weight];
        stamp' := stamp'[v := clock'];
        clock' := clock' + 1;
        pq' := pq' + [(distance'[v], v)];
      }
      k := k + 1;
    }
    forall e | e in adj[u]
      ensures distance'[e.to] <= distance'[u] + e.weight
    {
      var j :| 0 <= j < |adj[u]| && adj[u][j] == e;
    }
  }

  /**
   * Popping the least pair keeps the search state; when the pair is not stale
   * its vertex is the one left to relax.
   */
  lemma PopStep(adj: seq<seq<Edge>>, start: int, distance: seq<int>, predecessor: seq<int>,
                predW: seq<int>, stamp: seq<int>, clock: int, pq: seq<(int, int)>)
    requires Searching(adj, start, distance, predecessor, predW, stamp, clock, pq, -1) && |pq| > 0
    ensures 0 <= Top(pq).1 < |adj| && Top(pq).0 < IntMax
    ensures Top(pq).0 > distance[Top(pq).1] ==>
      Searching(adj, start, distance, predecessor, predW, stamp, clock, Remove(pq, Top(pq)), -1)
    ensures Top(pq).0 <= distance[Top(pq).1] ==>
      Searching(adj, start, distance, predecessor, predW, stamp, clock, Remove(pq, Top(pq)), Top(pq).1)
  {
    var top := Top(pq);
    var pq' := Remove(pq, top);
    PopKeeps(pq, top);
    var i :| 0 <= i < |pq| && pq[i] == top;
    forall y | y in pq && y != top
      ensures y in pq'
    {
      PopKeeps(pq, y);
    }
    forall i | 0 <= i < |pq'|
      ensures 0 <= pq'[i].1 < |adj| && distance[pq'[i].1] <= pq'[i].0 < IntMax
    {
      PopKeeps(pq, pq'[i]);
      var j :| 0 <= j < |pq| && pq[j] == pq'[i];
    }
  }

  /**
   * When the queue is empty every reached vertex is relaxed: the distances
   * are those of shortest walks and the stamps rank a predecessor tree.
   */
  lemma SearchDone(adj: seq<seq<Edge>>, start: int, distance: seq<int>, predecessor: seq<int>,
                   predW: seq<int>, stamp: seq<int>, clock: int)
    requires Searching(adj, start, distance, predecessor, predW, stamp, clock, [], -1) && NonNegative(adj)
    ensures PredecessorTree(adj, start, distance, predecessor, stamp)
    ensures forall p, ws :: IsWalk(adj, p, ws) && p[0] == start ==> distance[p[|p| - 1]] <= Sum(ws)
  {
    forall p, ws | IsWalk(adj, p, ws) && p[0] == start
      ensures distance[p[|p| - 1]] <= Sum(ws)
    {
      RelaxedLowerBound(adj, start, distance, p, ws);
    }
    forall x | 0 <= x < |adj| && x != start && distance[x] < IntMax
      ensures stamp[predecessor[x]] < stamp[x]
      ensures exists w :: Edge(x, w) in adj[predecessor[x]] && distance[x] == distance[predecessor[x]] + w
    {
      var u, w := predecessor[x], predW[x];
      ChainWalk(adj, start, distance, predecessor, predW, stamp, u);
      var p, ws :| IsWalk(adj, p, ws) && p[0] == start && p[|p| - 1] == u && Sum(ws) <= distance[u];
      WalkAppend(adj, p, ws, x, w);
      assert Sum(ws + [w]) == Sum(ws) + w;
      RelaxedLowerBound(adj, start, distance, p + [x], ws + [w]);
    }
  }

  /**
   * The main loop: every distance is the length of a shortest walk from
   * `start` (`IntMax` when no walk is shorter than `IntMax`), recorded in a
   * predecessor tree.
   */
  method Distances(adj: seq<seq<Edge>>, start: int) returns (distance: seq<int>, predecessor: seq<int>, ghost rank: seq<int>)
    requires WellFormed(adj) && NonNegative(adj) && 0 <= start < |adj|
    ensures PredecessorTree(adj, start, distance, predecessor, rank)
    ensures forall p, ws :: IsWalk(adj, p, ws) && p[0] == start ==> distance[p[|p| - 1]] <= Sum(ws)
  {
    var n := |adj|;
    distance := seq(n, _ => IntMax)[start := 0];
    predecessor := seq(n, _ => -1);
    ghost var predW: seq<int> := seq(n, _ => 0);
    ghost var stamp: seq<int> := seq(n, _ => 0);
    ghost var clock := 1;
    var pq := [(0, start)];
    SumNonNegative(distance);
    while |pq| > 0
      invariant Searching(adj, start, distance, predecessor, predW, stamp, clock, pq, -1)
      invariant Sum(distance) >= 0
      decreases Sum(distance), |pq|
    {
      var top := Top(pq);
      PopStep(adj, start, distance, predecessor, predW, stamp, clock, pq);
      PopKeeps(pq, top);
      pq := Remove(pq, top);
      var d, u := top.0, top.1;
      if d > distance[u] {
        continue;
      }
      distance, predecessor, pq, predW, stamp, clock :=
        RelaxEdges(adj, start, u, distance, predecessor, pq, predW, stamp, clock);
      SumNonNegative(distance);
    }
    rank := stamp;
    SearchDone(adj, start, distance, predecessor, predW, stamp, clock);
  }

  /**
   * The query: `Unreachable` exactly when no walk from `start` to `end` is
   * shorter than `IntMax`; otherwise a walk from `start` to `end`, rebuilt
   * through the predecessors, whose length no walk beats.
   */
  method ShortestPath(adj: seq<seq<Edge>>, start: int, end: int) returns (r: Route)
    requires WellFormed(adj) && NonNegative(adj) && 0 <= start < |adj| && 0 <= end < |adj|
    ensures r.Unreachable? <==>
      forall p, ws :: IsWalk(adj, p, ws) && p[0] == start && p[|p| - 1] == end ==> Sum(ws) >= IntMax
    ensures r.Path? ==>
      && |r.vertices| > 0 && r.vertices[0] == start && r.vertices[|r.vertices| - 1] == end
      && exists ws :: IsWalk(adj, r.vertices, ws) && Sum(ws) == r.length
    ensures r.Path? ==>
      forall p, ws :: IsWalk(adj, p, ws) && p[0] == start && p[|p| - 1] == end ==> r.length <= Sum(ws)
  {
    var distance, predecessor, rank := Distances(adj, start);
    if distance[end] == IntMax {
      return Unreachable;
    }
    var path: seq<int> := [];
    ghost var ws: seq<int> := [];
    var current := end;
    while current != -1
      invariant current == -1 || (0 <= current < |adj| && distance[current] < IntMax)
      invariant path == [] ==> current == end && ws == []
      invariant path != [] ==>
        && IsWalk(adj, path, ws) && path[|path| - 1] == end
        && distance[path[0]] < IntMax
        && Sum(ws) == distance[end] - distance[path[0]]
        && (current == -1 ==> path[0] == start)
        && (current != -1 ==>
              && predecessor[path[0]] == current && path[0] != start
              && exists w :: Edge(path[0], w) in adj[current] && distance[path[0]] == distance[current] + w)
      decreases if current == -1 then 0 else rank[current] + 1
    {
      if path != [] {
        ghost var w :| Edge(path[0], w) in adj[current] && distance[path[0]] == distance[current] + w;
        WalkPrepend(adj, current, w, path, ws);
        SumPrepend(w, ws);
        ws := [w] + ws;
        path := [current] + path;
      } else {
        assert IsWalk(adj, [current], []);
        path := [current];
      }
      current := predecessor[current];
    }
    r := Path(path, distance[end]);
  }
}
