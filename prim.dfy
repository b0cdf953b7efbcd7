/**
 * Prim's algorithm as the engine runs it: from vertex 0, a min-queue of
 * `(weight, vertex)` pairs with stale pairs skipped, the cheapest known
 * record into each vertex outside the tree, and a report of the tree records
 * of vertices `1 .. n - 1` with their total weight.
 */
module Prim {
  import opened Walks
  import opened PriorityQueue

  /** A reported tree record: `(parent, child, weight)`. */
  type TreeRecord = (int, int, int)

  /** The weights of the reported records, in order. */
  function Weights(tree: seq<TreeRecord>): (ws: seq<int>)
    ensures |ws| == |tree| && forall k :: 0 <= k < |tree| ==> ws[k] == tree[k].2
  {
    seq(|tree|, k requires 0 <= k < |tree| => tree[k].2)
  }

  lemma WeightsAppend(tree: seq<TreeRecord>, record: TreeRecord)
    ensures Weights(tree + [record]) == Weights(tree) + [record.2]
  {
    assert Weights(tree + [record]) == Weights(tree) + [record.2];
  }

  /**
   * The state of the main loop. Every vertex with a parent has a record from
   * that parent, already in the tree, of weight `minEdgeWeight`; in-tree
   * vertices other than 0 have parents, ranked below them; a vertex with a
   * parent outside the tree is queued at its weight; vertex 0 is the first
   * to enter the tree and never gets a parent.
   */
  ghost predicate Growing(adj: seq<seq<Edge>>, inTree: seq<bool>, minEdgeWeight: seq<int>, parent: seq<int>,
                          rank: seq<nat>, clock: nat, pq: seq<(int, int)>)
  {
    && |adj| > 0
    && |inTree| == |minEdgeWeight| == |parent| == |rank| == |adj|
    && parent[0] == -1
    && (!inTree[0] ==> pq == [(0, 0)] && forall v :: 0 <= v < |adj| ==> !inTree[v] && parent[v] == -1)
    && (forall i :: 0 <= i < |pq| ==> 0 <= pq[i].1 < |adj| && (pq[i].1 == 0 || parent[pq[i].1] != -1))
    && (forall v :: 0 <= v < |adj| && inTree[v] ==> rank[v] < clock)
    && (forall v {:trigger parent[v]} :: 0 <= v < |adj| && parent[v] != -1 ==>
          && 0 <= parent[v] < |adj| && inTree[parent[v]]
          && Edge(v, minEdgeWeight[v]) in adj[parent[v]]
          && (inTree[v] ==> rank[parent[v]] < rank[v])
          && (!inTree[v] ==> (minEdgeWeight[v], v) in pq))
    && (forall v {:trigger parent[v]} :: 0 <= v < |adj| && inTree[v] && v != 0 ==> parent[v] != -1)
    && (forall v {:trigger parent[v]} :: 0 < v < |adj| && parent[v] == -1 ==> minEdgeWeight[v] == IntMax)
  }

  /**
   * Every record lighter than `IntMax` leaving a tree vertex other than
   * `skip` leads to vertex 0 or to a vertex with a parent: the records of
   * those vertices have been offered.
   */
  ghost predicate Offered(adj: seq<seq<Edge>>, inTree: seq<bool>, parent: seq<int>, skip: int) {
    forall u, e :: 0 <= u < |adj| && u < |inTree| && u != skip && inTree[u] && e in adj[u] && e.weight < IntMax ==>
      e.to == 0 || (0 <= e.to < |parent| && parent[e.to] != -1)
  }

  /**
   * `v` is reached from vertex 0 along records each lighter than `IntMax`,
   * the ones that can lower a vertex's `minEdgeWeight`.
   */
  ghost predicate ReachableLight(adj: seq<seq<Edge>>, v: int) {
    exists p, ws :: IsWalk(adj, p, ws) && p[0] == 0 && p[|p| - 1] == v && forall i :: 0 <= i < |ws| ==> ws[i] < IntMax
  }

  /**
   * Offering the `k`-th record of `u` (in the tree): a target outside the tree
   * that the record reaches more cheaply gets `u` as parent and is queued at
   * the record's weight. No parent is ever withdrawn.
   */
  method OfferRecord(adj: seq<seq<Edge>>, u: int, k: int, inTree: seq<bool>, minEdgeWeight: seq<int>, parent: seq<int>,
                     ghost rank: seq<nat>, ghost clock: nat, pq: seq<(int, int)>)
    returns (minEdgeWeight': seq<int>, parent': seq<int>, pq': seq<(int, int)>)
    requires WellFormed(adj) && Growing(adj, inTree, minEdgeWeight, parent, rank, clock, pq)
    requires 0 <= u < |adj| && inTree[u] && 0 <= k < |adj[u]| && Offered(adj, inTree, parent, u)
    ensures Growing(adj, inTree, minEdgeWeight', parent', rank, clock, pq')
    ensures Offered(adj, inTree, parent', u)
    ensures forall x :: 0 <= x < |adj| && parent[x] != -1 ==> parent'[x] != -1
    ensures adj[u][k].weight < IntMax ==> adj[u][k].to == 0 || parent'[adj[u][k].to] != -1
  {
    minEdgeWeight', parent', pq' := minEdgeWeight, parent, pq;
    var edge := adj[u][k];
    assert edge in adj[u];
    var v, weight := edge.to, edge.weight;
    if !inTree[v] && weight < minEdgeWeight'[v] {
      minEdgeWeight' := minEdgeWeight'[v := weight];
      pq' := pq' + [(weight, v)];
      parent' := parent'[v := u];
      assert pq'[|pq'| - 1] == (weight, v);
      forall x | 0 <= x < |adj| && parent'[x] != -1 && !inTree[x]
        ensures (minEdgeWeight'[x], x) in pq'
      {
        if x != v {
          assert (minEdgeWeight'[x], x) in pq';
        }
      }
    }
  }

  /** Offering the records of `u`, just added to the tree, to the vertices outside it. */
  method OfferRecords(adj: seq<seq<Edge>>, u: int, inTree: seq<bool>, minEdgeWeight: seq<int>, parent: seq<int>,
                      ghost rank: seq<nat>, ghost clock: nat, pq: seq<(int, int)>)
    returns (minEdgeWeight': seq<int>, parent': seq<int>, pq': seq<(int, int)>)
    requires WellFormed(adj) && Growing(adj, inTree, minEdgeWeight, parent, rank, clock, pq)
    requires 0 <= u < |adj| && inTree[u] && Offered(adj, inTree, parent, u)
    ensures Growing(adj, inTree, minEdgeWeight', parent', rank, clock, pq')
    ensures Offered(adj, inTree, parent', -1)
  {
    minEdgeWeight', parent', pq' := minEdgeWeight, parent, pq;
    for k := 0 to |adj[u]|
      invariant Growing(adj, inTree, minEdgeWeight', parent', rank, clock, pq')
      invariant Offered(adj, inTree, parent', u)
      invariant forall j :: 0 <= j < k && adj[u][j].weight < IntMax ==> adj[u][j].to == 0 || parent'[adj[u][j].to] != -1
    {
      minEdgeWeight', parent', pq' := OfferRecord(adj, u, k, inTree, minEdgeWeight', parent', rank, clock, pq');
    }
    forall e | e in adj[u] && e.weight < IntMax
      ensures e.to == 0 || parent'[e.to] != -1
    {
      var j :| 0 <= j < |adj[u]| && adj[u][j] == e;
    }
  }

  /**
   * When the queue runs dry every vertex reached from 0 along records lighter
   * than `IntMax` other than 0 has a parent.
   */
  lemma Spans(adj: seq<seq<Edge>>, inTree: seq<bool>, minEdgeWeight: seq<int>, parent: seq<int>,
              rank: seq<nat>, clock: nat)
    requires WellFormed(adj) && Growing(adj, inTree, minEdgeWeight, parent, rank, clock, [])
    requires Offered(adj, inTree, parent, -1)
    ensures forall v :: 0 < v < |adj| && ReachableLight(adj, v) ==> parent[v] != -1
  {
    forall v | 0 < v < |adj| && ReachableLight(adj, v)
      ensures parent[v] != -1
    {
      SpansOne(adj, inTree, minEdgeWeight, parent, rank, clock, v);
    }
  }

  lemma SpansOne(adj: seq<seq<Edge>>, inTree: seq<bool>, minEdgeWeight: seq<int>, parent: seq<int>,
                 rank: seq<nat>, clock: nat, v: int)
    requires WellFormed(adj) && Growing(adj, inTree, minEdgeWeight, parent, rank, clock, [])
    requires Offered(adj, inTree, parent, -1)
    requires 0 < v < |adj| && ReachableLight(adj, v)
    ensures parent[v] != -1
  {
    var p, ws :| IsWalk(adj, p, ws) && p[0] == 0 && p[|p| - 1] == v && forall i :: 0 <= i < |ws| ==> ws[i] < IntMax;
    var i := 0;
    while i < |ws|
      invariant 0 <= i <= |ws| && inTree[p[i]]
    {
      assert Edge(p[i + 1], ws[i]) in adj[p[i]];
      i := i + 1;
    }
  }

  /** Popping a stale pair, whose vertex is already in the tree, keeps the loop state. */
  lemma PoppedStale(adj: seq<seq<Edge>>, inTree: seq<bool>, minEdgeWeight: seq<int>, parent: seq<int>,
                    rank: seq<nat>, clock: nat, pq: seq<(int, int)>)
    requires WellFormed(adj) && Growing(adj, inTree, minEdgeWeight, parent, rank, clock, pq)
    requires |pq| > 0 && 0 <= Top(pq).1 < |adj| && inTree[Top(pq).1]
    ensures Growing(adj, inTree, minEdgeWeight, parent, rank, clock, Remove(pq, Top(pq)))
  {
    PoppedQueue(adj, inTree, minEdgeWeight, parent, pq);
  }

  /**
   * Popping a vertex outside the tree keeps the loop state once the vertex
   * enters the tree at the next rank; only its own records are left to offer.
   */
  lemma PoppedFresh(adj: seq<seq<Edge>>, inTree: seq<bool>, minEdgeWeight: seq<int>, parent: seq<int>,
                    rank: seq<nat>, clock: nat, pq: seq<(int, int)>)
    requires WellFormed(adj) && Growing(adj, inTree, minEdgeWeight, parent, rank, clock, pq)
    requires |pq| > 0 && 0 <= Top(pq).1 < |adj| && !inTree[Top(pq).1]
    ensures var u := Top(pq).1;
      Growing(adj, inTree[u := true], minEdgeWeight, parent, rank[u := clock], clock + 1, Remove(pq, Top(pq)))
  {
    PoppedQueue(adj, inTree, minEdgeWeight, parent, pq);
  }

  /** A vertex entering the tree leaves only its own records to offer. */
  lemma Entered(adj: seq<seq<Edge>>, inTree: seq<bool>, parent: seq<int>, u: int)
    requires Offered(adj, inTree, parent, -1) && 0 <= u < |inTree|
    ensures Offered(adj, inTree[u := true], parent, u)
  {
  }

  /** What the queue keeps after popping its top, in the terms of `Growing`. */
  lemma PoppedQueue(adj: seq<seq<Edge>>, inTree: seq<bool>, minEdgeWeight: seq<int>, parent: seq<int>,
                    pq: seq<(int, int)>)
    requires |inTree| == |minEdgeWeight| == |parent| == |adj| && |pq| > 0
    requires forall i :: 0 <= i < |pq| ==> 0 <= pq[i].1 < |adj| && (pq[i].1 == 0 || parent[pq[i].1] != -1)
    requires forall v {:trigger parent[v]} :: 0 <= v < |adj| && parent[v] != -1 && !inTree[v] ==> (minEdgeWeight[v], v) in pq
    ensures var u, rest := Top(pq).1, Remove(pq, Top(pq));
      && |rest| == |pq| - 1
      && (forall i :: 0 <= i < |rest| ==> 0 <= rest[i].1 < |adj| && (rest[i].1 == 0 || parent[rest[i].1] != -1))
      && (forall x {:trigger parent[x]} :: 0 <= x < |adj| && parent[x] != -1 && !inTree[x] && x != u ==> (minEdgeWeight[x], x) in rest)
  {
    var top := Top(pq);
    var rest := Remove(pq, top);
    var u := top.1;
    PopKeeps(pq, top);
    forall i | 0 <= i < |rest|
      ensures 0 <= rest[i].1 < |adj| && (rest[i].1 == 0 || parent[rest[i].1] != -1)
    {
      PopKeeps(pq, rest[i]);
    }
    forall x | 0 <= x < |adj| && parent[x] != -1 && !inTree[x] && x != u
      ensures (minEdgeWeight[x], x) in rest
    {
      PopKeeps(pq, (minEdgeWeight[x], x));
    }
  }

  /**
   * The main loop: afterwards every vertex with a parent holds a record from
   * that parent of weight `minEdgeWeight`, parents rank strictly below their
   * children, a parent is vertex 0 or has a parent itself, and every vertex
   * reached from 0 along records lighter than `INT_MAX` has a parent.
   */
  method GrowTree(adj: seq<seq<Edge>>) returns (minEdgeWeight: seq<int>, parent: seq<int>, ghost rank: seq<nat>)
    requires WellFormed(adj) && |adj| > 0
    ensures |minEdgeWeight| == |parent| == |rank| == |adj| && parent[0] == -1
    ensures forall v :: 0 <= v < |adj| && parent[v] != -1 ==>
      && 0 <= parent[v] < |adj|
      && Edge(v, minEdgeWeight[v]) in adj[parent[v]]
      && rank[parent[v]] < rank[v]
      && (parent[v] == 0 || parent[parent[v]] != -1)
    ensures forall v :: 0 < v < |adj| && ReachableLight(adj, v) ==> parent[v] != -1
  {
    var n := |adj|;
    var inTree := seq(n, _ => false);
    minEdgeWeight := seq(n, _ => IntMax)[0 := 0];
    parent := seq(n, _ => -1);
    rank := seq(n, _ => 0);
    ghost var clock: nat := 0;
    var pq := [(0, 0)];
    while |pq| > 0
      invariant Growing(adj, inTree, minEdgeWeight, parent, rank, clock, pq)
      invariant Offered(adj, inTree, parent, -1)
      decreases n - Count(inTree), |pq|
    {
      var top := Top(pq);
      var u := top.1;
      PoppedQueue(adj, inTree, minEdgeWeight, parent, pq);
      if inTree[u] {
        PoppedStale(adj, inTree, minEdgeWeight, parent, rank, clock, pq);
        pq := Remove(pq, top);
        continue;
      }
      PoppedFresh(adj, inTree, minEdgeWeight, parent, rank, clock, pq);
      Entered(adj, inTree, parent, u);
      pq := Remove(pq, top);
      CountAdd(inTree, u);
      inTree := inTree[u := true];
      rank := rank[u := clock];
      clock := clock + 1;
      minEdgeWeight, parent, pq := OfferRecords(adj, u, inTree, minEdgeWeight, parent, rank, clock, pq);
    }
    Spans(adj, inTree, minEdgeWeight, parent, rank, clock);
  }

  /**
   * The report loop: the records `(parent[i], i, minEdgeWeight[i])` of every
   * `i >= 1` with a parent, in ascending `i`, and the sum of their weights.
   */
  method Report(parent: seq<int>, minEdgeWeight: seq<int>) returns (tree: seq<TreeRecord>, total: int)
    requires |parent| == |minEdgeWeight|
    ensures forall k :: 0 <= k < |tree| ==>
      && 1 <= tree[k].1 < |parent| && parent[tree[k].1] != -1
      && tree[k] == (parent[tree[k].1], tree[k].1, minEdgeWeight[tree[k].1])
    ensures forall c :: 1 <= c < |parent| && parent[c] != -1 ==> exists k :: 0 <= k < |tree| && tree[k].1 == c
    ensures forall a, b :: 0 <= a < b < |tree| ==> tree[a].1 < tree[b].1
    ensures total == Sum(Weights(tree))
  {
    tree, total := [], 0;
    ghost var index: seq<int> := seq(|parent|, _ => -1);
    var i := 1;
    while i < |parent|
      invariant 1 <= i
      invariant |index| == |parent|
      invariant forall k :: 0 <= k < |tree| ==>
        && 1 <= tree[k].1 < i && tree[k].1 < |parent| && parent[tree[k].1] != -1
        && tree[k] == (parent[tree[k].1], tree[k].1, minEdgeWeight[tree[k].1])
      invariant forall c {:trigger index[c]} :: 1 <= c < i && c < |parent| && parent[c] != -1 ==> 0 <= index[c] < |tree| && tree[index[c]].1 == c
      invariant forall a, b :: 0 <= a < b < |tree| ==> tree[a].1 < tree[b].1
      invariant total == Sum(Weights(tree))
    {
      if parent[i] != -1 {
        var record := (parent[i], i, minEdgeWeight[i]);
        WeightsAppend(tree, record);
        index := index[i := |tree|];
        tree := tree + [record];
        total := total + minEdgeWeight[i];
      }
      i := i + 1;
    }
    forall c | 1 <= c < |parent| && parent[c] != -1
      ensures exists k :: 0 <= k < |tree| && tree[k].1 == c
    {
      assert tree[index[c]].1 == c;
    }
  }

  /**
   * `findMinimumSpanningTree` on an undirected graph with at least one vertex:
   * the records `(parent[i], i, minEdgeWeight[i])` of every `i >= 1` that got
   * a parent, in ascending `i`, and their total weight. Every reported record
   * is stored in the graph, every parent is vertex 0 or a reported child, the
   * ranks show the parent links have no cycle, and every vertex reached from 0
   * along records lighter than `INT_MAX` is reported.
   */
  method MinimumSpanningTree(adj: seq<seq<Edge>>) returns (tree: seq<TreeRecord>, total: int, ghost rank: seq<nat>)
    requires WellFormed(adj) && |adj| > 0
    ensures |rank| == |adj|
    ensures forall k :: 0 <= k < |tree| ==>
      && 1 <= tree[k].1 < |adj| && 0 <= tree[k].0 < |adj|
      && Edge(tree[k].1, tree[k].2) in adj[tree[k].0]
      && rank[tree[k].0] < rank[tree[k].1]
      && (tree[k].0 == 0 || exists k' :: 0 <= k' < |tree| && tree[k'].1 == tree[k].0)
    ensures forall v :: 0 < v < |adj| && ReachableLight(adj, v) ==> exists k :: 0 <= k < |tree| && tree[k].1 == v
    ensures forall a, b :: 0 <= a < b < |tree| ==> tree[a].1 < tree[b].1
    ensures total == Sum(Weights(tree))
  {
    var minEdgeWeight, parent;
    minEdgeWeight, parent, rank := GrowTree(adj);
    tree, total := Report(parent, minEdgeWeight);
    forall k | 0 <= k < |tree|
      ensures 0 <= tree[k].0 < |adj| && Edge(tree[k].1, tree[k].2) in adj[tree[k].0]
      ensures rank[tree[k].0] < rank[tree[k].1]
      ensures tree[k].0 == 0 || exists k' :: 0 <= k' < |tree| && tree[k'].1 == tree[k].0
    {
      var c := tree[k].1;
      assert parent[c] != -1;
      var p := parent[c];
      if p != 0 {
        assert parent[p] != -1 && 1 <= p < |adj|;
      }
    }
  }

  /** Every reported child is reached from vertex 0 along reported records. */
  lemma {:induction false} TreeReachesFromRoot(adj: seq<seq<Edge>>, tree: seq<TreeRecord>, rank: seq<nat>, k: int)
    requires WellFormed(adj) && |rank| == |adj|
    requires forall k :: 0 <= k < |tree| ==>
      && 1 <= tree[k].1 < |adj| && 0 <= tree[k].0 < |adj|
      && Edge(tree[k].1, tree[k].2) in adj[tree[k].0]
      && rank[tree[k].0] < rank[tree[k].1]
      && (tree[k].0 == 0 || exists k' :: 0 <= k' < |tree| && tree[k'].1 == tree[k].0)
    requires 0 <= k < |tree|
    ensures Reachable(adj, 0, tree[k].1)
    decreases rank[tree[k].1]
  {
    var p, c := tree[k].0, tree[k].1;
    if p == 0 {
      ReachableSelf(adj, 0);
    } else {
      var k' :| 0 <= k' < |tree| && tree[k'].1 == p;
      TreeReachesFromRoot(adj, tree, rank, k');
    }
    ReachableStep(adj, 0, p, Edge(c, tree[k].2));
  }
}
