/**
 * Maximum flow by Ford–Fulkerson: a dense residual matrix is built from the
 * adjacency lists, and while breadth-first search finds a path of positive
 * residual capacity from the source to the sink, the path's bottleneck is
 * pushed along it.
 */
module MaxFlow {
  import opened Walks

  /** An n-by-n matrix. */
  predicate Square(m: seq<seq<int>>) {
    forall i :: 0 <= i < |m| ==> |m[i]| == |m|
  }

  /** Every entry of `c` is a row index of `m`. */
  predicate InRange(m: seq<seq<int>>, c: seq<int>) {
    forall i :: 0 <= i < |c| ==> 0 <= c[i] < |m|
  }

  function Min(a: int, b: int): int {
    if a < b then a else b
  }

  // ---------------------------------------------------------------------
  // The capacity matrix
  // ---------------------------------------------------------------------

  /**
   * The capacity from `u` to `j`: the weight of the last record from `u` to
   * `j`, 0 when there is none.
   */
  function Capacity(adj: seq<seq<Edge>>, u: int, j: int): (r: int)
    requires 0 <= u < |adj|
    ensures r != 0 ==> Edge(j, r) in adj[u]
    ensures (forall e :: e in adj[u] ==> e.to != j) ==> r == 0
  {
    match LastWeight(adj[u], j)
    case Some(w) => w
    case None => 0
  }

  /** The matrix of all capacities: the residual network before any flow is pushed. */
  function CapacityMatrix(adj: seq<seq<Edge>>): (m: seq<seq<int>>)
    ensures |m| == |adj| && Square(m)
    ensures forall u, j :: 0 <= u < |adj| && 0 <= j < |adj| ==> m[u][j] == Capacity(adj, u, j)
  {
    seq(|adj|, u requires 0 <= u < |adj| => seq(|adj|, j => Capacity(adj, u, j)))
  }

  /** The residual network as the source fills it: record by record, later records overwriting. */
  method BuildResidual(adj: seq<seq<Edge>>) returns (res: seq<seq<int>>)
    requires WellFormed(adj)
    ensures res == CapacityMatrix(adj)
  {
    var n := |adj|;
    res := seq(n, i => seq(n, j => 0));
    for u := 0 to n
      invariant |res| == n && Square(res)
      invariant forall a, j :: 0 <= a < u && 0 <= j < n ==> res[a][j] == Capacity(adj, a, j)
      invariant forall a, j :: u <= a < n && 0 <= j < n ==> res[a][j] == 0
    {
      var list := adj[u];
      var row := res[u];
      for k := 0 to |list|
        invariant |row| == n
        invariant forall j :: 0 <= j < n ==>
          row[j] == match LastWeight(list[..k], j) case Some(w) => w case None => 0
      {
        assert list[..k + 1][..k] == list[..k];
        assert list[k] in adj[u];
        row := row[list[k].to := list[k].weight];
      }
      assert list[..|list|] == list;
      res := res[u := row];
    }
    forall u | 0 <= u < n
      ensures res[u] == CapacityMatrix(adj)[u]
    {
    }
  }

  // ---------------------------------------------------------------------
  // Augmenting paths
  // ---------------------------------------------------------------------

  /** `p` is a path of positive residual capacity. */
  ghost predicate Augmenting(res: seq<seq<int>>, p: seq<int>) {
    && Square(res)
    && |p| >= 1
    && InRange(res, p)
    && forall i :: 0 <= i < |p| - 1 ==> res[p[i]][p[i + 1]] > 0
  }

  /** `t` can be reached from `s` through entries of positive residual capacity. */
  ghost predicate PosReachable(res: seq<seq<int>>, s: int, t: int) {
    exists p :: Augmenting(res, p) && p[0] == s && p[|p| - 1] == t
  }

  /**
   * `c` is a simple augmenting path from `s` to `t` that `parent` records
   * backwards: the parent of every vertex after the first is its predecessor.
   */
  ghost predicate ParentChain(res: seq<seq<int>>, parent: seq<int>, c: seq<int>, s: int, t: int) {
    && Augmenting(res, c)
    && Distinct(c)
    && c[0] == s && c[|c| - 1] == t
    && |parent| == |res|
    && forall i :: 0 < i < |c| ==> parent[c[i]] == c[i - 1]
  }

  /** What the search knows about a visited vertex `x`: a recorded chain to it, all of it visited. */
  ghost predicate Tracked(res: seq<seq<int>>, parent: seq<int>, visited: seq<bool>, c: seq<int>, s: int, x: int) {
    && ParentChain(res, parent, c, s, x)
    && |visited| == |res|
    && forall i :: 0 <= i < |c| ==> visited[c[i]]
  }

  /** Visiting `v` from `u` extends `u`'s chain by `v`. */
  lemma TrackedExtend(res: seq<seq<int>>, parent: seq<int>, visited: seq<bool>, c: seq<int>, s: int, u: int, v: int)
    requires Tracked(res, parent, visited, c, s, u)
    requires 0 <= v < |res| && !visited[v] && res[u][v] > 0
    ensures Tracked(res, parent[v := u], visited[v := true], c + [v], s, v)
  {
    var c' := c + [v];
    forall i | 0 <= i < |c'| - 1
      ensures res[c'[i]][c'[i + 1]] > 0
    {
      if i < |c| - 1 {
        assert c'[i] == c[i] && c'[i + 1] == c[i + 1];
      }
    }
    forall i | 0 < i < |c'|
      ensures parent[v := u][c'[i]] == c'[i - 1]
    {
      if i < |c| {
        assert c'[i] == c[i] && c[i] != v;
      }
    }
  }

  /** Visiting `v`, which is on no recorded chain, keeps every other chain. */
  lemma TrackedKeep(res: seq<seq<int>>, parent: seq<int>, visited: seq<bool>, c: seq<int>, s: int, x: int, u: int, v: int)
    requires Tracked(res, parent, visited, c, s, x)
    requires 0 <= v < |res| && !visited[v]
    ensures Tracked(res, parent[v := u], visited[v := true], c, s, x)
  {
    forall i | 0 < i < |c|
      ensures parent[v := u][c[i]] == c[i - 1]
    {
      assert visited[c[i]];
    }
  }

  /** A set closed under positive residual entries holds everything reachable from its members. */
  lemma {:induction false} ClosedHoldsReachable(res: seq<seq<int>>, visited: seq<bool>, p: seq<int>)
    requires Augmenting(res, p) && |visited| == |res| && visited[p[0]]
    requires forall x, y :: 0 <= x < |res| && 0 <= y < |res| && visited[x] && res[x][y] > 0 ==> visited[y]
    ensures visited[p[|p| - 1]]
  {
    var i := 0;
    while i < |p| - 1
      invariant 0 <= i < |p| && visited[p[i]]
    {
      assert res[p[i]][p[i + 1]] > 0;
      i := i + 1;
    }
  }

  /**
   * The bookkeeping of the search: `queue` lists the visited vertices in
   * order of discovery (`pos` says where), and every visited vertex has a
   * recorded chain from `source`.
   */
  ghost predicate Frontier(res: seq<seq<int>>, source: int, parent: seq<int>, visited: seq<bool>,
                           queue: seq<int>, pos: seq<int>, chains: seq<seq<int>>)
  {
    && Square(res) && 0 <= source < |res|
    && |visited| == |res| && |chains| == |res| && |pos| == |res| && |parent| == |res|
    && |queue| == Count(visited)
    && parent[source] == -1 && visited[source]
    && (forall i :: 0 <= i < |queue| ==> 0 <= queue[i] < |res| && visited[queue[i]])
    && (forall x :: 0 <= x < |res| && visited[x] ==> 0 <= pos[x] < |queue| && queue[pos[x]] == x)
    && (forall x :: 0 <= x < |res| && visited[x] ==> Tracked(res, parent, visited, chains[x], source, x))
  }

  /** Every positive entry leaving `x` leads to a visited vertex. */
  ghost predicate Done(res: seq<seq<int>>, visited: seq<bool>, x: int)
    requires Square(res) && 0 <= x < |res|
  {
    forall y :: 0 <= y < |res| && res[x][y] > 0 ==> 0 <= y < |visited| && visited[y]
  }

  /** Discovering `v` from `u` keeps the bookkeeping. */
  lemma VisitKeepsFrontier(res: seq<seq<int>>, source: int, parent: seq<int>, visited: seq<bool>,
                           queue: seq<int>, pos: seq<int>, chains: seq<seq<int>>, u: int, v: int)
    requires Frontier(res, source, parent, visited, queue, pos, chains)
    requires 0 <= u < |res| && visited[u] && 0 <= v < |res| && !visited[v] && res[u][v] > 0
    ensures Frontier(res, source, parent[v := u], visited[v := true], queue + [v], pos[v := |queue|],
                     chains[v := chains[u] + [v]])
  {
    var visited', chains' := visited[v := true], chains[v := chains[u] + [v]];
    forall x | 0 <= x < |res| && visited'[x]
      ensures Tracked(res, parent[v := u], visited', chains'[x], source, x)
    {
      if x == v {
        TrackedExtend(res, parent, visited, chains[u], source, u, v);
      } else {
        TrackedKeep(res, parent, visited, chains[x], source, x, u, v);
      }
    }
    CountAdd(visited, v);
  }

  /** Discovering more vertices keeps a finished vertex finished. */
  lemma DoneKeeps(res: seq<seq<int>>, visited: seq<bool>, x: int, v: int)
    requires Square(res) && 0 <= x < |res| && 0 <= v < |visited| && Done(res, visited, x)
    ensures Done(res, visited[v := true], x)
  {
  }

  /** The search's start: only `source` is visited and queued. */
  lemma StartFrontier(res: seq<seq<int>>, source: int, parent: seq<int>)
    requires Square(res) && 0 <= source < |res| && |parent| == |res|
    ensures Frontier(res, source, parent[source := -1], seq(|res|, x => false)[source := true], [source],
                     seq(|res|, x => 0), seq(|res|, x => [x]))
  {
    ZeroCount(|res|);
    CountAdd(seq(|res|, x => false), source);
  }

  /** When every queued vertex is finished and `sink` was never visited, no augmenting path reaches it. */
  lemma Exhausted(res: seq<seq<int>>, source: int, sink: int, parent: seq<int>, visited: seq<bool>,
                  queue: seq<int>, pos: seq<int>, chains: seq<seq<int>>)
    requires Frontier(res, source, parent, visited, queue, pos, chains)
    requires forall i :: 0 <= i < |queue| ==> Done(res, visited, queue[i])
    requires 0 <= sink < |res| && !visited[sink]
    ensures !PosReachable(res, source, sink)
  {
    forall x, y | 0 <= x < |res| && 0 <= y < |res| && visited[x] && res[x][y] > 0
      ensures visited[y]
    {
      assert Done(res, visited, queue[pos[x]]);
    }
    forall p | Augmenting(res, p) && p[0] == source
      ensures p[|p| - 1] != sink
    {
      ClosedHoldsReachable(res, visited, p);
    }
  }

  /**
   * The inner loop of the search: every unvisited `v` with a positive entry
   * from `u` is discovered, queued and given `u` as its parent; the scan
   * stops as soon as it discovers `sink`.
   */
  method Scan(res: seq<seq<int>>, source: int, sink: int, u: int, parent: seq<int>, visited: seq<bool>,
              queue: seq<int>, ghost pos: seq<int>, ghost chains: seq<seq<int>>, ghost head: int)
    returns (hit: bool, parent': seq<int>, visited': seq<bool>, queue': seq<int>,
             ghost pos': seq<int>, ghost chains': seq<seq<int>>, ghost chain: seq<int>)
    requires Frontier(res, source, parent, visited, queue, pos, chains)
    requires 0 < head <= |queue| && queue[head - 1] == u
    requires 0 <= sink < |res| && (visited[sink] ==> sink == source)
    requires forall i :: 0 <= i < head - 1 ==> Done(res, visited, queue[i])
    ensures Frontier(res, source, parent', visited', queue', pos', chains') && head <= |queue'|
    ensures hit ==> source != sink && ParentChain(res, parent', chain, source, sink)
    ensures !hit ==> (visited'[sink] ==> sink == source) && forall i :: 0 <= i < head ==> Done(res, visited', queue'[i])
  {
    parent', visited', queue', pos', chains' := parent, visited, queue, pos, chains;
    for v := 0 to |res|
      invariant Frontier(res, source, parent', visited', queue', pos', chains')
      invariant head <= |queue'| && queue'[head - 1] == u
      invariant visited'[sink] ==> sink == source
      invariant forall i :: 0 <= i < head - 1 ==> Done(res, visited', queue'[i])
      invariant forall y :: 0 <= y < v && res[u][y] > 0 ==> visited'[y]
    {
      if !visited'[v] && res[u][v] > 0 {
        VisitKeepsFrontier(res, source, parent', visited', queue', pos', chains', u, v);
        forall i | 0 <= i < head - 1
          ensures Done(res, visited'[v := true], queue'[i])
        {
          DoneKeeps(res, visited', queue'[i], v);
        }
        chains' := chains'[v := chains'[u] + [v]];
        pos' := pos'[v := |queue'|];
        queue' := queue' + [v];
        parent' := parent'[v := u];
        visited' := visited'[v := true];
        if v == sink {
          return true, parent', visited', queue', pos', chains', chains'[v];
        }
      }
    }
    hit, chain := false, [];
  }

  /**
   * Breadth-first search over positive residual entries from `source`,
   * stopping as soon as `sink` is discovered; `parent` records each
   * discovered vertex's discoverer and keeps its other entries.
   */
  method Bfs(res: seq<seq<int>>, source: int, sink: int, parent: seq<int>)
    returns (found: bool, parent': seq<int>, ghost chain: seq<int>)
    requires Square(res) && 0 <= source < |res| && 0 <= sink < |res| && |parent| == |res|
    ensures |parent'| == |res| && parent'[source] == -1
    ensures found ==> source != sink && ParentChain(res, parent', chain, source, sink)
    ensures found <==> source != sink && PosReachable(res, source, sink)
  {
    var n := |res|;
    var visited := seq(n, x => false)[source := true];
    var queue := [source];
    var head := 0;
    parent' := parent[source := -1];
    ghost var chains := seq(n, x => [x]);
    ghost var pos := seq(n, x => 0);
    StartFrontier(res, source, parent);
    while head < |queue|
      invariant Frontier(res, source, parent', visited, queue, pos, chains)
      invariant 0 <= head <= |queue|
      invariant visited[sink] ==> sink == source
      invariant forall i :: 0 <= i < head ==> Done(res, visited, queue[i])
      decreases n - head
    {
      var u := queue[head];
      head := head + 1;
      var hit;
      hit, parent', visited, queue, pos, chains, chain := Scan(res, source, sink, u, parent', visited, queue, pos, chains, head);
      if hit {
        return true, parent', chain;
      }
    }
    if source != sink {
      Exhausted(res, source, sink, parent', visited, queue, pos, chains);
    }
    found, chain := false, [];
  }

  lemma {:induction false} ZeroCount(n: nat)
    ensures Count(seq(n, x => false)) == 0
  {
    if n > 0 {
      assert seq(n, x => false)[..n - 1] == seq(n - 1, x => false);
      ZeroCount(n - 1);
    }
  }

  // ---------------------------------------------------------------------
  // Pushing flow along a path
  // ---------------------------------------------------------------------

  /** Pushing `f` units over the entry from `u` to `v`: it loses `f`, the reverse entry gains `f`. */
  function Push(res: seq<seq<int>>, u: int, v: int, f: int): (r: seq<seq<int>>)
    requires Square(res) && 0 <= u < |res| && 0 <= v < |res| && u != v
    ensures |r| == |res| && Square(r)
  {
    var lowered := res[u := res[u][v := res[u][v] - f]];
    lowered[v := lowered[v][u := lowered[v][u] + f]]
  }

  /**
   * The residual network after pushing `f` over the entries of `c` from the
   * last one back to the one leaving `c[k]`: the order in which the source
   * walks the parent chain from the sink.
   */
  function AugmentFrom(res: seq<seq<int>>, c: seq<int>, k: nat, f: int): (r: seq<seq<int>>)
    requires Square(res) && InRange(res, c) && Distinct(c)
    ensures |r| == |res| && Square(r)
    decreases |c| - k
  {
    if k + 1 >= |c| then res
    else Push(AugmentFrom(res, c, k + 1, f), c[k], c[k + 1], f)
  }

  /** A push moves `f` out of row `u` and into row `v`. */
  lemma PushRowSum(res: seq<seq<int>>, u: int, v: int, f: int, x: int)
    requires Square(res) && 0 <= u < |res| && 0 <= v < |res| && u != v && 0 <= x < |res|
    ensures Sum(Push(res, u, v, f)[x]) == Sum(res[x]) - (if x == u then f else 0) + (if x == v then f else 0)
  {
    var lowered := res[u := res[u][v := res[u][v] - f]];
    SumUpdate(res[u], v, res[u][v] - f);
    SumUpdate(lowered[v], u, lowered[v][u] + f);
  }

  /** Along a whole path the pushes telescope: only the first vertex's row loses and the last one's gains. */
  lemma {:induction false} AugmentRowSum(res: seq<seq<int>>, c: seq<int>, k: nat, f: int, x: int)
    requires Square(res) && InRange(res, c) && Distinct(c) && k + 1 < |c| && 0 <= x < |res|
    ensures Sum(AugmentFrom(res, c, k, f)[x])
      == Sum(res[x]) - (if x == c[k] then f else 0) + (if x == c[|c| - 1] then f else 0)
    decreases |c| - k
  {
    if k + 2 < |c| {
      AugmentRowSum(res, c, k + 1, f, x);
    }
    PushRowSum(AugmentFrom(res, c, k + 1, f), c[k], c[k + 1], f, x);
  }

  /** Pushing never changes the sum of an entry and its reverse. */
  lemma {:induction false} AugmentPairSum(res: seq<seq<int>>, c: seq<int>, k: nat, f: int, i: int, j: int)
    requires Square(res) && InRange(res, c) && Distinct(c) && 0 <= i < |res| && 0 <= j < |res|
    ensures AugmentFrom(res, c, k, f)[i][j] + AugmentFrom(res, c, k, f)[j][i] == res[i][j] + res[j][i]
    decreases |c| - k
  {
    if k + 1 < |c| {
      AugmentPairSum(res, c, k + 1, f, i, j);
    }
  }

  /** Rows of vertices that are not on the pushed part of the path are untouched. */
  lemma {:induction false} AugmentRowUntouched(res: seq<seq<int>>, c: seq<int>, k: nat, f: int, x: int)
    requires Square(res) && InRange(res, c) && Distinct(c) && 0 <= x < |res|
    requires forall i :: k <= i < |c| ==> c[i] != x
    ensures AugmentFrom(res, c, k, f)[x] == res[x]
    decreases |c| - k
  {
    if k + 1 < |c| {
      AugmentRowUntouched(res, c, k + 1, f, x);
    }
  }

  /** Pushes after entry `m` of a simple path do not touch the entry leaving `c[m]`. */
  lemma {:induction false} AugmentForwardUntouched(res: seq<seq<int>>, c: seq<int>, k: nat, f: int, m: int)
    requires Square(res) && InRange(res, c) && Distinct(c) && 0 <= m < k && m + 1 < |c|
    ensures AugmentFrom(res, c, k, f)[c[m]][c[m + 1]] == res[c[m]][c[m + 1]]
    decreases |c| - k
  {
    if k + 1 < |c| {
      AugmentForwardUntouched(res, c, k + 1, f, m);
    }
  }

  /**
   * When `f` fits every entry of the path, no entry is pushed below zero: an
   * entry is either non-negative afterwards or has not decreased.
   */
  lemma {:induction false} AugmentNoNewDeficit(res: seq<seq<int>>, c: seq<int>, k: nat, f: int, i: int, j: int)
    requires Square(res) && InRange(res, c) && Distinct(c) && 0 <= i < |res| && 0 <= j < |res|
    requires f >= 0 && forall m :: 0 <= m < |c| - 1 ==> f <= res[c[m]][c[m + 1]]
    ensures AugmentFrom(res, c, k, f)[i][j] >= 0 || AugmentFrom(res, c, k, f)[i][j] >= res[i][j]
    decreases |c| - k
  {
    if k + 1 < |c| {
      AugmentNoNewDeficit(res, c, k + 1, f, i, j);
      if i == c[k] && j == c[k + 1] {
        AugmentForwardUntouched(res, c, k + 1, f, k);
      }
    }
  }

  /**
   * The bottleneck of the chain from `source` to `sink`: the smallest
   * residual entry on it, starting from `INT_MAX`.
   */
  method Bottleneck(res: seq<seq<int>>, parent: seq<int>, source: int, sink: int, ghost c: seq<int>)
    returns (f: int)
    requires ParentChain(res, parent, c, source, sink)
    ensures 0 < f <= IntMax
    ensures forall m :: 0 <= m < |c| - 1 ==> f <= res[c[m]][c[m + 1]]
    ensures f == IntMax || exists m :: 0 <= m < |c| - 1 && f == res[c[m]][c[m + 1]]
  {
    f := IntMax;
    var v := sink;
    ghost var k := |c| - 1;
    ghost var at := -1;
    while v != source
      invariant 0 <= k < |c| && v == c[k]
      invariant 0 < f <= IntMax
      invariant forall m :: k <= m < |c| - 1 ==> f <= res[c[m]][c[m + 1]]
      invariant f == IntMax || (k <= at < |c| - 1 && f == res[c[at]][c[at + 1]])
      decreases k
    {
      assert k > 0 && parent[c[k]] == c[k - 1];
      var u := parent[v];
      if res[u][v] < f {
        at := k - 1;
      }
      f := Min(f, res[u][v]);
      v := u;
      k := k - 1;
    }
  }

  /** Pushes `f` over every entry of the chain, walking it back from `sink`. */
  method Augment(res: seq<seq<int>>, parent: seq<int>, source: int, sink: int, ghost c: seq<int>, f: int)
    returns (res': seq<seq<int>>)
    requires ParentChain(res, parent, c, source, sink)
    ensures res' == AugmentFrom(res, c, 0, f)
  {
    res' := res;
    var v := sink;
    ghost var k := |c| - 1;
    while v != source
      invariant 0 <= k < |c| && v == c[k]
      invariant res' == AugmentFrom(res, c, k, f)
      decreases k
    {
      assert k > 0 && parent[c[k]] == c[k - 1];
      var u := parent[v];
      res' := res'[u := res'[u][v := res'[u][v] - f]];
      res' := res'[v := res'[v][u := res'[v][u] + f]];
      v := u;
      k := k - 1;
    }
  }

  // ---------------------------------------------------------------------
  // The main loop
  // ---------------------------------------------------------------------

  /**
   * Flow balance after pushing `flow` units from `source` to `sink`: every
   * row sum is the capacity row sum, except that the source's is `flow`
   * lower and the sink's `flow` higher.
   */
  ghost predicate Balanced(cap: seq<seq<int>>, res: seq<seq<int>>, source: int, sink: int, flow: int)
    requires |res| == |cap|
  {
    forall x :: 0 <= x < |res| ==>
      Sum(res[x]) == Sum(cap[x]) - (if x == source then flow else 0) + (if x == sink then flow else 0)
  }

  /** An entry and its reverse keep their total capacity. */
  ghost predicate PairsKept(cap: seq<seq<int>>, res: seq<seq<int>>)
    requires Square(cap) && Square(res) && |res| == |cap|
  {
    forall i, j :: 0 <= i < |res| && 0 <= j < |res| ==> res[i][j] + res[j][i] == cap[i][j] + cap[j][i]
  }

  /** No entry has been pushed below zero: a negative entry is no lower than its capacity. */
  ghost predicate NoDeficit(cap: seq<seq<int>>, res: seq<seq<int>>)
    requires Square(cap) && Square(res) && |res| == |cap|
  {
    forall i, j :: 0 <= i < |res| && 0 <= j < |res| ==> res[i][j] >= 0 || res[i][j] >= cap[i][j]
  }

  /** What pushing `flow` units from `source` to `sink` keeps. */
  ghost predicate Conserved(cap: seq<seq<int>>, res: seq<seq<int>>, source: int, sink: int, flow: int) {
    && Square(cap) && Square(res) && |res| == |cap|
    && Balanced(cap, res, source, sink, flow)
    && PairsKept(cap, res)
    && NoDeficit(cap, res)
  }

  lemma AugmentBalanced(cap: seq<seq<int>>, res: seq<seq<int>>, parent: seq<int>, c: seq<int>,
                        source: int, sink: int, flow: int, f: int)
    requires Square(cap) && Square(res) && |res| == |cap| && Balanced(cap, res, source, sink, flow)
    requires ParentChain(res, parent, c, source, sink) && source != sink
    ensures Balanced(cap, AugmentFrom(res, c, 0, f), source, sink, flow + f)
  {
    forall x | 0 <= x < |res|
      ensures Sum(AugmentFrom(res, c, 0, f)[x])
        == Sum(cap[x]) - (if x == source then flow + f else 0) + (if x == sink then flow + f else 0)
    {
      AugmentRowSum(res, c, 0, f, x);
    }
  }

  lemma AugmentPairsKept(cap: seq<seq<int>>, res: seq<seq<int>>, c: seq<int>, f: int)
    requires Square(cap) && Square(res) && |res| == |cap| && PairsKept(cap, res)
    requires InRange(res, c) && Distinct(c)
    ensures PairsKept(cap, AugmentFrom(res, c, 0, f))
  {
    forall i, j | 0 <= i < |res| && 0 <= j < |res|
      ensures AugmentFrom(res, c, 0, f)[i][j] + AugmentFrom(res, c, 0, f)[j][i] == cap[i][j] + cap[j][i]
    {
      AugmentPairSum(res, c, 0, f, i, j);
    }
  }

  lemma AugmentNoDeficit(cap: seq<seq<int>>, res: seq<seq<int>>, c: seq<int>, f: int)
    requires Square(cap) && Square(res) && |res| == |cap| && NoDeficit(cap, res)
    requires InRange(res, c) && Distinct(c)
    requires f >= 0 && forall m :: 0 <= m < |c| - 1 ==> f <= res[c[m]][c[m + 1]]
    ensures NoDeficit(cap, AugmentFrom(res, c, 0, f))
  {
    forall i, j | 0 <= i < |res| && 0 <= j < |res|
      ensures AugmentFrom(res, c, 0, f)[i][j] >= 0 || AugmentFrom(res, c, 0, f)[i][j] >= cap[i][j]
    {
      AugmentNoNewDeficit(res, c, 0, f, i, j);
    }
  }

  /** Pushing a bottleneck along an augmenting chain keeps the network conserved, with `f` more flow. */
  lemma AugmentConserves(cap: seq<seq<int>>, res: seq<seq<int>>, parent: seq<int>, c: seq<int>,
                         source: int, sink: int, flow: int, f: int)
    requires Conserved(cap, res, source, sink, flow) && ParentChain(res, parent, c, source, sink) && source != sink
    requires f > 0 && forall m :: 0 <= m < |c| - 1 ==> f <= res[c[m]][c[m + 1]]
    ensures Conserved(cap, AugmentFrom(res, c, 0, f), source, sink, flow + f)
  {
    AugmentBalanced(cap, res, parent, c, source, sink, flow, f);
    AugmentPairsKept(cap, res, c, f);
    AugmentNoDeficit(cap, res, c, f);
  }

  /** The positive part of every entry: what the source row can still give. */
  function Positives(s: seq<int>): (r: seq<int>)
    ensures |r| == |s| && forall i :: 0 <= i < |s| ==> r[i] >= 0
  {
    seq(|s|, i requires 0 <= i < |s| => if s[i] > 0 then s[i] else 0)
  }

  /** The total positive residual capacity out of the source never goes below zero. */
  function Headroom(s: seq<int>): (r: int)
    ensures r >= 0
  {
    SumNonNegative(Positives(s));
    Sum(Positives(s))
  }

  /** Lowering a positive entry by `f` without taking it below zero lowers the headroom by `f`. */
  lemma HeadroomLower(s: seq<int>, i: int, f: int)
    requires 0 <= i < |s| && 0 < f <= s[i]
    ensures Headroom(s[i := s[i] - f]) == Headroom(s) - f
  {
    assert Positives(s[i := s[i] - f]) == Positives(s)[i := s[i] - f];
    SumUpdate(Positives(s), i, s[i] - f);
  }

  /** Pushing along a chain from the source lowers its headroom by exactly `f`. */
  lemma AugmentHeadroom(res: seq<seq<int>>, parent: seq<int>, c: seq<int>, source: int, sink: int, f: int)
    requires ParentChain(res, parent, c, source, sink) && source != sink
    requires 0 < f <= res[c[0]][c[1]]
    ensures Headroom(AugmentFrom(res, c, 0, f)[source]) == Headroom(res[source]) - f
  {
    AugmentRowUntouched(res, c, 1, f, source);
    var before := AugmentFrom(res, c, 1, f);
    assert AugmentFrom(res, c, 0, f)[source] == before[source][c[1] := before[source][c[1]] - f];
    HeadroomLower(res[source], c[1], f);
  }

  /**
   * One round of the main loop: find the chain's bottleneck and push it.
   * The network stays conserved with `pathFlow` more units, and the source's
   * headroom drops by as much.
   */
  method AugmentOnce(ghost cap: seq<seq<int>>, res: seq<seq<int>>, parent: seq<int>, source: int, sink: int,
                     ghost c: seq<int>, ghost flow: int)
    returns (res': seq<seq<int>>, pathFlow: int)
    requires Conserved(cap, res, source, sink, flow) && ParentChain(res, parent, c, source, sink) && source != sink
    ensures 0 < pathFlow <= IntMax
    ensures Conserved(cap, res', source, sink, flow + pathFlow)
    ensures Headroom(res'[source]) == Headroom(res[source]) - pathFlow
  {
    pathFlow := Bottleneck(res, parent, source, sink, c);
    res' := Augment(res, parent, source, sink, c, pathFlow);
    AugmentConserves(cap, res, parent, c, source, sink, flow, pathFlow);
    AugmentHeadroom(res, parent, c, source, sink, pathFlow);
  }

  /**
   * Ford–Fulkerson from `source` to `sink`. The result is the total of the
   * positive bottlenecks pushed: the final residual network conserves that
   * much flow against the capacities, and holds no augmenting path.
   */
  method FordFulkerson(adj: seq<seq<Edge>>, source: int, sink: int)
    returns (maxFlow: int, ghost res: seq<seq<int>>)
    requires WellFormed(adj) && 0 <= source < |adj| && 0 <= sink < |adj|
    ensures maxFlow >= 0 && (source == sink ==> maxFlow == 0)
    ensures Conserved(CapacityMatrix(adj), res, source, sink, maxFlow)
    ensures source == sink || !PosReachable(res, source, sink)
  {
    var n := |adj|;
    var residual := BuildResidual(adj);
    ghost var cap := residual;
    var parent := seq(n, x => 0);
    maxFlow := 0;
    var found, parent', chain := Bfs(residual, source, sink, parent);
    parent := parent';
    while found
      invariant Conserved(cap, residual, source, sink, maxFlow) && |residual| == n
      invariant |parent| == n
      invariant found ==> source != sink && ParentChain(residual, parent, chain, source, sink)
      invariant !found ==> source == sink || !PosReachable(residual, source, sink)
      invariant maxFlow >= 0 && (source == sink ==> maxFlow == 0)
      decreases Headroom(residual[source])
    {
      var next, pathFlow := AugmentOnce(cap, residual, parent, source, sink, chain, maxFlow);
      residual := next;
      maxFlow := maxFlow + pathFlow;
      found, parent', chain := Bfs(residual, source, sink, parent);
      parent := parent';
    }
    res := residual;
  }
}
