/**
 * The "is there a path of length at most L" query: Floyd–Warshall over an
 * `n x n` distance table with `INT_MAX / 2` as "no walk found" and a
 * next-hop table, followed by a walk along next hops from the start to the
 * end vertex.
 */
module Floyd {
  import opened Walks

  /** `INT_MAX / 2`: the table entry for "no walk found". */
  const Inf: int := IntMax / 2

  /** What the query reports. */
  datatype PathWithin =
    | MissingVertex                           // a name is not registered
    | TooLong                                 // table entry above `L`, or `Inf`
    | NoNextHop(hops: seq<int>)               // a next hop of -1 was met after `hops`
    | NextHopCycle(hops: seq<int>)            // the next hops return into `hops`: the walk never ends
    | Within(length: int, path: seq<int>)     // the table entry and the next-hop walk

  // ---------------------------------------------------------------------
  // The tables
  // ---------------------------------------------------------------------

  /** The entry before the main loop: the last record from `i` to `j`, else 0 on the diagonal, else `Inf`. */
  function InitialDistance(adj: seq<seq<Edge>>, i: int, j: int): int
    requires 0 <= i < |adj|
  {
    match LastWeight(adj[i], j)
    case Some(w) => w
    case None => if i == j then 0 else Inf
  }

  /** The next hop before the main loop: `j` itself when a record from `i` to `j` exists, else -1. */
  function InitialHop(adj: seq<seq<Edge>>, i: int, j: int): int
    requires 0 <= i < |adj|
  {
    if LastWeight(adj[i], j).Some? then j else -1
  }

  /**
   * Entry `d` with next hop `hop` from `i` to `j` is backed by the graph: a
   * hop of -1 goes with `Inf` or with the empty walk on the diagonal; any
   * other hop is the second vertex of a walk from `i` to `j` costing `d`.
   */
  ghost predicate Realized(adj: seq<seq<Edge>>, i: int, j: int, d: int, hop: int) {
    if hop == -1 then d == Inf || (i == j && d == 0)
    else exists p, ws :: IsWalk(adj, p, ws) && |ws| > 0 && p[0] == i && p[1] == hop && p[|p| - 1] == j && Sum(ws) == d
  }

  /** Square tables over the vertices whose every entry is realized. */
  ghost predicate Tables(adj: seq<seq<Edge>>, dist: seq<seq<int>>, next: seq<seq<int>>) {
    && |dist| == |next| == |adj|
    && (forall i :: 0 <= i < |adj| ==> |dist[i]| == |next[i]| == |adj|)
    && forall i, j :: 0 <= i < |adj| && 0 <= j < |adj| ==> Realized(adj, i, j, dist[i][j], next[i][j])
  }

  /** The initial entries are realized: by the last record, or trivially. */
  lemma InitialRealized(adj: seq<seq<Edge>>, i: int, j: int)
    requires WellFormed(adj) && 0 <= i < |adj| && 0 <= j < |adj|
    ensures Realized(adj, i, j, InitialDistance(adj, i, j), InitialHop(adj, i, j))
  {
    match LastWeight(adj[i], j)
    case Some(w) =>
      assert IsWalk(adj, [i, j], [w]);
      assert Sum([w]) == w by { assert [w][..0] == []; }
    case None =>
  }

  /**
   * Going through `k` from `i` to `j`, when both halves are below `Inf` and
   * their sum beats the entry, gives a realized entry with `i`'s hop towards `k`.
   */
  lemma ThroughRealized(adj: seq<seq<Edge>>, dist: seq<seq<int>>, next: seq<seq<int>>, i: int, k: int, j: int)
    requires Tables(adj, dist, next)
    requires 0 <= i < |adj| && 0 <= k < |adj| && 0 <= j < |adj|
    requires dist[i][k] < Inf && dist[k][j] < Inf && dist[i][j] > dist[i][k] + dist[k][j]
    ensures Realized(adj, i, j, dist[i][k] + dist[k][j], next[i][k])
  {
    assert Realized(adj, i, k, dist[i][k], next[i][k]);
    assert Realized(adj, k, j, dist[k][j], next[k][j]);
    var p1, ws1 :| IsWalk(adj, p1, ws1) && |ws1| > 0 && p1[0] == i && p1[1] == next[i][k] && p1[|p1| - 1] == k && Sum(ws1) == dist[i][k];
    // a hop of -1 from `k` would mean `k == j` at distance 0, and no improvement
    assert next[k][j] != -1;
    var p2, ws2 :| IsWalk(adj, p2, ws2) && |ws2| > 0 && p2[0] == k && p2[1] == next[k][j] && p2[|p2| - 1] == j && Sum(ws2) == dist[k][j];
    WalkConcat(adj, p1, ws1, p2, ws2);
    SumConcat(ws1, ws2);
    var p := p1 + p2[1..];
    assert p[0] == i && p[1] == next[i][k] && p[|p| - 1] == p2[|p2| - 1];
  }

  // ---------------------------------------------------------------------
  // Filling the tables
  // ---------------------------------------------------------------------

  /** Row `i` before the main loop: 0 on the diagonal, then each record of `i` written in order. */
  method InitialRow(adj: seq<seq<Edge>>, i: int) returns (row: seq<int>, hops: seq<int>)
    requires WellFormed(adj) && 0 <= i < |adj|
    ensures |row| == |hops| == |adj|
    ensures forall j :: 0 <= j < |adj| ==> row[j] == InitialDistance(adj, i, j) && hops[j] == InitialHop(adj, i, j)
  {
    var n := |adj|;
    var list := adj[i];
    row := seq(n, j => Inf)[i := 0];
    hops := seq(n, j => -1);
    for k := 0 to |list|
      invariant |row| == |hops| == n
      invariant forall j :: 0 <= j < n ==>
        match LastWeight(list[..k], j)
        case Some(w) => row[j] == w && hops[j] == j
        case None => row[j] == (if i == j then 0 else Inf) && hops[j] == -1
    {
      assert list[..k + 1][..k] == list[..k];
      assert list[k] in adj[i];
      row := row[list[k].to := list[k].weight];
      hops := hops[list[k].to := list[k].to];
    }
    assert list[..|list|] == list;
  }

  /** One pass of the innermost loop: row `i` tries every `j` through `k`. */
  method RelaxRow(adj: seq<seq<Edge>>, dist: seq<seq<int>>, next: seq<seq<int>>, i: int, k: int)
    returns (dist': seq<seq<int>>, next': seq<seq<int>>)
    requires Tables(adj, dist, next) && 0 <= i < |adj| && 0 <= k < |adj|
    requires forall a, b :: 0 <= a < |adj| && 0 <= b < |adj| ==> dist[a][b] <= InitialDistance(adj, a, b)
    ensures Tables(adj, dist', next')
    ensures forall a, b :: 0 <= a < |adj| && 0 <= b < |adj| ==> dist'[a][b] <= InitialDistance(adj, a, b)
  {
    dist', next' := dist, next;
    for j := 0 to |adj|
      invariant Tables(adj, dist', next')
      invariant forall a, b :: 0 <= a < |adj| && 0 <= b < |adj| ==> dist'[a][b] <= InitialDistance(adj, a, b)
    {
      if dist'[i][k] < Inf && dist'[k][j] < Inf {
        if dist'[i][j] > dist'[i][k] + dist'[k][j] {
          ThroughRealized(adj, dist', next', i, k, j);
          dist' := dist'[i := dist'[i][j := dist'[i][k] + dist'[k][j]]];
          next' := next'[i := next'[i][j := next'[i][k]]];
        }
      }
    }
  }

  /**
   * The tables after the three nested loops: every entry is backed by a walk
   * (or is `Inf` with no hop, or 0 on the diagonal) and no entry rose above
   * its initial value.
   */
  method FloydWarshall(adj: seq<seq<Edge>>) returns (dist: seq<seq<int>>, next: seq<seq<int>>)
    requires WellFormed(adj)
    ensures Tables(adj, dist, next)
    ensures forall i, j :: 0 <= i < |adj| && 0 <= j < |adj| ==> dist[i][j] <= InitialDistance(adj, i, j)
  {
    var n := |adj|;
    dist, next := [], [];
    for i := 0 to n
      invariant |dist| == |next| == i
      invariant forall a :: 0 <= a < i ==> |dist[a]| == |next[a]| == n
      invariant forall a, b :: 0 <= a < i && 0 <= b < n ==>
        dist[a][b] == InitialDistance(adj, a, b) && next[a][b] == InitialHop(adj, a, b)
    {
      var row, hops := InitialRow(adj, i);
      dist, next := dist + [row], next + [hops];
    }
    forall a, b | 0 <= a < n && 0 <= b < n
      ensures Realized(adj, a, b, dist[a][b], next[a][b])
    {
      InitialRealized(adj, a, b);
    }
    for k := 0 to n
      invariant Tables(adj, dist, next)
      invariant forall a, b :: 0 <= a < n && 0 <= b < n ==> dist[a][b] <= InitialDistance(adj, a, b)
    {
      for i := 0 to n
        invariant Tables(adj, dist, next)
        invariant forall a, b :: 0 <= a < n && 0 <= b < n ==> dist[a][b] <= InitialDistance(adj, a, b)
      {
        dist, next := RelaxRow(adj, dist, next, i, k);
      }
    }
  }

  // ---------------------------------------------------------------------
  // Following next hops
  // ---------------------------------------------------------------------

  /** `hops` starts at `start` and each vertex after the first is the next hop towards `end` of the one before. */
  ghost predicate HopChain(next: seq<seq<int>>, start: int, end: int, hops: seq<int>) {
    && |hops| > 0 && hops[0] == start
    && (forall t :: 0 <= t < |hops| ==> 0 <= hops[t] < |next| && 0 <= end < |next[hops[t]]|)
    && forall t :: 0 <= t < |hops| - 1 ==> hops[t + 1] == next[hops[t]][end]
  }

  /** Distinct values below `n` number at most `n`. */
  lemma {:induction false} DistinctBound(s: seq<int>, n: int)
    requires n >= 0 && Distinct(s) && forall t :: 0 <= t < |s| ==> 0 <= s[t] < n
    ensures |s| <= n
    decreases |s|
  {
    if |s| > 0 {
      var x := s[|s| - 1];
      // the prefix with `n - 1` renamed to the (then free) value `x`
      var s' := seq(|s| - 1, t requires 0 <= t < |s| - 1 => if s[t] == n - 1 then x else s[t]);
      forall t | 0 <= t < |s'|
        ensures 0 <= s'[t] < n - 1
      {
        assert s[t] != x;
      }
      forall a, b | 0 <= a < b < |s'|
        ensures s'[a] != s'[b]
      {
        assert s[a] != s[b] && s[a] != x && s[b] != x;
      }
      DistinctBound(s', n - 1);
    }
  }

  /** An entry other than `Inf` is the cost of a walk from `i` to `j`. */
  lemma EntryWalk(adj: seq<seq<Edge>>, dist: seq<seq<int>>, next: seq<seq<int>>, i: int, j: int)
    requires Tables(adj, dist, next) && 0 <= i < |adj| && 0 <= j < |adj| && dist[i][j] != Inf
    ensures exists p, ws :: IsWalk(adj, p, ws) && p[0] == i && p[|p| - 1] == j && Sum(ws) == dist[i][j]
  {
    assert Realized(adj, i, j, dist[i][j], next[i][j]);
    if next[i][j] == -1 {
      assert IsWalk(adj, [i], []);
    }
  }

  /** Every next hop towards `end` other than -1 is the target of a record from its vertex. */
  ghost predicate HopsAreRecords(adj: seq<seq<Edge>>, next: seq<seq<int>>, end: int) {
    && |next| == |adj|
    && forall i :: 0 <= i < |adj| ==>
         && 0 <= end < |next[i]|
         && (next[i][end] == -1 || (0 <= next[i][end] < |adj| && exists w :: Edge(next[i][end], w) in adj[i]))
  }

  /** Realized tables only hop along records. */
  lemma TablesHopAlongRecords(adj: seq<seq<Edge>>, dist: seq<seq<int>>, next: seq<seq<int>>, end: int)
    requires Tables(adj, dist, next) && 0 <= end < |adj|
    ensures HopsAreRecords(adj, next, end)
  {
    forall i | 0 <= i < |adj| && next[i][end] != -1
      ensures 0 <= next[i][end] < |adj| && exists w :: Edge(next[i][end], w) in adj[i]
    {
      assert Realized(adj, i, end, dist[i][end], next[i][end]);
      var p, ws :| IsWalk(adj, p, ws) && |ws| > 0 && p[0] == i && p[1] == next[i][end] && p[|p| - 1] == end && Sum(ws) == dist[i][end];
      assert Edge(p[1], ws[0]) in adj[p[0]];
    }
  }

  /**
   * Stepping from the last vertex of a hop chain to its next hop, when that
   * hop is a new vertex, keeps the chain distinct and a walk, and the chain
   * had room for it.
   */
  lemma ChainExtend(adj: seq<seq<Edge>>, next: seq<seq<int>>, start: int, end: int, path: seq<int>, ws: seq<int>)
    returns (w: int)
    requires HopsAreRecords(adj, next, end) && 0 <= end < |adj|
    requires HopChain(next, start, end, path) && Distinct(path) && IsWalk(adj, path, ws)
    requires next[path[|path| - 1]][end] != -1 && next[path[|path| - 1]][end] !in path
    ensures |path| < |adj|
    ensures HopChain(next, start, end, path + [next[path[|path| - 1]][end]])
    ensures Distinct(path + [next[path[|path| - 1]][end]])
    ensures IsWalk(adj, path + [next[path[|path| - 1]][end]], ws + [w])
  {
    var hop := next[path[|path| - 1]][end];
    var path' := path + [hop];
    w :| Edge(hop, w) in adj[path[|path| - 1]];
    WalkAppend(adj, path, ws, hop, w);
    assert forall t :: 0 <= t < |path| ==> path'[t] == path[t];
    DistinctBound(path', |adj|);
  }

  /**
   * The reconstruction loop: next hops towards `end` are followed from
   * `start`, stopping at `end`, at a hop of -1, or (where the loop would
   * never end) at a vertex already on the path. Every hop taken is a record.
   */
  method FollowHops(adj: seq<seq<Edge>>, next: seq<seq<int>>, start: int, end: int, length: int)
    returns (r: PathWithin)
    requires HopsAreRecords(adj, next, end)
    requires 0 <= start < |adj| && 0 <= end < |adj|
    ensures r.Within? || r.NoNextHop? || r.NextHopCycle?
    ensures r.Within? ==>
      && r.length == length
      && HopChain(next, start, end, r.path) && r.path[|r.path| - 1] == end
      && exists ws :: IsWalk(adj, r.path, ws)
    ensures r.NoNextHop? ==>
      && HopChain(next, start, end, r.hops) && end !in r.hops && next[r.hops[|r.hops| - 1]][end] == -1
    ensures r.NextHopCycle? ==>
      && HopChain(next, start, end, r.hops) && end !in r.hops && next[r.hops[|r.hops| - 1]][end] in r.hops
  {
    var path := [start];
    ghost var ws: seq<int> := [];
    assert IsWalk(adj, path, ws);
    while path[|path| - 1] != end
      invariant HopChain(next, start, end, path) && Distinct(path) && IsWalk(adj, path, ws)
      invariant forall t :: 0 <= t < |path| - 1 ==> path[t] != end
      decreases |adj| - |path|
    {
      var hop := next[path[|path| - 1]][end];
      if hop == -1 {
        return NoNextHop(path);
      }
      if hop in path {
        return NextHopCycle(path);
      }
      ghost var w := ChainExtend(adj, next, start, end, path, ws);
      path, ws := path + [hop], ws + [w];
    }
    r := Within(length, path);
  }

  /**
   * The verdict from the finished tables: `TooLong` exactly when the entry
   * exceeds `L` or is `Inf`; otherwise the outcome of following the next
   * hops, whose reported length is the cost of a walk from `start` to `end`.
   */
  method Reconstruct(adj: seq<seq<Edge>>, dist: seq<seq<int>>, next: seq<seq<int>>, start: int, end: int, L: int)
    returns (r: PathWithin)
    requires WellFormed(adj) && Tables(adj, dist, next)
    requires 0 <= start < |adj| && 0 <= end < |adj|
    ensures !r.MissingVertex?
    ensures r.TooLong? <==> dist[start][end] > L || dist[start][end] == Inf
    ensures r.Within? ==>
      && r.length == dist[start][end] <= L && r.length != Inf
      && HopChain(next, start, end, r.path) && r.path[|r.path| - 1] == end
      && (exists ws :: IsWalk(adj, r.path, ws))
      && exists p, ws :: IsWalk(adj, p, ws) && p[0] == start && p[|p| - 1] == end && Sum(ws) == r.length
    ensures r.NoNextHop? ==>
      && HopChain(next, start, end, r.hops) && end !in r.hops && next[r.hops[|r.hops| - 1]][end] == -1
    ensures r.NextHopCycle? ==>
      && HopChain(next, start, end, r.hops) && end !in r.hops && next[r.hops[|r.hops| - 1]][end] in r.hops
  {
    if dist[start][end] > L || dist[start][end] == Inf {
      return TooLong;
    }
    EntryWalk(adj, dist, next, start, end);
    TablesHopAlongRecords(adj, dist, next, end);
    r := FollowHops(adj, next, start, end, dist[start][end]);
  }
}
