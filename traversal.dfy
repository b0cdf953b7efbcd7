/**
 * Depth-first traversals of the adjacency table: the reachability test,
 * connected-component counting, the cyclomatic number, the common-target
 * query and the k-edge disconnection check.
 */
module Traversal {
  import opened Walks

  /** Vertices not yet marked; every depth-first call marks one more. */
  ghost function Unmarked(visited: array<bool>): set<int>
    reads visited
  {
    set x | 0 <= x < visited.Length && !visited[x]
  }

  /**
   * Recursive search for `v` from `u` sharing one `visited` vector. It never
   * marks `v`; when it fails, every vertex it marked has all its targets marked.
   */
  method Dfs(adj: seq<seq<Edge>>, u: int, v: int, visited: array<bool>) returns (found: bool)
    requires WellFormed(adj) && visited.Length == |adj|
    requires 0 <= u < |adj| && 0 <= v < |adj| && !visited[u] && !visited[v]
    modifies visited
    ensures forall x :: 0 <= x < visited.Length && old(visited[x]) ==> visited[x]
    ensures !visited[v]
    ensures found ==> Reachable(adj, u, v)
    ensures !found ==> visited[u]
    ensures !found ==> forall x, e :: 0 <= x < visited.Length && visited[x] && !old(visited[x]) && e in adj[x] ==> visited[e.to]
    decreases Unmarked(visited)
  {
    if u == v {
      ReachableSelf(adj, u);
      return true;
    }
    visited[u] := true;
    for k := 0 to |adj[u]|
      invariant visited[u] && !visited[v]
      invariant forall x :: 0 <= x < visited.Length && old(visited[x]) ==> visited[x]
      invariant forall j :: 0 <= j < k ==> visited[adj[u][j].to]
      invariant forall x, e :: 0 <= x < visited.Length && visited[x] && !old(visited[x]) && x != u && e in adj[x] ==> visited[e.to]
    {
      var e := adj[u][k];
      if !visited[e.to] {
        assert u in old(Unmarked(visited)) && u !in Unmarked(visited);
        found := Dfs(adj, e.to, v, visited);
        if found {
          ReachableThrough(adj, u, e, v);
          return;
        }
      }
    }
    found := false;
  }

  /** `hasPath`: a fresh `visited` vector and one depth-first search. */
  method HasPath(adj: seq<seq<Edge>>, u: int, v: int) returns (b: bool)
    requires WellFormed(adj) && 0 <= u < |adj| && 0 <= v < |adj|
    ensures b <==> Reachable(adj, u, v)
  {
    var visited := new bool[|adj|](_ => false);
    b := Dfs(adj, u, v, visited);
    if !b && Reachable(adj, u, v) {
      ClosedContainsReachable(adj, visited[..], u, v);
    }
  }

  /**
   * Marks everything reachable from `vertex` through unmarked vertices; every
   * vertex it marks is reachable from `vertex` and has all its targets marked.
   */
  method DfsForComponents(adj: seq<seq<Edge>>, vertex: int, visited: array<bool>)
    requires WellFormed(adj) && visited.Length == |adj|
    requires 0 <= vertex < |adj| && !visited[vertex]
    modifies visited
    ensures visited[vertex]
    ensures forall x :: 0 <= x < visited.Length && old(visited[x]) ==> visited[x]
    ensures forall x :: 0 <= x < visited.Length && visited[x] && !old(visited[x]) ==> Reachable(adj, vertex, x)
    ensures forall x, e :: 0 <= x < visited.Length && visited[x] && !old(visited[x]) && e in adj[x] ==> visited[e.to]
    decreases Unmarked(visited)
  {
    visited[vertex] := true;
    ReachableSelf(adj, vertex);
    for k := 0 to |adj[vertex]|
      invariant visited[vertex]
      invariant forall x :: 0 <= x < visited.Length && old(visited[x]) ==> visited[x]
      invariant forall j :: 0 <= j < k ==> visited[adj[vertex][j].to]
      invariant forall x :: 0 <= x < visited.Length && visited[x] && !old(visited[x]) ==> Reachable(adj, vertex, x)
      invariant forall x, e :: 0 <= x < visited.Length && visited[x] && !old(visited[x]) && x != vertex && e in adj[x] ==> visited[e.to]
    {
      var e := adj[vertex][k];
      if !visited[e.to] {
        assert vertex in old(Unmarked(visited)) && vertex !in Unmarked(visited);
        ghost var before := visited[..];
        DfsForComponents(adj, e.to, visited);
        forall x | 0 <= x < visited.Length && visited[x] && !before[x]
          ensures Reachable(adj, vertex, x)
        {
          ReachableThrough(adj, vertex, e, x);
        }
      }
    }
  }

  /** Vertex `x` starts a new search: no lower-numbered vertex reaches it. */
  ghost predicate IsRoot(adj: seq<seq<Edge>>, x: int) {
    forall j :: 0 <= j < x ==> !Reachable(adj, j, x)
  }

  /** Number of roots among the vertices `0 .. i - 1`. */
  ghost function RootCount(adj: seq<seq<Edge>>, i: nat): nat {
    if i == 0 then 0 else RootCount(adj, i - 1) + (if IsRoot(adj, i - 1) then 1 else 0)
  }

  /** There are no components in an empty graph and between 1 and `|adj|` otherwise. */
  lemma {:induction false} RootCountBounds(adj: seq<seq<Edge>>, i: nat)
    ensures RootCount(adj, i) <= i
    ensures i > 0 ==> RootCount(adj, i) >= 1
  {
    if i > 0 {
      RootCountBounds(adj, i - 1);
      if i == 1 {
        assert IsRoot(adj, 0);
      }
    }
  }

  /**
   * `countConnectedComponents`: one search per vertex still unmarked when the
   * scan reaches it; the count is the number of roots.
   */
  method CountConnectedComponents(adj: seq<seq<Edge>>) returns (count: int)
    requires WellFormed(adj)
    ensures count == RootCount(adj, |adj|)
  {
    var visited := new bool[|adj|](_ => false);
    count := 0;
    for i := 0 to |adj|
      invariant count == RootCount(adj, i)
      invariant forall w :: 0 <= w < |adj| ==> (visited[w] <==> exists j :: 0 <= j < i && Reachable(adj, j, w))
      invariant Closed(adj, visited[..])
    {
      ghost var before := visited[..];
      if !visited[i] {
        assert IsRoot(adj, i);
        count := count + 1;
        DfsForComponents(adj, i, visited);
        assert Closed(adj, visited[..]) by {
          forall x, e | 0 <= x < |adj| && visited[x] && e in adj[x]
            ensures 0 <= e.to < |adj| && visited[e.to]
          {
            if before[x] {
              assert before[e.to];
            }
          }
        }
        forall w | 0 <= w < |adj|
          ensures visited[w] <==> exists j :: 0 <= j < i + 1 && Reachable(adj, j, w)
        {
          if Reachable(adj, i, w) {
            ClosedContainsReachable(adj, visited[..], i, w);
          }
          if visited[w] && !before[w] {
            assert Reachable(adj, i, w);
          }
        }
      } else {
        ghost var j :| 0 <= j < i && Reachable(adj, j, i);
        assert !IsRoot(adj, i);
        forall w | 0 <= w < |adj|
          ensures visited[w] <==> exists j :: 0 <= j < i + 1 && Reachable(adj, j, w)
        {
          if Reachable(adj, i, w) {
            ClosedContainsReachable(adj, visited[..], i, w);
          }
        }
      }
    }
  }

  /** Total number of stored records. */
  function TotalRecords(adj: seq<seq<Edge>>): nat {
    if |adj| == 0 then 0 else TotalRecords(adj[..|adj| - 1]) + |adj[|adj| - 1]|
  }

  /**
   * Edges minus vertices plus components; an undirected edge is stored as two
   * records, so the record count is halved first.
   */
  ghost function CyclomaticNumber(adj: seq<seq<Edge>>, directed: bool): int {
    (if directed then TotalRecords(adj) else TotalRecords(adj) / 2) - |adj| + RootCount(adj, |adj|)
  }

  /** `findCyclomaticNumber`: counts the records, then the components. */
  method FindCyclomaticNumber(adj: seq<seq<Edge>>, directed: bool) returns (r: int)
    requires WellFormed(adj)
    ensures r == CyclomaticNumber(adj, directed)
  {
    var edgeCount := 0;
    for i := 0 to |adj|
      invariant edgeCount == TotalRecords(adj[..i])
    {
      assert adj[..i + 1][..i] == adj[..i];
      edgeCount := edgeCount + |adj[i]|;
    }
    assert adj[..|adj|] == adj;
    if !directed {
      edgeCount := edgeCount / 2;
    }
    var componentCount := CountConnectedComponents(adj);
    r := edgeCount - |adj| + componentCount;
  }

  /** The set of targets of a record list. */
  function Targets(list: seq<Edge>): set<int> {
    set j | 0 <= j < |list| :: list[j].to
  }

  /**
   * `findCommonTarget`: gathers both target sets, then scans the first in an
   * unspecified order for a member of the second.
   */
  method FindCommonTarget(adj: seq<seq<Edge>>, u: int, v: int) returns (common: Option<int>)
    requires 0 <= u < |adj| && 0 <= v < |adj|
    ensures common.Some? ==> common.value in Targets(adj[u]) && common.value in Targets(adj[v])
    ensures common.None? <==> Targets(adj[u]) * Targets(adj[v]) == {}
  {
    var targetsFromU: set<int> := {};
    for k := 0 to |adj[u]|
      invariant targetsFromU == Targets(adj[u][..k])
    {
      assert adj[u][..k + 1] == adj[u][..k] + [adj[u][k]];
      targetsFromU := targetsFromU + {adj[u][k].to};
    }
    assert adj[u][..|adj[u]|] == adj[u];
    var targetsFromV: set<int> := {};
    for k := 0 to |adj[v]|
      invariant targetsFromV == Targets(adj[v][..k])
    {
      assert adj[v][..k + 1] == adj[v][..k] + [adj[v][k]];
      targetsFromV := targetsFromV + {adj[v][k].to};
    }
    assert adj[v][..|adj[v]|] == adj[v];
    var rest := targetsFromU;
    while rest != {}
      invariant rest <= targetsFromU
      invariant forall x :: x in targetsFromU && x !in rest ==> x !in targetsFromV
      decreases rest
    {
      var target :| target in rest;
      if target in targetsFromV {
        return Some(target);
      }
      rest := rest - {target};
    }
    assert forall x :: x in targetsFromU ==> x !in targetsFromV;
    return None;
  }

  /** `size() <= k` with `size()` unsigned: a negative `k` converts to a huge unsigned value. */
  predicate UnsignedAtMost(size: nat, k: int) {
    k < 0 || size <= k
  }

  /** How many records of `list` lead to a vertex from which `v` is reachable. */
  ghost function CountReaching(adj: seq<seq<Edge>>, list: seq<Edge>, v: int): nat {
    if |list| == 0 then 0
    else CountReaching(adj, list[..|list| - 1], v) + (if Reachable(adj, list[|list| - 1].to, v) then 1 else 0)
  }

  /** The records of `list` whose target does not reach `v`. */
  ghost function KeepNotReaching(adj: seq<seq<Edge>>, list: seq<Edge>, v: int): seq<Edge> {
    if |list| == 0 then []
    else KeepNotReaching(adj, list[..|list| - 1], v) + (if Reachable(adj, list[|list| - 1].to, v) then [] else [list[|list| - 1]])
  }

  /**
   * `canDisconnectWithKEdges` on indices: already disconnected means yes; a
   * directed check counts `u`'s records whose target still reaches `v`; an
   * undirected check compares the two list lengths with `k`.
   */
  method CanDisconnectWithKEdges(adj: seq<seq<Edge>>, u: int, v: int, k: int, isDirected: bool) returns (r: bool)
    requires WellFormed(adj) && 0 <= u < |adj| && 0 <= v < |adj|
    ensures !Reachable(adj, u, v) ==> r
    ensures Reachable(adj, u, v) && isDirected ==> (r <==> UnsignedAtMost(CountReaching(adj, adj[u], v), k))
    ensures Reachable(adj, u, v) && !isDirected ==> (r <==> |adj[u]| <= k || |adj[v]| <= k)
  {
    var connected := HasPath(adj, u, v);
    if !connected {
      return true;
    }
    if isDirected {
      var edgesToDisconnect: seq<(int, int)> := [];
      for j := 0 to |adj[u]|
        invariant |edgesToDisconnect| == CountReaching(adj, adj[u][..j], v)
      {
        assert adj[u][..j + 1][..j] == adj[u][..j];
        var nextNode := adj[u][j].to;
        var reaches := HasPath(adj, nextNode, v);
        if reaches {
          edgesToDisconnect := edgesToDisconnect + [(u, nextNode)];
        }
      }
      assert adj[u][..|adj[u]|] == adj[u];
      r := UnsignedAtMost(|edgesToDisconnect|, k);
    } else {
      var degreeU := |adj[u]|;
      var degreeV := |adj[v]|;
      r := degreeU <= k || degreeV <= k;
    }
  }

  lemma {:induction false} KeepNotReachingCount(adj: seq<seq<Edge>>, list: seq<Edge>, v: int)
    ensures |KeepNotReaching(adj, list, v)| + CountReaching(adj, list, v) == |list|
    ensures forall e :: e in KeepNotReaching(adj, list, v) ==> e in list && !Reachable(adj, e.to, v)
  {
    if |list| > 0 {
      KeepNotReachingCount(adj, list[..|list| - 1], v);
    }
  }

  /**
   * The records counted by the directed check form a cut: once they are
   * dropped from `u`'s list, `v` is no longer reachable from `u`, and exactly
   * `CountReaching` records were dropped.
   */
  lemma DirectedCountIsCut(adj: seq<seq<Edge>>, u: int, v: int)
    requires WellFormed(adj) && 0 <= u < |adj| && 0 <= v < |adj| && u != v
    ensures |adj[u]| - |KeepNotReaching(adj, adj[u], v)| == CountReaching(adj, adj[u], v)
    ensures !Reachable(adj[u := KeepNotReaching(adj, adj[u], v)], u, v)
  {
    var cut := adj[u := KeepNotReaching(adj, adj[u], v)];
    KeepNotReachingCount(adj, adj[u], v);
    if Reachable(cut, u, v) {
      var p, ws :| IsWalk(cut, p, ws) && p[0] == u && p[|p| - 1] == v;
      assert |p| >= 2;
      assert Edge(p[1], ws[0]) in cut[u];
      assert !Reachable(adj, p[1], v);
      var q, qs := p[1..], ws[1..];
      forall i | 0 <= i < |qs|
        ensures Edge(q[i + 1], qs[i]) in adj[q[i]]
      {
        assert Edge(p[i + 2], ws[i + 1]) in cut[p[i + 1]];
      }
      assert IsWalk(adj, q, qs);
      assert false;
    }
  }
}
