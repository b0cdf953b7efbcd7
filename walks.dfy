/**
 * The vocabulary every part of the graph engine shares: the optional and
 * error results, the adjacency record, well-formed adjacency tables,
 * weighted walks along stored records and reachability.
 */
module Walks {

  /** `INT_MAX` of a 32-bit `int`: the engine's sentinel for "no distance yet". */
  const IntMax: int := 2147483647

  /** An optional result. */
  datatype Option<T> = None | Some(value: T)

  /** Failure of a bounds-checked accessor or of a query on an unknown name. */
  datatype Error = VertexNotFound | BadIndex

  /** A value, or the error the source reports instead. */
  datatype Result<T> = Ok(value: T) | Err(error: Error)

  /** One adjacency record: the target vertex index and the weight. */
  datatype Edge = Edge(to: int, weight: int)

  /** Every record of every list targets a vertex of the table. */
  predicate WellFormed(adj: seq<seq<Edge>>) {
    forall u, e :: 0 <= u < |adj| && e in adj[u] ==> 0 <= e.to < |adj|
  }

  /** Every stored weight is non-negative. */
  predicate NonNegative(adj: seq<seq<Edge>>) {
    forall u, e :: 0 <= u < |adj| && e in adj[u] ==> e.weight >= 0
  }

  /**
   * The weight of the last record of `list` targeting `j`, if any: the value a
   * table filled by assignment from the list keeps, later records overwriting
   * earlier ones.
   */
  function LastWeight(list: seq<Edge>, j: int): (r: Option<int>)
    ensures r.Some? ==> Edge(j, r.value) in list
    ensures r.None? <==> forall e :: e in list ==> e.to != j
  {
    if |list| == 0 then None
    else
      assert list == list[..|list| - 1] + [list[|list| - 1]];
      if list[|list| - 1].to == j then Some(list[|list| - 1].weight)
      else LastWeight(list[..|list| - 1], j)
  }

  /** Sum of a sequence of integers. */
  function Sum(s: seq<int>): int {
    if |s| == 0 then 0 else Sum(s[..|s| - 1]) + s[|s| - 1]
  }

  lemma {:induction false} SumConcat(a: seq<int>, b: seq<int>)
    ensures Sum(a + b) == Sum(a) + Sum(b)
  {
    if |b| == 0 {
      assert a + b == a;
    } else {
      assert (a + b)[..|a + b| - 1] == a + b[..|b| - 1];
      SumConcat(a, b[..|b| - 1]);
    }
  }

  lemma SumPrepend(x: int, s: seq<int>)
    ensures Sum([x] + s) == x + Sum(s)
  {
    SumConcat([x], s);
    assert Sum([x]) == Sum([]) + x;
  }

  /** Overwriting one entry changes the sum by the difference. */
  lemma SumUpdate(s: seq<int>, i: int, x: int)
    requires 0 <= i < |s|
    ensures Sum(s[i := x]) == Sum(s) - s[i] + x
  {
    var t := s[i := x];
    assert s == s[..i] + [s[i]] + s[i + 1..];
    assert t == s[..i] + [x] + s[i + 1..];
    SumConcat(s[..i] + [s[i]], s[i + 1..]);
    SumConcat(s[..i], [s[i]]);
    SumConcat(s[..i] + [x], s[i + 1..]);
    SumConcat(s[..i], [x]);
    assert Sum([s[i]]) == s[i] && Sum([x]) == x by {
      assert [s[i]][..0] == [] && [x][..0] == [];
    }
  }

  /** A sum of non-negative entries is non-negative. */
  lemma {:induction false} SumNonNegative(s: seq<int>)
    requires forall i :: 0 <= i < |s| ==> s[i] >= 0
    ensures Sum(s) >= 0
  {
    if |s| > 0 {
      SumNonNegative(s[..|s| - 1]);
    }
  }

  /** How many entries are marked. */
  function Count(marked: seq<bool>): (c: nat)
    ensures c <= |marked|
  {
    if |marked| == 0 then 0 else Count(marked[..|marked| - 1]) + (if marked[|marked| - 1] then 1 else 0)
  }

  /** Marking an unmarked entry raises the count by one. */
  lemma {:induction false} CountAdd(marked: seq<bool>, v: int)
    requires 0 <= v < |marked| && !marked[v]
    ensures Count(marked[v := true]) == Count(marked) + 1
  {
    var n := |marked|;
    var t := marked[v := true];
    assert t[..n - 1] == if v == n - 1 then marked[..n - 1] else marked[..n - 1][v := true];
    if v < n - 1 {
      CountAdd(marked[..n - 1], v);
    }
  }

  /** No vertex occurs twice in `s`. */
  predicate Distinct(s: seq<int>) {
    forall a, b :: 0 <= a < b < |s| ==> s[a] != s[b]
  }

  /**
   * `p` is a walk along stored records and `ws[i]` is the weight of a record
   * from `p[i]` to `p[i + 1]`; the walk's cost is `Sum(ws)`.
   */
  ghost predicate IsWalk(adj: seq<seq<Edge>>, p: seq<int>, ws: seq<int>) {
    && |p| == |ws| + 1
    && (forall i :: 0 <= i < |p| ==> 0 <= p[i] < |adj|)
    && (forall i :: 0 <= i < |ws| ==> Edge(p[i + 1], ws[i]) in adj[p[i]])
  }

  /** `v` can be reached from `u` by following stored records (a vertex reaches itself). */
  ghost predicate Reachable(adj: seq<seq<Edge>>, u: int, v: int) {
    exists p, ws :: IsWalk(adj, p, ws) && p[0] == u && p[|p| - 1] == v
  }

  /** Every record leaving a marked vertex leads to a marked vertex. */
  ghost predicate Closed(adj: seq<seq<Edge>>, marked: seq<bool>) {
    && |marked| == |adj|
    && forall x, e :: 0 <= x < |adj| && marked[x] && e in adj[x] ==> 0 <= e.to < |adj| && marked[e.to]
  }

  lemma ReachableSelf(adj: seq<seq<Edge>>, u: int)
    requires 0 <= u < |adj|
    ensures Reachable(adj, u, u)
  {
    assert IsWalk(adj, [u], []);
  }

  lemma WalkAppend(adj: seq<seq<Edge>>, p: seq<int>, ws: seq<int>, v: int, w: int)
    requires IsWalk(adj, p, ws)
    requires 0 <= v < |adj| && Edge(v, w) in adj[p[|p| - 1]]
    ensures IsWalk(adj, p + [v], ws + [w])
  {
    var p', ws' := p + [v], ws + [w];
    forall i | 0 <= i < |ws'|
      ensures Edge(p'[i + 1], ws'[i]) in adj[p'[i]]
    {
      if i < |ws| {
        assert p'[i + 1] == p[i + 1] && ws'[i] == ws[i] && p'[i] == p[i];
      }
    }
  }

  lemma WalkPrepend(adj: seq<seq<Edge>>, u: int, w: int, p: seq<int>, ws: seq<int>)
    requires IsWalk(adj, p, ws)
    requires 0 <= u < |adj| && Edge(p[0], w) in adj[u]
    ensures IsWalk(adj, [u] + p, [w] + ws)
  {
    var p', ws' := [u] + p, [w] + ws;
    forall i | 0 <= i < |ws'|
      ensures Edge(p'[i + 1], ws'[i]) in adj[p'[i]]
    {
      if i > 0 {
        assert p'[i + 1] == p[i] && ws'[i] == ws[i - 1] && p'[i] == p[i - 1];
      }
    }
  }

  lemma WalkConcat(adj: seq<seq<Edge>>, p1: seq<int>, ws1: seq<int>, p2: seq<int>, ws2: seq<int>)
    requires IsWalk(adj, p1, ws1) && IsWalk(adj, p2, ws2)
    requires p1[|p1| - 1] == p2[0]
    ensures IsWalk(adj, p1 + p2[1..], ws1 + ws2)
  {
    var p, ws := p1 + p2[1..], ws1 + ws2;
    forall i | 0 <= i < |ws|
      ensures Edge(p[i + 1], ws[i]) in adj[p[i]]
    {
      if i < |ws1| {
        assert ws[i] == ws1[i] && p[i] == p1[i] && p[i + 1] == p1[i + 1];
      } else {
        var j := i - |ws1|;
        assert ws[i] == ws2[j] && p[i] == p2[j] && p[i + 1] == p2[j + 1];
      }
    }
  }

  /** Reachability extends along one record. */
  lemma ReachableStep(adj: seq<seq<Edge>>, u: int, x: int, e: Edge)
    requires WellFormed(adj)
    requires Reachable(adj, u, x) && 0 <= x < |adj| && e in adj[x]
    ensures Reachable(adj, u, e.to)
  {
    var p, ws :| IsWalk(adj, p, ws) && p[0] == u && p[|p| - 1] == x;
    WalkAppend(adj, p, ws, e.to, e.weight);
    assert (p + [e.to])[0] == u;
  }

  /** A record from `u` followed by a walk to `v` reaches `v`. */
  lemma ReachableThrough(adj: seq<seq<Edge>>, u: int, e: Edge, v: int)
    requires 0 <= u < |adj| && e in adj[u] && Reachable(adj, e.to, v)
    ensures Reachable(adj, u, v)
  {
    var p, ws :| IsWalk(adj, p, ws) && p[0] == e.to && p[|p| - 1] == v;
    WalkPrepend(adj, u, e.weight, p, ws);
    assert ([u] + p)[|[u] + p| - 1] == v;
  }

  lemma ReachableTrans(adj: seq<seq<Edge>>, u: int, x: int, v: int)
    requires Reachable(adj, u, x) && Reachable(adj, x, v)
    ensures Reachable(adj, u, v)
  {
    var p1, ws1 :| IsWalk(adj, p1, ws1) && p1[0] == u && p1[|p1| - 1] == x;
    var p2, ws2 :| IsWalk(adj, p2, ws2) && p2[0] == x && p2[|p2| - 1] == v;
    WalkConcat(adj, p1, ws1, p2, ws2);
    var p := p1 + p2[1..];
    assert p[0] == u;
    assert p[|p| - 1] == v by {
      if |p2| == 1 { assert p == p1; } else { assert p[|p| - 1] == p2[|p2| - 1]; }
    }
  }

  /** A marked set closed under records contains everything reachable from its members. */
  lemma {:induction false} ClosedContainsReachable(adj: seq<seq<Edge>>, marked: seq<bool>, u: int, v: int)
    requires Closed(adj, marked)
    requires 0 <= u < |adj| && marked[u] && Reachable(adj, u, v)
    ensures 0 <= v < |adj| && marked[v]
  {
    var p, ws :| IsWalk(adj, p, ws) && p[0] == u && p[|p| - 1] == v;
    var i := 0;
    while i < |p| - 1
      invariant 0 <= i < |p| && marked[p[i]]
    {
      assert Edge(p[i + 1], ws[i]) in adj[p[i]];
      i := i + 1;
    }
  }
}
