/**
 * The "vertices whose every distance is at most N" query: one Bellman–Ford
 * run from every source, `IntMax` as "not reached", `|V| - 1` in-place passes
 * over all records in table order, one extra pass looking for a record that
 * still improves a distance, and the distance check.
 */
module BellmanFord {
  import opened Walks

  // ---------------------------------------------------------------------
  // The relaxation passes, as functions
  // ---------------------------------------------------------------------

  /** Distances from `u` before the first pass. */
  function Initial(n: nat, u: int): seq<int>
    requires 0 <= u < n
  {
    seq(n, x => IntMax)[u := 0]
  }

  /** Trying one record `v -> e.to`: improved when `v` is reached and the record beats `e.to`'s distance. */
  function Step(dist: seq<int>, v: int, e: Edge): seq<int>
    requires 0 <= v < |dist| && 0 <= e.to < |dist|
  {
    if dist[v] != IntMax && dist[v] + e.weight < dist[e.to] then dist[e.to := dist[v] + e.weight] else dist
  }

  /** The first `k` records of `v`, tried in order, each reading the distances the previous left. */
  function RelaxList(adj: seq<seq<Edge>>, dist: seq<int>, v: int, k: int): (r: seq<int>)
    requires WellFormed(adj) && |dist| == |adj| && 0 <= v < |adj| && 0 <= k <= |adj[v]|
    ensures |r| == |adj|
  {
    if k == 0 then dist
    else
      assert adj[v][k - 1] in adj[v];
      Step(RelaxList(adj, dist, v, k - 1), v, adj[v][k - 1])
  }

  /** The lists of vertices `0 .. m - 1`, in order. */
  function PassUpTo(adj: seq<seq<Edge>>, dist: seq<int>, m: int): (r: seq<int>)
    requires WellFormed(adj) && |dist| == |adj| && 0 <= m <= |adj|
    ensures |r| == |adj|
  {
    if m == 0 then dist else RelaxList(adj, PassUpTo(adj, dist, m - 1), m - 1, |adj[m - 1]|)
  }

  /** `r` full passes. */
  function Rounds(adj: seq<seq<Edge>>, dist: seq<int>, r: nat): (d: seq<int>)
    requires WellFormed(adj) && |dist| == |adj|
    ensures |d| == |adj|
  {
    if r == 0 then dist else PassUpTo(adj, Rounds(adj, dist, r - 1), |adj|)
  }

  /** The distances from `u` after the `|V| - 1` passes. */
  function Distances(adj: seq<seq<Edge>>, u: int): (d: seq<int>)
    requires WellFormed(adj) && 0 <= u < |adj|
    ensures |d| == |adj|
  {
    Rounds(adj, Initial(|adj|, u), |adj| - 1)
  }

  /** Some record still improves a distance: the extra pass's negative-cycle signal. */
  ghost predicate CanRelax(adj: seq<seq<Edge>>, dist: seq<int>)
    requires WellFormed(adj) && |dist| == |adj|
  {
    exists v, e :: 0 <= v < |adj| && e in adj[v] && dist[v] != IntMax && dist[v] + e.weight < dist[e.to]
  }

  /** Every vertex other than `u` is reached at distance at most `N`. */
  predicate Qualifies(dist: seq<int>, u: int, N: int) {
    forall v :: 0 <= v < |dist| && v != u ==> dist[v] != IntMax && dist[v] <= N
  }

  // ---------------------------------------------------------------------
  // What the passes compute
  // ---------------------------------------------------------------------

  /**
   * Distances from `u` backed by the graph: none above `IntMax`, `u` at most
   * 0, and every other value below `IntMax` the cost of a walk from `u`.
   */
  ghost predicate Backed(adj: seq<seq<Edge>>, u: int, dist: seq<int>) {
    && |dist| == |adj| && 0 <= u < |adj|
    && dist[u] <= 0
    && forall x :: 0 <= x < |adj| ==>
         && dist[x] <= IntMax
         && (dist[x] < IntMax ==> exists p, ws :: IsWalk(adj, p, ws) && p[0] == u && p[|p| - 1] == x && Sum(ws) == dist[x])
  }

  lemma InitialBacked(adj: seq<seq<Edge>>, u: int)
    requires 0 <= u < |adj|
    ensures Backed(adj, u, Initial(|adj|, u))
  {
    assert IsWalk(adj, [u], []);
  }

  lemma StepBacked(adj: seq<seq<Edge>>, u: int, dist: seq<int>, v: int, e: Edge)
    requires WellFormed(adj) && Backed(adj, u, dist) && 0 <= v < |adj| && e in adj[v]
    ensures Backed(adj, u, Step(dist, v, e))
  {
    if dist[v] != IntMax && dist[v] + e.weight < dist[e.to] {
      var p, ws :| IsWalk(adj, p, ws) && p[0] == u && p[|p| - 1] == v && Sum(ws) == dist[v];
      WalkAppend(adj, p, ws, e.to, e.weight);
      assert Sum(ws + [e.weight]) == Sum(ws) + e.weight;
      assert (p + [e.to])[0] == u;
    }
  }

  lemma {:induction false} RelaxListBacked(adj: seq<seq<Edge>>, u: int, dist: seq<int>, v: int, k: int)
    requires WellFormed(adj) && Backed(adj, u, dist) && 0 <= v < |adj| && 0 <= k <= |adj[v]|
    ensures Backed(adj, u, RelaxList(adj, dist, v, k))
  {
    if k > 0 {
      RelaxListBacked(adj, u, dist, v, k - 1);
      StepBacked(adj, u, RelaxList(adj, dist, v, k - 1), v, adj[v][k - 1]);
    }
  }

  lemma {:induction false} PassBacked(adj: seq<seq<Edge>>, u: int, dist: seq<int>, m: int)
    requires WellFormed(adj) && Backed(adj, u, dist) && 0 <= m <= |adj|
    ensures Backed(adj, u, PassUpTo(adj, dist, m))
  {
    if m > 0 {
      PassBacked(adj, u, dist, m - 1);
      RelaxListBacked(adj, u, PassUpTo(adj, dist, m - 1), m - 1, |adj[m - 1]|);
    }
  }

  lemma {:induction false} RoundsBacked(adj: seq<seq<Edge>>, u: int, dist: seq<int>, r: nat)
    requires WellFormed(adj) && Backed(adj, u, dist)
    ensures Backed(adj, u, Rounds(adj, dist, r))
  {
    if r > 0 {
      RoundsBacked(adj, u, dist, r - 1);
      PassBacked(adj, u, Rounds(adj, dist, r - 1), |adj|);
    }
  }

  /** Soundness: every distance below `IntMax` after the passes is the cost of a walk from `u`. */
  lemma DistancesBacked(adj: seq<seq<Edge>>, u: int)
    requires WellFormed(adj) && 0 <= u < |adj|
    ensures Backed(adj, u, Distances(adj, u))
  {
    InitialBacked(adj, u);
    RoundsBacked(adj, u, Initial(|adj|, u), |adj| - 1);
  }

  /** Every prefix of the walk's weights costs less than `IntMax`. */
  ghost predicate PrefixesBelow(ws: seq<int>) {
    forall i :: 0 <= i <= |ws| ==> Sum(ws[..i]) < IntMax
  }

  /**
   * At a fixpoint (no record improves anything) with the source at most 0, no
   * walk from the source whose running cost stays below `IntMax` is cheaper
   * than its last vertex's distance.
   */
  lemma {:induction false} FixpointLowerBound(adj: seq<seq<Edge>>, u: int, dist: seq<int>, p: seq<int>, ws: seq<int>)
    requires WellFormed(adj) && |dist| == |adj| && 0 <= u < |adj| && dist[u] <= 0
    requires !CanRelax(adj, dist)
    requires IsWalk(adj, p, ws) && p[0] == u && PrefixesBelow(ws)
    ensures dist[p[|p| - 1]] <= Sum(ws)
  {
    if |ws| > 0 {
      var p', ws' := p[..|p| - 1], ws[..|ws| - 1];
      assert IsWalk(adj, p', ws') by {
        forall i | 0 <= i < |ws'|
          ensures Edge(p'[i + 1], ws'[i]) in adj[p'[i]]
        {
          assert p'[i + 1] == p[i + 1] && p'[i] == p[i] && ws'[i] == ws[i];
        }
      }
      assert PrefixesBelow(ws') by {
        forall i | 0 <= i <= |ws'|
          ensures Sum(ws'[..i]) < IntMax
        {
          assert ws'[..i] == ws[..i];
        }
      }
      FixpointLowerBound(adj, u, dist, p', ws');
      var x, v, w := p[|p| - 2], p[|p| - 1], ws[|ws| - 1];
      assert Edge(v, w) in adj[x];
      assert ws[..|ws|] == ws;
      assert Sum(ws') < IntMax;
      assert dist[x] <= Sum(ws') && dist[x] != IntMax;
      assert !(dist[x] + w < dist[v]);
    } else {
      assert ws[..0] == [];
    }
  }

  /** Some walk from `u` to `v` costs at most `N`. */
  ghost predicate WalkWithin(adj: seq<seq<Edge>>, u: int, v: int, N: int) {
    exists p, ws :: IsWalk(adj, p, ws) && p[0] == u && p[|p| - 1] == v && Sum(ws) <= N
  }

  /** Some walk from `u` to `v` costs at most `N`, its running cost staying below `IntMax`. */
  ghost predicate BoundedWalkWithin(adj: seq<seq<Edge>>, u: int, v: int, N: int) {
    exists p, ws :: IsWalk(adj, p, ws) && p[0] == u && p[|p| - 1] == v && Sum(ws) <= N && PrefixesBelow(ws)
  }

  /**
   * When the extra pass finds nothing, `u` qualifies exactly when every other
   * vertex is reached from `u` by a walk of cost at most `N` (walks whose
   * running cost reaches `IntMax` left aside).
   */
  lemma QualifiesMeansWalks(adj: seq<seq<Edge>>, u: int, N: int)
    requires WellFormed(adj) && 0 <= u < |adj| && !CanRelax(adj, Distances(adj, u))
    ensures Qualifies(Distances(adj, u), u, N) ==>
      forall v :: 0 <= v < |adj| && v != u ==> WalkWithin(adj, u, v, N)
    ensures (forall v :: 0 <= v < |adj| && v != u ==> BoundedWalkWithin(adj, u, v, N)) ==>
      Qualifies(Distances(adj, u), u, N)
  {
    var dist := Distances(adj, u);
    DistancesBacked(adj, u);
    if Qualifies(dist, u, N) {
      forall v | 0 <= v < |adj| && v != u
        ensures WalkWithin(adj, u, v, N)
      {
        assert dist[v] < IntMax;
      }
    }
    if forall v :: 0 <= v < |adj| && v != u ==> BoundedWalkWithin(adj, u, v, N) {
      forall v | 0 <= v < |dist| && v != u
        ensures dist[v] != IntMax && dist[v] <= N
      {
        assert BoundedWalkWithin(adj, u, v, N);
        var p, ws :| IsWalk(adj, p, ws) && p[0] == u && p[|p| - 1] == v && Sum(ws) <= N && PrefixesBelow(ws);
        FixpointLowerBound(adj, u, dist, p, ws);
        assert ws[..|ws|] == ws;
      }
    }
  }

  // ---------------------------------------------------------------------
  // The loops
  // ---------------------------------------------------------------------

  /** One pass over every list, relaxing in place in table order. */
  method Pass(adj: seq<seq<Edge>>, dist: seq<int>) returns (dist': seq<int>)
    requires WellFormed(adj) && |dist| == |adj|
    ensures dist' == PassUpTo(adj, dist, |adj|)
  {
    dist' := dist;
    for v := 0 to |adj|
      invariant dist' == PassUpTo(adj, dist, v)
    {
      ghost var before := dist';
      for k := 0 to |adj[v]|
        invariant dist' == RelaxList(adj, before, v, k)
      {
        var edge := adj[v][k];
        assert edge in adj[v];
        if dist'[v] != IntMax && dist'[v] + edge.weight < dist'[edge.to] {
          dist' := dist'[edge.to := dist'[v] + edge.weight];
        }
      }
    }
  }

  /** The extra pass: is there a record that still improves a distance? */
  method HasNegativeCycle(adj: seq<seq<Edge>>, dist: seq<int>) returns (found: bool)
    requires WellFormed(adj) && |dist| == |adj|
    ensures found <==> CanRelax(adj, dist)
  {
    found := false;
    for v := 0 to |adj|
      invariant found <==> exists x, e :: 0 <= x < v && e in adj[x] && dist[x] != IntMax && dist[x] + e.weight < dist[e.to]
    {
      for k := 0 to |adj[v]|
        invariant found <==> exists x, e :: ((0 <= x < v && e in adj[x]) || (x == v && e in adj[v][..k])) &&
                                            dist[x] != IntMax && dist[x] + e.weight < dist[e.to]
      {
        var edge := adj[v][k];
        assert edge in adj[v];
        assert adj[v][..k + 1] == adj[v][..k] + [edge];
        if dist[v] != IntMax && dist[v] + edge.weight < dist[edge.to] {
          found := true;
          break;
        }
      }
      assert found || adj[v][..|adj[v]|] == adj[v];
    }
  }

  /** Is every other vertex reached at distance at most `N`? */
  method AllWithin(dist: seq<int>, u: int, N: int) returns (ok: bool)
    ensures ok <==> Qualifies(dist, u, N)
  {
    ok := true;
    for v := 0 to |dist|
      invariant ok <==> forall x :: 0 <= x < v && x != u ==> dist[x] != IntMax && dist[x] <= N
    {
      if v != u && (dist[v] == IntMax || dist[v] > N) {
        ok := false;
        break;
      }
    }
  }

  /**
   * `getVerticesWithPathsBelowN`: nothing at all when the extra pass from some
   * source still improves a distance; otherwise, in ascending order, exactly
   * the sources every other vertex of which ends at distance at most `N`.
   */
  method VerticesWithPathsBelowN(adj: seq<seq<Edge>>, N: int) returns (valid: seq<int>)
    requires WellFormed(adj)
    ensures (exists u :: 0 <= u < |adj| && CanRelax(adj, Distances(adj, u))) ==> valid == []
    ensures (forall u :: 0 <= u < |adj| ==> !CanRelax(adj, Distances(adj, u))) ==>
      && (forall u :: u in valid <==> 0 <= u < |adj| && Qualifies(Distances(adj, u), u, N))
      && forall i, j :: 0 <= i < j < |valid| ==> valid[i] < valid[j]
  {
    var n := |adj|;
    valid := [];
    for u := 0 to n
      invariant forall x :: 0 <= x < u ==> !CanRelax(adj, Distances(adj, x))
      invariant forall x :: x in valid <==> 0 <= x < u && Qualifies(Distances(adj, x), x, N)
      invariant forall i, j :: 0 <= i < j < |valid| ==> valid[i] < valid[j]
      invariant forall i :: 0 <= i < |valid| ==> valid[i] < u
    {
      var distance := Initial(n, u);
      for i := 0 to n - 1
        invariant distance == Rounds(adj, Initial(n, u), i)
      {
        distance := Pass(adj, distance);
      }
      var hasNegativeCycle := HasNegativeCycle(adj, distance);
      if hasNegativeCycle {
        assert CanRelax(adj, Distances(adj, u));
        return [];
      }
      var allBelowN := AllWithin(distance, u, N);
      if allBelowN {
        valid := valid + [u];
      }
    }
  }
}
