/**
 * The structural edits of the graph, stated as functions on the adjacency
 * table and the two name maps: dropping records that target a vertex,
 * renumbering after a vertex is deleted, appending an edge (and its mirror)
 * and removing every record between two vertices. The lemmas state what each
 * edit does to the records and that each keeps the invariants of the graph.
 */
module Adjacency {
  import opened Walks

  /**
   * `nameToIndex` and `indexToName` are inverse bijections between the names
   * and the dense indices `0 .. n - 1`.
   */
  ghost predicate Registry(n: int, nameToIndex: map<string, int>, indexToName: map<int, string>) {
    && (forall i :: i in indexToName <==> 0 <= i < n)
    && (forall nm :: nm in nameToIndex ==> nameToIndex[nm] in indexToName && indexToName[nameToIndex[nm]] == nm)
    && (forall i :: 0 <= i < n ==> indexToName[i] in nameToIndex && nameToIndex[indexToName[i]] == i)
  }

  /** Undirected storage: every record `u -> v` of weight `w` has a mirror `v -> u` of weight `w`. */
  ghost predicate Symmetric(adj: seq<seq<Edge>>) {
    forall u, e :: 0 <= u < |adj| && e in adj[u] ==> 0 <= e.to < |adj| && Edge(u, e.weight) in adj[e.to]
  }

  lemma RegistryInjective(n: int, nameToIndex: map<string, int>, indexToName: map<int, string>, a: string, b: string)
    requires Registry(n, nameToIndex, indexToName)
    requires a in nameToIndex && b in nameToIndex && nameToIndex[a] == nameToIndex[b]
    ensures a == b
  {
  }

  // ---------------------------------------------------------------------
  // Dropping records and renumbering (removeVertex, removeEdge)
  // ---------------------------------------------------------------------

  /** `remove_if(edge.to == x)`: the records of `list` not targeting `x`, in their order. */
  function DropTarget(list: seq<Edge>, x: int): (r: seq<Edge>)
    ensures |r| <= |list|
    ensures forall e :: e in r <==> e in list && e.to != x
  {
    if |list| == 0 then []
    else DropTarget(list[..|list| - 1], x) + (if list[|list| - 1].to == x then [] else [list[|list| - 1]])
  }

  /** Dropping distributes over concatenation: the kept records stay in their relative order. */
  lemma {:induction false} DropTargetConcat(a: seq<Edge>, b: seq<Edge>, x: int)
    ensures DropTarget(a + b, x) == DropTarget(a, x) + DropTarget(b, x)
  {
    if |b| == 0 {
      assert a + b == a;
    } else {
      assert (a + b)[..|a + b| - 1] == a + b[..|b| - 1];
      DropTargetConcat(a, b[..|b| - 1], x);
    }
  }

  /** Nothing is dropped from a list with no record targeting `x`. */
  lemma {:induction false} DropTargetNone(list: seq<Edge>, x: int)
    requires forall e :: e in list ==> e.to != x
    ensures DropTarget(list, x) == list
  {
    if |list| > 0 {
      DropTargetNone(list[..|list| - 1], x);
      assert list[..|list| - 1] + [list[|list| - 1]] == list;
    }
  }

  /** New index of a surviving vertex `i` once vertex `x` is deleted. */
  function Renumber(i: int, x: int): int {
    if i > x then i - 1 else i
  }

  /** Old index of the vertex now at `j` once vertex `x` is deleted. */
  function OldIndex(j: int, x: int): int {
    if j < x then j else j + 1
  }

  /** `--edge.to` for every target above `x`. */
  function ShiftDown(list: seq<Edge>, x: int): (r: seq<Edge>)
    ensures |r| == |list|
  {
    seq(|list|, k requires 0 <= k < |list| => Edge(Renumber(list[k].to, x), list[k].weight))
  }

  /**
   * The table after deleting vertex `x`: records targeting `x` dropped from
   * every list, `x`'s own list erased, targets above `x` lowered by one.
   */
  function RemoveVertexTable(adj: seq<seq<Edge>>, x: int): (r: seq<seq<Edge>>)
    requires 0 <= x < |adj|
    ensures |r| == |adj| - 1
  {
    seq(|adj| - 1, j requires 0 <= j < |adj| - 1 => ShiftDown(DropTarget(adj[OldIndex(j, x)], x), x))
  }

  /**
   * Records after deleting `x` correspond one-for-one to the old records between
   * surviving vertices: none targets `x` any more, targets above `x` dropped by
   * exactly one, the others are unchanged, and the table stays well formed.
   */
  lemma RemoveVertexRecords(adj: seq<seq<Edge>>, x: int)
    requires WellFormed(adj) && 0 <= x < |adj|
    ensures WellFormed(RemoveVertexTable(adj, x))
    ensures forall j, e0 :: 0 <= j < |adj| - 1 && e0 in adj[OldIndex(j, x)] && e0.to != x ==>
      Edge(Renumber(e0.to, x), e0.weight) in RemoveVertexTable(adj, x)[j]
    ensures forall j, e :: 0 <= j < |adj| - 1 && e in RemoveVertexTable(adj, x)[j] ==>
      exists e0 :: e0 in adj[OldIndex(j, x)] && e0.to != x && e == Edge(Renumber(e0.to, x), e0.weight)
  {
    var r := RemoveVertexTable(adj, x);
    forall j, e0 | 0 <= j < |adj| - 1 && e0 in adj[OldIndex(j, x)] && e0.to != x
      ensures Edge(Renumber(e0.to, x), e0.weight) in r[j]
    {
      var kept := DropTarget(adj[OldIndex(j, x)], x);
      assert e0 in kept;
      var k :| 0 <= k < |kept| && kept[k] == e0;
      assert r[j][k] == Edge(Renumber(e0.to, x), e0.weight);
    }
    forall j, e: Edge | 0 <= j < |adj| - 1 && e in r[j]
      ensures exists e0 :: e0 in adj[OldIndex(j, x)] && e0.to != x && e == Edge(Renumber(e0.to, x), e0.weight)
    {
      var kept := DropTarget(adj[OldIndex(j, x)], x);
      var k :| 0 <= k < |r[j]| && r[j][k] == e;
      assert kept[k] in kept;
    }
    forall j, e: Edge | 0 <= j < |r| && e in r[j]
      ensures 0 <= e.to < |r|
    {
      var e0 :| e0 in adj[OldIndex(j, x)] && e0.to != x && e == Edge(Renumber(e0.to, x), e0.weight);
    }
  }

  /** Deleting a vertex keeps every surviving record's mirror. */
  lemma RemoveVertexSymmetric(adj: seq<seq<Edge>>, x: int)
    requires WellFormed(adj) && Symmetric(adj) && 0 <= x < |adj|
    ensures Symmetric(RemoveVertexTable(adj, x))
  {
    var r := RemoveVertexTable(adj, x);
    RemoveVertexRecords(adj, x);
    forall j, e: Edge | 0 <= j < |r| && e in r[j]
      ensures 0 <= e.to < |r| && Edge(j, e.weight) in r[e.to]
    {
      var e0 :| e0 in adj[OldIndex(j, x)] && e0.to != x && e == Edge(Renumber(e0.to, x), e0.weight);
      var mirror := Edge(OldIndex(j, x), e0.weight);
      assert mirror in adj[e0.to];
      assert OldIndex(Renumber(e0.to, x), x) == e0.to;
      assert Renumber(OldIndex(j, x), x) == j;
    }
  }

  /** `indexToName` rebuilt after deleting index `x`, survivors in ascending old order. */
  function RemovedIndexToName(indexToName: map<int, string>, n: int, x: int): map<int, string>
    requires forall i :: 0 <= i < n ==> i in indexToName
  {
    map j | 0 <= j < n - 1 :: indexToName[OldIndex(j, x)]
  }

  /** `nameToIndex` rebuilt after deleting `name`: survivors renumbered densely. */
  function RemovedNameToIndex(nameToIndex: map<string, int>, name: string): map<string, int>
    requires name in nameToIndex
  {
    map nm | nm in nameToIndex && nm != name :: Renumber(nameToIndex[nm], nameToIndex[name])
  }

  /** The rebuilt maps are again inverse bijections over `0 .. n - 2`. */
  lemma RemovedRegistry(n: int, nameToIndex: map<string, int>, indexToName: map<int, string>, name: string)
    requires Registry(n, nameToIndex, indexToName) && name in nameToIndex
    ensures Registry(n - 1, RemovedNameToIndex(nameToIndex, name),
                     RemovedIndexToName(indexToName, n, nameToIndex[name]))
  {
    var x := nameToIndex[name];
    var n2i := RemovedNameToIndex(nameToIndex, name);
    var i2n := RemovedIndexToName(indexToName, n, x);
    forall nm | nm in n2i
      ensures n2i[nm] in i2n && i2n[n2i[nm]] == nm
    {
      var i := nameToIndex[nm];
      assert i != x;
      assert OldIndex(Renumber(i, x), x) == i;
    }
    forall j | 0 <= j < n - 1
      ensures i2n[j] in n2i && n2i[i2n[j]] == j
    {
      var i := OldIndex(j, x);
      assert indexToName[i] != name;
    }
  }

  /**
   * Through the rebuilt maps, the records of the table after deleting `name`
   * are exactly the old named records between the other vertices.
   */
  lemma RemovedNamedRecords(adj: seq<seq<Edge>>, nameToIndex: map<string, int>, indexToName: map<int, string>,
                            name: string, a: string, b: string, w: int)
    requires WellFormed(adj) && Registry(|adj|, nameToIndex, indexToName) && name in nameToIndex
    ensures NamedRecord(RemoveVertexTable(adj, nameToIndex[name]), RemovedNameToIndex(nameToIndex, name), a, b, w) <==>
      NamedRecord(adj, nameToIndex, a, b, w) && a != name && b != name
  {
    var x := nameToIndex[name];
    var r, n2i := RemoveVertexTable(adj, x), RemovedNameToIndex(nameToIndex, name);
    RemoveVertexRecords(adj, x);
    if NamedRecord(r, n2i, a, b, w) {
      var i, t := nameToIndex[a], nameToIndex[b];
      assert i != x && t != x by {
        if i == x { RegistryInjective(|adj|, nameToIndex, indexToName, a, name); }
        if t == x { RegistryInjective(|adj|, nameToIndex, indexToName, b, name); }
      }
      var j := Renumber(i, x);
      assert OldIndex(j, x) == i;
      var e0 :| e0 in adj[i] && e0.to != x && Edge(n2i[b], w) == Edge(Renumber(e0.to, x), e0.weight);
      assert e0.to == t;
    }
    if NamedRecord(adj, nameToIndex, a, b, w) && a != name && b != name {
      var i, t := nameToIndex[a], nameToIndex[b];
      assert i != x && t != x;
      assert OldIndex(Renumber(i, x), x) == i;
      assert Edge(t, w) in adj[OldIndex(Renumber(i, x), x)];
    }
  }

  // ---------------------------------------------------------------------
  // Appending an edge (addEdge) and removing one (removeEdge)
  // ---------------------------------------------------------------------

  /** The table after `addEdge` appends `u -> v` (and the mirror `v -> u` when undirected). */
  function InsertRecord(adj: seq<seq<Edge>>, u: int, v: int, w: int, directed: bool): (r: seq<seq<Edge>>)
    requires 0 <= u < |adj| && 0 <= v < |adj|
    ensures |r| == |adj|
  {
    var a := adj[u := adj[u] + [Edge(v, w)]];
    if directed then a else a[v := a[v] + [Edge(u, w)]]
  }

  /**
   * Appending adds exactly the new record (and its mirror) and changes no
   * other list; the table stays well formed.
   */
  lemma InsertRecordContents(adj: seq<seq<Edge>>, u: int, v: int, w: int, directed: bool)
    requires WellFormed(adj) && 0 <= u < |adj| && 0 <= v < |adj|
    ensures WellFormed(InsertRecord(adj, u, v, w, directed))
    ensures forall x :: 0 <= x < |adj| && x != u && (directed || x != v) ==> InsertRecord(adj, u, v, w, directed)[x] == adj[x]
    ensures directed ==> InsertRecord(adj, u, v, w, directed)[u] == adj[u] + [Edge(v, w)]
    ensures !directed && u != v ==> InsertRecord(adj, u, v, w, directed)[u] == adj[u] + [Edge(v, w)]
    ensures !directed && u != v ==> InsertRecord(adj, u, v, w, directed)[v] == adj[v] + [Edge(u, w)]
    ensures !directed && u == v ==> InsertRecord(adj, u, v, w, directed)[u] == adj[u] + [Edge(v, w), Edge(u, w)]
  {
    var r := InsertRecord(adj, u, v, w, directed);
    forall x, e: Edge | 0 <= x < |r| && e in r[x]
      ensures 0 <= e.to < |r|
    {
      if e !in adj[x] {
        assert e == Edge(v, w) || e == Edge(u, w);
      }
    }
  }

  /** Appending an edge with its mirror keeps an undirected table symmetric. */
  lemma InsertRecordSymmetric(adj: seq<seq<Edge>>, u: int, v: int, w: int)
    requires WellFormed(adj) && Symmetric(adj) && 0 <= u < |adj| && 0 <= v < |adj|
    ensures Symmetric(InsertRecord(adj, u, v, w, false))
  {
    var r := InsertRecord(adj, u, v, w, false);
    forall x, e: Edge | 0 <= x < |r| && e in r[x]
      ensures 0 <= e.to < |r| && Edge(x, e.weight) in r[e.to]
    {
      forall y, f | 0 <= y < |adj| && f in adj[y]
        ensures f in r[y]
      {
        assert adj[y] <= r[y];
      }
      if e in adj[x] {
        assert Edge(x, e.weight) in adj[e.to];
      } else if x == u && e == Edge(v, w) {
        assert Edge(u, w) in r[v];
      } else {
        assert x == v && e == Edge(u, w);
        assert Edge(v, w) in r[u];
      }
    }
  }

  /** The table after `removeEdge`: every `u -> v` record, and every `v -> u` record when undirected. */
  function RemoveEdgeTable(adj: seq<seq<Edge>>, u: int, v: int, directed: bool): (r: seq<seq<Edge>>)
    requires 0 <= u < |adj| && 0 <= v < |adj|
    ensures |r| == |adj|
  {
    var a := adj[u := DropTarget(adj[u], v)];
    if directed then a else a[v := DropTarget(a[v], u)]
  }

  /**
   * A record survives `removeEdge` exactly when it is neither `u -> v` nor,
   * undirected, `v -> u`; other lists are untouched.
   */
  lemma RemoveEdgeContents(adj: seq<seq<Edge>>, u: int, v: int, directed: bool)
    requires WellFormed(adj) && 0 <= u < |adj| && 0 <= v < |adj|
    ensures WellFormed(RemoveEdgeTable(adj, u, v, directed))
    ensures forall x, e :: 0 <= x < |adj| ==>
      (e in RemoveEdgeTable(adj, u, v, directed)[x] <==>
        e in adj[x] && !(x == u && e.to == v) && !(!directed && x == v && e.to == u))
    ensures forall x :: 0 <= x < |adj| && x != u && (directed || x != v) ==> RemoveEdgeTable(adj, u, v, directed)[x] == adj[x]
  {
  }

  /** Removing both directions keeps an undirected table symmetric. */
  lemma RemoveEdgeSymmetric(adj: seq<seq<Edge>>, u: int, v: int)
    requires WellFormed(adj) && Symmetric(adj) && 0 <= u < |adj| && 0 <= v < |adj|
    ensures Symmetric(RemoveEdgeTable(adj, u, v, false))
  {
    var r := RemoveEdgeTable(adj, u, v, false);
    RemoveEdgeContents(adj, u, v, false);
    forall x, e: Edge | 0 <= x < |r| && e in r[x]
      ensures 0 <= e.to < |r| && Edge(x, e.weight) in r[e.to]
    {
      assert Edge(x, e.weight) in adj[e.to];
    }
  }

  // ---------------------------------------------------------------------
  // Records seen through vertex names
  // ---------------------------------------------------------------------

  /** The table holds a record from the vertex named `a` to the vertex named `b` of weight `w`. */
  ghost predicate NamedRecord(adj: seq<seq<Edge>>, nameToIndex: map<string, int>, a: string, b: string, w: int) {
    && a in nameToIndex && b in nameToIndex
    && 0 <= nameToIndex[a] < |adj|
    && Edge(nameToIndex[b], w) in adj[nameToIndex[a]]
  }

  /** Registering a fresh name with an empty list adds no named record. */
  lemma AddVertexNamed(adj: seq<seq<Edge>>, nameToIndex: map<string, int>, indexToName: map<int, string>, name: string)
    requires WellFormed(adj) && Registry(|adj|, nameToIndex, indexToName) && name !in nameToIndex
    ensures Registry(|adj| + 1, nameToIndex[name := |adj|], indexToName[|adj| := name])
    ensures forall a, b, w :: NamedRecord(adj + [[]], nameToIndex[name := |adj|], a, b, w) <==> NamedRecord(adj, nameToIndex, a, b, w)
  {
    var adj', n2i' := adj + [[]], nameToIndex[name := |adj|];
    forall a, b, w
      ensures NamedRecord(adj', n2i', a, b, w) <==> NamedRecord(adj, nameToIndex, a, b, w)
    {
      if NamedRecord(adj', n2i', a, b, w) {
        assert a != name;
        var e := Edge(n2i'[b], w);
        assert e in adj[nameToIndex[a]];
        assert b != name;
      }
    }
  }

  /**
   * Through the registry, the appended records are exactly the named edge
   * `from -> to` (and `to -> from` when undirected).
   */
  lemma InsertRecordNamed(adj: seq<seq<Edge>>, nameToIndex: map<string, int>, indexToName: map<int, string>,
                          from: string, to: string, w: int, directed: bool)
    requires WellFormed(adj) && Registry(|adj|, nameToIndex, indexToName)
    requires from in nameToIndex && to in nameToIndex
    ensures forall a, b, w' ::
      NamedRecord(InsertRecord(adj, nameToIndex[from], nameToIndex[to], w, directed), nameToIndex, a, b, w') <==>
        (|| NamedRecord(adj, nameToIndex, a, b, w')
         || (a == from && b == to && w' == w)
         || (!directed && a == to && b == from && w' == w))
  {
    var u, v := nameToIndex[from], nameToIndex[to];
    var r := InsertRecord(adj, u, v, w, directed);
    InsertRecordContents(adj, u, v, w, directed);
    forall a, b, w'
      ensures NamedRecord(r, nameToIndex, a, b, w') <==>
        (|| NamedRecord(adj, nameToIndex, a, b, w')
         || (a == from && b == to && w' == w)
         || (!directed && a == to && b == from && w' == w))
    {
      if NamedRecord(r, nameToIndex, a, b, w') && !NamedRecord(adj, nameToIndex, a, b, w') {
        var e := Edge(nameToIndex[b], w');
        assert e in r[nameToIndex[a]] && e !in adj[nameToIndex[a]];
        if nameToIndex[a] == u && e == Edge(v, w) {
          RegistryInjective(|adj|, nameToIndex, indexToName, a, from);
          RegistryInjective(|adj|, nameToIndex, indexToName, b, to);
        } else {
          assert !directed && nameToIndex[a] == v && e == Edge(u, w);
          RegistryInjective(|adj|, nameToIndex, indexToName, a, to);
          RegistryInjective(|adj|, nameToIndex, indexToName, b, from);
        }
      }
    }
  }

  /**
   * A named record exists exactly when some stored record between the two
   * indices carries those names.
   */
  lemma NamedRecordByIndex(adj: seq<seq<Edge>>, nameToIndex: map<string, int>, indexToName: map<int, string>,
                           a: string, b: string, w: int)
    requires WellFormed(adj) && Registry(|adj|, nameToIndex, indexToName)
    ensures NamedRecord(adj, nameToIndex, a, b, w) <==>
      exists i, k :: 0 <= i < |adj| && 0 <= k < |adj[i]| && indexToName[i] == a
                     && indexToName[adj[i][k].to] == b && adj[i][k].weight == w
  {
    if NamedRecord(adj, nameToIndex, a, b, w) {
      var i := nameToIndex[a];
      var k :| 0 <= k < |adj[i]| && adj[i][k] == Edge(nameToIndex[b], w);
      assert indexToName[i] == a && indexToName[adj[i][k].to] == b;
    }
    if exists i, k :: 0 <= i < |adj| && 0 <= k < |adj[i]| && indexToName[i] == a
                      && indexToName[adj[i][k].to] == b && adj[i][k].weight == w {
      var i, k :| 0 <= i < |adj| && 0 <= k < |adj[i]| && indexToName[i] == a
                  && indexToName[adj[i][k].to] == b && adj[i][k].weight == w;
      assert adj[i][k] in adj[i];
      assert adj[i][k] == Edge(nameToIndex[b], w);
    }
  }
}
