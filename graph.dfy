/**
 * The graph object: a vertex count, a directed flag, the adjacency table and
 * the two maps between vertex names and dense indices, updated in place by
 * the structural edits. The analysis operations resolve names through the
 * maps and run the algorithms of the other modules on the table.
 */
module Graphs {
  import opened Walks
  import opened Adjacency
  import Traversal
  import Prim
  import Dijkstra
  import Floyd
  import MaxFlow

  /** The table padded with empty lists up to `n` vertices. */
  function Padded(adj: seq<seq<Edge>>, n: int): (r: seq<seq<Edge>>)
    ensures |r| == if n < |adj| then |adj| else n
  {
    if n <= |adj| then adj else adj + seq(n - |adj|, _ => [])
  }

  /** What the common-target query reports. */
  datatype CommonTarget = MissingVertex | NoCommon | Common(name: string)

  /** First pass of vertex removal: every record targeting `x` is dropped from every list. */
  method DropRecordsTo(adj: seq<seq<Edge>>, x: int) returns (r: seq<seq<Edge>>)
    ensures |r| == |adj|
    ensures forall j :: 0 <= j < |adj| ==> r[j] == DropTarget(adj[j], x)
  {
    r := adj;
    var i := 0;
    while i < |r|
      invariant 0 <= i <= |r| == |adj|
      invariant forall j :: 0 <= j < i ==> r[j] == DropTarget(adj[j], x)
      invariant forall j :: i <= j < |r| ==> r[j] == adj[j]
    {
      r := r[i := DropTarget(r[i], x)];
      i := i + 1;
    }
  }

  /** Second pass of vertex removal: every target above `x` is lowered by one, in place. */
  method LowerTargets(adj: seq<seq<Edge>>, x: int) returns (r: seq<seq<Edge>>)
    ensures |r| == |adj|
    ensures forall j :: 0 <= j < |adj| ==> r[j] == ShiftDown(adj[j], x)
  {
    r := adj;
    var i := 0;
    while i < |r|
      invariant 0 <= i <= |r| == |adj|
      invariant forall j :: 0 <= j < i ==> r[j] == ShiftDown(adj[j], x)
      invariant forall j :: i <= j < |r| ==> r[j] == adj[j]
    {
      var edges := r[i];
      var k := 0;
      while k < |edges|
        invariant 0 <= k <= |edges| == |adj[i]|
        invariant forall m :: 0 <= m < k ==> edges[m] == Edge(Renumber(adj[i][m].to, x), adj[i][m].weight)
        invariant forall m :: k <= m < |edges| ==> edges[m] == adj[i][m]
      {
        if edges[k].to > x {
          edges := edges[k := Edge(edges[k].to - 1, edges[k].weight)];
        }
        k := k + 1;
      }
      r := r[i := edges];
      i := i + 1;
    }
  }

  /**
   * Last pass of vertex removal: both maps rebuilt from `indexToName`,
   * skipping `name` and handing out new indices in ascending old order.
   */
  method RebuildNames(n: int, nameToIndex: map<string, int>, indexToName: map<int, string>, name: string)
    returns (newNameToIndex: map<string, int>, newIndexToName: map<int, string>)
    requires Registry(n, nameToIndex, indexToName) && name in nameToIndex
    ensures newNameToIndex == RemovedNameToIndex(nameToIndex, name)
    ensures newIndexToName == RemovedIndexToName(indexToName, n, nameToIndex[name])
  {
    var index := nameToIndex[name];
    newNameToIndex, newIndexToName := map[], map[];
    var newIndex := 0;
    var i := 0;
    while i < n
      invariant 0 <= i <= n
      invariant newIndex == if i <= index then i else i - 1
      invariant forall j :: j in newIndexToName <==> 0 <= j < newIndex
      invariant forall j :: 0 <= j < newIndex ==> newIndexToName[j] == indexToName[OldIndex(j, index)]
      invariant forall nm :: nm in newNameToIndex <==> nm in nameToIndex && nm != name && nameToIndex[nm] < i
      invariant forall nm :: nm in newNameToIndex ==> newNameToIndex[nm] == Renumber(nameToIndex[nm], index)
    {
      if i != index {
        var nm := indexToName[i];
        assert nameToIndex[nm] == i;
        newIndexToName := newIndexToName[newIndex := nm];
        newNameToIndex := newNameToIndex[nm := newIndex];
        newIndex := newIndex + 1;
      }
      i := i + 1;
    }
    assert newIndexToName == RemovedIndexToName(indexToName, n, index);
    assert newNameToIndex == RemovedNameToIndex(nameToIndex, name);
  }

  /**
   * The map rebuild of vertex removal as the loop over `indexToName` runs it:
   * the indices in `order`, the hash map's iteration order, which the model
   * leaves open, get new indices `newIndex, newIndex + 1, ...` in that
   * order, `x` skipped.
   */
  function RebuildInOrder(indexToName: map<int, string>, order: seq<int>, x: int, newIndex: int)
    : (maps: (map<string, int>, map<int, string>))
    requires forall k :: 0 <= k < |order| ==> order[k] in indexToName
    ensures forall j :: j in maps.1 ==> newIndex <= j < newIndex + |order|
    ensures forall nm :: nm in maps.0 ==> exists k :: 0 <= k < |order| && order[k] != x && indexToName[order[k]] == nm
  {
    if |order| == 0 then (map[], map[])
    else
      var skip := order[0] == x;
      var rest := RebuildInOrder(indexToName, order[1..], x, if skip then newIndex else newIndex + 1);
      if skip then rest
      else (rest.0[indexToName[order[0]] := newIndex], rest.1[newIndex := indexToName[order[0]]])
  }

  /**
   * Vertices `a`, `b`, `c` at 0, 1, 2 with the one record `a -> b`, and the
   * map iterated as `2, 1, 0` while `c` is removed: the rebuilt maps swap
   * `a` and `b` while the table keeps `a`'s list first, so the graph then
   * holds a record `b -> a` it never had.
   */
  lemma RebuildInOrderMisplaces()
    ensures var adj := [[Edge(1, 5)], [], []];
      var nameToIndex, indexToName := map["a" := 0, "b" := 1, "c" := 2], map[0 := "a", 1 := "b", 2 := "c"];
      && Registry(3, nameToIndex, indexToName)
      && NamedRecord(RemoveVertexTable(adj, 2), RebuildInOrder(indexToName, [2, 1, 0], 2, 0).0, "b", "a", 5)
      && !NamedRecord(adj, nameToIndex, "b", "a", 5)
  {
    var adj := [[Edge(1, 5)], [], []];
    var indexToName := map[0 := "a", 1 := "b", 2 := "c"];
    var rebuilt := RebuildInOrder(indexToName, [2, 1, 0], 2, 0);
    assert [2, 1, 0][1..] == [1, 0] && [1, 0][1..] == [0] && [0][1..] == [];
    assert rebuilt.0 == map["a" := 1, "b" := 0];
    assert RemoveVertexTable(adj, 2)[0] == [Edge(1, 5)];
  }

  /**
   * The name list the Floyd–Warshall query builds before reconstructing a
   * path: every registered name once, in the iteration order of
   * `nameToIndex`, which a hash map leaves unspecified.
   */
  ghost predicate ListsNames(vertices: seq<string>, nameToIndex: map<string, int>) {
    && (forall nm :: nm in vertices <==> nm in nameToIndex)
    && (forall a, b :: 0 <= a < b < |vertices| ==> vertices[a] != vertices[b])
  }

  /** The path as the query names it: the vertex at index `i` is called `vertices[i]`. */
  function ListedNames(vertices: seq<string>, path: seq<int>): (names: seq<string>)
    requires forall k :: 0 <= k < |path| ==> 0 <= path[k] < |vertices|
    ensures |names| == |path| && forall k :: 0 <= k < |path| ==> names[k] in vertices
  {
    seq(|path|, k requires 0 <= k < |path| => vertices[path[k]])
  }

  /**
   * Two registered vertices `a` (index 0) and `b` (index 1), listed in the
   * order `b, a`: the path `0 -> 1` is named starting with `b`, a vertex
   * whose index is 1.
   */
  lemma ListedNamesMisname()
    ensures var nameToIndex, indexToName := map["a" := 0, "b" := 1], map[0 := "a", 1 := "b"];
      && Registry(2, nameToIndex, indexToName)
      && ListsNames(["b", "a"], nameToIndex)
      && ListedNames(["b", "a"], [0, 1])[0] == "b"
      && nameToIndex["b"] != 0
  {
    var nameToIndex: map<string, int>, indexToName: map<int, string> := map["a" := 0, "b" := 1], map[0 := "a", 1 := "b"];
    assert forall nm :: nm in ["b", "a"] <==> nm == "b" || nm == "a";
    assert forall nm :: nm in nameToIndex <==> nm == "a" || nm == "b";
  }

  /** The path named through `indexToName`: every name is registered for exactly its vertex. */
  function IndexedNames(n: int, nameToIndex: map<string, int>, indexToName: map<int, string>, path: seq<int>)
    : (names: seq<string>)
    requires Registry(n, nameToIndex, indexToName)
    requires forall k :: 0 <= k < |path| ==> 0 <= path[k] < n
    ensures |names| == |path|
    ensures forall k :: 0 <= k < |path| ==> names[k] in nameToIndex && nameToIndex[names[k]] == path[k]
  {
    seq(|path|, k requires 0 <= k < |path| => indexToName[path[k]])
  }

  class Graph {
    var numVertices: int
    var directed: bool
    var adjList: seq<seq<Edge>>
    var nameToIndex: map<string, int>
    var indexToName: map<int, string>

    /**
     * One list per vertex, every record targets a vertex, the maps are
     * inverse bijections with `0 .. numVertices - 1`, and an undirected
     * graph stores every edge in both directions.
     */
    ghost predicate Valid()
      reads this
    {
      && numVertices == |adjList|
      && WellFormed(adjList)
      && Registry(numVertices, nameToIndex, indexToName)
      && (!directed ==> Symmetric(adjList))
    }

    /** The graph stores a record from the vertex named `a` to the vertex named `b` of weight `w`. */
    ghost predicate HasRecord(a: string, b: string, w: int)
      reads this
    {
      NamedRecord(adjList, nameToIndex, a, b, w)
    }

    constructor(directed: bool)
      ensures Valid() && this.directed == directed
      ensures numVertices == 0 && adjList == [] && nameToIndex == map[] && indexToName == map[]
    {
      this.numVertices := 0;
      this.directed := directed;
      this.adjList := [];
      this.nameToIndex := map[];
      this.indexToName := map[];
    }

    /**
     * A known name leaves the graph unchanged; a new one gets the next index
     * and an empty list.
     */
    method AddVertex(name: string)
      requires Valid()
      modifies this
      ensures Valid() && directed == old(directed)
      ensures name in old(nameToIndex) ==>
        numVertices == old(numVertices) && adjList == old(adjList)
        && nameToIndex == old(nameToIndex) && indexToName == old(indexToName)
      ensures name !in old(nameToIndex) ==>
        && numVertices == old(numVertices) + 1
        && adjList == old(adjList) + [[]]
        && nameToIndex == old(nameToIndex)[name := old(numVertices)]
        && indexToName == old(indexToName)[old(numVertices) := name]
      ensures forall a, b, w :: HasRecord(a, b, w) <==> old(HasRecord(a, b, w))
    {
      if name in nameToIndex {
        return;
      }
      AddVertexNamed(adjList, nameToIndex, indexToName, name);
      nameToIndex := nameToIndex[name := numVertices];
      indexToName := indexToName[numVertices := name];
      adjList := adjList + [[]];
      numVertices := numVertices + 1;
    }

    /**
     * Registers missing endpoints, then appends `from -> to` (and its mirror
     * when undirected) unless `from` already holds a record to `to` of the same
     * weight. Through the names, the records afterwards are the old ones plus
     * exactly this edge.
     */
    method AddEdge(from: string, to: string, weight: int) returns (inserted: bool)
      requires Valid()
      modifies this
      ensures Valid() && directed == old(directed)
      ensures nameToIndex.Keys == old(nameToIndex).Keys + {from, to}
      ensures forall nm :: nm in old(nameToIndex) ==> nameToIndex[nm] == old(nameToIndex)[nm]
      ensures numVertices == old(numVertices) + (if from in old(nameToIndex) then 0 else 1)
                                              + (if to in old(nameToIndex) || to == from then 0 else 1)
      ensures forall i :: 0 <= i < old(numVertices) ==> indexToName[i] == old(indexToName)[i]
      ensures from !in old(nameToIndex) ==> nameToIndex[from] == old(numVertices)
      ensures to !in old(nameToIndex) && to != from ==> nameToIndex[to] == numVertices - 1
      ensures inserted <==> from !in old(nameToIndex) || Edge(nameToIndex[to], weight) !in old(adjList)[nameToIndex[from]]
      ensures inserted ==>
        adjList == InsertRecord(Padded(old(adjList), numVertices), nameToIndex[from], nameToIndex[to], weight, directed)
      ensures !inserted ==> adjList == old(adjList)
      ensures forall a, b, w :: HasRecord(a, b, w) <==>
        (|| old(HasRecord(a, b, w))
         || (a == from && b == to && w == weight)
         || (!directed && a == to && b == from && w == weight))
    {
      AddEndpoints(from, to);
      inserted := AppendUnlessPresent(nameToIndex[from], nameToIndex[to], weight);
    }

    /** The registration step of `AddEdge`: `from`, then `to`, is added unless known. */
    method AddEndpoints(from: string, to: string)
      requires Valid()
      modifies this
      ensures Valid() && directed == old(directed)
      ensures nameToIndex.Keys == old(nameToIndex).Keys + {from, to}
      ensures forall nm :: nm in old(nameToIndex) ==> nameToIndex[nm] == old(nameToIndex)[nm]
      ensures numVertices == old(numVertices) + (if from in old(nameToIndex) then 0 else 1)
                                              + (if to in old(nameToIndex) || to == from then 0 else 1)
      ensures forall i :: 0 <= i < old(numVertices) ==> indexToName[i] == old(indexToName)[i]
      ensures from !in old(nameToIndex) ==> nameToIndex[from] == old(numVertices)
      ensures to !in old(nameToIndex) && to != from ==> nameToIndex[to] == numVertices - 1
      ensures adjList == Padded(old(adjList), numVertices)
      ensures forall a, b, w :: HasRecord(a, b, w) <==> old(HasRecord(a, b, w))
    {
      if from !in nameToIndex {
        AddVertex(from);
      }
      if to !in nameToIndex {
        AddVertex(to);
      }
    }

    /**
     * The duplicate check and append of `AddEdge` once both endpoints have
     * indices: nothing changes when `u` already holds `(v, weight)`.
     */
    method AppendUnlessPresent(u: int, v: int, weight: int) returns (inserted: bool)
      requires Valid() && 0 <= u < numVertices && 0 <= v < numVertices
      modifies this
      ensures Valid() && directed == old(directed) && numVertices == old(numVertices)
      ensures nameToIndex == old(nameToIndex) && indexToName == old(indexToName)
      ensures inserted <==> Edge(v, weight) !in old(adjList)[u]
      ensures adjList == if inserted then InsertRecord(old(adjList), u, v, weight, directed) else old(adjList)
      ensures forall a, b, w :: HasRecord(a, b, w) <==>
        (|| old(HasRecord(a, b, w))
         || (a == indexToName[u] && b == indexToName[v] && w == weight)
         || (!directed && a == indexToName[v] && b == indexToName[u] && w == weight))
    {
      var k := 0;
      while k < |adjList[u]|
        invariant 0 <= k <= |adjList[u]|
        invariant forall j :: 0 <= j < k ==> adjList[u][j] != Edge(v, weight)
      {
        var edge := adjList[u][k];
        if edge.to == v && edge.weight == weight {
          if !directed {
            assert Edge(u, weight) in adjList[v];
          }
          return false;
        }
        k := k + 1;
      }
      InsertRecordContents(adjList, u, v, weight, directed);
      InsertRecordNamed(adjList, nameToIndex, indexToName, indexToName[u], indexToName[v], weight, directed);
      if !directed {
        InsertRecordSymmetric(adjList, u, v, weight);
      }
      adjList := adjList[u := adjList[u] + [Edge(v, weight)]];
      if !directed {
        adjList := adjList[v := adjList[v] + [Edge(u, weight)]];
      }
      inserted := true;
    }

    /**
     * An unknown name leaves the graph unchanged. Otherwise every record
     * targeting the vertex is dropped, its list erased, higher targets lowered
     * by one, and the name maps rebuilt densely in ascending old index: the
     * records seen through the names are the old ones not touching `name`.
     */
    method RemoveVertex(name: string) returns (found: bool)
      requires Valid()
      modifies this
      ensures Valid() && directed == old(directed)
      ensures found <==> name in old(nameToIndex)
      ensures !found ==>
        numVertices == old(numVertices) && adjList == old(adjList)
        && nameToIndex == old(nameToIndex) && indexToName == old(indexToName)
      ensures found ==>
        && numVertices == old(numVertices) - 1
        && adjList == RemoveVertexTable(old(adjList), old(nameToIndex)[name])
        && nameToIndex == RemovedNameToIndex(old(nameToIndex), name)
        && indexToName == RemovedIndexToName(old(indexToName), old(numVertices), old(nameToIndex)[name])
      ensures found ==> forall a, b, w :: HasRecord(a, b, w) <==> old(HasRecord(a, b, w)) && a != name && b != name
    {
      if name !in nameToIndex {
        return false;
      }
      var index := nameToIndex[name];
      ghost var adj0 := adjList;
      var dropped := DropRecordsTo(adjList, index);
      var erased := dropped[..index] + dropped[index + 1..];
      adjList := LowerTargets(erased, index);
      assert adjList == RemoveVertexTable(adj0, index);
      RemoveVertexRecords(adj0, index);
      if !directed {
        RemoveVertexSymmetric(adj0, index);
      }
      RemovedRegistry(numVertices, nameToIndex, indexToName, name);
      forall a, b, w
        ensures NamedRecord(adjList, RemovedNameToIndex(nameToIndex, name), a, b, w) <==>
          NamedRecord(adj0, nameToIndex, a, b, w) && a != name && b != name
      {
        RemovedNamedRecords(adj0, nameToIndex, indexToName, name, a, b, w);
      }
      nameToIndex, indexToName := RebuildNames(numVertices, nameToIndex, indexToName, name);
      numVertices := numVertices - 1;
      found := true;
    }

    /**
     * Unknown names, or no record `from -> to`, leave the graph unchanged.
     * Otherwise every record `from -> to` of any weight is removed, and every
     * `to -> from` when undirected.
     */
    method RemoveEdge(from: string, to: string) returns (removed: bool)
      requires Valid()
      modifies this
      ensures Valid()
      ensures directed == old(directed) && numVertices == old(numVertices)
      ensures nameToIndex == old(nameToIndex) && indexToName == old(indexToName)
      ensures removed <==>
        && from in nameToIndex && to in nameToIndex
        && exists e :: e in old(adjList)[nameToIndex[from]] && e.to == nameToIndex[to]
      ensures !removed ==> adjList == old(adjList)
      ensures removed ==> adjList == RemoveEdgeTable(old(adjList), nameToIndex[from], nameToIndex[to], directed)
    {
      if from !in nameToIndex || to !in nameToIndex {
        return false;
      }
      var u := nameToIndex[from];
      var v := nameToIndex[to];
      var edgeExists := false;
      var k := 0;
      while k < |adjList[u]|
        invariant 0 <= k <= |adjList[u]|
        invariant !edgeExists && forall j :: 0 <= j < k ==> adjList[u][j].to != v
      {
        if adjList[u][k].to == v {
          edgeExists := true;
          break;
        }
        k := k + 1;
      }
      if !edgeExists {
        return false;
      }
      assert adjList[u][k] in adjList[u];
      RemoveEdgeContents(adjList, u, v, directed);
      if !directed {
        RemoveEdgeSymmetric(adjList, u, v);
      }
      adjList := adjList[u := DropTarget(adjList[u], v)];
      if !directed {
        adjList := adjList[v := DropTarget(adjList[v], u)];
      }
      removed := true;
    }

    /** The number of records leaving the named vertex; unknown names are an error. */
    method GetOutDegree(vertexName: string) returns (degree: Result<int>)
      requires Valid()
      ensures vertexName !in nameToIndex <==> degree == Err(VertexNotFound)
      ensures degree.Ok? ==> degree.value == |adjList[nameToIndex[vertexName]]|
    {
      if vertexName !in nameToIndex {
        return Err(VertexNotFound);
      }
      degree := Ok(|adjList[nameToIndex[vertexName]]|);
    }

    /** The named records `(from, to, weight)` of the first `k` records of `list`, the list of vertex `i`. */
    static ghost function ListTriples(names: map<int, string>, i: int, list: seq<Edge>, k: int): set<(string, string, int)>
      requires i in names && 0 <= k <= |list| && forall e :: e in list ==> e.to in names
    {
      if k == 0 then {}
      else
        var e := list[k - 1];
        assert e in list;
        ListTriples(names, i, list, k - 1) + {(names[i], names[e.to], e.weight)}
    }

    /** The named records of lists `0 .. i - 1`. */
    ghost function TableTriples(i: int): set<(string, string, int)>
      reads this
      requires Valid() && 0 <= i <= numVertices
    {
      if i == 0 then {} else TableTriples(i - 1) + ListTriples(indexToName, i - 1, adjList[i - 1], |adjList[i - 1]|)
    }

    /** The names occurring in a set of named records. */
    static ghost function Endpoints(triples: set<(string, string, int)>): set<string> {
      (set t | t in triples :: t.0) + (set t | t in triples :: t.1)
    }

    static lemma EndpointsAdd(keys: set<string>, triples: set<(string, string, int)>, t: (string, string, int))
      requires keys == Endpoints(triples)
      ensures keys + {t.1, t.0} == Endpoints(triples + {t})
    {
    }

    lemma {:induction false} ListTriplesMembers(i: int, k: int)
      requires Valid() && 0 <= i < numVertices && 0 <= k <= |adjList[i]|
      ensures forall a, b, w :: (a, b, w) in ListTriples(indexToName, i, adjList[i], k) ==> HasRecord(a, b, w)
    {
      if k > 0 {
        ListTriplesMembers(i, k - 1);
        var e := adjList[i][k - 1];
        assert e in adjList[i];
        assert HasRecord(indexToName[i], indexToName[e.to], e.weight);
      }
    }

    lemma {:induction false} ListTriplesComplete(i: int, k: int, j: int)
      requires Valid() && 0 <= i < numVertices && 0 <= j < k <= |adjList[i]|
      ensures adjList[i][j] in adjList[i]
      ensures (indexToName[i], indexToName[adjList[i][j].to], adjList[i][j].weight) in ListTriples(indexToName, i, adjList[i], k)
    {
      assert adjList[i][j] in adjList[i];
      if j < k - 1 {
        ListTriplesComplete(i, k - 1, j);
      }
    }

    /** The named records of the whole table are exactly the graph's records. */
    lemma {:induction false} TableTriplesExact(i: int)
      requires Valid() && 0 <= i <= numVertices
      ensures forall a, b, w :: (a, b, w) in TableTriples(i) ==> HasRecord(a, b, w)
      ensures i == numVertices ==> forall a, b, w :: HasRecord(a, b, w) ==> (a, b, w) in TableTriples(i)
    {
      if i > 0 {
        TableTriplesExact(i - 1);
        ListTriplesMembers(i - 1, |adjList[i - 1]|);
      }
      if i == numVertices {
        forall a, b, w | HasRecord(a, b, w)
          ensures (a, b, w) in TableTriples(i)
        {
          var x := nameToIndex[a];
          var j :| 0 <= j < |adjList[x]| && adjList[x][j] == Edge(nameToIndex[b], w);
          ListTriplesComplete(x, |adjList[x]|, j);
          TableTriplesGrow(x + 1, i);
        }
      }
    }

    lemma {:induction false} TableTriplesGrow(i: int, j: int)
      requires Valid() && 0 <= i <= j <= numVertices
      ensures TableTriples(i) <= TableTriples(j)
    {
      if i < j {
        TableTriplesGrow(i, j - 1);
      }
    }

    /** The names of the table's records are exactly the names incident to some record. */
    lemma TableEndpoints()
      requires Valid()
      ensures forall nm :: nm in Endpoints(TableTriples(numVertices)) <==>
        exists b, w :: HasRecord(nm, b, w) || HasRecord(b, nm, w)
    {
      TableTriplesExact(numVertices);
      forall nm
        ensures nm in Endpoints(TableTriples(numVertices)) <==> exists b, w :: HasRecord(nm, b, w) || HasRecord(b, nm, w)
      {
        if nm in Endpoints(TableTriples(numVertices)) {
          var t :| t in TableTriples(numVertices) && (t.0 == nm || t.1 == nm);
          assert HasRecord(t.0, t.1, t.2);
        }
        if exists b, w :: HasRecord(nm, b, w) || HasRecord(b, nm, w) {
          var b, w :| HasRecord(nm, b, w) || HasRecord(b, nm, w);
          if HasRecord(nm, b, w) {
            assert (nm, b, w) in TableTriples(numVertices);
          } else {
            assert (b, nm, w) in TableTriples(numVertices);
          }
        }
      }
    }

    /**
     * A valid directed graph whose records are exactly the reverses of the
     * triples in `seen` and whose names are exactly the names they mention.
     */
    ghost predicate Mirrors(seen: set<(string, string, int)>)
      reads this
    {
      && Valid() && directed
      && (forall a, b, w :: HasRecord(a, b, w) <==> (b, a, w) in seen)
      && nameToIndex.Keys == Endpoints(seen)
    }

    /** Once the reverse of every list is added, the new graph holds exactly the reversed records. */
    lemma ReverseComplete(reversed: Graph)
      requires Valid() && reversed.Mirrors(TableTriples(numVertices))
      ensures reversed.Valid() && reversed.directed
      ensures forall a, b, w :: reversed.HasRecord(a, b, w) <==> HasRecord(b, a, w)
      ensures forall nm :: nm in reversed.nameToIndex <==> exists b, w :: HasRecord(nm, b, w) || HasRecord(b, nm, w)
    {
      TableTriplesExact(numVertices);
      TableEndpoints();
    }

    /**
     * A fresh directed graph holding the reverse of every record. Only names
     * that occur in some record are registered: isolated vertices are not
     * copied.
     */
    method ReverseGraph() returns (reversed: Graph)
      requires Valid()
      ensures fresh(reversed) && reversed.Valid() && reversed.directed
      ensures forall a, b, w :: reversed.HasRecord(a, b, w) <==> HasRecord(b, a, w)
      ensures forall nm :: nm in reversed.nameToIndex <==> exists b, w :: HasRecord(nm, b, w) || HasRecord(b, nm, w)
    {
      reversed := new Graph(true);
      for i := 0 to numVertices
        invariant fresh(reversed) && reversed.Mirrors(TableTriples(i))
      {
        ReverseList(reversed, i);
      }
      ReverseComplete(reversed);
    }

    /** The inner loop of `ReverseGraph`: the reverse of every record of list `i` is added. */
    method ReverseList(reversed: Graph, i: int)
      requires Valid() && 0 <= i < numVertices
      requires reversed != this && reversed.Mirrors(TableTriples(i))
      modifies reversed
      ensures reversed.Mirrors(TableTriples(i + 1))
    {
      var list, names := adjList[i], indexToName;
      ghost var before := TableTriples(i);
      ghost var seen := before;
      for k := 0 to |list|
        invariant seen == before + ListTriples(names, i, list, k)
        invariant reversed.Mirrors(seen)
      {
        var edge := list[k];
        assert edge in list;
        reversed.AddEdgeTracked(names[edge.to], names[i], edge.weight, seen);
        seen := seen + {(names[i], names[edge.to], edge.weight)};
      }
    }

    /**
     * `AddEdge` on a graph that mirrors `seen`: afterwards it mirrors
     * `(to, from, weight)` too.
     */
    method AddEdgeTracked(from: string, to: string, weight: int, ghost seen: set<(string, string, int)>)
      requires Mirrors(seen)
      modifies this
      ensures Mirrors(seen + {(to, from, weight)})
    {
      EndpointsAdd(nameToIndex.Keys, seen, (to, from, weight));
      var _ := AddEdge(from, to, weight);
    }

    method GetNumVertices() returns (n: int)
      requires Valid()
      ensures n == |adjList| && forall i :: i in indexToName <==> 0 <= i < n
    {
      n := numVertices;
    }

    /** The name at `index`; an index outside `0 .. numVertices - 1` is an error. */
    method GetVertexName(index: int) returns (r: Result<string>)
      requires Valid()
      ensures !(0 <= index < numVertices) <==> r == Err(BadIndex)
      ensures r.Ok? ==> r.value in nameToIndex && nameToIndex[r.value] == index
    {
      if 0 <= index < numVertices {
        return Ok(indexToName[index]);
      }
      return Err(BadIndex);
    }

    /** The records of the vertex at `index`; an index outside `0 .. numVertices - 1` is an error. */
    method GetAdjList(index: int) returns (r: Result<seq<Edge>>)
      requires Valid()
      ensures !(0 <= index < numVertices) <==> r == Err(BadIndex)
      ensures r.Ok? ==> r.value == adjList[index]
      ensures r.Ok? ==> forall e :: e in r.value <==> 0 <= e.to < numVertices && HasRecord(indexToName[index], indexToName[e.to], e.weight)
    {
      if 0 <= index < numVertices {
        return Ok(adjList[index]);
      }
      return Err(BadIndex);
    }

    // -------------------------------------------------------------------
    // Queries by name
    // -------------------------------------------------------------------

    /**
     * Whether the named vertices can be separated by removing at most `k`
     * edges, by the rule of `Traversal.CanDisconnectWithKEdges`; an unknown
     * name answers `false`.
     */
    method CanDisconnectWithKEdges(u: string, v: string, k: int, isDirected: bool) returns (r: bool)
      requires Valid()
      ensures u !in nameToIndex || v !in nameToIndex ==> !r
      ensures u in nameToIndex && v in nameToIndex ==>
        var ui, vi := nameToIndex[u], nameToIndex[v];
        && 0 <= ui < numVertices && 0 <= vi < numVertices
        && (!Reachable(adjList, ui, vi) ==> r)
        && (Reachable(adjList, ui, vi) && isDirected ==>
              (r <==> Traversal.UnsignedAtMost(Traversal.CountReaching(adjList, adjList[ui], vi), k)))
        && (Reachable(adjList, ui, vi) && !isDirected ==> (r <==> |adjList[ui]| <= k || |adjList[vi]| <= k))
    {
      if u !in nameToIndex || v !in nameToIndex {
        return false;
      }
      r := Traversal.CanDisconnectWithKEdges(adjList, nameToIndex[u], nameToIndex[v], k, isDirected);
    }

    /**
     * A vertex both named vertices have a record to, reported by name;
     * `NoCommon` exactly when their target sets are disjoint.
     */
    method FindCommonTarget(u: string, v: string) returns (r: CommonTarget)
      requires Valid()
      ensures r.MissingVertex? <==> u !in nameToIndex || v !in nameToIndex
      ensures r.NoCommon? <==>
        && u in nameToIndex && v in nameToIndex
        && Traversal.Targets(adjList[nameToIndex[u]]) * Traversal.Targets(adjList[nameToIndex[v]]) == {}
      ensures r.Common? ==>
        && u in nameToIndex && v in nameToIndex
        && exists t :: && t in Traversal.Targets(adjList[nameToIndex[u]])
                       && t in Traversal.Targets(adjList[nameToIndex[v]])
                       && t in indexToName && indexToName[t] == r.name
    {
      if u !in nameToIndex || v !in nameToIndex {
        return MissingVertex;
      }
      var common := Traversal.FindCommonTarget(adjList, nameToIndex[u], nameToIndex[v]);
      match common
      case None =>
        r := NoCommon;
      case Some(t) =>
        var list := adjList[nameToIndex[u]];
        var j :| 0 <= j < |list| && list[j].to == t;
        assert list[j] in list;
        r := Common(indexToName[t]);
    }

    /**
     * Prim from vertex 0 on an undirected graph; nothing on a directed one.
     * Every reported record `(parent, child, weight)` is stored in the
     * graph, children ascend and are reached from vertex 0 through reported
     * records, and the total is the sum of the reported weights.
     */
    method FindMinimumSpanningTree() returns (r: Option<(seq<Prim.TreeRecord>, int)>)
      requires Valid() && (directed || numVertices > 0)
      ensures directed <==> r.None?
      ensures r.Some? ==>
        var tree := r.value.0;
        && (forall k :: 0 <= k < |tree| ==>
              && 1 <= tree[k].1 < numVertices && 0 <= tree[k].0 < numVertices
              && Edge(tree[k].1, tree[k].2) in adjList[tree[k].0]
              && Reachable(adjList, 0, tree[k].1))
        && (forall v :: 0 < v < numVertices && Prim.ReachableLight(adjList, v) ==>
              exists k :: 0 <= k < |tree| && tree[k].1 == v)
        && (forall a, b :: 0 <= a < b < |tree| ==> tree[a].1 < tree[b].1)
        && r.value.1 == Sum(Prim.Weights(tree))
    {
      if directed {
        return None;
      }
      var tree, total, rank := Prim.MinimumSpanningTree(adjList);
      forall k | 0 <= k < |tree|
        ensures Reachable(adjList, 0, tree[k].1)
      {
        Prim.TreeReachesFromRoot(adjList, tree, rank, k);
      }
      r := Some((tree, total));
    }

    /**
     * Dijkstra between the named vertices on non-negative weights: either
     * no walk is shorter than `INT_MAX`, or a walk whose length no walk
     * beats.
     */
    method FindShortestPathDijkstra(u: string, v: string) returns (r: Result<Dijkstra.Route>)
      requires Valid() && NonNegative(adjList)
      ensures r.Err? <==> u !in nameToIndex || v !in nameToIndex
      ensures r.Err? ==> r.error == VertexNotFound
      ensures r.Ok? ==>
        var start, end := nameToIndex[u], nameToIndex[v];
        && (r.value.Unreachable? <==>
              forall p, ws :: IsWalk(adjList, p, ws) && p[0] == start && p[|p| - 1] == end ==> Sum(ws) >= IntMax)
        && (r.value.Path? ==>
              && |r.value.vertices| > 0 && r.value.vertices[0] == start
              && r.value.vertices[|r.value.vertices| - 1] == end
              && (exists ws :: IsWalk(adjList, r.value.vertices, ws) && Sum(ws) == r.value.length)
              && forall p, ws :: IsWalk(adjList, p, ws) && p[0] == start && p[|p| - 1] == end ==> r.value.length <= Sum(ws))
    {
      if u !in nameToIndex || v !in nameToIndex {
        return Err(VertexNotFound);
      }
      var route := Dijkstra.ShortestPath(adjList, nameToIndex[u], nameToIndex[v]);
      r := Ok(route);
    }

    /**
     * Floyd–Warshall, then the verdict for the named vertices: a path of
     * length at most `L` along next hops, `TooLong` when the table entry
     * exceeds `L` or is `INT_MAX / 2`, or the outcome of a failed
     * reconstruction. A found path is named vertex by vertex through
     * `indexToName`.
     */
    method FindPathWithinL(startName: string, endName: string, L: int)
      returns (r: Floyd.PathWithin, names: seq<string>, ghost dist: seq<seq<int>>)
      requires Valid()
      ensures r.MissingVertex? <==> startName !in nameToIndex || endName !in nameToIndex
      ensures !r.MissingVertex? ==>
        var start, end := nameToIndex[startName], nameToIndex[endName];
        && 0 <= start < numVertices && 0 <= end < numVertices
        && |dist| == numVertices && (forall i :: 0 <= i < numVertices ==> |dist[i]| == numVertices)
        && (forall i, j :: 0 <= i < numVertices && 0 <= j < numVertices ==> dist[i][j] <= Floyd.InitialDistance(adjList, i, j))
        && (r.TooLong? <==> dist[start][end] > L || dist[start][end] == Floyd.Inf)
        && (r.Within? ==>
              && r.length == dist[start][end] <= L
              && |r.path| > 0 && r.path[0] == start && r.path[|r.path| - 1] == end
              && (exists ws :: IsWalk(adjList, r.path, ws))
              && exists p, ws :: IsWalk(adjList, p, ws) && p[0] == start && p[|p| - 1] == end && Sum(ws) == r.length)
        && ((r.NoNextHop? || r.NextHopCycle?) ==> |r.hops| > 0 && r.hops[0] == start && end !in r.hops)
      ensures r.Within? ==>
        && |names| == |r.path|
        && forall k :: 0 <= k < |r.path| ==> names[k] in nameToIndex && nameToIndex[names[k]] == r.path[k]
      ensures !r.Within? ==> names == []
    {
      if startName !in nameToIndex || endName !in nameToIndex {
        return Floyd.MissingVertex, [], [];
      }
      var start, end := nameToIndex[startName], nameToIndex[endName];
      var table, next := Floyd.FloydWarshall(adjList);
      r := Floyd.Reconstruct(adjList, table, next, start, end, L);
      dist := table;
      names := [];
      if r.Within? {
        ghost var ws :| IsWalk(adjList, r.path, ws);
        names := IndexedNames(numVertices, nameToIndex, indexToName, r.path);
      }
    }

    /**
     * Ford–Fulkerson between the named vertices; an unknown name is an
     * error. The flow is non-negative, and the final residual network
     * conserves it against the capacities and holds no augmenting path.
     */
    method FordFulkerson(u: string, v: string) returns (r: Result<int>, ghost residual: seq<seq<int>>)
      requires Valid()
      ensures r.Err? <==> u !in nameToIndex || v !in nameToIndex
      ensures r.Err? ==> r.error == VertexNotFound
      ensures r.Ok? ==>
        var source, sink := nameToIndex[u], nameToIndex[v];
        && r.value >= 0 && (source == sink ==> r.value == 0)
        && MaxFlow.Conserved(MaxFlow.CapacityMatrix(adjList), residual, source, sink, r.value)
        && (source == sink || !MaxFlow.PosReachable(residual, source, sink))
    {
      if u !in nameToIndex || v !in nameToIndex {
        return Err(VertexNotFound), [];
      }
      var flow;
      flow, residual := MaxFlow.FordFulkerson(adjList, nameToIndex[u], nameToIndex[v]);
      r := Ok(flow);
    }
  }
}
