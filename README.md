# Graph engine: a verified model

This project models the `Graph` class of the console graph engine
(`graph/Graph.h`): a weighted graph, directed or undirected, whose vertices
are strings mapped to dense indices `0 .. numVertices - 1`, stored as one
adjacency list of `(to, weight)` records per vertex. The class has two
kinds of operations:

- structural edits: add and remove a vertex, add and remove an edge, and build the
  reversed graph;
- analyses over the table: reachability, connected components, the cyclomatic number,
  the common target of two vertices, k-edge disconnection, Prim's spanning tree,
  Dijkstra's shortest path, the Floyd–Warshall "path within L" query,
  the Bellman–Ford "all distances at most N" query and Ford–Fulkerson maximum flow.

Layout, one module per file:

| file | module | models |
|---|---|---|
| `walks.dfy` | `Walks` | the `Option` and `Result` types, the edge record, well-formed tables, weighted walks, reachability, sums and counts |
| `adjacency.dfy` | `Adjacency` | the structural edits as functions on the table and the two name maps, and what they keep |
| `graph.dfy` | `Graphs` | the `Graph` class: its five fields, `Valid()`, the in-place edits and the name-resolving queries |
| `traversal.dfy` | `Traversal` | the depth-first searches and the queries built on them |
| `pqueue.dfy` | `PriorityQueue` | the min-queue of `(key, vertex)` pairs used by Prim and Dijkstra |
| `prim.dfy` | `Prim` | `findMinimumSpanningTree` |
| `dijkstra.dfy` | `Dijkstra` | `findShortestPathDijkstra` |
| `floyd.dfy` | `Floyd` | `findPathWithinL` |
| `bellman_ford.dfy` | `BellmanFord` | `getVerticesWithPathsBelowN` |
| `max_flow.dfy` | `MaxFlow` | `bfs` and `fordFulkerson` |

State and effects are modelled in the following ways:

- The class's fields are fields of a Dafny `class`, and the edits are methods
  that change them in place.
- The algorithms only read the graph. They are methods over the adjacency
  value, and their local vectors and matrices are sequences. The `visited`
  vector shared by the recursive depth-first searches is an `array<bool>`.
- Integers are mathematical. `INT_MAX` (2147483647) and `INT_MAX / 2` are
  kept as the same sentinels, compared exactly as the source compares them.
- What the source prints is returned as a value. Paths and tree records are
  returned as vertex indices, even where the source builds or prints names
  (Dijkstra's path, Prim's records); only `FindPathWithinL` also returns the
  names of its path, because its naming is a finding below. An error
  message becomes an error value (`Result`, `Option` or an outcome
  constructor), and an exception becomes `Err(...)`.

## Model

| member | source | states |
|---|---|---|
| Graphs.Graph.constructor | graph/Graph.h:30 | a valid empty graph with the requested direction flag |
| Graphs.Graph.AddVertex | graph/Graph.h:85-93 | a known name changes nothing; a new name gets index `numVertices` and an empty list, and the named records are unchanged |
| Graphs.Graph.AddEdge | graph/Graph.h:98-124 | missing endpoints are registered in order; the edge (and its mirror when undirected) is appended unless `from` already holds `(to, weight)`; the named records afterwards are exactly the old ones plus this edge |
| Graphs.Graph.AddEndpoints | graph/Graph.h:100-105 | `from`, then `to`, is registered unless known; existing indices are kept and the table is padded with empty lists |
| Graphs.Graph.AppendUnlessPresent | graph/Graph.h:111-123 | nothing changes exactly when `(v, weight)` is already in `u`'s list; otherwise the table is `InsertRecord`, and the named records gain exactly this edge |
| Graphs.Graph.RemoveVertex | graph/Graph.h:127-168 | an unknown name changes nothing; otherwise the table, both maps and the count are the removed-vertex values, and the named records are exactly the old ones not touching the name |
| Graphs.DropRecordsTo | graph/Graph.h:136-140 | every list loses exactly its records targeting the removed index |
| Graphs.LowerTargets | graph/Graph.h:144-150 | every target above the removed index is lowered by one, in place |
| Graphs.RebuildNames | graph/Graph.h:153-166 | the rebuilt maps are `RemovedNameToIndex` and `RemovedIndexToName`: survivors get dense indices in ascending old order |
| Graphs.RebuildInOrder | graph/Graph.h:156-163 | the rebuild as written, in an arbitrary iteration order: new indices lie in the range handed out, and every renamed name is a surviving listed name |
| Graphs.RebuildInOrderMisplaces | graph/Graph.h:156-163 | with iteration order `2, 1, 0`, removing `c` from `a -> b` makes the graph hold `b -> a` |
| Graphs.Graph.RemoveEdge | graph/Graph.h:172-200 | unknown names or no record `from -> to` change nothing; otherwise every `from -> to` record of any weight is dropped, and every `to -> from` when undirected |
| Graphs.Graph.GetOutDegree | graph/Graph.h:279-289 | an unknown name is `VertexNotFound`; otherwise the length of the vertex's list |
| Graphs.Graph.ReverseGraph | graph/Graph.h:291-303 | a fresh valid directed graph whose named records are exactly the reversed records of this one, whose names are exactly those occurring in a record |
| Graphs.Graph.ReverseList | graph/Graph.h:295-297 | after list `i`, the new graph mirrors the named records of lists `0 .. i` |
| Graphs.Graph.AddEdgeTracked | graph/Graph.h:296 | adding `to -> from` to a graph mirroring a set of triples makes it mirror that set plus `(from, to, weight)` |
| Graphs.Graph.ReverseComplete | graph/Graph.h:294-298 | once every list is mirrored, the new graph holds exactly the reversed records and the incident names |
| Graphs.Graph.TableTriplesExact | graph/Graph.h:294-298 | the triples gathered over all lists are exactly the graph's named records |
| Graphs.Graph.TableEndpoints | graph/Graph.h:294-298 | the names in the gathered triples are exactly the names incident to some record |
| Graphs.Graph.GetNumVertices | graph/Graph.h:766-768 | the vertex count, equal to the table length and to the index range of `indexToName` |
| Graphs.Graph.GetVertexName | graph/Graph.h:769-774 | an index outside `0 .. numVertices - 1` is `BadIndex`; otherwise the name registered for that index |
| Graphs.Graph.GetAdjList | graph/Graph.h:775-780 | an index out of range is `BadIndex`; otherwise the stored list of that vertex itself, whose records are exactly the named records leaving it |
| Graphs.Graph.CanDisconnectWithKEdges | graph/Graph.h:307-363 | an unknown name answers false; otherwise the answer of `Traversal.CanDisconnectWithKEdges` on the resolved indices |
| Graphs.Graph.FindCommonTarget | graph/Graph.h:245-276 | `MissingVertex` exactly when a name is unknown; `NoCommon` exactly when the target sets are disjoint; otherwise the name of a common target |
| Graphs.Graph.FindMinimumSpanningTree | graph/Graph.h:420-469 | nothing exactly when directed; otherwise stored records in ascending child order, each child reachable from vertex 0, every vertex other than 0 reached from 0 along records lighter than `INT_MAX` reported as a child, with total = sum of weights |
| Graphs.Graph.FindShortestPathDijkstra | graph/Graph.h:470-534 | unknown names are `VertexNotFound`; otherwise `Unreachable` exactly when no walk is shorter than `INT_MAX`, or a walk from `u` to `v` that no walk beats |
| Graphs.Graph.FindPathWithinL | graph/Graph.h:538-610 | unknown names are `MissingVertex`; `TooLong` exactly when the table entry exceeds `L` or is `INT_MAX / 2`; a found path is a walk from start to end, its length is the cost of some walk between them, and it is named through `indexToName` |
| Graphs.ListedNames | graph/Graph.h:556-598 | the path named as written: each position's name comes from the listing of `nameToIndex` |
| Graphs.ListedNamesMisname | graph/Graph.h:556-598 | `a` at 0 and `b` at 1, listed as `b, a`: the path `0 -> 1` is named starting with `b`, whose index is 1 |
| Graphs.IndexedNames | graph/Graph.h:598 | every name of the path is registered for exactly the vertex at that position |
| Graphs.Graph.FordFulkerson | graph/Graph.h:702-753 | unknown names are `VertexNotFound`; otherwise a flow ≥ 0 (0 when source = sink) that the final residual network conserves against the capacities, with no augmenting path left |
| Adjacency.DropTarget | graph/Graph.h:137-139 | a record survives exactly when it does not target `x` |
| Adjacency.RemoveVertexRecords | graph/Graph.h:134-150 | the records after deletion are exactly the renumbered old records between survivors, and the table stays well formed |
| Adjacency.RemoveVertexSymmetric | graph/Graph.h:134-150 | deleting a vertex keeps an undirected table symmetric |
| Adjacency.RemovedRegistry | graph/Graph.h:153-166 | the rebuilt maps are again inverse bijections over `0 .. n - 2` |
| Adjacency.RemovedNamedRecords | graph/Graph.h:127-167 | through the rebuilt maps, the new table's named records are exactly the old ones between other vertices |
| Adjacency.AddVertexNamed | graph/Graph.h:89-92 | registering a fresh name keeps the registry a bijection and adds no named record |
| Adjacency.InsertRecordContents | graph/Graph.h:119-122 | appending adds exactly the record (and its mirror when undirected) and leaves every other list unchanged |
| Adjacency.InsertRecordSymmetric | graph/Graph.h:119-122 | appending both directions keeps an undirected table symmetric |
| Adjacency.InsertRecordNamed | graph/Graph.h:119-122 | through the names, the appended records are exactly `from -> to` and, undirected, `to -> from` |
| Adjacency.RemoveEdgeContents | graph/Graph.h:191-198 | a record survives exactly when it is neither `u -> v` nor, undirected, `v -> u` |
| Adjacency.RemoveEdgeSymmetric | graph/Graph.h:191-198 | removing both directions keeps an undirected table symmetric |
| Walks.LastWeight | graph/Graph.h:562-567 | the weight a table filled from a list keeps: absent exactly when no record targets `j`, else a stored record's weight |
| Traversal.Dfs | graph/Graph.h:373-380 | `true` only when `v` is reachable from `u`; on `false`, `u` is marked and every vertex it marked has all its targets marked |
| Traversal.HasPath | graph/Graph.h:367-370 | true exactly when `v` is reachable from `u` |
| Traversal.DfsForComponents | graph/Graph.h:411-418 | every vertex it marks is reachable from the start and has all its targets marked |
| Traversal.CountConnectedComponents | graph/Graph.h:396-408 | the count is the number of vertices no lower-numbered vertex reaches |
| Traversal.RootCountBounds | graph/Graph.h:396-408 | that count is between 1 and the number of vertices on a non-empty graph, and 0 on an empty one |
| Traversal.FindCyclomaticNumber | graph/Graph.h:382-394 | records (halved when undirected) minus vertices plus components |
| Traversal.FindCommonTarget | graph/Graph.h:254-273 | none exactly when the target sets are disjoint; otherwise a target common to both |
| Traversal.CanDisconnectWithKEdges | graph/Graph.h:316-362 | true when `v` is unreachable; directed: the number of `u`'s records whose target reaches `v` is at most `k` (compared unsigned); undirected: either degree is at most `k` |
| Traversal.DirectedCountIsCut | graph/Graph.h:321-331 | dropping the counted records from `u`'s list disconnects `v` from `u`, and exactly that many records are dropped |
| PriorityQueue.Top | graph/Graph.h:431-438 | the least queued pair in the lexicographic order |
| PriorityQueue.Remove | graph/Graph.h:439 | the queue minus one occurrence of the pair, as a multiset |
| PriorityQueue.PopKeeps | graph/Graph.h:438-439 | popping the top shortens the queue by one and keeps every other pair |
| Prim.PoppedStale | graph/Graph.h:438-441 | popping a pair whose vertex is already in the tree keeps the loop state |
| Prim.PoppedFresh | graph/Graph.h:438-443 | popping a vertex outside the tree keeps the loop state once it enters the tree at the next rank |
| Prim.OfferRecord | graph/Graph.h:447-455 | offering one record keeps the loop state `Growing`, withdraws no parent, and leaves the record's target with a parent (or 0) when it is lighter than `INT_MAX` |
| Prim.OfferRecords | graph/Graph.h:446-456 | offering the new tree vertex's records keeps the loop state `Growing`, and afterwards every record lighter than `INT_MAX` leaving a tree vertex leads to 0 or to a vertex with a parent |
| Prim.GrowTree | graph/Graph.h:426-457 | every vertex with a parent holds a stored record from it of weight `minEdgeWeight`; parents rank below children and are vertex 0 or have parents; every vertex other than 0 reached from 0 along records lighter than `INT_MAX` has a parent |
| Prim.Report | graph/Graph.h:461-467 | exactly the records of children `1 ..` with a parent, in ascending order, and the sum of their weights |
| Prim.MinimumSpanningTree | graph/Graph.h:420-469 | every reported record is stored, ranked acyclically, with its parent 0 or a reported child; every vertex other than 0 reached from 0 along records lighter than `INT_MAX` is a reported child; children ascend; total = sum of weights |
| Prim.Spans | graph/Graph.h:437-457 | once the queue is empty, every vertex other than 0 reached from 0 along records lighter than `INT_MAX` has a parent |
| Prim.TreeReachesFromRoot | graph/Graph.h:437-457 | every reported child is reachable from vertex 0 |
| Dijkstra.RelaxedLowerBound | graph/Graph.h:501-511 | once every reached vertex is relaxed, no walk from the start beats its last vertex's distance |
| Dijkstra.ChainWalk | graph/Graph.h:520-525 | following predecessors from a reached vertex gives a walk from the start no longer than its distance |
| Dijkstra.LinksStep | graph/Graph.h:506-509 | an improvement through `u -> v` keeps the predecessor links |
| Dijkstra.QueuedStep | graph/Graph.h:507-509 | queueing the improved distance keeps every queued pair at or above its vertex's distance |
| Dijkstra.PendingStep | graph/Graph.h:506-509 | an improvement keeps every other reached vertex queued or relaxed |
| Dijkstra.RelaxStep | graph/Graph.h:506-509 | an improvement keeps the whole search state |
| Dijkstra.RelaxEdges | graph/Graph.h:501-511 | relaxing all of `u`'s records keeps the search state, and the distance sum drops or nothing changes |
| Dijkstra.PopStep | graph/Graph.h:491-498 | popping the least pair keeps the search state; a stale pair leaves nothing to relax |
| Dijkstra.SearchDone | graph/Graph.h:489-512 | with the queue empty, distances are shortest and the predecessors form a ranked tree |
| Dijkstra.Distances | graph/Graph.h:479-512 | no walk from the start beats any distance, and the predecessors form a tree of exact record weights |
| Dijkstra.ShortestPath | graph/Graph.h:479-525 | `Unreachable` exactly when no walk is shorter than `INT_MAX`; otherwise a walk from start to end that no walk beats |
| Floyd.InitialRealized | graph/Graph.h:562-567 | each initial entry and hop is backed by a record, the diagonal 0, or `INT_MAX / 2` with no hop |
| Floyd.InitialRow | graph/Graph.h:562-567 | row `i` before the main loop: 0 on the diagonal, then each record written in order |
| Floyd.ThroughRealized | graph/Graph.h:574-578 | going through `k` gives a walk of the summed length whose first hop is `i`'s hop towards `k` |
| Floyd.RelaxRow | graph/Graph.h:573-580 | one row pass keeps every entry backed by a walk and never raises an entry |
| Floyd.FloydWarshall | graph/Graph.h:552-582 | every entry is backed by a walk (or is `INT_MAX / 2` with no hop) and no entry is above its initial value |
| Floyd.DistinctBound | graph/Graph.h:592-600 | a path of distinct vertices has at most `n` entries, which bounds the reconstruction loop |
| Floyd.EntryWalk | graph/Graph.h:585 | an entry other than `INT_MAX / 2` is the cost of a walk between its vertices |
| Floyd.TablesHopAlongRecords | graph/Graph.h:599 | every next hop other than -1 follows a stored record |
| Floyd.ChainExtend | graph/Graph.h:598-599 | stepping to a new next hop keeps the path distinct and a walk |
| Floyd.FollowHops | graph/Graph.h:590-601 | the hops either reach `end` along records, meet -1, or return to a vertex already on the path |
| Floyd.Reconstruct | graph/Graph.h:584-601 | `TooLong` exactly when the entry exceeds `L` or is `INT_MAX / 2`; a found path is a walk, and its length is a walk's cost |
| BellmanFord.StepBacked | graph/Graph.h:624-626 | trying one record keeps every distance below `INT_MAX` backed by a walk from the source |
| BellmanFord.RelaxListBacked | graph/Graph.h:623-627 | relaxing a list keeps the distances backed |
| BellmanFord.PassBacked | graph/Graph.h:622-628 | a full pass keeps the distances backed |
| BellmanFord.RoundsBacked | graph/Graph.h:621-629 | any number of passes keeps the distances backed |
| BellmanFord.DistancesBacked | graph/Graph.h:617-629 | every distance below `INT_MAX` after the passes is the cost of a walk from the source |
| BellmanFord.FixpointLowerBound | graph/Graph.h:631-639 | when no record improves anything, no walk from the source (running cost below `INT_MAX`) beats a distance |
| BellmanFord.QualifiesMeansWalks | graph/Graph.h:644-651 | without a negative-cycle signal, a source qualifies exactly when every other vertex has a walk of cost at most `N` |
| BellmanFord.Pass | graph/Graph.h:622-628 | one in-place pass equals the pass function |
| BellmanFord.HasNegativeCycle | graph/Graph.h:631-639 | true exactly when some record still improves a distance |
| BellmanFord.AllWithin | graph/Graph.h:645-651 | true exactly when every other vertex is at distance at most `N` |
| BellmanFord.VerticesWithPathsBelowN | graph/Graph.h:613-670 | empty when some source still improves; otherwise exactly the qualifying sources, ascending |
| MaxFlow.Capacity | graph/Graph.h:714-718 | a non-zero capacity is a stored record's weight; no record gives 0 |
| MaxFlow.BuildResidual | graph/Graph.h:711-718 | the residual matrix equals the capacity matrix |
| MaxFlow.TrackedExtend | graph/Graph.h:687-690 | discovering `v` from `u` extends `u`'s recorded chain by `v` |
| MaxFlow.VisitKeepsFrontier | graph/Graph.h:687-690 | a discovery keeps the queue and every recorded chain |
| MaxFlow.Exhausted | graph/Graph.h:682-699 | when every queued vertex is finished and the sink unvisited, no augmenting path reaches the sink |
| MaxFlow.Scan | graph/Graph.h:686-696 | scanning `u` keeps the bookkeeping; a hit gives a parent chain to the sink; otherwise `u` is finished |
| MaxFlow.Bfs | graph/Graph.h:673-700 | found exactly when source ≠ sink and an augmenting path exists; then `parent` holds a simple one |
| MaxFlow.AugmentRowSum | graph/Graph.h:733-737 | pushing along a path moves `f` out of the first row and into the last |
| MaxFlow.AugmentPairSum | graph/Graph.h:733-737 | an entry plus its reverse is unchanged by pushing |
| MaxFlow.AugmentNoNewDeficit | graph/Graph.h:733-737 | pushing a bottleneck never drives an entry below zero that was not already |
| MaxFlow.Bottleneck | graph/Graph.h:726-730 | positive, at most every entry on the path, and equal to one of them or `INT_MAX` |
| MaxFlow.Augment | graph/Graph.h:733-737 | the network after pushing `f` along the chain, walked back from the sink |
| MaxFlow.AugmentBalanced | graph/Graph.h:733-739 | row sums stay balanced with `f` more flow |
| MaxFlow.AugmentPairsKept | graph/Graph.h:733-737 | entry-plus-reverse equals capacity-plus-reverse after pushing |
| MaxFlow.AugmentNoDeficit | graph/Graph.h:733-737 | no entry falls below zero and below its capacity |
| MaxFlow.AugmentConserves | graph/Graph.h:733-739 | a push keeps the network conserved with `f` more flow |
| MaxFlow.AugmentHeadroom | graph/Graph.h:733-737 | a push lowers the source's positive residual total by exactly `f` |
| MaxFlow.AugmentOnce | graph/Graph.h:726-739 | one round keeps the network conserved with `pathFlow > 0` more flow and lowers the headroom by as much |
| MaxFlow.FordFulkerson | graph/Graph.h:710-752 | a non-negative flow (0 when source = sink), conserved by the final residual network, which holds no augmenting path |

## Left out

- The file constructor, `saveToFile`, `printAdjList` and the visualisation are not modelled: they are file and window I/O.
- The menu (`graph/Menu.cpp`, `graph/graph.cpp`) is not modelled: it is console I/O around the class.
- Console output is returned as a value instead: an outcome, a route of indices, a name list or an error.
- The copy constructor and `isDirected` are not modelled: they only copy and read fields.
- reverseGraph's write of the reversed graph to `reversed_graph.txt` is not modelled, because it is file I/O.
- Hash-map iteration order is unspecified, so the model fixes a choice. `Graphs.RebuildNames` uses ascending old index, the intended order (see Findings).
- `Traversal.FindCommonTarget` picks any common target, because the source takes the first one its `unordered_set` iterates over.
- 32-bit overflow is not modelled: integers are unbounded. `distance[u] + weight` and `distance[v] + edge.weight` can overflow in the source on large weights, and so can the residual updates `+= pathFlow` and `maxFlow += pathFlow`.
- Graphs.Graph.FindShortestPathDijkstra requires non-negative weights, because the termination measure (the sum of the distances) and the optimality proof rely on them. The source's lazy loop also returns shortest paths on negative weights when no negative cycle is reachable from the start, and never ends when one is; neither case is modelled.
- Graphs.Graph.FindMinimumSpanningTree requires at least one vertex on an undirected graph, because the source writes `minEdgeWeight[0]` of an empty vector; and, like Prim.MinimumSpanningTree, it does not state that the tree's weight is minimal.
- Prim.MinimumSpanningTree states that the tree is stored, acyclic and spans every vertex reached from 0 along records lighter than `INT_MAX`, with total = sum of weights, but not that its weight is minimal.
- Floyd.FloydWarshall states that every entry is backed by a walk and at most its initial value, but not that entries are shortest.
- MaxFlow.FordFulkerson states conservation and that no augmenting path remains, but not that the flow equals the minimum cut.
- BellmanFord.VerticesWithPathsBelowN relates distances to walks only when no negative-cycle signal is raised; it does not state that `|V| - 1` passes reach the shortest distances.
- Floyd.Reconstruct does not tie the cost of the returned path to the length: the length is the cost of some walk from start to end, and the path is a walk from start to end, but they need not be the same walk because the table is not proved shortest.
- Graphs.Graph.FindPathWithinL inherits both gaps: the returned path's own cost is not stated to be the length, and `TooLong` does not mean that no walk of cost at most `L` exists, because the table is not proved shortest.
- Floyd.FollowHops reports the source's infinite loop on a cycle of next hops as the outcome `NextHopCycle`.
- MaxFlow.Bfs overwrites only the source's entry and those of the vertices it discovers, as the source does, but its ensures state only `parent'[source]` and the entries along the found chain; the entries left from the all-zero start or from earlier searches are not stated.

## Findings

| source | as written | input that shows it | evidently intended | confidence | as-written member | corrected member |
|---|---|---|---|---|---|---|
| graph/Graph.h:156-163 | removeVertex renumbers the names while iterating `indexToName`, an `unordered_map`, in its unspecified order; the table is renumbered in index order | vertices `a`, `b`, `c` at 0, 1, 2, record `a -> b`, map iterated as `2, 1, 0`, remove `c`: `a` gets index 1 and `b` index 0, so the graph holds `b -> a` | survivors keep their relative order, so every name still labels its own list | medium (depends on the library's iteration order), not executed | Graphs.RebuildInOrderMisplaces | Graphs.RebuildNames |
| graph/Graph.h:556-598 | findPathWithinL names path vertex `i` as `vertices[i]`, where `vertices` lists the keys of `nameToIndex` in hash order | `a` at 0 and `b` at 1, listed as `b, a`: the path `0 -> 1` prints `b a` | vertex `i` is named `indexToName[i]` | medium (depends on the library's iteration order), not executed | Graphs.ListedNamesMisname | Graphs.IndexedNames |
