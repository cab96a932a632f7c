# GrafosLib core in Dafny

This project models the core of GrafosLib, a small C# graph library, and proves
what its algorithms and data structures promise. The modelled parts are:

- **Edge** (`edge.dfy`): a (source, target, weight) record. The constructor
  takes the target first. Edges compare by weight alone. The text form is
  "source -> target".
- **AdjacencyListGraph** (`graph.dfy`): a multimap from a vertex to the edges
  stored under it. `AddEdge` appends the new edge under its source. For an
  undirected graph it also appends the *same* edge under its target. That
  copy is not reversed: its source is still the original source. The
  algorithms read a graph through `Neighbours`, `Vertices` and `Degrees`.
  These are modelled as functions over the adjacency map. The same file
  defines distances (an integer or +infinity) and paths over stored edges.
- **DictionaryOfCollection** (`multimap.dfy`): a map from keys to non-empty
  collections. Each collection is a list, or a set when `ensureUniqueness`
  is on. The model covers adding, lookup, filtered retrieval, counting,
  removal of keys, removal of single elements and removal by predicate.
- **MinPriorityQueue** (`heap.dfy`, `priority_queue.dfy`): an indexed binary
  min-heap. `pq` maps heap positions to indices and `qp` is its inverse.
  `keys` holds each index's key. Its abstract value is the map from each
  queued index to its key. The heap reasoning is done on sequence values in
  `heap.dfy`. The class keeps the arrays and updates them in place.
- **Dijkstra** (`dijkstra.dfy`): shortest paths with the queue. A run from a
  vertex leaves every distance finite exactly when the vertex is reachable.
  It is then the least weight of any path. The recorded predecessor edges
  rebuild a path of exactly that weight.
- **Prim** (`prim.dfy`): eager Prim. It runs from every vertex still
  unmarked and grows a spanning forest. Every non-root vertex gets a graph
  edge from a vertex marked before it. That edge is no heavier than any
  stored edge into the vertex from a vertex marked earlier. The forest has
  n − (number of roots) edges, and its weight is the sum of the recorded
  distances.
- **ColoringAlgorithm** (`coloring.dfy`): Welsh–Powell greedy colouring by
  descending degree, one new colour per round. A vertex gets the round's
  colour only when none of its stored edges leads to a vertex coloured
  earlier in the round. So along the order in which vertices were coloured,
  no stored edge leads back to an earlier vertex of the same colour. The
  rounds of a run are given by a reference definition, `Schedule`, over the
  worklist sorted by degree. Each round is `Pick`, the unique round that
  follows the rule above in worklist order (`RoundUnique`), and the colour
  map is fixed by the rounds (`ColoursDetermined`). At the end the colour map
  is checked, and a failed check is an error.
- **BreadthFirstSearchAlgorithm** and **DepthFirstSearchAlgorithm** (`bfs.dfy`,
  `dfs.dfy`): traversal from a root. Each search ends with exactly the
  vertices reachable from the root marked, each visited once.
- **BitMatrix** (`bit_matrix.dfy`): an n × n matrix of bits. It supports
  reading and writing single cells, listing the set columns of a row, and a
  text rendering ("1 " or "0 " per cell, a line break after each row).

Exceptions thrown by the library become values. A `Result` holds a value or an
error, and an `Outcome` is `Pass` or `Fail(error)` (`base.dfy`). The error
names the condition that throws in the library, for example `InvalidIndex` or
`Underflow`. A failing call leaves the state as the library leaves it.

Some behaviour of the code is kept as written, even where it looks unintended:

- An undirected edge is stored under both endpoints unreversed. No mirrored
  record (v → u) is created under the target.
- As a result, Dijkstra and Prim never travel an undirected edge backwards.
  They read the edge's own source and target, and Prim follows an edge only
  from its source. On an undirected graph Prim's weight is therefore not
  always the least of any spanning forest
  (`SpanningForest.EagerScanNotMinimal`).
- BFS, DFS and the colouring step from a vertex to the targets of the edges
  stored under it. Under the target of an undirected edge, that target is the
  vertex itself.
- `IsValidColoring` therefore fails for every undirected graph that has an
  edge (`Coloring.ColoringAlgorithm.UndirectedNeverValid`). `RunColoring`
  then reports `InvalidColoring`.
- The BFS constructor accepts a `parents` array and never uses it.
- DFS does not range-check the root. A root without stored edges visits only
  itself.
- A colouring run continues numbering from the colour count of earlier runs.
  The count is never reset.

## Model

| member | source | states |
|---|---|---|
| `Edges.NewEdge` | src/GrafosLib/Model/Edge.cs:7-12 | The constructor takes the target before the source; the edge has exactly the given source, target and weight. |
| `Edges.CompareTo` | src/GrafosLib/Model/Edge.cs:21-26 | The result is -1, 0 or 1 exactly when this edge's weight is less than, equal to or greater than the other's. |
| `Edges.CompareToIsPreorder` | src/GrafosLib/Model/Edge.cs:21-26 | Comparison is reflexive, antisymmetric in sign and transitive, and it ignores the endpoints. |
| `Edges.ToString` | src/GrafosLib/Model/Edge.cs:28-31 | The text is the source's decimal digits, then " -> ", then the target's digits; the weight does not appear. |
| `Edges.RenderingDeterminesEndpoints` | src/GrafosLib/Model/Edge.cs:30 | Two texts "s -> t" that are equal have equal s and equal t. |
| `Edges.ParseIntToString` | src/GrafosLib/Model/Edge.cs:30 | The decimal text of a vertex number reads back as that number. |
| `Edges.ToStringDeterminesEndpoints` | src/GrafosLib/Model/Edge.cs:28-31 | Two edges with the same "source -> target" text have the same source and the same target. |
| `Graphs.Neighbours` | src/GrafosLib/Model/AdjacencyListGraph.cs:10 | The edges stored under v, or none when v has no collection. |
| `Graphs.Vertices` | src/GrafosLib/Model/AdjacencyListGraph.cs:10 | A vertex is listed exactly when at least one edge is stored under it. |
| `Graphs.Degrees` | src/GrafosLib/Algorithms/ColoringAlgorithm.cs:25 | Keys are exactly the vertices with stored edges; each maps to the number of edges stored under it, which is positive. |
| `Graphs.Plus` | src/GrafosLib/Algorithms/Dijkstra.cs:66 | +infinity plus a weight stays +infinity; a finite distance grows by exactly the weight. |
| `Graphs.LessFacts` | src/GrafosLib/Algorithms/Dijkstra.cs:66 | The order on distances (with +infinity above every number) is irreflexive, asymmetric, transitive and total. |
| `Graphs.StoredEdge` | src/GrafosLib/Model/AdjacencyListGraph.cs:19-26 | In a graph built by AddEdge, an edge stored under k has both endpoints among the vertices, k is one of them, and it is also stored under its source. |
| `Graphs.WithEdgeCollections` | src/GrafosLib/Model/AdjacencyListGraph.cs:19-26 | AddEdge appends exactly the new edge under its source and, when undirected, under its target; an undirected self-loop adds it twice; every other collection is unchanged. |
| `Graphs.AddEdgeKeepsWellFormed` | src/GrafosLib/Model/AdjacencyListGraph.cs:19-26 | Adding an edge between two vertices keeps every key a vertex, every collection non-empty and every edge stored under its source. |
| `Graphs.AddUndirectedKeepsMirrored` | src/GrafosLib/Model/AdjacencyListGraph.cs:24-25 | Undirected insertion keeps every stored edge present under both of its endpoints. |
| `Graphs.PathIsChained` | src/GrafosLib/Algorithms/Dijkstra.cs:92-101 | A path starts at its source, ends at its target, each edge starts where the previous one ends, and each is a stored edge. |
| `Graphs.ClosedHoldsReachable` | src/GrafosLib/Algorithms/BreadthFirstSearchAlgorithm.cs:29-40 | A set holding the root and closed under stored edges holds every vertex reachable from the root. |
| `Graphs.AdjacencyListGraph.constructor` | src/GrafosLib/Model/AdjacencyListGraph.cs:12-17 | A new graph stores no edges, has vertex count 0, and takes its directed and weighted flags from the arguments. |
| `Graphs.AdjacencyListGraph.AddEdge` | src/GrafosLib/Model/AdjacencyListGraph.cs:19-26 | The adjacency map becomes the old one with the edge appended under its source and, when undirected, the same edge under its target. |
| `MultiMaps.RemoveFirst` | src/GrafosLib/DataStructure/DictionaryOfCollection.cs:177 | Removing an element that occurs drops exactly one occurrence; removing one that does not occur changes nothing. |
| `MultiMaps.RemoveMatching` | src/GrafosLib/DataStructure/DictionaryOfCollection.cs:198-202 | Removing, one occurrence at a time, each element that matches leaves exactly the elements that do not match, in order. |
| `MultiMaps.FilterCount` | src/GrafosLib/DataStructure/DictionaryOfCollection.cs:67-71 | Filtering keeps every occurrence of a matching element and no occurrence of any other. |
| `MultiMaps.FilterRejectSplit` | src/GrafosLib/DataStructure/DictionaryOfCollection.cs:198 | The matching and the non-matching elements together are the collection, counted with multiplicity. |
| `MultiMaps.ElementsOutnumberKeys` | src/GrafosLib/DataStructure/DictionaryOfCollection.cs:103-106 | When no collection is empty, there are at least as many elements as keys. |
| `MultiMaps.DictionaryOfCollection.constructor` | src/GrafosLib/DataStructure/DictionaryOfCollection.cs:12-17 | A new dictionary is empty and keeps the uniqueness mode it was given. |
| `MultiMaps.DictionaryOfCollection.Added` | src/GrafosLib/DataStructure/DictionaryOfCollection.cs:37-45 | After adding, the element is in the collection; a set that already holds it is unchanged; otherwise the element is appended. |
| `MultiMaps.DictionaryOfCollection.Add` | src/GrafosLib/DataStructure/DictionaryOfCollection.cs:32-48 | The key's collection (a new one for a missing key) gains the element as Added says; every other key is unchanged; no collection is empty and sets stay duplicate-free. |
| `MultiMaps.DictionaryOfCollection.ContainsKey` | src/GrafosLib/DataStructure/DictionaryOfCollection.cs:50-53 | True exactly when the key is present. |
| `MultiMaps.DictionaryOfCollection.GetWhen` | src/GrafosLib/DataStructure/DictionaryOfCollection.cs:55-65 | The result holds the elements of every key that satisfies the predicate, each as often as it is stored. |
| `MultiMaps.DictionaryOfCollection.GetWhenElements` | src/GrafosLib/DataStructure/DictionaryOfCollection.cs:67-71 | An element is in the result exactly when it is stored under a matching key and satisfies the element predicate. It occurs as often as it is stored under the matching keys, and not at all when it fails the predicate. |
| `MultiMaps.DictionaryOfCollection.ContainsElement` | src/GrafosLib/DataStructure/DictionaryOfCollection.cs:73-76 | True exactly when the key is present and its collection holds the element. |
| `MultiMaps.DictionaryOfCollection.AddRange` | src/GrafosLib/DataStructure/DictionaryOfCollection.cs:78-81 | The key's collection gains the values in order as repeated Adds would; no values leaves the map unchanged, with no empty key created. |
| `MultiMaps.DictionaryOfCollection.AddedAllMembers` | src/GrafosLib/DataStructure/DictionaryOfCollection.cs:80 | In either mode, after adding values the collection holds exactly the old elements and the values. |
| `MultiMaps.DictionaryOfCollection.AddedAllDistinct` | src/GrafosLib/DataStructure/DictionaryOfCollection.cs:42 | In set mode, adding any values to a duplicate-free collection keeps it duplicate-free. |
| `MultiMaps.DictionaryOfCollection.Get` | src/GrafosLib/DataStructure/DictionaryOfCollection.cs:85-90 | The indexer returns the key's collection, or the empty collection for a missing key. |
| `MultiMaps.DictionaryOfCollection.Set` | src/GrafosLib/DataStructure/DictionaryOfCollection.cs:91-95 | Assigning through the indexer replaces the key's collection with the values (a set of them in set mode); no values leaves the key absent; in list mode a later Get returns exactly the values. |
| `MultiMaps.DictionaryOfCollection.CountKeys` | src/GrafosLib/DataStructure/DictionaryOfCollection.cs:98-101 | The number of keys present. |
| `MultiMaps.DictionaryOfCollection.CountElements` | src/GrafosLib/DataStructure/DictionaryOfCollection.cs:103-106 | The total number of stored elements over all keys, which is at least the number of keys. |
| `MultiMaps.DictionaryOfCollection.TryGetValue` | src/GrafosLib/DataStructure/DictionaryOfCollection.cs:118-126 | Reports whether the key is present and returns its collection, or the empty collection when absent. |
| `MultiMaps.DictionaryOfCollection.TryGetElement` | src/GrafosLib/DataStructure/DictionaryOfCollection.cs:128-137 | None exactly when the key is absent or nothing under it matches; otherwise the first matching element in the collection. |
| `MultiMaps.DictionaryOfCollection.Remove` | src/GrafosLib/DataStructure/DictionaryOfCollection.cs:168-171 | True exactly when the key was present; afterwards the key is gone and the other keys are unchanged. |
| `MultiMaps.DictionaryOfCollection.RemoveElement` | src/GrafosLib/DataStructure/DictionaryOfCollection.cs:173-180 | True exactly when the element was stored under the key; one occurrence is removed, and a collection left empty takes its key with it. |
| `MultiMaps.DictionaryOfCollection.RemoveWhen` | src/GrafosLib/DataStructure/DictionaryOfCollection.cs:182-186 | Removes every key satisfying the predicate and keeps the rest unchanged; true exactly when some key satisfied it. |
| `MultiMaps.DictionaryOfCollection.CleanKey` | src/GrafosLib/DataStructure/DictionaryOfCollection.cs:198-202 | Removing each matching element under a key leaves exactly its non-matching elements, and drops the key when none remain. |
| `MultiMaps.DictionaryOfCollection.RemoveElementWhen` | src/GrafosLib/DataStructure/DictionaryOfCollection.cs:188-206 | Returns exactly the targeted keys that held a matching element; under each targeted key only non-matching elements remain (emptied keys are dropped); untargeted keys are unchanged. |
| `MultiMaps.DictionaryOfCollection.Clear` | src/GrafosLib/DataStructure/DictionaryOfCollection.cs:208-211 | The dictionary becomes empty. |
| `Heaps.RootIsMinimum` | src/GrafosLib/DataStructure/MinPriorityQueue.cs:130-134 | In a heap, the key at position 1 is no greater than the key at any occupied position. |
| `Heaps.SwimStep` | src/GrafosLib/DataStructure/MinPriorityQueue.cs:97-100 | Exchanging a too-small key with its parent moves the one heap violation up to the parent. |
| `Heaps.SinkStep` | src/GrafosLib/DataStructure/MinPriorityQueue.cs:106-112 | Exchanging a too-large key with its smaller child moves the one heap violation down to that child. |
| `Heaps.KeyChangeState` | src/GrafosLib/DataStructure/MinPriorityQueue.cs:155-187 | Changing a queued index's key leaves at most one violation at its position; a smaller key only needs moving up, a larger one only down; the contents get the new key. |
| `Heaps.RoomForAbsent` | src/GrafosLib/DataStructure/MinPriorityQueue.cs:82-85 | When an index in range is absent, the queue is not full, so an insertion stays within the arrays. |
| `PriorityQueues.MinPriorityQueue.constructor` | src/GrafosLib/DataStructure/MinPriorityQueue.cs:37-49 | A queue for indices below nmax starts empty, with every index absent. |
| `PriorityQueues.MinPriorityQueue.Create` | src/GrafosLib/DataStructure/MinPriorityQueue.cs:39-48 | A negative capacity is refused; otherwise an empty, valid queue of that capacity. |
| `PriorityQueues.MinPriorityQueue.IsEmpty` | src/GrafosLib/DataStructure/MinPriorityQueue.cs:54-57 | True exactly when no index is queued. |
| `PriorityQueues.MinPriorityQueue.Contains` | src/GrafosLib/DataStructure/MinPriorityQueue.cs:62-66 | An index outside [0, nmax) is refused; otherwise true exactly when the index is queued. |
| `Heaps.PresentSize` | src/GrafosLib/DataStructure/MinPriorityQueue.cs:71-74 | Linked positions 1..n hold exactly the present indices, so there are n of them. |
| `PriorityQueues.MinPriorityQueue.Size` | src/GrafosLib/DataStructure/MinPriorityQueue.cs:71-74 | On a valid queue, the result is the number of queued indices, that is, of entries in the contents. |
| `PriorityQueues.MinPriorityQueue.Insert` | src/GrafosLib/DataStructure/MinPriorityQueue.cs:79-93 | Out of range or already queued is refused with nothing changed; otherwise the index is queued with its key and the size grows by one. |
| `PriorityQueues.MinPriorityQueue.Up` | src/GrafosLib/DataStructure/MinPriorityQueue.cs:95-102 | Moving an entry up only permutes heap positions, keeps the position links, changes nothing when the entry is not below its parent, and restores heap order when the one violation is there. |
| `PriorityQueues.MinPriorityQueue.Down` | src/GrafosLib/DataStructure/MinPriorityQueue.cs:104-114 | Moving an entry down only permutes heap positions, keeps the links, and restores heap order when the one violation is there. |
| `PriorityQueues.MinPriorityQueue.SmallerChildOf` | src/GrafosLib/DataStructure/MinPriorityQueue.cs:108-109 | The child with the smaller key, taking the left child on a tie. |
| `PriorityQueues.MinPriorityQueue.Greater` | src/GrafosLib/DataStructure/MinPriorityQueue.cs:116-119 | True exactly when the key at the first position exceeds the key at the second. |
| `PriorityQueues.MinPriorityQueue.Exchange` | src/GrafosLib/DataStructure/MinPriorityQueue.cs:121-128 | Swaps two heap positions and updates both inverse links, moving nothing else. |
| `PriorityQueues.MinPriorityQueue.MinKey` | src/GrafosLib/DataStructure/MinPriorityQueue.cs:130-134 | An empty queue underflows; otherwise a key of the queue no greater than any other key. |
| `PriorityQueues.MinPriorityQueue.SwapOut` | src/GrafosLib/DataStructure/MinPriorityQueue.cs:142 | Exchanging a position with the last one and shrinking the heap detaches that position's index, keeps the contents, and leaves at most one violation at the position. |
| `PriorityQueues.MinPriorityQueue.Retire` | src/GrafosLib/DataStructure/MinPriorityQueue.cs:149-151 | The detached index becomes absent, its key and the freed heap slot are cleared, and the contents lose it. |
| `PriorityQueues.MinPriorityQueue.DeleteMin` | src/GrafosLib/DataStructure/MinPriorityQueue.cs:136-153 | An empty queue underflows with nothing changed; otherwise it returns a queued index of least key, removes it, and shrinks the size by one. |
| `PriorityQueues.MinPriorityQueue.ChangeKey` | src/GrafosLib/DataStructure/MinPriorityQueue.cs:155-167 | Out of range or absent is refused with nothing changed; otherwise the index's key becomes the new key, in either direction. |
| `PriorityQueues.MinPriorityQueue.DecreaseKey` | src/GrafosLib/DataStructure/MinPriorityQueue.cs:169-177 | Out of range, absent, or a key that is not strictly smaller is refused with nothing changed; otherwise the index takes the new key. |
| `PriorityQueues.MinPriorityQueue.IncreaseKey` | src/GrafosLib/DataStructure/MinPriorityQueue.cs:179-187 | Out of range, absent, or a key that is not strictly larger is refused with nothing changed; otherwise the index takes the new key. |
| `PriorityQueues.MinPriorityQueue.Restore` | src/GrafosLib/DataStructure/MinPriorityQueue.cs:195-196 | Moving the entry at a position up and then down restores heap order without changing the contents. |
| `PriorityQueues.MinPriorityQueue.Forget` | src/GrafosLib/DataStructure/MinPriorityQueue.cs:197-198 | The detached index becomes absent with its key cleared, and the contents lose it. |
| `PriorityQueues.MinPriorityQueue.Delete` | src/GrafosLib/DataStructure/MinPriorityQueue.cs:189-199 | Out of range or absent is refused with nothing changed; otherwise the index leaves the queue, the other entries keep their keys, and the size shrinks by one. |
| `PriorityQueues.MinPriorityQueue.Copy` | src/GrafosLib/DataStructure/MinPriorityQueue.cs:208-213 | A fresh queue of the same capacity holding the same indices with the same keys. |
| `PriorityQueues.MinPriorityQueue.InsertPrefix` | src/GrafosLib/DataStructure/MinPriorityQueue.cs:210-213 | Inserting the entries at the first m heap positions, in position order, gives a queue holding exactly those entries. |
| `PriorityQueues.MinPriorityQueue.Drain` | src/GrafosLib/DataStructure/MinPriorityQueue.cs:214-217 | Taking count minimums yields each queued index once, in non-decreasing key order. |
| `PriorityQueues.MinPriorityQueue.Enumerate` | src/GrafosLib/DataStructure/MinPriorityQueue.cs:206-218 | Enumeration yields every queued index exactly once, in non-decreasing order of key. |
| `ShortestPaths.Start` | src/GrafosLib/Algorithms/Dijkstra.cs:44-45 | Putting the source at distance 0 and queueing it establishes the invariant between queue steps. |
| `ShortestPaths.TakeMin` | src/GrafosLib/Algorithms/Dijkstra.cs:49 | Taking the queued vertex of least key settles it: settled distances stay in non-decreasing order and never exceed a queued key. |
| `ShortestPaths.Relaxation` | src/GrafosLib/Algorithms/Dijkstra.cs:57-80 | A relaxation changes something only when going through the edge is strictly shorter; then it records the edge and lowers the target's distance; no distance ever rises; other vertices are unchanged; queued vertices stay queued. |
| `ShortestPaths.RelaxStep` | src/GrafosLib/Algorithms/Dijkstra.cs:50-53 | Relaxing the next edge stored under the vertex being scanned keeps the invariant of the scan. |
| `ShortestPaths.NoShorterPath` | src/GrafosLib/Algorithms/Dijkstra.cs:47-54 | Once every settled vertex has had its edges relaxed and the queue is empty, no path from the source is shorter than the recorded distance of its end. |
| `ShortestPaths.Finish` | src/GrafosLib/Algorithms/Dijkstra.cs:42-55 | When the queue is empty, a vertex has a finite distance exactly when it is reachable, and that distance is the weight of some path and of no longer one than any other. |
| `ShortestPaths.Dijkstra.HasNegativeWeight` | src/GrafosLib/Algorithms/Dijkstra.cs:24-28 | True exactly when some stored edge weighs less than 0. |
| `ShortestPaths.Dijkstra.Create` | src/GrafosLib/Algorithms/Dijkstra.cs:21-40 | A graph with a negative edge is refused; otherwise a fresh instance over the graph with every vertex at +infinity and no edge. |
| `ShortestPaths.Dijkstra.constructor` | src/GrafosLib/Algorithms/Dijkstra.cs:30-39 | Arrays of VerticesCount + 1 slots with every vertex at +infinity and no edge, and an empty queue sized for the vertices. |
| `ShortestPaths.Dijkstra.Arrays` | src/GrafosLib/Algorithms/Dijkstra.cs:31-36 | The distance array has every vertex at +infinity and the extra slot at 0; the edge array is empty. |
| `ShortestPaths.Dijkstra.Relax` | src/GrafosLib/Algorithms/Dijkstra.cs:57-80 | The distances, edges and queue contents become exactly those of Relaxation. |
| `ShortestPaths.Dijkstra.Run` | src/GrafosLib/Algorithms/Dijkstra.cs:42-55 | A vertex outside the vertices is refused, and the distances and edges are unchanged; otherwise the distances become the shortest path weights from the vertex. |
| `ShortestPaths.Dijkstra.Drain` | src/GrafosLib/Algorithms/Dijkstra.cs:47-54 | Settling vertices until the queue is empty keeps the invariant between queue steps. |
| `ShortestPaths.Dijkstra.SettleNext` | src/GrafosLib/Algorithms/Dijkstra.cs:49-53 | One more vertex is settled and its edges relaxed, and the invariant between queue steps holds again. |
| `ShortestPaths.Dijkstra.ScanEdges` | src/GrafosLib/Algorithms/Dijkstra.cs:50-53 | Relaxing every edge stored under the settled vertex, in order, keeps the invariant of the scan to its end. |
| `ShortestPaths.Dijkstra.DistanceTo` | src/GrafosLib/Algorithms/Dijkstra.cs:82-85 | Outside the arrays is refused. After a run, the distance is finite exactly when the vertex is reachable, and then no path is lighter. |
| `ShortestPaths.Dijkstra.HasPathTo` | src/GrafosLib/Algorithms/Dijkstra.cs:87-90 | Outside the arrays is refused; true exactly when the distance is finite, which after a run means the vertex is reachable. |
| `ShortestPaths.Dijkstra.PathTo` | src/GrafosLib/Algorithms/Dijkstra.cs:92-101 | No path exactly when the distance is +infinity. Otherwise, following predecessor edges back gives a path from the source to v, in source-to-target order, whose weight is v's distance. After a run, that is a lightest path. |
| `SpanningForest.Root` | src/GrafosLib/Algorithms/Prim.cs:33-35 | Starting a run at an unmarked vertex puts it at distance 0, queues it, and makes it the newest root. |
| `SpanningForest.Take` | src/GrafosLib/Algorithms/Prim.cs:39-46 | Marking the vertex taken from the queue keeps the construction state, with the vertex last in the marked order. |
| `SpanningForest.Offer` | src/GrafosLib/Algorithms/Prim.cs:50-58 | An edge changes the state exactly when its target is unmarked and the edge is lighter than the target's distance. The target then takes the edge, its weight as distance and that weight as key. No distance ever rises. |
| `SpanningForest.OfferStep` | src/GrafosLib/Algorithms/Prim.cs:48-59 | Offering an edge stored under a marked vertex keeps the construction state. |
| `SpanningForest.OfferAllLightest` | src/GrafosLib/Algorithms/Prim.cs:48-59 | After a scan, no scanned edge into an unmarked vertex is lighter than that vertex's distance. |
| `SpanningForest.GreedyRoot` | src/GrafosLib/Algorithms/Prim.cs:33-35 | A new root has no edge into it from a marked vertex, so setting its distance to 0 keeps the lightest-edge property. |
| `SpanningForest.GreedyScan` | src/GrafosLib/Algorithms/Prim.cs:39-40 | Taking a vertex and scanning its edges keeps the lightest-edge property: every edge stored under a marked vertex, into a vertex unmarked or marked later, weighs at least that vertex's distance. |
| `SpanningForest.GreedyExtend` | src/GrafosLib/Algorithms/Prim.cs:44-60 | Lowering only unmarked distances, and respecting the new vertex's edges, extends the property to the longer marked order. |
| `SpanningForest.Lightest` | src/GrafosLib/Algorithms/Prim.cs:48-58 | In the finished forest, the recorded edge into w weighs no more than any stored edge into w from a vertex marked before w. |
| `SpanningForest.TriangleStored` | src/GrafosLib/Model/AdjacencyListGraph.cs:19-26 | The undirected triangle 1–0, 0–2, 2–1 stores each edge, unreversed, under both of its endpoints. |
| `SpanningForest.TriangleScans` | src/GrafosLib/Algorithms/Prim.cs:44-60 | The three scans of a run from 0 over the triangle: 0 reaches 2, 2 reaches 1, and 1 offers nothing. |
| `SpanningForest.TriangleForests` | src/GrafosLib/Algorithms/Prim.cs:77-88 | The forest through 2–1 and 0–2 weighs 20; the edges 1–0 and 0–2 connect every vertex and weigh 11. |
| `SpanningForest.EagerScanNotMinimal` | src/GrafosLib/Algorithms/Prim.cs:77-88 | On the triangle, a run from 0 records edges weighing 20 although a spanning tree of weight 11 exists, so the weight is not always least. |
| `SpanningForest.Spanned` | src/GrafosLib/Algorithms/Prim.cs:26-27 | Once every vertex is marked and nothing is queued, the state is a spanning forest. |
| `SpanningForest.TreePath` | src/GrafosLib/Algorithms/Prim.cs:16-28 | In the forest, every vertex is reached from some root by a path of recorded edges. |
| `SpanningForest.RecordedInOrder` | src/GrafosLib/Algorithms/Prim.cs:66-73 | The collected edges are the recorded ones, one per vertex that has an edge, in increasing vertex order. |
| `SpanningForest.ForestSize` | src/GrafosLib/Algorithms/Prim.cs:62-75 | A forest over n vertices with r roots records n − r edges. |
| `SpanningForest.RecordedWeight` | src/GrafosLib/Algorithms/Prim.cs:82-88 | When each recorded edge weighs its target's distance and the other slots are at 0, the edges weigh the sum of the distances. |
| `SpanningForest.ForestEdges` | src/GrafosLib/Algorithms/Prim.cs:62-88 | Every collected edge is a graph edge, they come in increasing target order, and together they weigh the sum of the distances. |
| `SpanningForest.Prim.constructor` | src/GrafosLib/Algorithms/Prim.cs:16-28 | The construction ends with the queue empty, every vertex marked, and the arrays forming a spanning forest whose roots ascend. |
| `SpanningForest.Prim.Arrays` | src/GrafosLib/Algorithms/Prim.cs:19-24 | The arrays have VerticesCount + 1 slots with no edges, nothing marked, every vertex at +infinity and the extra slot at 0. |
| `SpanningForest.Prim.Grow` | src/GrafosLib/Algorithms/Prim.cs:26-27 | A run from each still-unmarked vertex, in ascending order, builds the spanning forest. |
| `SpanningForest.Prim.Run` | src/GrafosLib/Algorithms/Prim.cs:30-42 | A run from an unmarked vertex makes it a marked root, keeps the construction state and the lightest-edge property, leaves the queue empty, and unmarks nothing. |
| `SpanningForest.Prim.Begin` | src/GrafosLib/Algorithms/Prim.cs:33-35 | The run's vertex is the only one queued, with key 0, and it is added to the roots; the lightest-edge property still holds. |
| `SpanningForest.Prim.Settle` | src/GrafosLib/Algorithms/Prim.cs:39-40 | Taking and scanning the least queued vertex keeps the construction state and the lightest-edge property, adds one vertex to the marked order, and unmarks nothing. |
| `SpanningForest.Prim.Scan` | src/GrafosLib/Algorithms/Prim.cs:44-60 | The vertex is marked, and the distances, edges and queue become those of offering each edge stored under it in turn. |
| `SpanningForest.Prim.Improve` | src/GrafosLib/Algorithms/Prim.cs:52-58 | The target takes the edge, the edge's weight as distance, and that weight as its queue key, whether newly inserted or changed. |
| `SpanningForest.Prim.Edges` | src/GrafosLib/Algorithms/Prim.cs:62-75 | The recorded edges in vertex order: graph edges, one per vertex that is not a root, VerticesCount minus the number of roots in all. Each weighs no more than any stored edge into the same vertex from a vertex marked before it. |
| `SpanningForest.Prim.Weight` | src/GrafosLib/Algorithms/Prim.cs:82-88 | The total weight of the recorded edges, which equals the sum of the recorded distances. |
| `SpanningForest.Prim.Total` | src/GrafosLib/Algorithms/Prim.cs:84-87 | The loop of Weight adds up exactly the weights of the edges it is given. |
| `Coloring.ByDegree` | src/GrafosLib/Algorithms/ColoringAlgorithm.cs:25 | The worklist holds exactly the degree map's vertices, as many as there are keys. |
| `Coloring.ByDegreeSorted` | src/GrafosLib/Algorithms/ColoringAlgorithm.cs:25 | The worklist is in non-increasing order of degree, and has no repeats when the keys have none. |
| `Coloring.Dismiss` | src/GrafosLib/Algorithms/ColoringAlgorithm.cs:42-45 | The worklist loses exactly the vertices coloured in the round and keeps the others, none twice; it is the worklist with one occurrence of each coloured vertex removed in turn, in the order `List.Remove` removes them. |
| `Coloring.Started` | src/GrafosLib/Algorithms/ColoringAlgorithm.cs:25-26 | At the start nothing is coloured and every vertex with stored edges is in the worklist once. |
| `Coloring.Paint` | src/GrafosLib/Algorithms/ColoringAlgorithm.cs:35-39 | Giving the round's colour to an uncoloured vertex none of whose stored edges leads to a vertex already coloured in the round keeps the round consistent, including that no vertex of the round has an edge to one coloured before it in the round. |
| `Coloring.Skip` | src/GrafosLib/Algorithms/ColoringAlgorithm.cs:35 | A vertex passed over because an edge leads to a vertex of the round's colour has seen that colour. |
| `Coloring.NextOrder` | src/GrafosLib/Algorithms/ColoringAlgorithm.cs:28-46 | Appending a round's vertices, in the order it coloured them, to the colouring order keeps it ordered: colours never fall along it, and no stored edge leads back to an earlier vertex of the same colour. It still lists exactly the coloured vertices. |
| `Coloring.NextRound` | src/GrafosLib/Algorithms/ColoringAlgorithm.cs:28-46 | A finished round whose vertices are the round's pick moves the run on by one colour and one round along the schedule: the greedy guarantee, the colouring order and the round colours all carry over. |
| `Coloring.OrderedEdge` | src/GrafosLib/Algorithms/ColoringAlgorithm.cs:35 | Two vertices of the colouring order joined by stored edges both ways have different colours. |
| `Coloring.ReciprocalColours` | src/GrafosLib/Algorithms/ColoringAlgorithm.cs:35-67 | When every stored edge joins two distinct vertices and has a stored edge leading back, every stored edge of an ordered colouring that covers the vertices joins two different colours. |
| `Coloring.ColoringAlgorithm.ReciprocalPasses` | src/GrafosLib/Algorithms/ColoringAlgorithm.cs:35-67 | For such graphs (two opposite directed edges, for example) the colouring a run returns with its order passes `IsValidColoring`. |
| `Coloring.AfterRound` | src/GrafosLib/Algorithms/ColoringAlgorithm.cs:28-46 | After a round and the removal of its vertices, every coloured vertex has seen each earlier colour, and every uncoloured one has seen every colour so far. |
| `Coloring.ColoringAlgorithm.constructor` | src/GrafosLib/Algorithms/ColoringAlgorithm.cs:13-17 | The colour count starts at 0. |
| `Coloring.ColoringAlgorithm.ColorCount` | src/GrafosLib/Algorithms/ColoringAlgorithm.cs:60-63 | The number of colours handed out so far, never negative. |
| `Coloring.ColoringAlgorithm.Conflict` | src/GrafosLib/Algorithms/ColoringAlgorithm.cs:54-58 | True exactly when the vertex is not conflict-free: the negation of the condition `Paint` demands before a vertex gets the round's colour. |
| `Coloring.ColoringAlgorithm.IsValidColoring` | src/GrafosLib/Algorithms/ColoringAlgorithm.cs:65-68 | True exactly when no index of the map has an edge stored under it whose target has the same colour (given that every such target indexes the map). |
| `Coloring.ColoringAlgorithm.UndirectedNeverValid` | src/GrafosLib/Algorithms/ColoringAlgorithm.cs:67 | In an undirected graph with an edge, no colour map passes the check, since the edge is also stored under its target. |
| `Coloring.ColoringAlgorithm.RunColoring` | src/GrafosLib/Algorithms/ColoringAlgorithm.cs:22-52 | The rounds of the run are exactly `Schedule` of the keys sorted by descending degree, and `order` is those rounds one after the other. Round j gives its vertices colour old count + j + 1, and the count grows by the number of rounds: at most one per vertex, at least one when there are vertices. Vertices without stored edges keep 0; each vertex saw every earlier colour of the run. The result passes exactly when the colour map is valid, and InvalidColoring is reported otherwise. |
| `Coloring.ColoringAlgorithm.Rounds` | src/GrafosLib/Algorithms/ColoringAlgorithm.cs:28-46 | Rounds until the worklist is empty are exactly `Schedule` of the worklist, each giving its vertices the next colour, keeping the greedy guarantee and returning the colouring order. |
| `Coloring.ColoringAlgorithm.Round` | src/GrafosLib/Algorithms/ColoringAlgorithm.cs:30-41 | One pass over the worklist colours exactly the round's pick (`Pick`): the vertices, in worklist order, with no stored edge to a vertex coloured before them in the pass. None twice, at least one; every vertex passed over sees the round's colour. |
| `Coloring.ColoringAlgorithm.Colour` | src/GrafosLib/Algorithms/ColoringAlgorithm.cs:25-46 | The colouring part of a run, before the final check: the same colour map, order and rounds as `RunColoring` states. |
| `Coloring.ColoringAlgorithm.NextColour` | src/GrafosLib/Algorithms/ColoringAlgorithm.cs:28-46 | One pass of the loop of rounds opens one colour and removes at least one vertex from the worklist, moving the run one round along the schedule. |
| `Coloring.RemoveEachShorter` | src/GrafosLib/Algorithms/ColoringAlgorithm.cs:42-45 | Removing the coloured vertices one by one never lengthens the worklist. |
| `Coloring.InOrder` | src/GrafosLib/Algorithms/ColoringAlgorithm.cs:33-39 | The vertices of the worklist that a round holds, in worklist order: exactly those in both, no more of them than the worklist has. |
| `Coloring.InOrderSame` | src/GrafosLib/Algorithms/ColoringAlgorithm.cs:33-39 | That order depends only on which worklist vertices the round holds. |
| `Coloring.Pick` | src/GrafosLib/Algorithms/ColoringAlgorithm.cs:30-41 | A round takes only worklist vertices, and always takes the first one. |
| `Coloring.NoEdgeBackSame` | src/GrafosLib/Algorithms/ColoringAlgorithm.cs:35 | Whether a vertex has an edge back into a round depends only on which earlier worklist vertices the round holds. |
| `Coloring.ExtendRule` | src/GrafosLib/Algorithms/ColoringAlgorithm.cs:33-39 | Taking one more worklist vertex exactly when it is conflict-free keeps the round rule: in worklist order, a vertex taken exactly when no stored edge leads to an earlier taken vertex. |
| `Coloring.PickGreedy` | src/GrafosLib/Algorithms/ColoringAlgorithm.cs:33-39 | The pick follows that rule. |
| `Coloring.SameUpTo` | src/GrafosLib/Algorithms/ColoringAlgorithm.cs:33-39 | Two rounds that follow the rule agree on every prefix of the worklist. |
| `Coloring.RoundUnique` | src/GrafosLib/Algorithms/ColoringAlgorithm.cs:33-39 | The pick is the only round that follows the rule, so the rule fixes a round. |
| `Coloring.Schedule` | src/GrafosLib/Algorithms/ColoringAlgorithm.cs:28-46 | The rounds of a run from a worklist: the pick, then the rounds from the worklist without the picked vertices. There is at most one round per vertex, and none exactly when the worklist is empty. |
| `Coloring.FlatMembers` | src/GrafosLib/Algorithms/ColoringAlgorithm.cs:28-46 | A vertex is in the rounds put one after the other exactly when it is in one of them. |
| `Coloring.ColoursDetermined` | src/GrafosLib/Algorithms/ColoringAlgorithm.cs:22-46 | Two colour maps that give every vertex of round j the same colour, give 0 to every vertex without stored edges, and whose rounds hold all other vertices, are equal. With the rounds fixed by `Schedule`, a run's colour map is fixed by its keys. |
| `Coloring.NextColours` | src/GrafosLib/Algorithms/ColoringAlgorithm.cs:38 | A finished round adds its colour to the round colours; earlier rounds keep theirs. |
| `Coloring.ScheduleStep` | src/GrafosLib/Algorithms/ColoringAlgorithm.cs:28-46 | Picking a round from the rest of the worklist and removing it moves the rounds one step along the schedule. |
| `Coloring.FlatSnoc` | src/GrafosLib/Algorithms/ColoringAlgorithm.cs:28-46 | Putting one more round after the others appends its vertices to the colouring order. |
| `Coloring.Finished` | src/GrafosLib/Algorithms/ColoringAlgorithm.cs:25-46 | When the worklist is empty, every vertex with stored edges is coloured with a colour of this run, others are 0, every target indexes the map, and the run used between one colour per key and none exactly when there are no keys. |
| `BreadthFirst.Start` | src/GrafosLib/Algorithms/BreadthFirstSearchAlgorithm.cs:26-27 | The search starts with only the root marked and queued. |
| `BreadthFirst.Enqueue` | src/GrafosLib/Algorithms/BreadthFirstSearchAlgorithm.cs:34-38 | Marking and queueing the unmarked target of a stored edge keeps every mark on a queued, reachable vertex, each queued once. |
| `BreadthFirst.Finished` | src/GrafosLib/Algorithms/BreadthFirstSearchAlgorithm.cs:29-40 | When the queue empties, the marked vertices are exactly those reachable from the root, queued once each, the root first. |
| `BreadthFirst.BreadthFirstSearchAlgorithm.constructor` | src/GrafosLib/Algorithms/BreadthFirstSearchAlgorithm.cs:12-15 | Keeps the graph and ignores the parents argument. |
| `BreadthFirst.BreadthFirstSearchAlgorithm.RunBFS` | src/GrafosLib/Algorithms/BreadthFirstSearchAlgorithm.cs:17-41 | A fresh visited array of VerticesCount + 1 slots. A root outside it is refused. Otherwise exactly the vertices reachable from the root are visited, each queued once. |
| `BreadthFirst.BreadthFirstSearchAlgorithm.Search` | src/GrafosLib/Algorithms/BreadthFirstSearchAlgorithm.cs:29-40 | From the root alone marked, the loop marks exactly the vertices reachable from it. |
| `BreadthFirst.BreadthFirstSearchAlgorithm.Visit` | src/GrafosLib/Algorithms/BreadthFirstSearchAlgorithm.cs:31-39 | Dequeuing a vertex queues every unmarked target of its stored edges, so all its edges lead to queued vertices. |
| `DepthFirst.Start` | src/GrafosLib/Algorithms/DepthFirstSearchAlgorithm.cs:20-23 | The search starts with only the root on the stack and nothing visited. |
| `DepthFirst.PopVisited` | src/GrafosLib/Algorithms/DepthFirstSearchAlgorithm.cs:27-29 | Popping a vertex already visited loses nothing. |
| `DepthFirst.PopNew` | src/GrafosLib/Algorithms/DepthFirstSearchAlgorithm.cs:27-28 | Popping a new vertex visits it and shrinks the set of vertices still to visit. |
| `DepthFirst.Push` | src/GrafosLib/Algorithms/DepthFirstSearchAlgorithm.cs:32-35 | Pushing the target of an edge stored under a visited vertex keeps every stacked vertex reachable. |
| `DepthFirst.Finished` | src/GrafosLib/Algorithms/DepthFirstSearchAlgorithm.cs:25-36 | When the stack is empty, the visited vertices are exactly those reachable from the root, each expanded once. |
| `DepthFirst.DepthFirstSearchAlgorithm.constructor` | src/GrafosLib/Algorithms/DepthFirstSearchAlgorithm.cs:13-16 | Keeps the graph. |
| `DepthFirst.DepthFirstSearchAlgorithm.RunDfs` | src/GrafosLib/Algorithms/DepthFirstSearchAlgorithm.cs:18-37 | The visited set is exactly the vertices reachable from the root, each expanded once. |
| `DepthFirst.DepthFirstSearchAlgorithm.PushUnvisited` | src/GrafosLib/Algorithms/DepthFirstSearchAlgorithm.cs:31-35 | After pushing the unvisited targets of the current vertex's edges, every edge stored under a visited vertex leads to a visited or stacked vertex. |
| `BitMatrices.RenderRowCells` | src/GrafosLib/DataStructure/BitMatrix.cs:37-41 | Cell j of a row is rendered at characters 2j and 2j + 1, as '1' or '0' followed by a space. |
| `BitMatrices.RenderLength` | src/GrafosLib/DataStructure/BitMatrix.cs:32-45 | n rows of width w render to n · (2w + 1) characters. |
| `BitMatrices.RenderLine` | src/GrafosLib/DataStructure/BitMatrix.cs:35-43 | Line i of the rendering is row i's cells followed by the line break, placed after the first i lines. |
| `BitMatrices.BitMatrix.constructor` | src/GrafosLib/DataStructure/BitMatrix.cs:12-20 | An n × n matrix with every cell clear. |
| `BitMatrices.BitMatrix.New` | src/GrafosLib/DataStructure/BitMatrix.cs:14 | A negative dimension is refused; otherwise a fresh n × n matrix with every cell clear. |
| `BitMatrices.BitMatrix.GetValue` | src/GrafosLib/DataStructure/BitMatrix.cs:22-25 | A position outside the matrix is refused; otherwise the cell's value. |
| `BitMatrices.BitMatrix.SetValue` | src/GrafosLib/DataStructure/BitMatrix.cs:27-30 | A position outside the matrix is refused. Otherwise a later GetValue there returns the value, and no other cell changes. |
| `BitMatrices.BitMatrix.GetArray` | src/GrafosLib/DataStructure/BitMatrix.cs:47-56 | A row outside the matrix is refused; otherwise exactly the columns set in the row, in ascending order. |
| `BitMatrices.BitMatrix.ToString` | src/GrafosLib/DataStructure/BitMatrix.cs:32-45 | The rendering of all rows, n · (2n + 1) characters. |
| `BitMatrices.BitMatrix.RowText` | src/GrafosLib/DataStructure/BitMatrix.cs:37-41 | The rendering of one row's cells in column order. |

## Left out

- Weights and keys: doubles are modelled as unbounded integers. +infinity is the `Inf` case of `Dist`. Floating-point rounding and NaN are not modelled.
- `MinPriorityQueue<T>` is modelled with integer keys only. Its generic key type and `CompareTo` are not modelled.
- `DictionaryOfCollection<TKey, TElement>` compares elements by value. Collections are sequences, and a `HashSet` is a sequence without repeats. The enumeration order of keys and of set elements is not modelled.
- DictionaryOfCollection: the `sortedKeys` option, `Keys`, `Values`, `ConcreteDictReference`, `CloneAsDict`, `GetEnumerator` and `ToString` are not modelled. They only expose or print the map. `Values` is the element count's input and appears only through `CountElements`.
- MultiMaps.DictionaryOfCollection.GetWhen: states the result as a multiset, not its order, because key enumeration order is unspecified.
- The graph queries `Neighbours`, `Edges`, `Vertices` and `Degrees` are extension methods whose source is not part of this model. They are modelled as functions over the adjacency map. The order in which `Degrees` enumerates vertices is an argument (`keys`) of `RunColoring`.
- Coloring.ColoringAlgorithm.RunColoring: the local colour map is returned (as `colors`) so that its contract can speak of it. `ByDegree` inserts each vertex after those of greater degree, as the stable `OrderByDescending` does; lemmas state that the worklist is sorted by degree and holds exactly the keys, but no lemma states the order it gives vertices of equal degree (that order is fixed only by the definition). The colour count is not bounded to 32 bits.
- Coloring.ColoringAlgorithm.IsValidColoring: requires every edge stored under an index of the map to lead to an index of the map. The library's public method throws `IndexOutOfRangeException` on a shorter map, and that error path is not modelled; its one caller passes a map with an entry per vertex, which meets the requirement.
- MultiMaps.DictionaryOfCollection.TryGetValue: returns the collection as a value. With `copy` false the library hands out the live collection, and changes made through it reach the dictionary; that aliasing and the `copy` flag are not modelled.
- MultiMaps.DictionaryOfCollection.Get: returns the collection as a value. The library's indexer returns the live collection, so in list mode `AddRange(k, d[k])` on a present key enumerates a list it is changing and throws `InvalidOperationException`; the model's `AddRange` gets a copy and appends it.
- ShortestPaths.Dijkstra.Run: requires a freshly constructed instance. A second run over the arrays of a first run is not modelled.
- SpanningForest.Prim.Weight: states that the recorded edges form a spanning forest and weigh the sum of the distances. It does not state that the weight is the least of any spanning forest, because for undirected graphs that is false as written: `Scan` follows an edge only from its source, so an edge stored under its target is never used from there. `SpanningForest.EagerScanNotMinimal` shows a triangle where a run from 0 records weight 20 while a spanning tree of weight 11 exists. What the code does keep is stated instead, in `Prim.Edges` and `SpanningForest.Lightest`: a recorded edge is no heavier than any stored edge into the same vertex from a vertex marked earlier.
- BreadthFirst.BreadthFirstSearchAlgorithm.RunBFS: requires a graph whose edge endpoints are vertices. The library would throw an index error on an edge target outside the visited array.
- DepthFirst.DepthFirstSearchAlgorithm.RunDfs: requires the same well-formed graph, so that every reachable vertex is one of the graph's vertices. The library's `visited` set is local and discarded. The model returns it (as `visited`) so that its contract can speak of it.
- The algorithms hold the graph as a value, copied when the object is built. The library keeps a reference and reads the graph again when `Run`, `RunBFS`, `RunDfs` or `RunColoring` is called. Edges added between construction and the call are not modelled. For example, a negative edge added after Dijkstra's constructor has checked the weights would reach `Run`.
- Dijkstra, Prim and the colouring algorithm take the same well-formedness precondition: every stored endpoint is a vertex.
- BitMatrices.BitMatrix.ToString: the line break is "\n". The library uses the platform's line break.
- `BitMatrix` is an `array2` that is never reassigned. The library has public, reassignable `Data` (an array of `BitArray`) and `Dim`; rows of unequal length are not modelled.
- The priority queue's lazy enumerator is modelled by `Enumerate`, which returns the whole sequence at once.
- Several loops and steps of the library sit in helper methods of their own. They have the same effect as the inline code:
  - Dijkstra: `Drain`, `SettleNext`, `ScanEdges`, `Arrays`;
  - Prim: `Grow`, `Begin`, `Settle`, `Scan`, `Improve`, `Arrays`, `Total`;
  - priority queue: `SwapOut`, `Restore`, `Forget`, `Retire`, `Copy`, `InsertPrefix`, `Drain`;
  - BFS and DFS: `Search`, `Visit`, `PushUnvisited`;
  - BitMatrix: `RowText`;
  - colouring: `Colour`, `Rounds`, `NextColour`, `Round`, `Dismiss`;
  - dictionary: `CleanKey`, `RemoveNext`, `CleanNext`.
- `IsWeighted` is stored but never read.
- The `VertexState` enum in the DFS file is unused.
- `Program.cs` (console driver and file parsing) and `AveragePathLength.cs` are not part of this model. `IGraph.cs` and `Vertex.cs` are not part of this model either. Only their members that the modelled code uses appear, as fields of the graph.
