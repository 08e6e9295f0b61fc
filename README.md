# Graph toolkit: representations, BFS, DFS and the bridge finder

This project models in Dafny the core of a small C++ graph toolkit. It also proves properties of that model.

**Graph representations.** There are three of them. Each is a class whose methods update its concrete store in place, with a ghost abstraction beside it.
- `AdjMatrix.AdjacencyMatrixGraph` is an n x n `array2` of optional weights. Its abstraction is a map from (from, to) pairs to weights.
- `AdjSet.AdjacencySetGraph` is a growable sequence of per-vertex ordered sets of `NeighborInfo`, ordered by neighbour id only. Its abstraction is the same kind of map.
- `EdgesList.EdgeListGraph` is a sequence of `Edge` records that `AddEdge` appends to and `RemoveEdge` erases from. The record sequence is its own abstraction.

`EdgeMap` defines that map once. It has the overwriting insertion (`Overwrite`, the matrix), the keep-existing insertion (`KeepFirst`, the set and the edge list) and the deletion (`Erase`). It also has the ascending neighbour enumerations, plain and filtered, that the matrix rows and the ordered sets yield. `neighbors(v)` and `neighborsFiltered(v, pred)` return sequences; the C++ iterator objects are not modelled. A predicate is a function value `(nat, W) -> bool`.

**Traversals.** `Bfs.BFS` and `Dfs.DFS` / `Dfs.DfsRecursive` run over the neighbour-list view of a graph. In that view `adj[u]` is what `neighbors(u)` yields, in order, and `|adj|` is `Size()`. Every representation provides its view and proves it closed (`MatrixViewClosed`, `SetViewClosed`, `ListViewClosed`). The colour vector is an `array<Color>`. Every visitor hook call becomes an `Event`, and the methods return the event trace. Each method is proved equal to a recursive specification function (`BfsTrace`, `DfsTrace`), and the properties are proved as lemmas about those functions. `BfsLevels` proves the level order of BFS. `Graph.Dist` is the distance from the start vertex, in steps, and `Graph.DistIsShortest` shows it is the length of a shortest walk. Vertices finish in non-decreasing order of that distance, and every tree edge goes one level further (`BfsLevels.BfsLevelOrder`).

**Bridge finder.** `BridgeFinder.BridgesAndArticulationPoints` is a class with the C++ fields: time, entry times, low values, colours, parents, bridges, articulation points and the root child counter. Each of `BridgeDFS`, its neighbour loop, `findBridgesAndAPs` and the constructor is proved to produce the state a specification function computes (`Visit`, `Scan`, `Roots`, `Init`). `BridgeProofs` proves the low-link facts about the final state `Found(adj)`, by a mutual induction over `Step`, `Scan` and `Visit`: the entry times, `0 <= low <= time_in`, the bridge criterion and the articulation-point criterion. `BridgeCases` computes the final state on the graphs of the bridge tests.

The test `DFSTest.cpp:81-91` expects one non-tree edge for the undirected triangle. The code emits four such events: the mirror of every tree edge is examined and classified as non-tree. The test itself would observe none of them, because `DFS` takes its visitor by value (`DFS.cpp:108`) and the test's `TestVisitor` object stays untouched. The model follows the code, and `Dfs.TriangleNonTreeEdges` proves the four.

`EdgesList.cpp:47` declares a loop variable `end`, a vector iterator, that hides the `size_t` parameter `end`. The comparison `it->to == end` at line 48 then compares a `size_t` with an iterator, which is ill-formed. The class template compiles only while nothing instantiates `RemoveEdge`, and `ListTest.cpp:48` does. So the code as written has no behaviour to model. The model compares `to` against the vertex argument, which is what the code evidently means.

## Model

| member | source | states |
|---|---|---|
| Graph.EquivalentIffSameNeighbor | Project/Graph/graph.hpp:77-79 | Two NeighborInfo entries are equivalent under `operator<` exactly when they name the same neighbour, whatever their weights |
| Graph.LessIsStrictOrder | Project/Graph/graph.hpp:77-79 | `operator<` is irreflexive, transitive and asymmetric |
| Graph.Observed | Project/Graph/graph.hpp:93-131 | What a visitor sees of a run: no more events than the run has, only events of the run, and only those of hooks it overrides |
| Graph.ObservedExactly | Project/Graph/graph.hpp:93-131 | An event is seen iff it occurs in the run and the visitor overrides its hook |
| Graph.ObservedAppend | Project/Graph/graph.hpp:93-131 | What is seen of two consecutive stretches of a run is what is seen of the first followed by what is seen of the second, so the visitor sees events in run order |
| Graph.ObservedEverything | Project/Graph/graph.hpp:93-131 | A visitor overriding the hook of every event of a run sees the whole run, in order |
| Graph.DefaultVisitorObservesNothing | Project/Graph/graph.hpp:100-131 | The base Visitor's hooks are all empty, so it observes nothing of any run |
| Graph.FullVisitorObservesAll | Project/Graph/graph.hpp:93-131 | A visitor overriding all six hooks observes the whole trace, in order |
| EdgeMap.Overwrite | Project/Graph/AdjMatrix.cpp:34-39 | (b,e) and, when undirected, (e,b) then carry w; every other pair keeps its weight |
| EdgeMap.KeepFirst | Project/Graph/AdjSet.cpp:37-38 | A pair with a weight keeps it, a pair without one gets w, both directions when undirected; nothing else changes |
| EdgeMap.Erase | Project/Graph/AdjMatrix.cpp:47-52 | (b,e) and, when undirected, (e,b) have no weight; every other pair keeps its weight |
| EdgeMap.EraseIdempotent | Project/Graph/AdjMatrix.cpp:47-52 | Removing twice is removing once |
| EdgeMap.EraseAbsent | Project/Graph/AdjSet.cpp:51-52 | Removing a pair that has no edge changes nothing |
| EdgeMap.EraseOutOfRange | Project/Graph/AdjSet.cpp:48-50 | Removing a pair with an endpoint beyond the vertex bound changes nothing |
| EdgeMap.OverwriteAgreesOnFreshPair | Project/Graph/AdjSet.cpp:37-38 | On a pair without a weight the two insertion policies agree |
| EdgeMap.ReAddDiffers | Project/Graph/AdjSet.cpp:37-38 | Adding a pair twice with different weights reports the first weight under keep-existing and the second under overwrite |
| EdgeMap.AddThenRemove | Project/Graph/graph.hpp:25-41 | After AddEdge(b,e) then RemoveEdge(b,e), (b,e) has no weight, under both policies |
| EdgeMap.UpdatesPreserveSymmetry | Project/Graph/AdjMatrix.cpp:36-38 | In an undirected graph, the three updates keep every edge stored in both directions with one weight |
| EdgeMap.UpdatesPreserveBound | Project/Graph/AdjMatrix.cpp:35-37 | Updates with in-range endpoints keep every endpoint in range |
| EdgeMap.Ascending | Project/Graph/AdjMatrix.cpp:86-90 | The neighbours below a bound are strictly ascending, and j is among them iff (v,j) has an edge |
| EdgeMap.AscendingFiltered | Project/Graph/AdjMatrix.cpp:216-225 | Strictly ascending, and j is among them iff (v,j) has an edge whose weight w satisfies p(j,w) |
| EdgeMap.FilteredByTrue | Project/Graph/AdjMatrix.cpp:216-225 | Filtering with an always-true predicate gives the plain neighbour sequence |
| EdgeMap.ViewClosed | Project/Graph/AdjMatrix.cpp:200-202 | Every neighbour in the view of a graph on n vertices is below n |
| EdgeMap.ViewSymmetric | Project/Graph/AdjMatrix.cpp:36-38 | In the view of an undirected graph, v lists u whenever u lists v |
| AdjMatrix.AdjacencyMatrixGraph.constructor | Project/Graph/AdjMatrix.cpp:24-26 | An n x n table with no edge; Size() is n |
| AdjMatrix.AdjacencyMatrixGraph.AddEdge | Project/Graph/AdjMatrix.cpp:34-39 | The edges become Overwrite of the old ones; Size() is unchanged; the table still mirrors the edges |
| AdjMatrix.AdjacencyMatrixGraph.RemoveEdge | Project/Graph/AdjMatrix.cpp:47-52 | The edges become Erase of the old ones, whatever the weight argument; Size() is unchanged |
| AdjMatrix.AdjacencyMatrixGraph.Size | Project/Graph/AdjMatrix.cpp:58 | The number of vertices; every edge of a valid table has both endpoints below it |
| AdjMatrix.AdjacencyMatrixGraph.GetEdgeWeight | Project/Graph/AdjMatrix.cpp:66-68 | The stored weight of (b,e), or None when there is no edge |
| AdjMatrix.AdjacencyMatrixGraph.Neighbors | Project/Graph/AdjMatrix.cpp:86-90 | The row scan yields exactly the j with an edge (v,j), strictly ascending |
| AdjMatrix.AdjacencyMatrixGraph.NeighborsFiltered | Project/Graph/AdjMatrix.cpp:216-225 | The row scan yields exactly the j with an edge (v,j) of weight w and p(j,w), strictly ascending |
| AdjMatrix.MatrixViewClosed | Project/Graph/AdjMatrix.cpp:200-202 | The traversals' view of a matrix graph is closed, and symmetric when undirected |
| AdjMatrix.UndirectedScenario | Project/Graph/GraphTest/MatrixTest.cpp:14-42 | On a fresh undirected 3-vertex graph, AddEdge(0,1,w) makes both (0,1) and (1,0) report w; RemoveEdge(0,1) makes both report none; Size() stays 3 |
| AdjSet.SortedIdsIncreasing | Project/Graph/graph.hpp:77-79 | A set ordered by neighbour id holds each neighbour at most once, in strictly ascending order |
| AdjSet.Find | Project/Graph/AdjSet.cpp:71-77 | `find` with a key succeeds iff the key's neighbour is in the set, and returns that entry's weight |
| AdjSet.Insert | Project/Graph/AdjSet.cpp:37 | `insert` keeps the set ordered; a neighbour already present keeps its weight, a new one gets the given weight |
| AdjSet.EraseKey | Project/Graph/AdjSet.cpp:51 | `erase` keeps the set ordered and removes exactly the entry of the key's neighbour |
| AdjSet.FilteredIds | Project/Graph/AdjSet.cpp:219-226 | The filtered walk yields, strictly ascending, exactly the neighbours whose entry satisfies p |
| AdjSet.FilteredIdsAscending | Project/Graph/AdjSet.cpp:219-226 | The filtered walk over the set of v equals the abstract ascending filtered neighbours of v |
| AdjSet.Grow | Project/Graph/AdjSet.cpp:34-36 | Resizing with empty sets keeps the sets well formed and keeps the edges they stand for |
| AdjSet.InsertStep | Project/Graph/AdjSet.cpp:37-38 | Inserting (e,w) into the set of b is a keep-existing insertion of (b,e) |
| AdjSet.EraseStep | Project/Graph/AdjSet.cpp:51-52 | Erasing e from the set of b removes exactly (b,e) |
| AdjSet.AdjacencySetGraph.Size | Project/Graph/AdjSet.cpp:59 | The number of vertex slots; every edge of a valid set graph has both endpoints below it |
| AdjSet.AdjacencySetGraph.constructor | Project/Graph/AdjSet.cpp:25 | An empty graph with Size() 0 |
| AdjSet.AdjacencySetGraph.AddEdge | Project/Graph/AdjSet.cpp:33-39 | Size() grows to max(b,e)+1 when smaller and never shrinks; the edges become KeepFirst of the old ones |
| AdjSet.AdjacencySetGraph.RemoveEdge | Project/Graph/AdjSet.cpp:47-53 | Size() is unchanged; the edges become Erase of the old ones, whatever the weight; out of range changes nothing |
| AdjSet.AdjacencySetGraph.GetEdgeWeight | Project/Graph/AdjSet.cpp:67-78 | None when an endpoint is at or beyond Size(); otherwise the stored weight or None |
| AdjSet.AdjacencySetGraph.Neighbors | Project/Graph/AdjSet.cpp:193-198 | OutOfRange iff v >= Size(); otherwise the neighbours of v, strictly ascending |
| AdjSet.AdjacencySetGraph.NeighborsFiltered | Project/Graph/AdjSet.cpp:219-226 | The walk skipping rejected entries yields the ascending neighbours j of v whose weight w satisfies p(j,w) |
| AdjSet.SetViewClosed | Project/Graph/AdjSet.cpp:193-198 | The view of a set graph is closed, and neighbors(v) yields its row v |
| AdjSet.KeepWeightScenario | Project/Graph/GraphTest/SetTest.cpp:31-138 | On a directed set graph: re-adding (0,1) with weight 7 keeps 5 and (1,0) has none; Size() is 2, then 5 after AddEdge(4,2); neighbors(5) throws out_of_range; an out-of-range RemoveEdge keeps the weight 5; RemoveEdge(0,1) leaves none |
| EdgesList.FirstIndex | Project/Graph/EdgesList.cpp:79-84 | The position of the first (b,e) record: no earlier record matches, and it matches if it is in range |
| EdgesList.TargetsMembership | Project/Graph/EdgesList.cpp:96-103 | x is a neighbour of v iff some record goes from v to x |
| EdgesList.TargetsEmpty | Project/Graph/EdgesList.cpp:96-103 | v has no neighbour iff no record leaves v |
| EdgesList.TargetsAppend | Project/Graph/EdgesList.cpp:140-144 | The neighbours of a concatenated list are those of the first part followed by those of the second, in storage order |
| EdgesList.FilteredIsTargetsOfKept | Project/Graph/EdgesList.cpp:238-246 | neighborsFiltered(v,p) is neighbors(v) over the records p accepts: an order-preserving sub-sequence |
| EdgesList.EndpointsEmpty | Project/Graph/EdgesList.cpp:63-70 | The list has no endpoint iff it has no record, so Size() of an empty list is 0 |
| EdgesList.AsMapFirstWeight | Project/Graph/EdgesList.cpp:78-85 | In the abstract map of a list, every pair carries the weight of its first record |
| EdgesList.AddedIsKeepFirst | Project/Graph/EdgesList.cpp:33-38 | AddEdge acts on the abstract map as the keep-existing insertion |
| EdgesList.ReAddKeepsWeight | Project/Graph/EdgesList.cpp:78-85 | Re-adding a pair with a new weight does not change the weight reported for it |
| EdgesList.RemoveAbsent | Project/Graph/EdgesList.cpp:52-54 | RemoveEdge of a pair without a record leaves the list unchanged |
| EdgesList.AddThenRemoveRestores | Project/Graph/EdgesList.cpp:45-56 | AddEdge(b,e) then RemoveEdge(b,e) on a list without a (b,e) record gives the list back, so (b,e) has no weight |
| EdgesList.TargetsInEndpoints | Project/Graph/EdgesList.cpp:63-70 | Every neighbour is an endpoint counted by Size() |
| EdgesList.EndpointsAdded | Project/Graph/EdgesList.cpp:33-36 | The records of one AddEdge mention exactly b and e |
| EdgesList.EndpointsCut | Project/Graph/EdgesList.cpp:55-56 | Erasing records introduces no endpoint |
| EdgesList.EdgeListGraph.constructor | Project/Graph/EdgesList.cpp:25 | An empty record list |
| EdgesList.EdgeListGraph.AddEdge | Project/Graph/EdgesList.cpp:33-38 | The records are the old ones followed by (b,e,w) and, when undirected, (e,b,w); b and e join `vertexes` |
| EdgesList.EdgeListGraph.RemoveEdge | Project/Graph/EdgesList.cpp:45-57 | The first (b,e) record is erased and, when undirected, so is the record that moved into its position; no match changes nothing |
| EdgesList.EdgeListGraph.Size | Project/Graph/EdgesList.cpp:63-70 | The number of distinct endpoints among the records |
| EdgesList.EdgeListGraph.GetEdgeWeight | Project/Graph/EdgesList.cpp:78-85 | The weight of the first (b,e) record, or None; equal to the abstract map's entry |
| EdgesList.EdgeListGraph.Neighbors | Project/Graph/EdgesList.cpp:96-103 | The `to` of every record leaving v, in storage order, duplicates included |
| EdgesList.EdgeListGraph.NeighborsFiltered | Project/Graph/EdgesList.cpp:238-246 | The `to` of every record leaving v whose (to, weight) satisfy p, in storage order |
| EdgesList.ListViewClosed | Project/Graph/EdgesList.cpp:214-216 | When the endpoints are exactly 0..Size()-1, the traversals' view of the list is closed |
| EdgesList.RemoveAsWrittenErasesUnrelatedRecord | Project/Graph/EdgesList.cpp:55-56 | On AddEdge(0,1), AddEdge(2,0), RemoveEdge(1,0), the second erase removes (2,0) and keeps (0,1) |
| EdgesList.RemoveAsWritten | Project/Graph/EdgesList.cpp:45-56 | RemoveEdge as the code does it: no match leaves the list unchanged; otherwise it loses one record (directed) or two (undirected), the records before the first (b,e) stay, and directed removal is erasing the first (b,e) record |
| EdgesList.RemoveMirrored | Project/Graph/EdgesList.cpp:45-56 | The corrected removal: it removes at most one record when directed and two when undirected, and at least one whenever a (b,e) record exists |
| EdgesList.RemoveFirstMatching | Project/Graph/EdgesList.cpp:55 | Erasing the first (b,e) record drops the first weight of (b,e) and no record of any other pair |
| EdgesList.RemoveMirroredTouchesOnlyThePair | Project/Graph/EdgesList.cpp:45-56 | The intended removal takes one record off (b,e) and, when undirected, one off (e,b), and touches no other pair |
| EdgesList.RemoveMirroredOnCounterexample | Project/Graph/EdgesList.cpp:55-56 | On the counterexample list, the intended removal erases both records of the pair and keeps those of (2,0) |
| EdgesList.RemoveAsWrittenErasesPastEnd | Project/Graph/EdgesList.cpp:55-56 | On a fresh undirected list after AddEdge(1,0), RemoveEdge(0,1) matches the last record, so the second erase gets the end position, which RemoveAsWritten's precondition excludes |
| EdgesList.RemoveMirroredOnLastRecord | Project/Graph/EdgesList.cpp:55-56 | On that list the intended removal is defined and erases both records |
| Bfs.ScanEdges | Project/DFSBFS/BFS.cpp:112-127 | The neighbour loop turns exactly as many White vertices Gray as it enqueues, and never shrinks the queue |
| Bfs.Round | Project/DFSBFS/BFS.cpp:104-132 | One dequeue-examine-scan-finish round strictly decreases White vertices plus queue length |
| Bfs.BfsLoop | Project/DFSBFS/BFS.cpp:104-132 | The while loop ends with an empty queue |
| Bfs.BfsFinal | Project/DFSBFS/BFS.cpp:89-91 | On a graph with no vertex, BFS produces no event |
| Bfs.BFS | Project/DFSBFS/BFS.cpp:88-133 | The colour array and queue loop produce exactly the trace BfsTrace specifies |
| Bfs.ScanNeighbours | Project/DFSBFS/BFS.cpp:112-127 | The in-place neighbour loop produces the colours, queue and events ScanEdges specifies |
| Bfs.InitialInv | Project/DFSBFS/BFS.cpp:95-102 | After the start is coloured Gray, discovered and enqueued, the loop invariant holds |
| Bfs.WhiteStep | Project/DFSBFS/BFS.cpp:116-122 | A White neighbour is examined, reported as a tree edge, coloured Gray, discovered once and enqueued, keeping the invariant |
| Bfs.SeenStep | Project/DFSBFS/BFS.cpp:123-126 | A non-White neighbour is examined and reported as a non-tree edge, keeping the invariant |
| Bfs.DequeueStep | Project/DFSBFS/BFS.cpp:105-109 | The dequeued vertex is the oldest discovered unfinished one, is reachable, and is examined |
| Bfs.FinishStep | Project/DFSBFS/BFS.cpp:130-131 | The examined vertex turns from Gray to Black and is finished, keeping the invariant |
| Bfs.ScanPreserves | Project/DFSBFS/BFS.cpp:112-127 | The neighbour loop keeps the invariant: discovered once, in FIFO order, each examined edge classified, all reachable |
| Bfs.ScanColors | Project/DFSBFS/BFS.cpp:116-122 | After the loop every neighbour is non-White, and colours only move forward |
| Bfs.ScanTrace | Project/DFSBFS/BFS.cpp:116-122 | The loop appends to the queue exactly the vertices it discovers, in order |
| Bfs.RoundTrace | Project/DFSBFS/BFS.cpp:105-131 | A round finishes the queue head and discovers exactly what it enqueues |
| Bfs.RoundPreserves | Project/DFSBFS/BFS.cpp:104-132 | A round keeps the invariant, and colours move only White to Gray to Black |
| Bfs.LoopPreserves | Project/DFSBFS/BFS.cpp:104-132 | The whole loop keeps the invariant, and colours move only forward |
| Bfs.BlackClosure | Project/DFSBFS/BFS.cpp:104-132 | At the end, every vertex on a walk from the start is Black |
| Graph.Dist | Project/DFSBFS/BFS.cpp:104-132 | The distance from start to a reached vertex: the vertex is within that many steps and within no fewer |
| Graph.LowestIsLeast | Project/DFSBFS/BFS.cpp:104-132 | Searching upward from i for the first step count that reaches v finds the least one |
| Graph.WithinGrows | Project/DFSBFS/BFS.cpp:104-132 | A vertex within i steps is within every larger number of steps |
| Graph.StepDist | Project/DFSBFS/BFS.cpp:112-122 | Following one edge from a reached vertex reaches its target, at most one level further |
| Graph.Predecessor | Project/DFSBFS/BFS.cpp:112-122 | Every vertex at a positive distance has an in-neighbour exactly one level closer |
| Graph.PathWithin | Project/DFSBFS/BFS.cpp:104-132 | A walk of k + 1 vertices from start ends within k steps |
| Graph.WithinPath | Project/DFSBFS/BFS.cpp:104-132 | A vertex within k steps ends a walk from start of at most k + 1 vertices |
| Graph.DistIsShortest | Project/DFSBFS/BFS.cpp:104-132 | A vertex is reached iff reachable; its distance plus one is the length of a shortest walk from start: one walk has that length and none is shorter |
| Bfs.StartTrace | Project/DFSBFS/BFS.cpp:100-102 | Before the loop the trace has discovered start alone; nothing is finished, examined or a tree edge |
| Bfs.StartColors | Project/DFSBFS/BFS.cpp:95-102 | Before the loop exactly start is non-White and nothing is Black |
| Bfs.ThreeRounds | Project/DFSBFS/BFS.cpp:104-132 | Three rounds finish the three dequeued vertices in order, and discover exactly what they enqueue |
| Bfs.BfsCorrect | Project/DFSBFS/BFS.cpp:88-133 | Each vertex is discovered at most once, the start first, and a vertex is discovered iff reachable. Finish order and examine order equal discover order. Each examineEdge is classified once. Tree edges number discovered minus one. Reachable vertices end Black, the rest stay White. The distance order is `BfsLevels.BfsLevelOrder` |
| Bfs.PathRounds | Project/DFSBFS/Test/BFSTest.cpp:38-45 | The three rounds on the path 0-1-2 from 0, state by state |
| Bfs.PathFinishOrder | Project/DFSBFS/Test/BFSTest.cpp:38-45 | BFS on the path 0-1-2 from 0 finishes 0, 1, 2 |
| Bfs.TriangleRounds | Project/DFSBFS/Test/BFSTest.cpp:56-64 | The three rounds on the triangle from 0, state by state |
| Bfs.TriangleDiscoverOrder | Project/DFSBFS/Test/BFSTest.cpp:56-64 | BFS on the triangle from 0 discovers 0, 1, 2 |
| BfsLevels.LevelOrderSnoc | Project/DFSBFS/BFS.cpp:120-122 | Appending a vertex no closer than the last keeps a discovery order sorted by distance |
| BfsLevels.LevelsStart | Project/DFSBFS/BFS.cpp:100-102 | Before the loop the queue invariant holds: start is at distance 0 and is the only vertex at that level |
| BfsLevels.LevelsDequeue | Project/DFSBFS/BFS.cpp:105-109 | Dequeuing and examining the head keeps the queue invariant, with the head now in flight |
| BfsLevels.WhiteLevel | Project/DFSBFS/BFS.cpp:116-120 | A White neighbour of the head lies exactly one level beyond it, and colouring it Gray keeps every vertex up to the head's level non-White |
| BfsLevels.LevelsWhite | Project/DFSBFS/BFS.cpp:116-122 | Discovering a White neighbour keeps discovery sorted by distance, and its tree edge leads one level down |
| BfsLevels.LevelsSeen | Project/DFSBFS/BFS.cpp:123-126 | A non-tree edge keeps the queue invariant |
| BfsLevels.LevelsScan | Project/DFSBFS/BFS.cpp:112-127 | The neighbour loop keeps the queue invariant |
| BfsLevels.NotAtLevel | Project/DFSBFS/BFS.cpp:104-106 | In a list sorted by distance, no entry from position k on is closer than the entry at k |
| BfsLevels.FrontierHandOff | Project/DFSBFS/BFS.cpp:129-132 | When the head passes to the next queued vertex, every vertex up to its level is already non-White |
| BfsLevels.LevelsFinish | Project/DFSBFS/BFS.cpp:129-132 | Colouring the head Black and finishing it keeps the queue invariant for the next head |
| BfsLevels.LevelsRound | Project/DFSBFS/BFS.cpp:104-132 | A round keeps the queue invariant |
| BfsLevels.LevelsLoop | Project/DFSBFS/BFS.cpp:104-132 | The whole loop keeps the queue invariant |
| BfsLevels.BfsLevelOrder | Project/DFSBFS/BFS.cpp:88-133 | Every finished vertex is reached from start; vertices finish, and so are discovered, in non-decreasing order of distance from start; every tree edge leads exactly one level further from start |
| Dfs.Visit | Project/DFSBFS/DFS.cpp:80-98 | DFS_Recursive on a White vertex uses up at least one White vertex |
| Dfs.Scan | Project/DFSBFS/DFS.cpp:85-94 | The neighbour loop never creates a White vertex |
| Dfs.Roots | Project/DFSBFS/DFS.cpp:111-115 | The wrapper loop keeps one colour per vertex |
| Dfs.DfsRecursive | Project/DFSBFS/DFS.cpp:80-98 | The recursive method leaves the colour array and trace that Visit specifies |
| Dfs.DFS | Project/DFSBFS/DFS.cpp:108-116 | The wrapper produces exactly the trace DfsTrace specifies |
| Dfs.ColorsAfterGray | Project/DFSBFS/DFS.cpp:82-83 | Colouring a White vertex Gray as it is discovered keeps colours and discovery in step |
| Dfs.ColorsAfterBlack | Project/DFSBFS/DFS.cpp:96-97 | Colouring a Gray vertex Black as it finishes keeps colours and finishing in step |
| Dfs.DiscoverStep | Project/DFSBFS/DFS.cpp:82-83 | Colouring a White vertex Gray and discovering it keeps the invariant and discovers it once |
| Dfs.FinishStep | Project/DFSBFS/DFS.cpp:96-97 | Colouring a Gray vertex Black and finishing it keeps the invariant |
| Dfs.EdgeStep | Project/DFSBFS/DFS.cpp:86-93 | An examined edge followed by its classification keeps the invariant; only a tree edge adds to the tree-edge count |
| Dfs.VisitFacts | Project/DFSBFS/DFS.cpp:80-98 | A call keeps the invariant, ends with its vertex Black, and adds exactly one tree edge fewer than it discovers vertices |
| Dfs.ScanFacts | Project/DFSBFS/DFS.cpp:85-94 | The loop keeps the invariant and adds as many tree edges as it discovers vertices |
| Dfs.VisitExtends | Project/DFSBFS/DFS.cpp:80-98 | A call only appends events, opening with discoverVertex(u) and closing with finishVertex(u) |
| Dfs.NestedVisit | Project/DFSBFS/DFS.cpp:80-98 | Discover/finish nest: a call's events open with u's discovery, close with its finish, and finish every vertex they discover |
| Dfs.RootStep | Project/DFSBFS/DFS.cpp:111-114 | A call from the wrapper leaves its root and all lower ids non-White and no vertex Gray |
| Dfs.RootsFacts | Project/DFSBFS/DFS.cpp:109-115 | The wrapper loop keeps the invariant, leaves every vertex Black, and adds one tree edge fewer per root than vertices discovered |
| Dfs.RootsFactsWhite | Project/DFSBFS/DFS.cpp:111-115 | The wrapper loop from a White u: the same facts as RootsFacts, with u as a root |
| Dfs.RootsBounds | Project/DFSBFS/DFS.cpp:111-114 | Roots are taken strictly ascending among ids not yet passed, starting with u when u is White |
| Dfs.RootsWhite | Project/DFSBFS/DFS.cpp:112-113 | A White vertex becomes the next root |
| Dfs.RootsOrder | Project/DFSBFS/DFS.cpp:111-114 | Every vertex with a smaller id than a root is discovered before that root |
| Dfs.RootsExtends | Project/DFSBFS/DFS.cpp:111-115 | The wrapper only appends discoveries |
| Dfs.RootsDistinct | Project/DFSBFS/DFS.cpp:109-115 | No vertex is discovered twice across all components |
| Dfs.DfsCorrect | Project/DFSBFS/DFS.cpp:108-116 | Every vertex 0..Size()-1 is discovered exactly once and finished exactly once, and ends Black. Each examineEdge is classified once. No examineVertex fires. Tree edges plus roots equal Size() |
| Dfs.DfsRootsOrder | Project/DFSBFS/DFS.cpp:111-114 | Roots are strictly ascending ids, 0 first, each discovered after every smaller id |
| Dfs.RootsAllBlack | Project/DFSBFS/DFS.cpp:111-112 | When no vertex is White, the wrapper does nothing |
| Dfs.VisitUnfold | Project/DFSBFS/DFS.cpp:82-97 | A call is: discover, neighbour loop, finish |
| Dfs.ScanTree | Project/DFSBFS/DFS.cpp:88-90 | A White neighbour is examined, reported as a tree edge and recursed into |
| Dfs.ScanNonTree | Project/DFSBFS/DFS.cpp:91-93 | Any other neighbour is examined and reported as a non-tree edge |
| Dfs.LeafVisit | Project/DFSBFS/DFS.cpp:80-98 | A call on a vertex without neighbours discovers and finishes only it |
| Dfs.PathDiscoverOrder | Project/DFSBFS/Test/DFSTest.cpp:46-56 | DFS on the path 0-1-2-3 discovers 0, 1, 2, 3 |
| Dfs.ChainTreeEdges | Project/DFSBFS/Test/DFSTest.cpp:58-67 | DFS on the directed chain 0->1->2 gives tree edges (0,1), (1,2) and roots 0 and 3 |
| Dfs.TriangleNonTreeEdges | Project/DFSBFS/Test/DFSTest.cpp:81-91 | DFS on the undirected triangle reports four non-tree edges, (1,0), (2,0), (2,1), (0,2) |
| BridgeFinder.Init | Project/DFSBFS/BridgeFinder.cpp:21-23 | The constructed state: time 0, one entry per vertex in each vector, every colour White and every time_in, low and parent -1, no bridge and no articulation point |
| BridgeFinder.Enter | Project/DFSBFS/BridgeFinder.cpp:80-82 | u turns Gray, gets the current time as time_in and low, the clock advances by one, and no other vertex's colour, time_in or low changes |
| BridgeFinder.Child | Project/DFSBFS/BridgeFinder.cpp:86-87 | v's parent becomes u and no other parent changes; the root child counter grows by one exactly when u has no parent |
| BridgeFinder.AfterChild | Project/DFSBFS/BridgeFinder.cpp:91-102 | (u,v) is appended to the bridges iff low[v] > time_in[u]; u is an articulation point afterwards iff it was or low[v] >= time_in[u] with u not a root; low[u] becomes the smaller of low[u] and low[v], and no other low changes |
| BridgeFinder.Visit | Project/DFSBFS/BridgeFinder.cpp:79-110 | BridgeDFS on a White vertex keeps one entry per vertex and uses up at least one White vertex |
| BridgeFinder.Step | Project/DFSBFS/BridgeFinder.cpp:85-106 | One pass of the neighbour loop never creates a White vertex |
| BridgeFinder.Scan | Project/DFSBFS/BridgeFinder.cpp:84-107 | The neighbour loop never creates a White vertex |
| BridgeFinder.ScanStep | Project/DFSBFS/BridgeFinder.cpp:84 | The loop from position k is the pass on neighbour k followed by the loop from k+1 |
| BridgeFinder.Roots | Project/DFSBFS/BridgeFinder.cpp:29-38 | The loop of findBridgesAndAPs keeps one entry per vertex |
| BridgeFinder.NewTree | Project/DFSBFS/BridgeFinder.cpp:30-37 | One round on a White root keeps one entry per vertex |
| BridgeFinder.BridgesAndArticulationPoints.constructor | Project/DFSBFS/BridgeFinder.cpp:21-23 | Time 0, every entry time, low and parent -1, every vertex White, no bridge and no articulation point |
| BridgeFinder.BridgesAndArticulationPoints.FindBridgesAndAPs | Project/DFSBFS/BridgeFinder.cpp:28-39 | The fields end in the state Roots specifies from the state before the call |
| BridgeFinder.BridgesAndArticulationPoints.GetBridges | Project/DFSBFS/BridgeFinder.cpp:41-43 | Returns the bridge list |
| BridgeFinder.BridgesAndArticulationPoints.GetArticulationPoints | Project/DFSBFS/BridgeFinder.cpp:45-47 | Returns the articulation-point set |
| BridgeFinder.BridgesAndArticulationPoints.BridgeDFS | Project/DFSBFS/BridgeFinder.cpp:79-110 | The fields end in the state Visit specifies |
| BridgeFinder.BridgesAndArticulationPoints.ScanNeighbours | Project/DFSBFS/BridgeFinder.cpp:84-107 | The for loop over neighbors(u) leaves the state Scan specifies |
| BridgeFinder.BridgesAndArticulationPoints.Neighbour | Project/DFSBFS/BridgeFinder.cpp:85-106 | One loop pass leaves the state Step specifies |
| BridgeFinder.BridgesAndArticulationPoints.TreeEdge | Project/DFSBFS/BridgeFinder.cpp:85-103 | The tree-edge branch sets the parent, counts a root child, recurses, then checks bridge and articulation and lowers low[u] |
| BridgeProofs.EnteredTime | Project/DFSBFS/BridgeFinder.cpp:81-82 | An entered vertex has an entry time below the clock |
| BridgeProofs.BackEdgeStep | Project/DFSBFS/BridgeFinder.cpp:104-105 | A non-tree neighbour other than the parent folds its entry time into low[u], keeping the invariant |
| BridgeProofs.ParentEdgeStep | Project/DFSBFS/BridgeFinder.cpp:104 | The edge back to the parent changes nothing and keeps the invariant |
| BridgeProofs.FinishStep | Project/DFSBFS/BridgeFinder.cpp:109 | Colouring u Black after its loop keeps the invariant |
| BridgeProofs.StepFacts | Project/DFSBFS/BridgeFinder.cpp:85-106 | One loop pass keeps the timing, forest, low and criteria invariants, and advances the loop position |
| BridgeProofs.ScanFacts | Project/DFSBFS/BridgeFinder.cpp:84-107 | The neighbour loop keeps the invariants and leaves every neighbour entered and low[u] folded over all of them |
| BridgeProofs.VisitFacts | Project/DFSBFS/BridgeFinder.cpp:79-110 | BridgeDFS keeps the invariants, finishes its vertex and keeps its parent; entered vertices keep their times |
| BridgeProofs.InitBetween | Project/DFSBFS/BridgeFinder.cpp:21-23 | The constructed state satisfies the invariant between rounds |
| BridgeProofs.RootStep | Project/DFSBFS/BridgeFinder.cpp:30-37 | A round on a White root keeps the invariant and leaves it and all lower ids entered, none Gray |
| BridgeProofs.RootsFacts | Project/DFSBFS/BridgeFinder.cpp:29-38 | The whole loop keeps the invariant and leaves every vertex entered |
| BridgeProofs.AllVisited | Project/DFSBFS/BridgeFinder.cpp:29-32 | After findBridgesAndAPs every vertex is Black |
| BridgeProofs.EntryTimes | Project/DFSBFS/BridgeFinder.cpp:81-82 | Entry times are 0,1,2,... in entering order; each vertex is entered once; the times are distinct and below Size() |
| BridgeProofs.LowValues | Project/DFSBFS/BridgeFinder.cpp:102-105 | 0 <= low[v] <= time_in[v]. low[v] is at most the entry time of each non-parent neighbour and the low of each tree child, and equals one of these or time_in[v] |
| BridgeProofs.ForestShape | Project/DFSBFS/BridgeFinder.cpp:85-87 | Each parent is -1 or a neighbour entered earlier |
| BridgeProofs.BridgeCriterion | Project/DFSBFS/BridgeFinder.cpp:85-94 | (u,v) is in the bridge list iff parent[v] == u and low[v] > time_in[u]; no pair twice |
| BridgeProofs.ArticulationCriterion | Project/DFSBFS/BridgeFinder.cpp:31-99 | A vertex without a parent (a DFS root, lines 31-36) is an articulation point iff it has more than one tree child. A vertex with a parent (lines 97-99) is one iff some tree child c has low[c] >= time_in[u] |
| BridgeProofs.SecondCallNoop | Project/DFSBFS/BridgeFinder.cpp:29-30 | Calling findBridgesAndAPs again changes nothing |
| BridgeCases.StarCase | Project/DFSBFS/Test/BridgeTest.cpp:37-47 | Star centred at 0: bridges (0,1), (0,2), (0,3); articulation points {0} |
| BridgeCases.PathCase | Project/DFSBFS/Test/BridgeTest.cpp:67-76 | Path 0-1-2: bridges (1,2), (0,1); articulation points {1} |
| BridgeCases.TriangleCase | Project/DFSBFS/Test/BridgeTest.cpp:26-35 | Triangle: no bridge, no articulation point |
| BridgeCases.TwoEdgesCase | Project/DFSBFS/Test/BridgeTest.cpp:49-57 | Edges 0-1 and 2-3: bridges (0,1), (2,3); no articulation point |
| BridgeCases.Cycle4Case | Project/DFSBFS/Test/BridgeTest.cpp:151-162 | Edges 0-1, 1-2, 1-3, 3-4, 2-4: the one bridge (0,1); articulation points {1} |

## Findings

| source | as written | input that shows it | evidently intended | confidence | as-written member | corrected member |
|---|---|---|---|---|---|---|
| Project/Graph/EdgesList.cpp:56 | In an undirected graph, after erasing the first (b,e) record the code erases again at the same position. That removes whichever record moved there | Undirected list; AddEdge(0,1), AddEdge(2,0), RemoveEdge(1,0). The records left are (0,1) and (0,2): the mirror (0,1) survives and (2,0) is lost | Also erase the first (e,b) record, and leave every other pair alone | not executed | EdgesList.RemoveAsWrittenErasesUnrelatedRecord | EdgesList.RemoveMirroredTouchesOnlyThePair |
| Project/Graph/EdgesList.cpp:55-56 | In an undirected graph, when the first (b,e) record is the last record, the second erase is given the end position, which is undefined behaviour | Fresh undirected list; AddEdge(1,0) stores (1,0) and (0,1); RemoveEdge(0,1) matches the last record | Erase the first (b,e) and the first (e,b) records, wherever they are | not executed | EdgesList.RemoveAsWrittenErasesPastEnd | EdgesList.RemoveMirroredOnLastRecord |

`EdgesList.EdgeListGraph.RemoveEdge` keeps the code's behaviour, so the model describes the list the program actually holds. `EdgesList.RemoveMirrored` is the corrected removal. `RemoveMirroredTouchesOnlyThePair`, `RemoveMirroredOnCounterexample` and `RemoveMirroredOnLastRecord` are proved about it. `RemoveMirrored` needs no precondition.

## Left out

- Console output is not modelled: `printResults` and the printing `BFSVisitor` and `DFSVisitor`. `printResults` reads `.first`/`.second`, which `Edge` does not have. The visitor becomes the returned event trace.
- The visitor is taken by value by `BFS` and `DFS`, so the caller's object never sees the events. The model returns the events instead; which hooks a visitor overrides is `Graph.Observed`.
- The C++ iterator and range classes are not modelled: increment operators, equality, the default constructors and the `*Range` classes. Neighbour enumeration is a sequence, computed by the same scanning loops.
- Templates and virtual dispatch: a generic weight type `W`. Weights are opaque; the floating-point and string instances of the tests are not modelled.
- Unchecked indexing is a precondition, not a semantics: the matrix operations (`b`, `e`, `v` < Size()), `AdjSet` `neighborsFiltered` on an out-of-range vertex, and the BFS start vertex. `BFS` on an empty graph is modelled and yields no event.
- EdgesList.EdgeListGraph.RemoveEdge: the second `erase` reuses the iterator that the first `erase` invalidated, which is undefined behaviour in every case. The model follows contiguous storage, where that position then holds the record that moved into it. When undirected and the first match is the last record, that position is the end, and erasing it is undefined even there. The method requires that this is not the case. The case is reachable; see the second row under Findings.
- Default arguments are not modelled: `is_directed = false` in the three constructors and `weight = WeightType()` on `AddEdge` and `RemoveEdge`. Every Dafny constructor and `AddEdge`/`RemoveEdge` takes the value explicitly, so a caller passes the default itself (`false`, or the weight type's default value); no behaviour is lost.
- Negative `int` arguments of `AddEdge` and of the matrix constructor are excluded: vertex ids are `nat`.
- The traversals and the bridge finder take the neighbour-list view of a graph, not the classes themselves. For the edge list they require every endpoint to be below `Size()` (`ListViewClosed`); non-dense ids are not modelled there.
- Parallel edges in the bridge finder: the finder skips the parent by vertex id, which is wrong for a doubled edge. Only the low-link criteria are proved, for any closed neighbour list. That the reported edges are bridges of the graph, in the graph-theoretic sense, is not proved.
- BridgeFinder.BridgesAndArticulationPoints.FindBridgesAndAPs: bridges are `(u, v)` pairs; the default weight of the C++ `Edge` records is not kept.
- `rootChildren` is left uninitialised by the C++ constructor. The model starts it at 0; it is reset before every root, so nothing reads the initial value.
- BridgeDFS's loop body is split into the methods `ScanNeighbours`, `Neighbour` and `TreeEdge`, and BFS's inner loop into `Bfs.ScanNeighbours`. The statements are the same, in the same order.
- The concrete bridge cases use the ascending neighbour lists the matrix and the set produce. Edge-list insertion order is not used for them.
- The edge-list tests with four bridges (`BridgeTest.cpp:100-110`) are not reproduced.
- The `vertexes` member of the edge list is kept and grown as in the code. `Size()` does not consult it, exactly as in the code.
- The gtest files and `main` functions: the tests cited in the table are stated as lemmas instead.
