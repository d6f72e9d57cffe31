# archmotif in Dafny

This project models the graph algorithms and the small mutable graph stores of archmotif
and proves what they promise. `dafny verify dfyconfig.toml` checks all of it.

| files | what they hold |
|---|---|
| `Order`, `Walks`, `Distance`, `Text`, `Wrappers` | the notions everything is measured against: ids and stable sorting, walks and reachability, distance, strings, optional values |
| `Scc`, `Cycles` | Tarjan's search, the cycle report, the hierarchy-cycle detector |
| `Kahn`, `BatchOrder`, `Layering` | topological order and which one it is, condensation order, the layering score |
| `CutVertices`, `Articulation`, `Bottlenecks` | components without a node, the Hopcroft-Tarjan search, the articulation detector |
| `Queries`, `PathOrder`, `TypedGraph`, `ContractMarks` | `Neighbors` and `Path` of the service and which shortest path it is, the typed graph with `Subgraph`, contract marks |
| `GraphPaths`, `MutateProtocol`, `LogOrder` | graph ids and their files, the concurrent write protocol, the order of saves and log entries |
| `Rewrites`, `Quotients` | the refactoring operations, the macro graph of a partition |
| `GraphML`, `ReaderLaws`, `GraphStore`, `StoreRoundTrip` | the GraphML reader and what it takes from a document, the writable graph, saving and loading |
| `GraphMerge`, `GraphDiff`, `FocusDiff` | merging two stored graphs, their difference, the added part of a graph |
| `MergeOrder`, `EdgeTriples` | when three merges associate, when edge keys tell edges apart |
| `MergedFiles`, `FileTriples`, `FileOrder` | the same for files: what a saved merge holds once it is loaded again |
| `Curvature`, `CurvatureReports` | Forman-Ricci curvature, its two computations, the closed form of its sum |
| `BatchProtocol` | the check of a reply to a memory batch |

Code that updates variables is a method, or a class with the source's fields; each method is
proved against a declarative notion, and the laws are lemmas about those notions. Map
iteration is an arbitrary choice, so every result holds for every iteration order.

## Where the code and its documentation differ

The model follows the code.

- The articulation detector documents the largest component a node guards. The first child
  of a DFS root is never recorded (`internal/graphmlx/detector_articulation.go:86`), and for
  other nodes the side of the root is not counted. `Bottlenecks.ScoreIsLargestOfAllIff` says
  when the documentation holds, `Bottlenecks.RootScoreLeavesOutFirstBranch` is an input for
  which it does not.
- Locks are keyed by the graph id as given, files by slug and variant. Two ids can name one
  file under two locks: `GraphPaths.SameFileIff` says which do, for instance "a/b" and "a_b"
  (`GraphPaths.SlashIsUnderscore`), which then lose an update in some run
  (`MutateProtocol.SlashLosesUpdate`). Updates are serial for every run exactly if no two ids
  in use share a file (`MutateProtocol.SerialIffPathsDiffer`).
- `mutate` saves before it appends to the log; its comment lists the opposite order. The log
  follows the saves for each graph; as a whole it does so in every run exactly if at most one
  id in use resolves to a path (`LogOrder.LogFollowsSavesIff`).
- `Mutable.Merge` of a node into itself removes the node and keeps its edges
  (`Rewrites.MergeWiredIff`). `Redirect` takes any ends (`Rewrites.RedirectWiredIff`).
- Merge and diff are documented to match edges on source, destination and kind; they match on
  the three joined with an arrow. Two different edges of two files can share such a key, and a
  merge then drops one (`FileTriples.FilesCollide`). Merging and comparing files is merging and
  comparing triples exactly if no id is another id, the arrow and text that starts with no
  space, or text that ends with no space, the arrow and another id
  (`FileTriples.FilesUnionIff`, `FileTriples.FilesDifferIff`; `EdgeTriples.KeysAreTriplesIff`
  for edges of any kind).
- The destination is documented to win a merge. Its attributes do, but the saved file is read
  back with the kind and name that the filled-in attributes give, so a node can come back under
  its counterpart's name (`MergedFiles.DisplayNameOverwritten`); `MergedFiles.DestinationKept`
  says exactly when.
- For the same reason the order of three merges can show. It shows in names only, exactly as
  `FileOrder.FilesAssociateIff` says.
- Loading takes the kind and name of a node from its attributes, so a saved graph can come
  back with other fields (`StoreRoundTrip.ReloadRefreshes`).

## Model

| member | source | states |
|---|---|---|
| Scc.SccSearch.StrongConnect | internal/contract/contract.go:196-230 | one call of Tarjan's closure: everything newly visited is either popped as whole components or stays on the stack reaching an open ancestor |
| Scc.SccSearch.PopDown | internal/contract/contract.go:214-226 | the pop loop takes exactly the stack segment down to the root, in popping order |
| Scc.SccSearch.Run | internal/graphmlx/detector_hierarchy_cycle.go:105-155 | the popped lists partition the nodes into their strongly connected components |
| Scc.SegmentIsScc | internal/contract/contract.go:214-229 | when low equals index, the stack segment above the node is one whole component |
| Scc.FinishPop | internal/contract/contract.go:214-229 | popping the component restores the search invariant and the caller's contract |
| Scc.FinishKeep | internal/contract/contract.go:196-230 | leaving without popping keeps a way down to an open ancestor |
| Cycles.ComputeCycles | internal/contract/contract.go:182-238 | the report is exactly the components with at least two nodes, each ascending, listed by first node |
| Cycles.CycleListUnique | internal/contract/contract.go:182-238 | the report is determined by the graph: no order of nodes, edges or map keys shows in it |
| Cycles.MutualIsReported | internal/contract/contract.go:182-238 | any two distinct mutually reachable nodes share a reported list |
| Cycles.HierarchyAdjacency | internal/graphmlx/detector_hierarchy_cycle.go:71-91 | the adjacency holds exactly the edges of hierarchy kinds, over exactly their ends |
| Cycles.HierarchyCycles | internal/graphmlx/detector_hierarchy_cycle.go:26-65 | the reported nodes are exactly those on a cycle of hierarchy edges, self-edges included, grouped by component |
| Cycles.OnCycleIff | internal/graphmlx/detector_hierarchy_cycle.go:33-40 | a node is on a cycle if and only if its component has two nodes or it has a self-edge |
| Cycles.NoLoopsSameScc | internal/graphmlx/detector_hierarchy_cycle.go:105-155 | self-edges do not change the components, so both Tarjan copies see the same ones |
| Kahn.Drain | internal/contract/partition.go:104-133 | the drained list is a topological order of exactly the nodes no cycle leads to; with sorted batches, by the place of the last source and then by id |
| Kahn.KahnCompleteIff | internal/contract/contract.go:291-306 | the list is complete if and only if there is no cycle |
| Kahn.TopoUnique | internal/contract/contract.go:270-306 | there is one such order: the list is determined by the nodes and edges |
| Kahn.NoSourceMeansCycle | internal/contract/contract.go:270-306 | a finite graph in which every remaining node has a predecessor holds a cycle leading to each of them |
| Kahn.ListedIsAcyclic | internal/contract/contract.go:270-306 | nothing on a cycle reaches a listed node |
| Layering.TopoOrder | internal/contract/contract.go:270-306 | succeeds if and only if there is no cycle but self-loops, and then lists all nodes with every edge forward, by the place of the last source and then by id |
| Layering.SccOf | internal/contract/contract.go:362-378 | two nodes get one number if and only if they are equal or mutually reachable |
| Layering.CondensationAcyclic | internal/contract/contract.go:310-359 | the graph of the components has no cycle |
| Layering.CondensationOrder | internal/contract/contract.go:310-359 | a permutation of the nodes in which every edge between components points forward and each component is contiguous |
| Layering.BackEdgesAreMutual | internal/contract/contract.go:243-266 | a back edge joins two nodes of one component |
| Layering.NoBackIffAcyclic | internal/contract/contract.go:243-266 | there is no back edge if and only if there is no cycle but self-loops |
| Layering.LayeringScore | internal/contract/contract.go:243-266 | the score is the share of edges that do not point back, and 1 if and only if there is no cycle but self-loops |
| CutVertices.CutIffGuarded | internal/graphmlx/detector_articulation.go:78-95 | removing a node separates two others if and only if some component next to it misses a given neighbour |
| CutVertices.ScoredIsGuarded | internal/graphmlx/detector_articulation.go:84-95 | every child subtree that is recorded is a component of the graph without the node |
| CutVertices.GuardedIsScored | internal/graphmlx/detector_articulation.go:84-95 | every such component is a recorded child subtree |
| CutVertices.FinishScore | internal/graphmlx/detector_articulation.go:84-95 | when all neighbours are done, the recorded size is the largest such component |
| Articulation.CutSearch.Visit | internal/graphmlx/detector_articulation.go:66-102 | one call of dfs: sizes, low-links and scores of the finished subtree are final, earlier ones untouched |
| Articulation.CutSearch.Record | internal/graphmlx/detector_articulation.go:80-95 | the updates after the recursive call, root and non-root rule apart |
| Articulation.CutSearch.Run | internal/graphmlx/detector_articulation.go:103-107 | all nodes are visited with final scores, and the roots are the least nodes of their components |
| Articulation.LowTellsUp | internal/graphmlx/detector_articulation.go:81-90 | low of a child is below the discovery of its parent if and only if the child's subtree has an edge above the parent |
| Articulation.LowCompleteAfterCall | internal/graphmlx/detector_articulation.go:81-83 | low stays at or below every ancestor next to the subtree |
| Articulation.Climb | internal/graphmlx/detector_articulation.go:75-79 | tree parents lead from an earlier node to a root without passing a later one |
| Bottlenecks.UndirectedAdjacency | internal/graphmlx/detector_articulation.go:147-175 | the adjacency is the undirected projection, each list ascending |
| Bottlenecks.Detect | internal/graphmlx/detector_articulation.go:35-141 | the findings are exactly the cut vertices whose score reaches the threshold; the score is the largest component next to the node, the one with the home node aside |
| Bottlenecks.FindingsUnique | internal/graphmlx/detector_articulation.go:35-141 | the findings are determined by the projection and the threshold |
| Bottlenecks.ScoreIsLargest | internal/graphmlx/detector_articulation.go:66-107 | the keys of isArt are exactly the cut vertices, and their values exactly the declared scores |
| Bottlenecks.ScoreIsLargestOfAllIff | internal/graphmlx/detector_articulation.go:33-35 | the score is the size of the largest component next to the node, as documented, if and only if some guarded component is at least as large as that of the home node |
| Bottlenecks.RootScoreLeavesOutFirstBranch | internal/graphmlx/detector_articulation.go:86-90 | a root next to a component of three nodes is scored one, so the documented score fails and no report at the default threshold lists it |
| GraphPaths.DefaultVariantAliases | internal/mcpserver/service.go:45-58 | any valid id without a colon and the same id with the default variant name one file |
| GraphPaths.PathsAreSafe | internal/mcpserver/service.go:45-58 | both parts of every path are non-empty and of letters, digits, dash, underscore and dot only |
| GraphPaths.ResolvedParts | internal/mcpserver/service.go:45-58 | each part is the text before or after the last colon, "actual" if there is none and "graph" if it is empty, with an underscore for each unsafe character and every other kept in its place |
| GraphPaths.SameFileIff | internal/mcpserver/store.go:406-425 | two valid ids address one file if and only if both parts are as long and differ only in characters that are unsafe or underscores |
| GraphPaths.PathsDifferIff | internal/mcpserver/store.go:406-425 | so a set of ids is free of shared files if and only if no two valid ones are alike |
| GraphPaths.ValidIff | internal/mcpserver/multigraph.go:470-489 | an id is valid if and only if it is not empty and no part of it between slashes, backslashes and the last colon is two dots |
| GraphPaths.SlashIsUnderscore | internal/mcpserver/store.go:406-425 | "a/b" and "a_b" address one file |
| MutateProtocol.RunInvariant | internal/mcpserver/service.go:82-123 | every run keeps the lock, disk, serial and log invariants together |
| MutateProtocol.MutualExclusion | internal/mcpserver/service.go:82-100 | at most one thread is between lock and unlock of a file |
| MutateProtocol.RunsAreSerial | internal/mcpserver/service.go:97-123 | every file holds the replay of its saved edits in save order |
| MutateProtocol.LogFollowsSaves | internal/mcpserver/service.go:107-121 | the log of a graph is a subsequence of its saves, equal to them when nothing is in between and no append failed |
| MutateProtocol.NoDeadlock | internal/mcpserver/service.go:82-100 | while a call is open, some thread can move |
| MutateProtocol.SerialIffPathsDiffer | internal/mcpserver/service.go:45-95 | all runs are serial if and only if no two ids in use share a file |
| MutateProtocol.SharedFileLosesUpdate | internal/mcpserver/service.go:82-95 | two ids for one file lose an update in some run |
| MutateProtocol.SlashLosesUpdate | internal/mcpserver/service.go:45-95 | with "a/b" and "a_b" in use some run is not serial |
| LogOrder.HistoryFollowsLocks | internal/mcpserver/service.go:82-123 | in every run, for each graph, saves and log entries come in the order in which the calls got the lock, at most one of each per call, and only calls that saved are logged |
| LogOrder.SerialInLockOrder | internal/mcpserver/service.go:82-123 | every file holds the replay of its saved edits in the order in which the calls got the lock |
| LogOrder.CallsAreAtomic | internal/mcpserver/service.go:97-123 | a call about to return has applied its edit to the document it found and is among the saves, or has left the document alone and is in neither the saves nor the log; it is in the log if and only if every step worked |
| LogOrder.RunTurns | internal/mcpserver/service.go:82-123 | every run keeps what the history says of each call that holds a lock |
| LogOrder.RunResolves | internal/mcpserver/service.go:45-123 | only requests for ids in use that resolve to a path are saved or logged |
| LogOrder.LogMayReorder | internal/mcpserver/service.go:107-121 | for any two ids that resolve, sharing a file or not, some run logs in another order than it saved |
| LogOrder.LogFollowsSavesIff | internal/mcpserver/service.go:97-123 | the whole log is a subsequence of the saves in every run if and only if at most one id in use resolves |
| Distance.Finished | internal/mcpserver/service.go:205-240 | a finished search has labelled exactly the nodes in range, each with its distance |
| Distance.Expanded | internal/mcpserver/service.go:211-240 | taking a node off the queue and labelling its neighbours keeps the search invariant |
| Queries.Spread | internal/mcpserver/service.go:205-240 | the labels are the true distances, for exactly the nodes within the depth |
| Queries.Neighbors | internal/mcpserver/service.go:184-251 | exactly the nodes at distance 1 to depth over edges of the asked kinds, direction ignored, ascending; the errors in the code's order |
| Queries.Trace | internal/mcpserver/service.go:285-320 | the predecessor links go one step closer to the start, and the target is found if and only if it is reachable |
| Queries.Rebuild | internal/mcpserver/service.go:321-332 | the predecessor walk ends and gives a walk as long as the distance |
| Queries.Path | internal/mcpserver/service.go:259-333 | empty if and only if unreachable over edges of the asked kinds, otherwise of the shortest walks the first in the order of ids |
| Queries.DistanceIsShortest | internal/mcpserver/service.go:259-333 | no walk has fewer edges than the distance |
| Queries.PathMeans | internal/mcpserver/service.go:259-333 | each step of the path is an edge that starts and ends there and whose kind is asked for, if any is, and an empty answer means that no such walk exists |
| Queries.PathUnique | internal/mcpserver/service.go:259-333 | the answer is determined by the edges: there is one first shortest path |
| Queries.NeighborsMean | internal/mcpserver/service.go:184-251 | a node is listed if and only if it is another node and a chain of at most depth edges of the asked kinds, in either direction, leads to it |
| Queries.FilterLaw | internal/mcpserver/service.go:196-206 | asking with kinds is asking without on the list of edges of these kinds |
| PathOrder.WaysComeFirst | internal/mcpserver/service.go:285-320 | the way kept for a labelled node is the first of all shortest ways to it |
| TypedGraph.Graph.AddNode | internal/graph/graph.go:77-89 | a new id is appended, a known one returns the stored node and changes nothing |
| TypedGraph.Graph.AddEdge | internal/graph/graph.go:108-132 | an edge is appended unless it is there or an end is missing |
| TypedGraph.Graph.Nodes | internal/graph/graph.go:142-154 | the nodes in insertion order |
| TypedGraph.Graph.Neighbors | internal/graph/graph.go:177-216 | exactly the other ends of the edges in the asked direction and kind, each once, in the order of the first edges that lead to them |
| TypedGraph.Graph.MarkContract | internal/graph/contract.go:76-101 | marks an unmarked node and leaves a marked one as it is |
| TypedGraph.Graph.Ring | internal/graph/graph.go:255-272 | one level adds exactly the neighbours of everything kept so far |
| TypedGraph.Graph.Ball | internal/graph/graph.go:246-272 | keeps exactly the nodes within the depth of the known seeds |
| TypedGraph.Graph.Subgraph | internal/graph/graph.go:246-287 | the graph induced by those nodes, nodes and edges in their order |
| TypedGraph.LedToIff | internal/graph/graph.go:177-216 | what a neighbour is, for each direction: the destination of an edge out, the source of an edge in, or either |
| TypedGraph.NodesKept | internal/graph/graph.go:274-287 | the induced graph has exactly the kept nodes, each as often |
| TypedGraph.EdgesKept | internal/graph/graph.go:274-287 | and exactly the edges between them, each as often |
| TypedGraph.NeighborsAgreeWithSubgraph | internal/graph/graph.go:246-287 | Neighbors of a node together with the node is the node set of its Subgraph |
| ContractMarks.Mark | internal/contracts/mark.go:15-83 | in every iteration order, ends and marks exactly the least set with the configured nodes, closed under embedding; every origin is a configured node that leads to its mark |
| ContractMarks.ConfiguredCarries | internal/contracts/mark.go:16-27 | a configured node that was unmarked carries "config" and its declared kind, a marked one is as it was; every other attribute is as before |
| ContractMarks.TakenCarries | internal/contracts/mark.go:45-68 | a marked node that was not configured carries "embedded", the interface kind and a reference to a configured node from which embedding leads to it; every other attribute is as before |
| ContractMarks.MarkedIffEmbeds | internal/contracts/mark.go:33-73 | a node that was not configured is marked if and only if it is an unmarked interface type that embeds a marked interface |
| ContractMarks.Configure | internal/contracts/mark.go:16-27 | phase one marks each configured node as config with its declared kind; an earlier marker stays as it is, and so does every other node |
| ContractMarks.Pass | internal/contracts/mark.go:33-73 | a pass that adds nothing leaves a closed set, one that adds something grows it |
| ContractMarks.ShouldMarkIsLeast | internal/contracts/mark.go:29-73 | the marked set is contained in every closed set with the configured nodes |
| ContractMarks.TakeOver | internal/contracts/mark.go:63-68 | marking an embedder refers it to an origin that reaches it and leaves everything else unchanged |
| ContractMarks.MarkedIds | internal/contracts/mark.go:75-83 | the ids come back in insertion order |
| ContractMarks.RestrictKeeps | internal/contracts/mark.go:75-83 | exactly the marked ids are listed, each as often as among the nodes |
| Rewrites.Mutable.Move | internal/contract/ops.go:53-64 | changes the group of the first node with the id, nothing else |
| Rewrites.Mutable.Redirect | internal/contract/ops.go:67-75 | changes the ends of the first matching edge, nothing else |
| Rewrites.Mutable.Reverse | internal/contract/ops.go:77-79 | flips the first matching edge |
| Rewrites.Mutable.RemoveEdge | internal/contract/ops.go:82-90 | removes the first matching edge |
| Rewrites.Mutable.Introduce | internal/contract/ops.go:95-110 | the new lists, and the errors in the code's order |
| Rewrites.Mutable.Merge | internal/contract/ops.go:114-129 | the new lists, and the error when a node is missing |
| Rewrites.IntroducePreservesReach | internal/contract/ops.go:95-110 | reachability between original nodes is as before in both directions; the new node has the target's strict ancestors and its descendants |
| Rewrites.IntroducedGuardsTarget | internal/contract/ops.go:103-108 | exactly one edge leads to the target, and it comes from the new node |
| Rewrites.IntroduceCycleIff | internal/contract/ops.go:95-110 | there is a cycle of two or more nodes if and only if there was one or the target had a self-loop |
| Rewrites.MergeUndoesIntroduce | internal/contract/ops.go:95-149 | Introduce then Merge gives the old nodes, and the old edges without self-loops in their order |
| Rewrites.RoundTripIffNoLoops | internal/contract/ops.go:95-149 | the edge list comes back if and only if it had no self-loop |
| Rewrites.MergeWiredIff | internal/contract/ops.go:114-149 | no edge dangles after a merge if and only if the nodes differ or the node had no edge to others |
| Rewrites.MergeKeepsEdges | internal/contract/ops.go:114-149 | an edge that stays keeps its place among those that stay, its kind and its attributes, with the merged node replaced by the other; the edges between the two and the self-loops go |
| Rewrites.IntroduceKeepsEdges | internal/contract/ops.go:95-110 | every edge keeps its place, kind, attributes and source, and its destination unless it was the target |
| Rewrites.MergeReachIff | internal/contract/ops.go:118-127 | reachability after a merge is reachability before it with the two nodes made one |
| Rewrites.MergeCycleIff | internal/contract/ops.go:114-149 | merging two nodes of an acyclic graph makes a cycle if and only if a third node lies between them |
| Rewrites.RedirectWiredIff | internal/contract/ops.go:67-75 | no edge dangles after a redirect if and only if the new ends are nodes |
| Rewrites.RedirectKeepsEdges | internal/contract/ops.go:67-75 | the first edge between the two ends gets the new ends and keeps its kind and attributes; every other edge is as it was |
| Rewrites.ReverseTwiceIff | internal/contract/ops.go:77-79 | reversing back gives the old list if and only if no edge the other way comes before |
| Rewrites.ReverseTwiceArcs | internal/contract/ops.go:77-79 | either way the same arcs are there again |
| Quotients.Quotient | internal/contract/partition.go:58-102 | groups, members, weights and fans are those of the partition, sorted; acyclic if and only if the macro graph has no cycle |
| Quotients.QuotientAcyclic | internal/contract/partition.go:104-133 | the drained count equals the groups if and only if there is no cycle |
| Quotients.QuotientConserves | internal/contract/partition.go:63-91 | weights, fan-ins and fan-outs each sum to the number of edges between groups |
| Quotients.FansCountEdges | internal/contract/partition.go:58-91 | the fan-out of a group is the number of edges that leave it and its fan-in the number that enter it; its members are the nodes of the group |
| Quotients.WeightsCountEdges | internal/contract/partition.go:63-102 | the weight of a macro edge is the number of edges from one group to the other |
| Quotients.AcyclicKeepsCyclesInside | internal/contract/partition.go:58-133 | if the quotient is acyclic, every reported cycle lies in one group |
| Quotients.QuotientAcyclicIff | internal/contract/partition.go:58-133 | the quotient is acyclic if and only if mutual reachability, over edges and steps inside a group, joins no two groups |
| Quotients.MacroCycleWithoutCycle | internal/contract/partition.go:104-133 | groups can form a cycle when no nodes do |
| Quotients.QuotientBySccIsAcyclic | internal/contract/partition.go:58-133 | grouping by strongly connected component is acyclic |
| GraphML.DecodeData | internal/graphmlx/graphmlx.go:267-289 | names, scopes and trimming of the data entries, later entries winning |
| GraphML.Read | internal/graphmlx/graphmlx.go:178-262 | the parsed graph or the first error: no graph, several, a repeated id, an unknown end |
| GraphML.IndexNodes | internal/graphmlx/graphmlx.go:222-228 | the indices by stable id and by element id, or the first repeated id |
| GraphML.IndexedBounds | internal/graphmlx/graphmlx.go:222-228 | an index leads from each id to its node and back |
| GraphML.ReadEdges | internal/graphmlx/graphmlx.go:230-251 | edges by the stable ids of their ends, or the first unknown end |
| ReaderLaws.DecodedIs | internal/graphmlx/graphmlx.go:267-289 | an attribute is there if and only if an entry gives it, with the trimmed text of the last that does; an entry declared for other elements gives nothing once the name has a value |
| ReaderLaws.KeyIs | internal/graphmlx/graphmlx.go:191-194 | of several declarations of one key id the last counts |
| ReaderLaws.LoadsIff | internal/graphmlx/graphmlx.go:178-262 | a document loads if and only if it has one graph, no two node elements have one id, and each edge element names two node elements |
| ReaderLaws.ErrorSays | internal/graphmlx/graphmlx.go:178-262 | otherwise the error says which of these failed and names an id, or an edge element and its end, of which that is true |
| ReaderLaws.NodesComeFrom | internal/graphmlx/graphmlx.go:202-220 | each loaded node comes from an element: where its id, kind, name and attributes are taken from, and in which order |
| ReaderLaws.EdgesComeFrom | internal/graphmlx/graphmlx.go:230-251 | each loaded edge comes from an element and joins the nodes it names; its kind is under "kind", or else under "label" |
| ReaderLaws.AllLoaded | internal/graphmlx/graphmlx.go:178-262 | there are as many nodes and edges as elements, and each node element is one of them |
| ReaderLaws.DirectionIs | internal/graphmlx/graphmlx.go:196-201 | a graph is directed unless the document says "undirected", in letters of either case |
| GraphStore.Graph.AddNode | internal/mcpserver/store.go:98-121 | appends the node with its fields repeated as attributes and keeps byID exact; the errors in the code's order |
| GraphStore.Graph.AddEdge | internal/mcpserver/store.go:125-141 | appends the edge if both ends are known |
| GraphStore.Graph.UpdateNodeAttr | internal/mcpserver/store.go:146-156 | sets one attribute of one node and keeps byID exact |
| GraphStore.Graph.WriteGraphML | internal/mcpserver/store.go:254-362 | the document written, or the first edge end that is no node |
| GraphStore.CollectAttrNames | internal/mcpserver/store.go:377-390 | the attribute names sorted, each once |
| GraphStore.Load | internal/mcpserver/store.go:160-214 | the loaded graph with an exact index, or the reader's error |
| StoreRoundTrip.KeyIdsDiffer | internal/mcpserver/store.go:292-301 | the generated key ids never collide |
| StoreRoundTrip.DataComesBack | internal/mcpserver/store.go:316-324 | the data entries of an attribute map decode to that map |
| StoreRoundTrip.EndComesBack | internal/mcpserver/store.go:309-340 | an element id leads the reader back to the node it was written for |
| StoreRoundTrip.ReloadRefreshes | internal/mcpserver/store.go:160-362 | a storable graph is read back whole: sorted, kinds and names taken from the attributes |
| StoreRoundTrip.ReloadSorts | internal/mcpserver/store.go:160-362 | if fields and attributes agree, only the order can change |
| StoreRoundTrip.SurvivesIffCanonical | internal/mcpserver/store.go:160-362 | saving and loading is the identity on exactly the canonical graphs |
| StoreRoundTrip.SecondLoadIff | internal/mcpserver/store.go:160-362 | load, save, load gives the first load again if and only if ids are non-empty and trimmed and attribute names non-empty |
| StoreRoundTrip.SavingSettles | internal/mcpserver/store.go:160-362 | whatever was saved, from its first reload on it no longer changes |
| StoreRoundTrip.AddedNodeMirrorsIff | internal/mcpserver/store.go:105-117 | when a node added in memory is read back as it is |
| StoreRoundTrip.AddedEdgeMirrorsIff | internal/mcpserver/store.go:132-138 | when an edge added in memory is read back as it is |
| GraphMerge.MergeGraphs | internal/mcpserver/multigraph.go:189-294 | refuse an unknown strategy, load both, merge, write: the document and counts, or the conflicts, or the first error |
| GraphMerge.StrictIff | internal/mcpserver/multigraph.go:214-224 | a strict merge is refused if and only if the graphs share an id, and lists exactly the shared ids, each once, in the second graph's order |
| GraphMerge.StrictMerges | internal/mcpserver/multigraph.go:214-267 | one that is not refused leaves the first graph's nodes as they were and adds all of the second's |
| GraphMerge.CountsAreExact | internal/mcpserver/multigraph.go:228-267 | the counts are the numbers of new ids and of new edge keys |
| GraphMerge.MergeNodes | internal/mcpserver/multigraph.go:228-246 | fills shared nodes, appends the others, keeps byID exact, and fails only on an empty new id |
| GraphMerge.MergeEdges | internal/mcpserver/multigraph.go:248-267 | appends the edges of new keys, the first of each |
| GraphMerge.FillMissing | internal/mcpserver/multigraph.go:235-239 | in every key order, missing attributes are filled and present ones win |
| GraphMerge.MergedIds | internal/mcpserver/multigraph.go:228-246 | the ids are exactly the union |
| GraphMerge.MergedKeys | internal/mcpserver/multigraph.go:248-267 | the edge keys are exactly the union |
| GraphMerge.MergedAttached | internal/mcpserver/multigraph.go:253-267 | no edge of a merge is loose, so the guard never drops one |
| GraphMerge.DestinationWins | internal/mcpserver/multigraph.go:229-241 | before saving, a destination node keeps place, fields and attributes, and gains only its counterpart's |
| GraphMerge.NothingToMerge | internal/mcpserver/multigraph.go:228-267 | a graph that has every id, key and attribute of another is left alone by a merge |
| GraphMerge.MergeAgain | internal/mcpserver/multigraph.go:228-267 | before saving, merging the same graph again changes nothing |
| GraphMerge.MergeSelf | internal/mcpserver/multigraph.go:228-267 | a graph merged into itself stays as it is |
| MergeOrder.NodesAssociateIff | internal/mcpserver/multigraph.go:228-246 | the nodes of three merges associate if and only if each node of the first that only the third shares is filled alike by the node there and by that node as it would be added |
| MergeOrder.MergeAssociatesIff | internal/mcpserver/multigraph.go:228-267 | merging associates under exactly that condition; edges never stand in the way |
| MergeOrder.LoadedAssociatesIff | internal/mcpserver/multigraph.go:228-267 | with a loaded third graph the condition is about names: it has one to give, or the first has a name attribute |
| MergeOrder.NamelessMergeOrderMatters | internal/mcpserver/multigraph.go:242-245 | any node without a name attribute gives a merge in which the order shows |
| EdgeTriples.KeysAreTriplesIff | internal/mcpserver/multigraph.go:248-248 | over a set of ids, with any kinds, a key belongs to one triple if and only if no id begins with an id and the arrow and none ends with the arrow and an id |
| EdgeTriples.Overlap | internal/mcpserver/multigraph.go:248-248 | two triples with one key overlap in a source or a destination |
| EdgeTriples.Collision | internal/mcpserver/multigraph.go:248-248 | any overlap of two ids gives two edges with one key |
| EdgeTriples.MergedTriples | internal/mcpserver/multigraph.go:248-267 | if keys tell triples, a merge holds exactly the triples of both graphs |
| EdgeTriples.UnionOfTriplesIff | internal/mcpserver/multigraph.go:185-267 | every merge over the ids is the union of the triples if and only if the ids do not overlap |
| MergedFiles.MergedFileLoads | internal/mcpserver/multigraph.go:189-294 | two well-named files can always be merged, saved and loaded again |
| MergedFiles.MergedFileIs | internal/mcpserver/multigraph.go:189-294 | what comes back is the merge sorted and refreshed, and saving it again changes nothing |
| MergedFiles.MergedFileIsUnion | internal/mcpserver/multigraph.go:189-294 | the saved file holds exactly the ids and edge keys of both files |
| MergedFiles.MergeFileAgain | internal/mcpserver/multigraph.go:189-294 | merging either file into the saved one again changes nothing, in memory or on disk |
| MergedFiles.MergeFileSelf | internal/mcpserver/multigraph.go:189-294 | a file merged into itself and saved holds what it held |
| MergedFiles.DestinationKept | internal/mcpserver/multigraph.go:229-241 | in the saved file a destination node has its attributes as they were and its counterpart's others; its kind and its name differ exactly when the stated attributes are missing here and present there |
| MergedFiles.SourceNodeKept | internal/mcpserver/multigraph.go:242-245 | a node that only the source has comes back as it was, its name now an attribute |
| MergedFiles.UnionRemovesNothing | internal/mcpserver/multigraph.go:189-442 | a difference from either file to the saved merge reports nothing removed |
| MergedFiles.ChangedIff | internal/mcpserver/multigraph.go:189-442 | a destination node is reported as changed if and only if its counterpart has an attribute that it lacks |
| MergedFiles.ChangesAreGains | internal/mcpserver/multigraph.go:189-442 | apart from kind and name, a reported change is an attribute gained from the counterpart |
| MergedFiles.DisplayNameOverwritten | internal/mcpserver/multigraph.go:189-442 | two files for which the destination node comes back, and is reported, under the name of its counterpart |
| FileTriples.FilesUnionIff | internal/mcpserver/multigraph.go:185-294 | every merge of two files over the ids holds the union of their triples if and only if the ids do not overlap in a way a trimmed kind can fill |
| FileTriples.FilesDifferIff | internal/mcpserver/multigraph.go:336-442 | every difference of two files lists exactly the triples that one of them lacks, under exactly that condition |
| FileTriples.FilesCollide | internal/mcpserver/multigraph.go:248-257 | ids that overlap so occur in two files whose merge loses an edge |
| FileOrder.SortKeeps | internal/mcpserver/store.go:160-214 | sorting by ends and kind keeps the order of edges that are in order |
| FileOrder.FileEdges | internal/mcpserver/multigraph.go:248-294 | under each edge key the saved merge has the destination's edges, or the source's first if there are none |
| FileOrder.BothWaysExist | internal/mcpserver/multigraph.go:189-294 | any three well-named files can be merged both ways |
| FileOrder.FilesAssociateIff | internal/mcpserver/multigraph.go:189-294 | merging three files gives the same file either way if and only if each node of the first and third only has a name attribute on one side, and no node of the second and third only gets another name |
| GraphDiff.DiffGraphs | internal/mcpserver/multigraph.go:340-442 | added, removed and changed nodes, added and removed edges, each list exact and ordered; the last edge stands for its key |
| GraphDiff.ReportedIff | internal/mcpserver/multigraph.go:376-399 | a shared node is reported as changed, once, if and only if kind, name or an attribute other than the id differs |
| GraphDiff.ChangeSays | internal/mcpserver/multigraph.go:376-399 | its entry has the new kind and name, what they were if they changed, and exactly the attributes on which the two disagree, as they were and as they are |
| GraphDiff.AddedSays | internal/mcpserver/multigraph.go:364-375 | a node is listed as added, with its kind and name, if and only if the first graph has no node with its id |
| GraphDiff.EdgesListed | internal/mcpserver/multigraph.go:405-422 | an edge is listed, by its ends and kind, if and only if it is the last with its key in the one graph and the other has none with it |
| GraphDiff.ListsAscend | internal/mcpserver/multigraph.go:401-434 | node lists ascend by id, edge lists by source and then destination |
| GraphDiff.EmptyDiffIff | internal/mcpserver/multigraph.go:340-442 | the difference is empty if and only if ids, keys and counterparts agree |
| GraphDiff.DiffSwaps | internal/mcpserver/multigraph.go:364-375 | swapping the graphs swaps added and removed nodes and edges |
| FocusDiff.Diff | internal/contract/diff.go:41-172 | the focus nodes and edges with their marks, the sorted key differences, the context count |
| FocusDiff.Grow | internal/contract/diff.go:87-112 | the focus is everything within the given hops of an added node |
| FocusDiff.FocusIsWithinHops | internal/contract/diff.go:85-112 | in focus if and only if a walk of at most that many hops over keyed nodes leads there from an added node |
| FocusDiff.FocusIsChains | internal/contract/diff.go:60-112 | in focus if and only if a chain of edges over nodes with keys, as long as the context at most, leads there from a node whose key no node had before |
| FocusDiff.EdgeMarksSay | internal/contract/diff.go:114-158 | a kept edge is context if and only if an edge of its kind joined nodes with the keys of its ends before |
| FocusDiff.KeyListsSay | internal/contract/diff.go:159-172 | the keys listed as added are those only nodes after have, those listed as removed those only nodes before have, both ascending |
| FocusDiff.FocusNodesIff | internal/contract/diff.go:130-145 | exactly the nodes in range, and exactly those with a new key marked added |
| FocusDiff.KeptEdgesElems | internal/contract/diff.go:146-158 | exactly the induced edges, context if and only if the key triple existed before |
| FocusDiff.EdgesAtAddedAreAdded | internal/contract/diff.go:114-158 | an edge at an added node is marked added |
| FocusDiff.EmptyFocusIff | internal/contract/diff.go:77-172 | the focus is empty if and only if no key is new |
| FocusDiff.SameGraphEmptyFocus | internal/contract/diff.go:41-172 | nothing is in focus when the graphs are equal |
| Curvature.SameLinksSameProjection | internal/metrics/gonum.go:31-68 | order, direction and repetition of edges do not change the projection |
| Curvature.Handshake | cmd/archmotif/curvature.go:204-226 | a sum over the ends of all edges is the sum over nodes weighted by degree |
| Curvature.CommonCount | cmd/archmotif/curvature.go:216-221 | common neighbours over all edges count every triangle three times |
| Curvature.KappaTotal | cmd/archmotif/curvature.go:204-232 | the curvatures sum to 4 per edge, less the squared degrees, plus 9 per triangle |
| Curvature.KappaCounts | cmd/archmotif/curvature.go:204-232 | the curvature of an edge is 4 less the numbers of edges at its two ends, plus 3 for each triangle on it |
| CurvatureReports.ComputeCurvatureReport | cmd/archmotif/curvature.go:140-265 | one entry per projected edge with its curvature and first orientation, sorted, with both tails |
| CurvatureReports.Project | cmd/archmotif/curvature.go:168-197 | neighbour sets, first orientation and order of the projected edges |
| CurvatureReports.TailsAreExtreme | cmd/archmotif/curvature.go:246-264 | no edge outside a tail is more extreme than one inside |
| CurvatureReports.TailLengths | cmd/archmotif/curvature.go:246-264 | both tails have the asked length, or that of the whole list if it is shorter |
| CurvatureReports.EntriesAscend | cmd/archmotif/curvature.go:234-245 | the entries ascend by curvature, then by source, then by destination |
| CurvatureReports.TriangleCount | internal/metrics/curvature.go:88-104 | counts the common neighbours of the two ends |
| CurvatureReports.ToUndirected | internal/metrics/gonum.go:31-68 | the simple undirected graph is the projection |
| CurvatureReports.Compute | internal/metrics/curvature.go:32-85 | one record per projected edge, sorted by target text, and the mean in closed form |
| CurvatureReports.KappasAgree | internal/metrics/curvature.go:32-85 | the report and the metric give the same curvatures to the same edges |
| CurvatureReports.ReportTotal | cmd/archmotif/curvature.go:140-265 | the report's curvatures add up to the closed form |
| BatchProtocol.CheckContract | internal/memopt/contract.go:120-155 | accepts exactly the consistent contracts, otherwise names the first fault |
| BatchProtocol.Validate | internal/memopt/validate.go:104-202 | accepts if and only if the reply meets the protocol and no selected id repeats, otherwise names the first fault |
| BatchProtocol.ValidateAssignments | internal/memopt/validate.go:206-253 | passes if and only if the assignments are in order and as many as the selected nodes |
| BatchProtocol.CountIsBijection | internal/memopt/validate.go:237-251 | equal counts mean that assignments and selected nodes correspond one to one |
| BatchProtocol.OpFaultSays | internal/memopt/validate.go:121-165 | which operations are at fault and how: unknown, not allowed, aimed at no selected node, or a removal without a second node where that is forbidden |
| BatchProtocol.AssignmentFaultSays | internal/memopt/validate.go:206-236 | which assignments are at fault and how: no selected node, assigned before, or an unknown outcome |
| BatchProtocol.AcceptedSays | internal/memopt/validate.go:79-202 | what a reply that meets the protocol holds: known and allowed operations on selected nodes, no bare removal where that is forbidden, a rationale for every regrouping, context sources with ids, known outcomes |
| BatchProtocol.AcceptedIffProtocol | internal/memopt/validate.go:79-104 | for a checked contract, accepted if and only if the protocol is met, and a complaint about missing nodes names one |

## Left out

- Node ids in the graph algorithms are integers, since the code only compares them and tests
  them for equality; the stores use strings.
- The two copies of Tarjan's search share one class with two flags, and the three Kahn loops
  share one drain: their texts differ only in sorting and in which components are kept.
- XML bytes: escaping, quoting of attribute names in key declarations, temporary files and
  renames. A save is one replacement of a document value.
- The duplicate-id test inside `Load` after the reader has made it: it cannot fire.
- Aliasing of attribute maps: nodes and edges are values, so copies and originals are the same.
- Graphs shared between threads: each call of `mutate` loads its own.
- `ForkGraph` and `PutTargetGraph`, which take no lock, and merging as a thread of the protocol.
- Layering scores are reals, curvatures integers: both are exact where the code uses floats.
- gonum's integer node ids in the undirected view, an order-preserving renaming.
- Layering.CondensationOrder: any order of the kind stated, since the code's sort leaves the
  nodes of one component in any order; which of them comes between the components is not stated.
- Cycles.HierarchyCycles: the order in which the components come, that of the search.
- `PartitionBy`: the quotient holds for any map from nodes to groups.
- The order of unsorted edges with equal ends in a difference, which follows the map order.
- Messages, severities and JSON names; only which error comes first is modelled.
- The spectral, clustering and modularity metrics, the remaining detectors, the command line,
  the servers and the parsers.
