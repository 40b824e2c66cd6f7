# MaharitDB, modelled and proved in Dafny

MaharitDB is a graph database. This project models its algorithmic core and proves, for all inputs and
all runs, what that core is for. `dafny verify dfyconfig.toml` checks everything.

The model follows the program's components.

* **The multigraph.** `Multigraph.dfy` is the value every store holds and every algorithm walks: live
  nodes and edges under their ids, with parallel edges and self-loops, and walks as sequences of edges.
  `GraphOps.dfy` says what each operation does to it. `GraphStore.dfy` (slot arrays, free lists,
  adjacency sets, counters, label index) and `ConcurrentGraph.dfy` (maps, growing ids) are classes
  proved against those functions, so "the edges leaving v" in an algorithm is what either store answers.
* **One interface, two stores.** `Backend.dfy` runs any command on either store with the same effect;
  `Isomorphism.dfy` shows that the stores stay the same graph up to ids, `Reads.dfy` what is read back after
  any run. `IdCounters.dfy` is the interleaving model of the shared id counters.
* **Undo.** `UndoLog.dfy` has the undo records and what they compensate, `RestoredLabels.dfy` and
  `LoggedRuns.dfy` say exactly where the log of a run leads back to, `Rollback.dfy` has the recording graph
  of the shared store and the rollback on either store, `Transactions.dfy` the transactions that the manager
  records itself on the slot store.
* **Algorithms.** Kosaraju's components, topological sorting against both cycle searches, Dijkstra, A*,
  breadth-first distances, all shortest paths, PageRank, and Brandes' betweenness. Brandes' accumulation
  is proved to compute the shares of shortest walks counted as sets of walks (`ShortestWalks.dfy`,
  `Dependencies.dfy`), that is, the recurrence is a theorem here and not the definition; `Betweenness.dfy`
  says which nodes reach the value 1.
* **Text, schema, queries, shards, calendar.** The inverted index with exact, phrase and fuzzy lookups
  over a two-row edit distance; the constraint manager; the lexer with its inverse (`Rendering.dfy`), the
  cache key and the LRU cache of parsed queries; the rebalance planner; the two Julian-day formulas.

Iteration over a hash set or hash map is a nondeterministic choice, so results hold for every order.
Weights and scores are real numbers, counters and ids are unbounded unless a 32-bit range is written out,
heaps are multisets from which some least entry is taken, a mutable argument is an input and an output.
Weight functions, heuristics, the tokenizer, the parser and the Unicode letter classes are parameters.

Some facts of the code may surprise a reader of its comments, and are stated as the code has them, with the
exact condition under which the expected property holds:

* adding the empty label files a node in the index under a label it does not get
  (`GraphStore.GraphStore.AddNodeLabel`);
* undoing the removal of a label appends it, so a recorded transaction is rolled back exactly if and only if
  every label list survives that (`LoggedRuns.ExactIff`);
* a transaction on the slot store logs a deleted node without its edges, so it is rolled back if and only if
  no edge of the start touches a deleted node (`Transactions.Transaction.Rollback`);
* a node created with several labels is checked against the constraints of its first label only
  (`Constraints.SecondLabelEscapes`);
* a constraint that requires a label other than its own refuses every node, also one that carries both labels
  (`Constraints.CreateCheckExact`, `Constraints.RequiredLabelRefusesBoth`);
* white space inside a string literal is squeezed in the cache key, so texts with different literals can share
  an entry (`QueryKey.KeyKeepsKinds`, `QueryCache.QuotedTextsCollide`);
* before year 0 the two calendar formulas differ in some years (`Calendar.DateRoundTrip`).

## Model

| member | source | states |
|---|---|---|
| `GraphStore.GraphStore.constructor` | crates/maharit-core/src/graph.rs:117-119 | an empty store satisfies the whole store invariant and holds the empty graph |
| `GraphStore.GraphStore.NodesByLabel` | crates/maharit-core/src/graph.rs:145-150 | the index answer equals a scan over all live nodes |
| `GraphStore.GraphStore.OutgoingEdges` | crates/maharit-core/src/graph.rs:436-442 | the adjacency answer equals a scan over all live edges, also for ids without a slot |
| `GraphStore.GraphStore.IncomingEdges` | crates/maharit-core/src/graph.rs:445-451 | the same for edges entering a node |
| `GraphStore.GraphStore.CreateNodeWithLabels` | crates/maharit-core/src/graph.rs:197-223 | takes the slot freed last or a new one, an id that was not live, and adds exactly that node; the invariant (adjacency = scan, no dangling edge, counters = live slots, free lists, index) is kept |
| `GraphStore.GraphStore.CreateNode` | crates/maharit-core/src/graph.rs:186-194 | one label, or none when it is empty |
| `GraphStore.GraphStore.CreateNodeWithIdAndLabels` | crates/maharit-core/src/graph.rs:239-267 | no change for a live id, otherwise exactly that node is added; skipped slots stay unlisted and the invariant is kept |
| `GraphStore.GraphStore.DeleteNode` | crates/maharit-core/src/graph.rs:280-325 | the node goes with exactly its incident edges, self-loops once, and the invariant is kept |
| `GraphStore.GraphStore.DetachOutgoing` | crates/maharit-core/src/graph.rs:286-298 | after the first loop exactly the outgoing edges are gone and the edge free list still names exactly the empty slots |
| `GraphStore.GraphStore.DetachIncoming` | crates/maharit-core/src/graph.rs:300-312 | after the second loop exactly the incident edges are gone |
| `GraphStore.GraphStore.CreateEdge` | crates/maharit-core/src/graph.rs:328-367 | fails exactly when an end is not live, naming it, and otherwise adds one edge under an id that was not live |
| `GraphStore.GraphStore.CreateEdgeWithId` | crates/maharit-core/src/graph.rs:372-408 | as above for a chosen id; slots skipped over become free, so the edge free list stays exactly the empty slots |
| `GraphStore.GraphStore.DeleteEdge` | crates/maharit-core/src/graph.rs:421-433 | removes exactly that edge from edges and both adjacency sets |
| `GraphStore.GraphStore.AddNodeLabel` | crates/maharit-core/src/graph.rs:153-167 | a new label is appended, one that is carried already changes nothing; index and nodes agree afterwards if and only if the label is not empty, the node is absent, or it has the label already |
| `GraphStore.GraphStore.RemoveNodeLabel` | crates/maharit-core/src/graph.rs:170-183 | the label is gone, the other labels keep number and order, and the index still equals the scan |
| `GraphStore.GraphStore.SetNodeProperty` | crates/maharit-core/src/graph_backend.rs:220-224 | on a live node the key then holds the value, whatever it held before; other keys, the labels, all other nodes and all edges are as before; the invariant is kept |
| `GraphStore.GraphStore.RemoveNodeProperty` | crates/maharit-core/src/graph_backend.rs:226-228 | the key then holds nothing, its old value is returned, and everything else is as before |
| `GraphStore.GraphStore.SetEdgeProperty` | crates/maharit-core/src/graph_backend.rs:239-243 | on a live edge the key then holds the value; type, ends, other keys, all other edges and all nodes are as before |
| `GraphStore.GraphStore.RemoveEdgeProperty` | crates/maharit-core/src/graph_backend.rs:245-247 | the key then holds nothing, its old value is returned, and everything else is as before |
| `Slots.FreeClaimAll` | crates/maharit-core/src/graph.rs:389-396 | claiming a slot beyond the end and listing the skipped ones keeps the free list exactly the empty slots |
| `LabelIndex.IndexedAfterWrite` | crates/maharit-core/src/concurrent_graph.rs:191-197 | writing a node over a live id keeps index and nodes in agreement if and only if no old label is dropped |
| `LabelIndex.IndexedAfterAddLabel` | crates/maharit-core/src/graph.rs:153-167 | filing under a new label agrees with the node's labels if and only if the label is not empty |
| `LabelIndex.Register` | crates/maharit-core/src/graph.rs:124-132 | exactly the listed labels gain the node, no entry becomes empty |
| `LabelIndex.Unregister` | crates/maharit-core/src/graph.rs:135-142 | exactly the listed labels lose the node; with pruning no empty entry stays |
| `ConcurrentGraph.ConcurrentGraph.CreateNodeWithLabels` | crates/maharit-core/src/concurrent_graph.rs:156-170 | the new id was never used, the same effect on the graph as the slot store |
| `ConcurrentGraph.ConcurrentGraph.CreateNodeWithIdAndLabels` | crates/maharit-core/src/concurrent_graph.rs:177-201 | writes the node, moves the counter past the id and never back; the invariant survives if and only if a live node loses no label |
| `ConcurrentGraph.ConcurrentGraph.DeleteNode` | crates/maharit-core/src/concurrent_graph.rs:227-256 | the node goes with exactly its incident edges, invariant kept |
| `ConcurrentGraph.ConcurrentGraph.CreateEdge` | crates/maharit-core/src/concurrent_graph.rs:273-300 | fails exactly when an end is not live, otherwise adds one edge under a fresh id |
| `ConcurrentGraph.ConcurrentGraph.CreateEdgeWithId` | crates/maharit-core/src/concurrent_graph.rs:306-344 | writes the edge; the invariant survives if and only if a live edge under that id had the same ends |
| `ConcurrentGraph.ConcurrentGraph.DeleteEdge` | crates/maharit-core/src/concurrent_graph.rs:363-372 | removes exactly that edge |
| `ConcurrentGraph.ConcurrentGraph.AddNodeLabel` | crates/maharit-core/src/concurrent_graph.rs:110-124 | same effect and same exact condition as the slot store |
| `ConcurrentGraph.ConcurrentGraph.RemoveNodeLabel` | crates/maharit-core/src/concurrent_graph.rs:127-140 | same effect as the slot store |
| `ConcurrentGraph.ConcurrentGraph.SetNodeProperty` | crates/maharit-core/src/concurrent_graph.rs:387-394 | the same reading afterwards as on the slot store |
| `ConcurrentGraph.ConcurrentGraph.RemoveNodeProperty` | crates/maharit-core/src/concurrent_graph.rs:405-409 | the same reading afterwards as on the slot store |
| `ConcurrentGraph.ConcurrentGraph.SetEdgeProperty` | crates/maharit-core/src/concurrent_graph.rs:396-403 | the same reading afterwards as on the slot store |
| `ConcurrentGraph.ConcurrentGraph.RemoveEdgeProperty` | crates/maharit-core/src/concurrent_graph.rs:411-414 | the same reading afterwards as on the slot store |
| `Backend.Backend.Execute` | crates/maharit-core/src/graph_backend.rs:81-128 | every command of the interface has one meaning on the multigraph and keeps the invariant of either store, hence after every run |
| `Reads.LastWriteIsRead` | crates/maharit-core/src/graph_backend.rs:220-247 | at every point of every run on either store a property or label holds what the last command that bears on it left there: the value set, nothing after a removal or a deletion, the labels a node was created with |
| `Reads.NeverWrittenIsMissing` | crates/maharit-core/src/graph_backend.rs:220-247 | and is missing when no command bore on it |
| `Reads.OthersUntouched` | crates/maharit-core/src/graph_backend.rs:197-261 | one command changes no property and no label it does not bear on |
| `Reads.LeavesContent` | crates/maharit-core/src/graph_backend.rs:197-261 | what each command leaves in a property or label it bears on; writes to what is not live are lost |
| `Reads.SetAndGet` | crates/maharit-core/src/graph_backend.rs:220-224 | a value set on a live node of either store is in the node read back, with the labels and the other keys as before |
| `Reads.Ask` | crates/maharit-core/src/graph_backend.rs:134-156 | a property or label read through the look-ups of either store is the one the stored graph has |
| `Reads.NewEdgeReads` | crates/maharit-core/src/graph.rs:328-367 | a created or restored edge has its type and its ends in that order |
| `Reads.NoDanglingEdge` | crates/maharit-core/src/graph.rs:333-338 | an edge without a live node at each end is not made |
| `Reads.NewNodeReads` | crates/maharit-core/src/graph.rs:197-223 | a created or restored node has its labels in order and no property |
| `Reads.DeletionReads` | crates/maharit-core/src/graph.rs:280-325 | a deleted node goes with exactly the edges at it |
| `Isomorphism.Simulates` | crates/maharit-core/src/graph_backend.rs:133-393 | corresponding commands on isomorphic graphs leave isomorphic graphs, whatever ids the sides pick |
| `Isomorphism.TwinsStayIsomorphic` | crates/maharit-core/src/graph_backend.rs:133-393 | at every point of every common run the two stores hold isomorphic graphs |
| `Isomorphism.TwinCommand` | crates/maharit-core/src/graph_backend.rs:133-393 | every command that one side allows has a corresponding one that the other side allows |
| `Isomorphism.RunTwins` | crates/maharit-core/src/graph_backend.rs:133-393 | running both stores in lockstep on any commands, each under its own ids, leaves isomorphic graphs and never a command only one side allows |
| `Isomorphism.SameAnswers` | crates/maharit-core/src/graph_backend.rs:44-70 | isomorphic graphs give corresponding answers to label and adjacency queries and have the same sizes |
| `Isomorphism.Record` | crates/maharit-core/src/graph_backend.rs:81-128 | running commands on either store leaves a trace to which the isomorphism theorem applies |
| `UndoLog.DeleteNodeUndone` | crates/maharit-server/src/mutation_log.rs:188-223 | the records of a node deletion, applied in reverse to the graph without the node, give back the graph: node first, then its edges, self-loops included |
| `UndoLog.EdgesUndone` | crates/maharit-storage/src/transaction.rs:301-316 | the records of listed edges, applied in reverse, restore exactly those edges with their properties |
| `UndoLog.UndoesPush` | crates/maharit-storage/src/transaction.rs:268-269 | a record that compensates one step extends a log that leads back from the graph before it |
| `UndoLog.UndoesJoin` | crates/maharit-storage/src/transaction.rs:268-269 | logs applied one after the other are one log |
| `UndoLog.NodeBack` | crates/maharit-storage/src/transaction.rs:274-284 | the record of a node alone brings back the node and none of its edges |
| `UndoLog.RemoveLabelUndoneExactly` | crates/maharit-storage/src/transaction.rs:331-334 | taking a label off and putting it back restores the graph if and only if the label stood last and nowhere else |
| `UndoLog.RemoveLabelUndone` | crates/maharit-storage/src/transaction.rs:331-334 | up to label order it is restored if and only if it is not the empty label |
| `UndoLog.AddLabelUndone` | crates/maharit-storage/src/transaction.rs:327-330 | undoing an added label restores the graph exactly |
| `UndoLog.SetNodePropertyUndone` | crates/maharit-server/src/mutation_log.rs:238-249 | the recorded old value restores the properties exactly, also when there was none or no node |
| `RestoredLabels.AddedFirst` | crates/maharit-storage/src/transaction.rs:327-330 | taking off again an added label leaves what a rollback would have left without it |
| `RestoredLabels.RemovedFirst` | crates/maharit-storage/src/transaction.rs:331-334 | a label taken off first comes back last |
| `LoggedRuns.StepLeads` | crates/maharit-storage/src/transaction.rs:268-335 | for every command: its records lead from the later graph to the earlier one, both with labels restored |
| `LoggedRuns.LogLeadsBack` | crates/maharit-storage/src/transaction.rs:255-345 | the log of any run leads back to exactly the start, with each node's labels as follows: those never taken off before the node's first deletion, in order, then the others, the one taken off first last |
| `LoggedRuns.ExactIff` | crates/maharit-storage/src/transaction.rs:331-334 | that is the start itself if and only if every label list equals its restored list |
| `LoggedRuns.SameIff` | crates/maharit-storage/src/transaction.rs:331-334 | and the start up to the order of labels if and only if no empty label was taken off |
| `LoggedRuns.TakenFromTheMiddle` | crates/maharit-storage/src/transaction.rs:331-334 | two literal runs: a label taken off from the middle that comes back in place, and one that does not |
| `Rollback.RecordingGraph.CreateNodeWithLabels` | crates/maharit-server/src/mutation_log.rs:161-169 | carries out the command and logs exactly its record, so that the log is that of a run from the start |
| `Rollback.RecordingGraph.CreateEdge` | crates/maharit-server/src/mutation_log.rs:171-186 | the same; an error names the missing end and logs nothing |
| `Rollback.RecordingGraph.DeleteNode` | crates/maharit-server/src/mutation_log.rs:188-223 | the same, with the edges at the node logged before it; returns the node, logs nothing when there is none |
| `Rollback.RecordingGraph.DeleteEdge` | crates/maharit-server/src/mutation_log.rs:225-236 | the same; returns the edge, logs nothing when there is none |
| `Rollback.RecordingGraph.SetNodeProperty` | crates/maharit-server/src/mutation_log.rs:238-249 | the same, also for a node that is not live |
| `Rollback.RecordingGraph.RemoveNodeProperty` | crates/maharit-server/src/mutation_log.rs:251-264 | the same; returns the old value, logs nothing when there is none |
| `Rollback.RecordingGraph.AddNodeLabel` | crates/maharit-server/src/mutation_log.rs:266-279 | the same; logs only a label that is new |
| `Rollback.RecordingGraph.RemoveNodeLabel` | crates/maharit-server/src/mutation_log.rs:281-297 | the same; logs only a label that was there |
| `Rollback.RecordingGraph.SetEdgeProperty` | crates/maharit-server/src/mutation_log.rs:299-313 | the same |
| `Rollback.RecordingGraph.RemoveEdgeProperty` | crates/maharit-server/src/mutation_log.rs:315-328 | the same; returns the old value, logs nothing when there is none |
| `Rollback.RecordingGraph.RestoreNode` | crates/maharit-server/src/mutation_log.rs:330-338 | a restored node is undone by deletion |
| `Rollback.RecordingGraph.RestoreEdge` | crates/maharit-server/src/mutation_log.rs:340-357 | a restore inside a transaction is itself undone by deletion; an error logs nothing |
| `Rollback.RecordingGraph.Rollback` | crates/maharit-storage/src/transaction.rs:255-345 | ends with exactly the start with its labels restored: the start itself if and only if every label list survives, and always up to the order of labels; nodes not reported as touched did not change |
| `Rollback.ApplyLog` | crates/maharit-storage/src/transaction.rs:268-335 | on either store, applying a log makes the graph exactly the one the log leads to |
| `Rollback.DeleteAndRestore` | crates/maharit-core/src/graph_backend.rs:118-128 | on either store, deleting a node and restoring it, its properties and its edges gives the same graph, self-loops included |
| `Rollback.ApplyUndo` | crates/maharit-storage/src/transaction.rs:268-335 | the backend calls for a record have exactly the compensating effect, properties set in any order |
| `Rollback.IncidentEdges` | crates/maharit-server/src/mutation_log.rs:189-203 | lists each edge at the node once |
| `Rollback.RunAndRollBack` | crates/maharit-storage/src/transaction.rs:255-345 | any run of commands through the recording graph on the shared store, then rollback: the graph it found with labels restored, and that graph itself if and only if every label list survives |
| `Transactions.Transaction.CreateNode` | crates/maharit-storage/src/transaction.rs:348-366 | refused when read-only or finished, otherwise one node is added and logged |
| `Transactions.Transaction.DeleteNode` | crates/maharit-storage/src/transaction.rs:369-403 | refused when read-only, finished or not locked, otherwise the node goes with its edges and only the node is logged |
| `Transactions.Transaction.SetProperty` | crates/maharit-storage/src/transaction.rs:406-450 | refused likewise, otherwise the property is set and its old value logged |
| `Transactions.Transaction.Commit` | crates/maharit-storage/src/transaction.rs:226-242 | ends an active transaction and forgets its log |
| `Transactions.Transaction.Rollback` | crates/maharit-storage/src/transaction.rs:245-247 | leads to the start without the edges at deleted nodes; that is the start, even if only up to label order, if and only if no edge of the start touches a node the transaction deleted |
| `Transactions.ManagedLogLeadsBack` | crates/maharit-storage/src/transaction.rs:348-450 | the same for the log of every run of the three operations |
| `Transactions.NothingLostIff` | crates/maharit-storage/src/transaction.rs:369-403 | nothing is lost if and only if no edge touches a deleted node |
| `Transactions.DeletionUndoneIff` | crates/maharit-storage/src/transaction.rs:369-403 | one deletion is undone by its record if and only if the node had no edges |
| `Transactions.EdgeIsLost` | crates/maharit-storage/src/transaction.rs:369-403 | two nodes and an edge: after deleting one and rolling back the edge is gone |
| `IdCounters.NeverDecreases` | crates/maharit-core/src/concurrent_graph.rs:177-190 | under every interleaving the counter never goes back |
| `IdCounters.AllocationsAreDistinct` | crates/maharit-core/src/concurrent_graph.rs:157-157 | no two fetch-and-add allocations get the same id |
| `IdCounters.NoneAfterClaim` | crates/maharit-core/src/concurrent_graph.rs:319-330 | no allocation that finishes after a create-with-id loop gets that id |
| `IdCounters.RetriesAreBounded` | crates/maharit-core/src/concurrent_graph.rs:179-190 | the loop fails at most id + 1 - (first value seen) times, never when that value was past the id |
| `IdCounters.BoundReachedMeansDone` | crates/maharit-core/src/concurrent_graph.rs:179-190 | a loop that used up the bound leaves at its next test |
| `IdCounters.ClaimAfterAllocationMayCollide` | crates/maharit-core/src/concurrent_graph.rs:177-190 | the order in the previous rows is needed: an allocated id can be claimed later |
| `StrongComponents.StronglyConnectedComponents` | crates/maharit-core/src/algorithms.rs:472-506 | the sets are exactly the mutual-reachability classes, cover all live nodes, are disjoint, and edges between different sets go from earlier to later ones |
| `StrongComponents.DfsFinish` | crates/maharit-core/src/algorithms.rs:617-632 | finished nodes that reach an unfinished node have an unfinished partner in their own class |
| `StrongComponents.DfsCollect` | crates/maharit-core/src/algorithms.rs:634-650 | collects nodes that reach the root and closes the visited set under predecessors |
| `StrongComponents.CollectedIsClass` | crates/maharit-core/src/algorithms.rs:488-503 | what one backward search from the latest unvisited node collects is its whole class |
| `Cycles.TopologicalSort` | crates/maharit-core/src/algorithms.rs:551-586 | some order exactly when no closed walk exists; the order is a permutation of the live nodes that respects every edge; no in-degree underflows |
| `Cycles.HasCycle` | crates/maharit-core/src/algorithms.rs:513-524 | true exactly when a closed walk exists |
| `Cycles.FindCycles` | crates/maharit-core/src/algorithms.rs:527-548 | empty exactly when no closed walk exists; every entry is a simple closed walk; each entry is closed by an edge of its own such that without these edges no closed walk is left, while the entry itself avoids all the others, so none can be spared |
| `Cycles.DfsCycle` | crates/maharit-core/src/algorithms.rs:652-673 | a found cycle is real, and a finished search leaves a cycle-free visited part |
| `Cycles.FindCyclesDfs` | crates/maharit-core/src/algorithms.rs:675-700 | keeps the listing invariant, restores the recursion stack, and records every back edge below the node with its cycle exactly once |
| `Cycles.ClosedWalkIsCut` | crates/maharit-core/src/algorithms.rs:688-693 | every closed walk takes the closing step of a listed cycle |
| `Cycles.InDegrees` | crates/maharit-core/src/algorithms.rs:554-558 | the counts are the numbers of entering edges |
| `Cycles.TopologicalAcyclic` | crates/maharit-core/src/algorithms.rs:550-586 | a graph with a topological order has no closed walk |
| `Cycles.StuckIsCyclic` | crates/maharit-core/src/algorithms.rs:580-585 | when the queue runs dry early, a closed walk exists |
| `BestFirst.AnswersAgree` | crates/maharit-core/src/traversal.rs:771-822 | two correct shortest-path answers agree on existence and weight, so A* reports the weight Dijkstra reports |
| `BestFirst.WeightOfJoin` | crates/maharit-core/src/traversal.rs:771-822 | weights add up along walks and an edge weighs what the weight function says |
| `BestFirst.ReconstructPath` | crates/maharit-core/src/traversal.rs:675-700 | the links give a real edge path with the recorded weight |
| `Dijkstra.FindPath` | crates/maharit-core/src/traversal.rs:580-624 | for non-negative weights: none exactly when unreachable, otherwise a real path of the reported weight and no walk is lighter, despite stale heap entries and early exit |
| `Dijkstra.DistancesFrom` | crates/maharit-core/src/traversal.rs:629-673 | holds exactly the reachable live nodes with their least weights |
| `AStar.FindPath` | crates/maharit-core/src/traversal.rs:771-822 | for a consistent heuristic the same specification as Dijkstra, although closed nodes are never reopened |
| `Hops.BfsDistances` | crates/maharit-core/src/algorithms.rs:592-615 | reached exactly when reachable, with the least number of edges |
| `Hops.ShortestPath` | crates/maharit-core/src/traversal.rs:259-296 | none exactly when unreachable, otherwise the nodes of a walk with the fewest edges |
| `AllShortestPaths.AllShortestPaths` | crates/maharit-core/src/traversal.rs:302-360 | lists the node sequences of exactly the walks with the fewest edges, once per walk, empty exactly when unreachable |
| `AllShortestPaths.ReconstructAllPaths` | crates/maharit-core/src/traversal.rs:363-384 | terminates, restores the shared path, and adds one path per shortest walk to the current node |
| `ShortestWalks.WalksExactly` | crates/maharit-core/src/algorithms.rs:159-174 | the counted sets hold exactly the walks of a length between two nodes |
| `ShortestWalks.SigmaIn` | crates/maharit-core/src/algorithms.rs:159-174 | the number of shortest walks to a node is the sum over its level edges |
| `Dependencies.ThroughCount` | crates/maharit-core/src/algorithms.rs:176-187 | shortest walks through v are the product of walks to v and walks from v |
| `Dependencies.DependencyRecurrence` | crates/maharit-core/src/algorithms.rs:176-187 | the shares of shortest walks through a node satisfy the backward accumulation rule |
| `Dependencies.TotalDependency` | crates/maharit-core/src/algorithms.rs:176-190 | the shares of all nodes together are the sum over reachable targets of hop distance minus one |
| `Brandes.ForwardPass` | crates/maharit-core/src/algorithms.rs:142-174 | sigma is the number of shortest walks, predecessor lists the level edges, the stack is ordered by distance |
| `Brandes.HandBack` | crates/maharit-core/src/algorithms.rs:179-187 | one node of the stack hands its share back to its predecessors |
| `Brandes.BrandesSingle` | crates/maharit-core/src/algorithms.rs:141-190 | each score is the sum over targets of the fraction of shortest walks through the node, and all scores add up to the sum of hop distances minus one |
| `Brandes.BetweennessCentrality` | crates/maharit-core/src/algorithms.rs:132-223 | the sum over all sources of the shares of shortest walks, normalised: every value lies between 0 and 1, for more than two nodes it is 1 if and only if the node is on every shortest walk between any two others and all those are connected, for fewer it is 0 |
| `Brandes.CentralityBounds` | crates/maharit-core/src/algorithms.rs:213-220 | the same of the normalised sum, from the walks alone |
| `Betweenness.SourceBound` | crates/maharit-core/src/algorithms.rs:176-190 | one source adds at most the number of other nodes, and all of it exactly when no shortest walk to any of them avoids the node |
| `Betweenness.PairBounds` | crates/maharit-core/src/algorithms.rs:176-187 | one pair adds at most 1, and 1 exactly when it is connected only through the node |
| `PageRank.Pagerank` | crates/maharit-core/src/algorithms.rs:267-348 | the scores are the stated iterate, it stops at the first small change, and with 0.85, 100 and 0.000001 it converges on every graph |
| `PageRank.Round` | crates/maharit-core/src/algorithms.rs:305-327 | every new score written out over the graph: (1 - d)/n, plus d times the sum over the entering edges of the score of their source over its number of edges, plus d times an n-th of what dangling nodes hold |
| `PageRank.IterationWrittenOut` | crates/maharit-core/src/algorithms.rs:305-327 | the iteration operator is that expression |
| `PageRank.EqualShares` | crates/maharit-core/src/algorithms.rs:307-313 | a node hands the same share to each of its edges, and the shares add up to its score |
| `PageRank.EdgeNamesDoNotMatter` | crates/maharit-core/src/algorithms.rs:303-335 | renaming the edges leaves every score of every iteration the same |
| `PageRank.StartIsEven` | crates/maharit-core/src/algorithms.rs:281-288 | the first scores are 1/n |
| `PageRank.DistanceWrittenOut` | crates/maharit-core/src/algorithms.rs:329-335 | the change is the sum of the absolute differences |
| `PageRank.PushConserves` | crates/maharit-core/src/algorithms.rs:307-327 | pushing scores along edges, with dangling mass spread evenly, conserves their sum |
| `PageRank.ScoresSumToOne` | crates/maharit-core/src/algorithms.rs:303-335 | the scores sum to one after every iteration |
| `PageRank.IterateIsDistribution` | crates/maharit-core/src/algorithms.rs:303-335 | scores are never negative |
| `PageRank.Contraction` | crates/maharit-core/src/algorithms.rs:303-335 | one iteration brings any two score vectors closer by the damping factor |
| `PageRank.StepDifference` | crates/maharit-core/src/algorithms.rs:329-340 | the k-th change is at most twice the k-th power of the damping factor |
| `PageRank.CloseToStationary` | crates/maharit-core/src/algorithms.rs:303-340 | the iterates approach a stationary distribution at that rate |
| `PageRank.DefaultConverges` | crates/maharit-core/src/algorithms.rs:241-247 | with 0.85, 100 and 1e-6 the hundredth change is below the tolerance on every graph |
| `Levenshtein.LevenshteinDistance` | crates/maharit-core/src/fulltext.rs:179-208 | the two swapped rows compute the recursive edit distance, and the argument swap terminates |
| `Levenshtein.FillRow` | crates/maharit-core/src/fulltext.rs:194-203 | one pass turns the row of a prefix into the row of the next |
| `Levenshtein.Symmetric` | crates/maharit-core/src/fulltext.rs:179-208 | the distance is symmetric |
| `Levenshtein.ZeroIffEqual` | crates/maharit-core/src/fulltext.rs:179-208 | it is zero exactly for equal strings |
| `Levenshtein.Triangle` | crates/maharit-core/src/fulltext.rs:179-208 | it satisfies the triangle inequality |
| `Levenshtein.NoShorterScript` | crates/maharit-core/src/fulltext.rs:176-208 | no sequence of insertions, deletions and replacements is shorter |
| `Levenshtein.ShortestScript` | crates/maharit-core/src/fulltext.rs:176-208 | some sequence attains it |
| `InvertedIndex.PositionMap` | crates/maharit-core/src/fulltext.rs:305-309 | groups exactly the positions of each token, ascending |
| `InvertedIndex.WrittenAgreesIff` | crates/maharit-core/src/fulltext.rs:311-323 | after an addition postings equal token positions if and only if the document is new or its new text has every old token |
| `InvertedIndex.InvertedIndex.AddDocument` | crates/maharit-core/src/fulltext.rs:288-324 | totals always match the stored texts; postings under the condition of the previous row |
| `InvertedIndex.InvertedIndex.RemoveDocument` | crates/maharit-core/src/fulltext.rs:327-341 | removes the document with everything earlier texts left behind, keeps the others, leaves no empty list |
| `InvertedIndex.ErasedAgrees` | crates/maharit-core/src/fulltext.rs:327-341 | postings of every other document stay as they were |
| `InvertedIndex.InvertedIndex.BuildIndex` | crates/maharit-core/src/fulltext.rs:499-557 | leaves contents that are the outcome of adding the documents in order, from any contents |
| `InvertedIndex.AddedAllIsFunctional` | crates/maharit-core/src/fulltext.rs:499-557 | that outcome is unique, so bulk building equals one-by-one addition |
| `InvertedIndex.BatchAgrees` | crates/maharit-core/src/fulltext.rs:499-557 | a batch of new documents keeps postings equal to token positions |
| `InvertedIndex.InvertedIndex.DocumentsWithToken` | crates/maharit-core/src/fulltext.rs:371-376 | exactly the documents listed under the token, and for every document whose postings agree with its text, whether the text has it |
| `InvertedIndex.InvertedIndex.IsPhraseInDoc` | crates/maharit-core/src/fulltext.rs:390-417 | true exactly when the tokens are a contiguous part of the text |
| `InvertedIndex.InvertedIndex.ContainsPhrase` | crates/maharit-core/src/fulltext.rs:752-770 | exactly the nodes with a document that holds the phrase |
| `InvertedIndex.InvertedIndex.ContainsAll` | crates/maharit-core/src/fulltext.rs:783-799 | exactly the nodes with a document that has all tokens, none for an empty query |
| `InvertedIndex.InvertedIndex.ContainsFuzzy` | crates/maharit-core/src/fulltext.rs:772-781 | exactly the nodes with a document that has a token within the edit distance |
| `Constraints.ConstraintManager.ValidateNodeCreate` | crates/maharit-core/src/constraint.rs:200-287 | accepted exactly when disabled or every constraint on the label fits; an error is of the kind of one that does not, and shows a property that really fails with the value it has |
| `Constraints.ConstraintManager.ValidateEdgeCreate` | crates/maharit-core/src/constraint.rs:290-333 | accepted exactly when both ends carry the demanded labels |
| `Constraints.ConstraintManager.ValidatePropertySet` | crates/maharit-core/src/constraint.rs:336-395 | accepted exactly when every constraint on the property and one of the labels fits; an error shows the property and value that fail |
| `Constraints.ConstraintManager.ValidatePropertyRemove` | crates/maharit-core/src/constraint.rs:398-424 | accepted exactly when no not-null constraint names the property |
| `Constraints.CheckUniqueSingle` | crates/maharit-core/src/constraint.rs:426-455 | finds a clash exactly when another labelled node has the value |
| `Constraints.CheckUniqueComposite` | crates/maharit-core/src/constraint.rs:457-509 | finds a clash exactly when another labelled node has all the values; a missing property is never a clash |
| `Constraints.CheckedStepKeeps` | crates/maharit-core/src/constraint.rs:200-551 | every accepted change keeps every constraint true of the whole graph |
| `Constraints.AcceptedIffKept` | crates/maharit-core/src/constraint.rs:200-551 | a change of live elements is accepted if and only if the whole schema is true of the graph after it; for a created node when no constraint on its first label requires another label |
| `Constraints.CreateCheckExact` | crates/maharit-core/src/constraint.rs:200-287 | on the first label a node is refused exactly when it would break the constraint, or the constraint requires a label other than its own |
| `Constraints.RequiredLabelRefusesBoth` | crates/maharit-core/src/constraint.rs:258-279 | a node with both labels that is refused though it breaks nothing |
| `Constraints.SetCheckExact` | crates/maharit-core/src/constraint.rs:336-395 | a value is refused exactly when it would break the constraint |
| `Constraints.RemoveCheckExact` | crates/maharit-core/src/constraint.rs:398-424 | a removal is refused exactly when it would break the constraint |
| `Constraints.EdgeCheckExact` | crates/maharit-core/src/constraint.rs:290-333 | an edge is refused exactly when it would break the constraint |
| `Constraints.AcceptedValues` | crates/maharit-core/src/constraint.rs:511-551 | a type accepts Null and the values of its own kind, never a temporal value |
| `Constraints.ConstraintsAlwaysHold` | crates/maharit-core/src/constraint.rs:200-551 | so at every point of every validated run from the empty graph, for unique (single and composite), not-null, type, required-label and endpoint constraints |
| `Constraints.SingleLabelRunsHold` | crates/maharit-core/src/constraint.rs:200-551 | in particular when every node is created with at most one label |
| `Constraints.CreateKeepsIff` | crates/maharit-core/src/constraint.rs:200-287 | adding a node keeps a constraint if and only if the node is admissible under any of its labels |
| `Constraints.CheckedCreateKeepsIff` | crates/maharit-query/src/executor.rs:868-918 | a node checked on its first label keeps the schema if and only if it is admissible for the constraints on its other labels |
| `Constraints.SecondLabelEscapes` | crates/maharit-query/src/executor.rs:868-918 | an accepted node with two labels that breaks a not-null constraint |
| `Lexer.Lexer.SkipWhitespace` | crates/maharit-query/src/lexer.rs:525-548 | leaves the text behind leading white space, line and block comments |
| `Lexer.Lexer.ReadNumber` | crates/maharit-query/src/lexer.rs:568-612 | reads the longest number with one look-ahead after the dot, or its overflow error |
| `Lexer.Lexer.ReadString` | crates/maharit-query/src/lexer.rs:614-665 | reads a quoted text with escapes, or its error |
| `Lexer.Lexer.NextToken` | crates/maharit-query/src/lexer.rs:359-506 | the token at the start of the skipped text, how much of it is consumed, its span, and the line and column where it starts, for errors too |
| `Lexer.Lexer.ReadSymbol` | crates/maharit-query/src/lexer.rs:383-482 | operators of two characters before those of one, punctuation, and the error for any other character |
| `Lexer.Lexer.Tokenize` | crates/maharit-query/src/lexer.rs:345-356 | the tokens of the whole text, each covering exactly its span with its line and column, nothing but white space and comments between them; or the first error, with the line and column where the token that fails begins |
| `Rendering.RenderRoundTrip` | crates/maharit-query/src/lexer.rs:345-665 | tokens written out with any white space and comments around them are read back as the same tokens: keywords, names, parameters, integers up to 64 bits, floats, strings with all escapes, and every operator |
| `Rendering.SpellingScanned` | crates/maharit-query/src/lexer.rs:359-506 | a spelling with white space behind it is read as the token it was written from |
| `Rendering.LongestOperator` | crates/maharit-query/src/lexer.rs:383-482 | of the 24 operators the longest that fits is taken, and an unexpected character reported exactly when none does |
| `Rendering.IntScanned` | crates/maharit-query/src/lexer.rs:568-612 | digits are their decimal value, and an error exactly above 9223372036854775807 |
| `Rendering.DotScanned` | crates/maharit-query/src/lexer.rs:575-598 | a dot belongs to a number when a digit or nothing follows; the bounds of a range stay integers |
| `Rendering.EscapeYields` | crates/maharit-query/src/lexer.rs:627-656 | \n is a line break, \t a tab, any other escaped character itself |
| `Rendering.LiteralScanned` | crates/maharit-query/src/lexer.rs:614-665 | every string can be written between either quote and is read back |
| `Rendering.GapSkipped` | crates/maharit-query/src/lexer.rs:525-548 | white space, a line comment and a block comment leave no trace |
| `QueryKey.KeyKeepsKinds` | crates/maharit-query/src/cache.rs:279-281 | for every text without comments: text and key have the same token kinds or error if and only if the key has an error, or all white space in literals is single blanks and the text does not end in space behind a dotted number |
| `QueryKey.KeyKeepsKindsWithoutDot` | crates/maharit-query/src/cache.rs:279-281 | in particular when the last character that is not a space is no dot |
| `QueryKey.NormalizeIsTail` | crates/maharit-query/src/cache.rs:279-281 | joining the words with blanks is squeezing the white space |
| `QueryKey.LiteralTail` | crates/maharit-query/src/lexer.rs:614-665 | a literal ends in the key where it ends in the text, and keeps its value if and only if its white space is single blanks |
| `QueryKey.TokenTail` | crates/maharit-query/src/lexer.rs:359-506 | any other token is the same in text and key, but for a number that loses the space behind its dot |
| `QueryCache.SameKeySameKinds` | crates/maharit-query/src/cache.rs:279-281 | two such texts with one key have the same token kinds |
| `QueryCache.SamePlainKeySameKinds` | crates/maharit-query/src/cache.rs:279-281 | in particular texts without quotes |
| `QueryCache.QuotedTextsCollide` | crates/maharit-query/src/cache.rs:279-281 | two string literals that differ in inner space share a key and have different tokens |
| `QueryCache.RecentIsPrefix` | crates/maharit-query/src/cache.rs:80-115 | keeping c keys all along equals keeping the c keys used last |
| `QueryCache.ByLastUseMeans` | crates/maharit-query/src/cache.rs:80-115 | that list has each used key once, ordered by last use |
| `QueryCache.QueryCache.GetOrParse` | crates/maharit-query/src/cache.rs:80-115 | a hit returns the parse of the text the key was cached from, moves it to the front and counts it; a miss parses and caches only what parses, with no hit yet and the other entries as they were; an error changes no entry |
| `QueryCache.QueryCache.EvictLru` | crates/maharit-query/src/cache.rs:148-162 | the least access time belongs to the key used longest ago, and only that entry goes; an empty cache is left alone |
| `QueryCache.QueryCache.Invalidate` | crates/maharit-query/src/cache.rs:124-127 | removes exactly that key, keeps the order and the entries of the others and all counters |
| `QueryCache.Run` | crates/maharit-query/src/cache.rs:66-162 | after any run the cache holds exactly the c keys used last, every result is the parse of a text of the run, not later, with the same key, and hits and misses add up |
| `Rebalance.ShardMap.RebalancePlan` | crates/maharit-cluster/src/shard.rs:137-194 | moves go from shards above the rounded-down average to shards below it and lift these to exactly the average; the total is kept, no active shard ends below the average or more than total mod n above it, other shards are untouched, and no list of moves that lifts all shards is shorter |
| `Rebalance.PlanConserves` | crates/maharit-cluster/src/shard.rs:137-194 | the total is conserved, no active shard exceeds the ideal by more than total mod n, other shards are untouched |
| `Rebalance.FewestMoves` | crates/maharit-cluster/src/shard.rs:137-194 | no list of moves that lifts all shards to the ideal is shorter |
| `Rebalance.PairUp` | crates/maharit-cluster/src/shard.rs:162-191 | the two worklists with their remainders produce such a plan |
| `Calendar.DayRoundTrip` | crates/maharit-core/src/property.rs:152-177 | day to date and back is the identity if and only if the year counted from March is one the truncating divisions count right |
| `Calendar.DayRoundTripCommonEra` | crates/maharit-core/src/property.rs:152-177 | in particular for every 32-bit day from 0001-01-01 on |
| `Calendar.CenturyBeforeZero` | crates/maharit-core/src/property.rs:167-177 | 1 March of the year -100 comes back one day late |
| `Calendar.DateRoundTrip` | crates/maharit-core/src/property.rs:152-177 | date to day and back is the identity on a valid date from -4800-03-01 that fits if and only if its year counted from March is one the formula counts right |
| `Calendar.DateRoundTripCommonEra` | crates/maharit-core/src/property.rs:152-177 | in particular on every valid date from March of year 0 that fits |
| `Calendar.DayNumbersCount` | crates/maharit-core/src/property.rs:167-177 | the day after a date has the next number, corrected by the days by which the formula is late in the two years; 1970-01-01 has number 0 |
| `Calendar.DayNumbersCountCommonEra` | crates/maharit-core/src/property.rs:167-177 | from year 0 on the day after a date has the next number |
| `Calendar.NextNumberNextDate` | crates/maharit-core/src/property.rs:152-164 | the next number is the next date of the calendar |
| `Calendar.DatesAreValid` | crates/maharit-core/src/property.rs:152-164 | every computed date exists in the Gregorian calendar |
| `Calendar.InstantRoundTrip` | crates/maharit-core/src/property.rs:180-200 | milliseconds to components and back is the identity if and only if the day makes the round trip |
| `Calendar.ComponentsRoundTrip` | crates/maharit-core/src/property.rs:180-200 | valid components to milliseconds and back is the identity if and only if the date makes the round trip |
| `Calendar.InstantsCount` | crates/maharit-core/src/property.rs:180-200 | the next millisecond of the clock and calendar has the next number; midnight of 1970-01-01 has number 0 |
| `Calendar.AddMonthsLands` | crates/maharit-core/src/property.rs:362-385 | adding months lands on the same day of the month that many turns of the calendar later, or that month's last day when it is shorter, if and only if the formula counts that date's year right |
| `Calendar.AddedMonth` | crates/maharit-core/src/property.rs:364-366 | the month the two divisions by twelve name is the one the calendar turns to |
| `Calendar.TurnsCount` | crates/maharit-core/src/property.rs:364-366 | n turns of the calendar move the count of months by n and stay between January and December |
| `Calendar.TurnsAdd` | crates/maharit-core/src/property.rs:364-366 | turns add up, and n back cancel n forward |
| `Calendar.TwelveMonths` | crates/maharit-core/src/property.rs:364-366 | twelve months are a year |
| `Calendar.AddDurationCounts` | crates/maharit-core/src/property.rs:362-370 | the days and the whole days in the milliseconds are then counted on from that date, or back to it |
| `Calendar.MonthsThereAndBack` | crates/maharit-core/src/property.rs:362-385 | two additions with opposite months return to the day number if and only if no clamping happened on the way |

## Left out

- Parser, planner, executor, write-ahead log, MVCC, locks, replication, authentication, network servers and clients, import and export, visualisation: not modelled, except the one executor step that checks and creates a node, and the undo records.
- IEEE rounding, NaN, signed zero and counter overflow: weights and scores are reals, ids and counters are unbounded.
- BM25 scores and ranked search: only the unranked lookups are modelled. The query syntax that selects phrase, fuzzy or plain lookup is not; the three lookups take their parts.
- InvertedIndex.InvertedIndex.ContainsPhrase: takes the phrase inside the quotes, and an index without stale postings; when a re-added document leaves some, InvertedIndex.WrittenAgreesIff says exactly.
- InvertedIndex.InvertedIndex.ContainsAll: takes an index without stale postings.
- InvertedIndex.InvertedIndex.ContainsFuzzy: takes the lower-cased term and the distance, and an index without stale postings.
- Thread-parallel branches of PageRank, betweenness and bulk indexing: only the sequential code, which computes the same sums.
- Races between graph operations of the shared store: its operations are modelled one at a time; only the id counters are interleaved.
- The write-ahead entries of the recording graph: only its undo records are modelled.
- Locks, deadlocks and timeouts of transactions: acquiring a lock is an input with or without an error. The recording interface that appends single records from outside is not modelled.
- Closeness and degree centrality, label propagation, weakly connected components, breadth- and depth-first iterators, bounded path enumeration: easy members beside the ones above.
- `PlanCache` and `AstCache`: the same eviction as `QueryCache`.
- Parsing and printing of dates and durations.
- Lexer.Lexer.NextToken: spans count characters, not bytes.
- Dijkstra.FindPath: negative weights and a source beyond the slot array are outside the contract; the source code indexes out of range for the latter.
- AStar.FindPath: heuristics that are not consistent are outside the contract.
- Rollback.RecordingGraph.AddNodeLabel: requires a non-empty label, because the label index disagrees with the nodes after an empty one.
- Rollback.RecordingGraph.RemoveNodeLabel: requires a non-empty label, because an empty label is never put back.
- Backend.Backend.Execute: excludes empty labels and restores of live ids, on which the stores differ or break their index; the methods of both stores cover those calls with exact conditions.
- Rollback.RecordingGraph.RestoreEdge: requires an id that is not live, for the same reason.
- Rollback.RunAndRollBack: rolls back at the first command outside those conditions.
- Isomorphism.TwinsStayIsomorphic: restores of live ids are excluded, because the slot store ignores them and the shared store overwrites.
- Constraints.AcceptedIffKept: nodes without a label, constraints on further labels of a new node, and edges between nodes that are not live are outside the contract; the validating methods cover them.
- QueryKey.KeyKeepsKinds: texts with comment marks are outside the contract, because a key joins the lines that end a comment.
- Calendar.DayRoundTrip: days before -4800-03-01 are outside the contract.
- Calendar.DateRoundTrip: dates before -4800-03-01 are outside the contract.
