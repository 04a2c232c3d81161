# Path-cover engine of tlaplus-path-extractor, in Dafny

The path extractor takes the state graph that TLC explores, with states as nodes and transitions ("actions") as edges. It computes a small set of trails that start and end at the initial state (the "root") and together cover every transition.

It works on a flow network:

1. **Building the network.** `StateGraphPathExtractor` adds one node per state and one capacity-INF action edge per transition. Node 0 is a source. `JsonStateWriter` drives these calls as TLC reports initial states and successors. The model's corrected builder also links every initial state after the first to the root (see Findings).
2. **The reduction.** `constructNetwork` adds a sink node. For every other node it adds a source or sink edge carrying that node's in-degree minus out-degree. Every node except the root also gets a return edge to the root.
3. **Max flow.** A max-flow solver fills the network. The naive DFS solver handles acyclic graphs and Dinic's algorithm handles the rest. A FIFO push-relabel solver also exists.
4. **Optimization.** On acyclic graphs, the heuristic optimizer cancels cycles through the root so that fewer trails are needed. A BFS-based optimizer does the same by cancelling residual root-to-root paths.
5. **Circulation.** Every action edge gets one more unit of flow. Each transition the naive search reached is then covered. An action whose tail the root cannot reach is not covered, because the naive search left it at -1 (see Findings).
6. **Extraction.** Trails are cut out of that circulation by one of two extractors:
   - a post-order DFS with per-node cursors, for acyclic graphs;
   - Hierholzer's Euler decomposition over an explicit stack (`FileIntStack`), which spills to numbered batch files.

## How the model is organised

The modules follow the Java classes:

| module | what it models |
|---|---|
| `StateNetwork` | the network |
| `StateGraphPathExtractor` | reduction, cycle check, counts and the `extractPaths` pipeline |
| `DinicMaxFlowSolver` | Dinic's solver |
| `PushRelabelMaxFlowSolver` | the push-relabel solver |
| `NaiveMaxFlowSolver` | the naive DFS solver |
| `HeuristicNetworkPathOptimizer` | the heuristic optimizer |
| `BfsNetworkPathOptimizer` | the BFS optimizer |
| `AcyclicFlowPathExtractor` | the post-order DFS extractor |
| `EulerFlowPathExtractor` | the Euler extractor |
| `FileIntStack` | the spilling stack |
| `Errors` | the `Result` type standing for thrown exceptions |
| `Sequences` | reversing a trail (`reverseThis()`), shared by the extractors and the stack |

**The network as data.** The Java network is mutable. The model's `Network` is an immutable datatype:
- one `EdgeRecord(from, to, capacity, hasAction)` per inserted edge, standing for the parallel arrays;
- a separate `flow` sequence;
- adjacency lists;
- the fingerprint map;
- the `shutDown`, `source`, `sink` and `root` fields.

Every operation returns a new network. "Only flows changed" is written `m == n.(flow := m.flow)`.

**Views.** View `2k` is record k seen forward. View `2k+1` is the same record seen backward (its residual twin). `GetEdge` builds the same `Edge` value that the Java `ForwardEdgeView` and `BackwardEdgeView` classes report.

**Errors.** Exceptions become `Result.Fail` values, such as `IllegalState("network is already shut down")` and `IllegalState("Stack is empty")`.

**Ghost outputs.** Recursive DFS procedures and loops are methods whose ghost out-parameters carry the walk they followed. Their contracts relate the result to that walk: `ApplyPath` for augmentations, `Consume` for extracted units, and `Routed`/`NetOut` for flow balance.

## Model

| member | source | states |
|---|---|---|
| StateNetwork.Twin | src/main/java/tlc2/diploma/graph/StateNetwork.java:264-310 | The twin of a view belongs to the same record and has the other direction. |
| StateNetwork.TwinInvolution | src/main/java/tlc2/diploma/graph/StateNetwork.java:264-310 | Taking the twin twice gives back the view, and a view is never its own twin. |
| StateNetwork.GetEdge | src/main/java/tlc2/diploma/graph/StateNetwork.java:209-211 | An even index gives a forward view and an odd index a backward one; both report their record's capacity. |
| StateNetwork.TwinViews | src/main/java/tlc2/diploma/graph/StateNetwork.java:227-311 | The twin swaps the endpoints and keeps the capacity. The two views' flows add up to the capacity, exactly one of them is forward, and at most one carries an action. The twin's residual is the view's flow. |
| StateNetwork.ModAsWrittenLeavesRange | src/main/java/tlc2/diploma/graph/StateNetwork.java:34-40 | The `mod` as written returns b, not 0, for a = -b (for example mod(-1, 1) = 1), which is outside [0, b). |
| StateNetwork.Mod | src/main/java/tlc2/diploma/graph/StateNetwork.java:34-40 | The corrected remainder lies in [0, b) and is congruent to a modulo b. |
| StateNetwork.ModAgrees | src/main/java/tlc2/diploma/graph/StateNetwork.java:34-40 | The code as written agrees with the corrected remainder exactly when a >= 0 or a is not a multiple of b. For sink = -1 on two or more nodes, both give the last node. |
| StateNetwork.Source | src/main/java/tlc2/diploma/graph/StateNetwork.java:42-44 | The source is a node id, equal to the stored source reduced modulo the node count. The reduction uses the corrected `Mod`, not the `mod` as written; the two differ only on negative multiples of the node count (see Findings). |
| StateNetwork.Sink | src/main/java/tlc2/diploma/graph/StateNetwork.java:51-53 | The sink is a node id; while the stored sink is -1 it is the last node. The reduction uses the corrected `Mod`, not the `mod` as written; the two agree on -1 once there are two or more nodes. |
| StateNetwork.Init | src/main/java/tlc2/diploma/graph/StateNetwork.java:26-32 | A new network is well formed and empty, with source 0, sink -1 and root 1, and is not shut down. |
| StateNetwork.EnsureNotShutDown | src/main/java/tlc2/diploma/graph/StateNetwork.java:86-90 | The guard fails with the invalid-state error exactly when the network is shut down. |
| StateNetwork.AddNode | src/main/java/tlc2/diploma/graph/StateNetwork.java:69-84 | Fails exactly when shut down. Otherwise it returns the previous node count as the new id, adds one empty adjacency list, and maps the fingerprint (when a state is given) to the id. Nothing else changes. |
| StateNetwork.Shutdown | src/main/java/tlc2/diploma/graph/StateNetwork.java:92-97 | A second shutdown fails. The first sets the flag and clears the fingerprint map, and nothing else changes. |
| StateNetwork.SetSource | src/main/java/tlc2/diploma/graph/StateNetwork.java:46-49 | Fails exactly when shut down; otherwise only the source changes. |
| StateNetwork.SetSink | src/main/java/tlc2/diploma/graph/StateNetwork.java:55-58 | Fails exactly when shut down; otherwise only the sink changes. |
| StateNetwork.SetRoot | src/main/java/tlc2/diploma/graph/StateNetwork.java:64-67 | Fails exactly when shut down; otherwise only the root changes. |
| StateNetwork.AddEdgeWith | src/main/java/tlc2/diploma/graph/StateNetwork.java:138-158 | Returns the previous edge count as the id, and the edge count grows by 2. The new views are (from, to, flow 0, cap) forward and (to, from, flow cap, cap) backward. `id` is appended to from's list and `id+1` to to's list, no other list or earlier view changes, and the network stays well formed. |
| StateNetwork.AddEdgeValid | src/main/java/tlc2/diploma/graph/StateNetwork.java:146-156 | Appending a record and its two adjacency entries keeps the network well formed. |
| StateNetwork.AddEdgeSound | src/main/java/tlc2/diploma/graph/StateNetwork.java:151-156 | After the append, every adjacency entry of a node is a view that starts at that node. |
| StateNetwork.AddEdgeComplete | src/main/java/tlc2/diploma/graph/StateNetwork.java:151-156 | After the append, every view is listed in its origin's adjacency list. |
| StateNetwork.AddEdgeDistinct | src/main/java/tlc2/diploma/graph/StateNetwork.java:151-156 | After the append, no adjacency list holds a view twice. |
| StateNetwork.AddEdge | src/main/java/tlc2/diploma/graph/StateNetwork.java:133-136 | Same as AddEdgeWith, with no action, so the edge count stays even. |
| StateNetwork.AddActionEdge | src/main/java/tlc2/diploma/graph/StateNetwork.java:107-131 | The fingerprint overload adds an action edge between the two registered nodes, starting with flow 0. |
| StateNetwork.IncFlow | src/main/java/tlc2/diploma/graph/StateNetwork.java:172-176 | The view's flow grows by d and its twin's shrinks by d, and the residuals move the other way. Every other record and every other part of the network is unchanged. |
| StateNetwork.IncFlowBounded | src/main/java/tlc2/diploma/graph/StateNetwork.java:172-176 | Pushing at most the residual keeps every flow within [0, capacity]. |
| StateNetwork.CancelFlowBounded | src/main/java/tlc2/diploma/graph/StateNetwork.java:172-176 | Cancelling at most the view's flow keeps every flow within [0, capacity]. |
| StateNetwork.ApplyPath | src/main/java/tlc2/diploma/graph/StateNetwork.java:172-176 | Augmenting along a sequence of views changes only flows, and only of the records on it. |
| StateNetwork.IncFlowNetOut | src/main/java/tlc2/diploma/graph/StateNetwork.java:172-176 | `incFlow` raises the net outflow of the view's origin by d and lowers its target's by d. |
| StateNetwork.ApplyPathNetOut | src/main/java/tlc2/diploma/graph/StateNetwork.java:172-176 | Augmenting along a walk from s to t changes net outflow only at s (+d) and t (-d). |
| StateNetwork.AugmentConserves | src/main/java/tlc2/diploma/graph/StateNetwork.java:172-176 | Augmenting along an s-t walk keeps conservation at every other node and raises the value at s by d. |
| StateNetwork.ClosedSetTraps | src/main/java/tlc2/diploma/graph/StateNetwork.java:227-311 | A residual path cannot leave a node set that no residual view leaves. This is the cut argument behind the solvers' termination tests. |
| StateNetwork.TrailEdgeOf | src/main/java/tlc2/diploma/graph/algo/EulerFlowPathExtractor.java:78-80 | An emitted trail edge is (index/2, from-1, to-1) of its view. |
| StateNetwork.ConsumeFlow | src/main/java/tlc2/diploma/graph/StateNetwork.java:172-176 | Taking one unit along each forward view of a walk lowers each record's flow by the number of times its forward view occurs. |
| Sequences.ReverseTwice | src/main/java/tlc2/diploma/graph/algo/EulerFlowPathExtractor.java:87 | Reversing a trail twice gives it back. |
| Sequences.ReverseMultiset | src/main/java/tlc2/diploma/graph/algo/AcyclicFlowPathExtractor.java:62-64 | Reversing a trail keeps its edges. |
| StateGraphPathExtractor.NewExtractor | src/main/java/tlc2/diploma/graph/StateGraphPathExtractor.java:27-29 | A new extractor's network holds just the source node 0, with root 1, no edges and no fingerprints. |
| StateGraphPathExtractor.AddState | src/main/java/tlc2/diploma/graph/StateGraphPathExtractor.java:31-33 | Fails exactly when shut down. Otherwise the returned id is the new node's id minus 1, and the fingerprint maps to that node. |
| StateGraphPathExtractor.AddInitialState | src/main/java/tlc2/util/JsonStateWriter.java:137-141 | The corrected `writeState(state)`. It fails exactly when shut down, and otherwise registers the state as `addState` does. A state other than the first also gets an action link of capacity INF from the root. If every state was reached from the root along action records before the call, every state still is. |
| StateGraphPathExtractor.AddSuccessor | src/main/java/tlc2/util/JsonStateWriter.java:168-181 | A stuttering step changes nothing. An unseen successor is registered, and an action record joins the two states when their fingerprints differ. It fails exactly when an unseen successor meets a shut-down network. The records so far are kept as a prefix, and reachability of every state from the root is kept. |
| StateGraphPathExtractor.LinkFromRoot | src/main/java/tlc2/util/JsonStateWriter.java:137-141 | Appends one action record of capacity INF from the root to a state node, and keeps the node count, the fingerprints and the shutdown flag. |
| StateGraphPathExtractor.AddAction | src/main/java/tlc2/diploma/graph/StateGraphPathExtractor.java:35-37 | Returns the record index (edge index / 2) and appends an action record of capacity INF with flow 0 between the two states' nodes. |
| StateGraphPathExtractor.DegreeDiffs | src/main/java/tlc2/diploma/graph/StateGraphPathExtractor.java:44-49 | Each node's entry is its in-degree minus its out-degree over the existing records. |
| StateGraphPathExtractor.ReductionMembership | src/main/java/tlc2/diploma/graph/StateGraphPathExtractor.java:51-66 | The edges added for nodes below k are exactly the source edges (positive difference), sink edges (negative difference) and capacity INF/2 return edges of the inner nodes below k. |
| StateGraphPathExtractor.OneReturnEdge | src/main/java/tlc2/diploma/graph/StateGraphPathExtractor.java:62-65 | Every inner node other than the root gets exactly one return edge to the root. |
| StateGraphPathExtractor.ReductionFacts | src/main/java/tlc2/diploma/graph/StateGraphPathExtractor.java:51-66 | The full reduction adds exactly the edges its node differences describe, and each non-root inner node gets exactly one return edge. |
| StateGraphPathExtractor.ConstructNetwork | src/main/java/tlc2/diploma/graph/StateGraphPathExtractor.java:39-67 | Fails exactly when already shut down. Otherwise: one sink node is added and the network is shut down; earlier records and flows are kept as a prefix; the added records have flow 0 and are exactly the reduction edges of the in-minus-out differences; each non-root inner node has one return edge; flow bounds are kept. |
| StateGraphPathExtractor.ActionShifts | src/main/java/tlc2/diploma/graph/algo/NaiveMaxFlowSolver.java:63-66 | Taking one unit off every action record moves each node's balance by its in-degree minus its out-degree. |
| StateGraphPathExtractor.NodeShifts | src/main/java/tlc2/diploma/graph/StateGraphPathExtractor.java:51-66 | Filling the source and sink edges one node adds to capacity moves that node's balance by minus its degree difference and leaves every other node unchanged. |
| StateGraphPathExtractor.ReductionShifts | src/main/java/tlc2/diploma/graph/StateGraphPathExtractor.java:51-66 | Over all reduction edges of the first k nodes, the closing shifts move the balance of each of those nodes by minus its degree difference and no other node's. |
| StateGraphPathExtractor.ReducedBalanced | src/main/java/tlc2/diploma/graph/StateGraphPathExtractor.java:39-67 | On the reduced network the closing shifts of the action records and of the reduction edges cancel at every node. |
| StateGraphPathExtractor.ReducedShape | src/main/java/tlc2/diploma/graph/StateGraphPathExtractor.java:39-67 | A freshly reduced graph of at least one state has the shape the naive solver's guarantees need: action records between inner nodes, source and sink records at the source and sink, return records into the root, no flow yet, and closing shifts that cancel. |
| StateGraphPathExtractor.CalculatePathCount | src/main/java/tlc2/diploma/graph/StateGraphPathExtractor.java:69-78 | The loop computes the reference path count: over forward records into the root not from the source, the sum of flow plus 1 for an action record. |
| StateGraphPathExtractor.PathCountDiff | src/main/java/tlc2/diploma/graph/StateGraphPathExtractor.java:69-78 | Two flows that agree on every record into the root that is an action or leaves the source have path counts that differ exactly as their flows on root-return edges do. |
| StateGraphPathExtractor.PathCountFalls | src/main/java/tlc2/diploma/graph/StateGraphPathExtractor.java:168-173 | A rerouting by the heuristic optimizer that leaves those records alone does not raise the path count. |
| StateGraphPathExtractor.CalculatePathCoverTotalLength | src/main/java/tlc2/diploma/graph/StateGraphPathExtractor.java:94-103 | The loop computes the reference total length, the sum of flows on action records. |
| StateGraphPathExtractor.Circulate | src/main/java/tlc2/diploma/graph/StateGraphPathExtractor.java:183-189 | Adding one unit to every action record keeps the network well formed and raises the total length by exactly the number of action records. |
| StateGraphPathExtractor.CirculationLength | src/main/java/tlc2/diploma/graph/StateGraphPathExtractor.java:183-191 | The circulated flow's total length is the old one plus the action-record count. |
| StateGraphPathExtractor.CheckAcyclicDfs | src/main/java/tlc2/diploma/graph/StateGraphPathExtractor.java:105-129 | The colour DFS only moves colours up (white, gray, black). When it returns false, it has a witness cycle of followed forward edges reachable from the root. The followed edges skip non-action edges into the root, edges into the sink, and self-loops. When it returns true, v is black and every finished node carries a finishing rank. |
| StateGraphPathExtractor.VisitEdge | src/main/java/tlc2/diploma/graph/StateGraphPathExtractor.java:109-125 | One loop step: a gray target yields a cycle; otherwise a followed target ends black. |
| StateGraphPathExtractor.CycleFromGrayPath | src/main/java/tlc2/diploma/graph/StateGraphPathExtractor.java:117-118 | An edge from the end of the gray path back into it closes a cycle that is reachable from the root. |
| StateGraphPathExtractor.RanksFall | src/main/java/tlc2/diploma/graph/StateGraphPathExtractor.java:120-128 | Along any followed path out of a finished node, finishing ranks strictly fall. |
| StateGraphPathExtractor.NoBlackCycle | src/main/java/tlc2/diploma/graph/StateGraphPathExtractor.java:120-128 | No finished node lies on a cycle. |
| StateGraphPathExtractor.IsGraphAcyclic | src/main/java/tlc2/diploma/graph/StateGraphPathExtractor.java:131-133 | Returns true exactly when no cycle of followed edges is reachable from the root. |
| StateGraphPathExtractor.CycleLeavesRoot | src/main/java/tlc2/diploma/graph/StateGraphPathExtractor.java:105-133 | A cycle the check can reach means the root has at least one adjacent edge, so the Euler constructor always finds a first edge. |
| StateGraphPathExtractor.AcyclicHomeBound | src/main/java/tlc2/diploma/graph/StateGraphPathExtractor.java:51-66 | On a reduced network of at least one state with no reachable cycle, every action record out of a node the root reaches ends at a node with a record into the root. That record is the return edge, or the action itself when it ends at the root. |
| StateGraphPathExtractor.NoEdgeFromRoot | src/main/java/tlc2/diploma/graph/StateGraphPathExtractor.java:105-133 | With no record leaving the root, no cycle is reachable, so the graph counts as acyclic. |
| StateGraphPathExtractor.ExtractPaths | src/main/java/tlc2/diploma/graph/StateGraphPathExtractor.java:139-201 | Fails exactly when the network is already shut down. The reduced network extends the input. The result is the acyclic extractor exactly when no cycle is reachable. In the acyclic case, its path count is the minimum of the counts before and after the heuristic optimizer; that optimizer reroutes flow without changing any node's balance, and the extractor runs on the circulated flow. On an acyclic graph with at least one state, the naive solver's flow is conserved between source and sink, and every action record whose tail the root search cannot enter carries -1. Every action record whose tail the root reaches along action records carries at least one unit after the circulation. When the builder had reached every state from the root, every action record does. In the cyclic case, the root has an adjacent edge, Dinic's solver improves the flow, and the Euler extractor starts on the circulated flow. |
| StateGraphPathExtractor.SolveAcyclic | src/main/java/tlc2/diploma/graph/StateGraphPathExtractor.java:154-189 | The acyclic branch: the naive solver's flow is conserved and leaves -1 on actions the search cannot enter. The optimizer reroutes a flow within bounds, and the path count is the smaller of the two counts. Every action record whose tail the root reaches carries a unit after the circulation, and every action record does so when the builder reached every state. |
| StateGraphPathExtractor.ReachedCircled | src/main/java/tlc2/diploma/graph/StateGraphPathExtractor.java:168-189 | An action record the search covered still carries at least one unit after the closing pass, the optimizer and the circulation. |
| StateGraphPathExtractor.AllReachedActions | src/main/java/tlc2/diploma/graph/StateGraphPathExtractor.java:51-66 | When the builder reached every state from the root, every action record of the reduced network leaves a reached node. |
| StateGraphPathExtractor.UnreachedActionExample | src/main/java/tlc2/diploma/graph/StateGraphPathExtractor.java:154-173 | Two initial states and an action out of the second: the graph counts as acyclic, the naive solver leaves -1 on the action, so its flow is out of bounds, and the action carries no unit after the circulation. |
| StateGraphPathExtractor.ReachedActionGraph | src/main/java/tlc2/util/JsonStateWriter.java:137-181 | The same states built through the corrected builder: the second initial state is linked to the root, so every state is reached from the root, which is the condition under which `ExtractPaths` covers every action, including 2 -> 3. |
| DinicMaxFlowSolver.DinicBfs | src/main/java/tlc2/diploma/graph/algo/DinicMaxFlowSolver.java:29-56 | The source has level 0, and every label is INF or a level that some residual path of that length reaches. Returns true exactly when the sink is labelled. When it returns false, no residual path from source to sink exists. |
| DinicMaxFlowSolver.LabelInvariant | src/main/java/tlc2/diploma/graph/algo/DinicMaxFlowSolver.java:42-48 | Labelling an unlabelled target of a residual view one level above its origin keeps the labelling invariant. |
| DinicMaxFlowSolver.DrainedCut | src/main/java/tlc2/diploma/graph/algo/DinicMaxFlowSolver.java:36-55 | Once the queue is scanned with the sink unlabelled, the labelled set is closed under residual views, so the sink is unreachable. |
| DinicMaxFlowSolver.DinicDfs | src/main/java/tlc2/diploma/graph/algo/DinicMaxFlowSolver.java:58-79 | Returns at most its flow argument, and exactly that argument at the sink. A positive amount is pushed along a level-climbing path to the sink on which every residual is at least that amount. The network afterwards is that augmentation, flows stay in bounds, and cursors only advance. |
| DinicMaxFlowSolver.DfsFromCursor | src/main/java/tlc2/diploma/graph/algo/DinicMaxFlowSolver.java:64-78 | The cursor loop pushes as DinicDfs states, and it returns 0 only with v's cursor exhausted. |
| DinicMaxFlowSolver.PushImproves | src/main/java/tlc2/diploma/graph/algo/DinicMaxFlowSolver.java:86-90 | A positive push from the source keeps conservation and flow bounds and raises the flow value by the amount pushed. |
| DinicMaxFlowSolver.BlockingFlow | src/main/java/tlc2/diploma/graph/algo/DinicMaxFlowSolver.java:86-91 | A phase of repeated pushes only improves the flow. |
| DinicMaxFlowSolver.FindMaxFlow | src/main/java/tlc2/diploma/graph/algo/DinicMaxFlowSolver.java:82-93 | The flow only improves, and when the phases end the sink is unreachable in the residual network. |
| PushRelabelMaxFlowSolver.Push | src/main/java/tlc2/diploma/graph/algo/PushRelabelMaxFlowSolver.java:32-42 | Moves d = min(excess of the origin, residual) along the view, moving that excess from origin to target. The target is queued only when a positive push raised its excess from 0, and nothing else changes. |
| PushRelabelMaxFlowSolver.Relabel | src/main/java/tlc2/diploma/graph/algo/PushRelabelMaxFlowSolver.java:44-57 | The new height is one more than the least height over views with room. If there is no such view, all heights are unchanged, and no other node's height changes. |
| PushRelabelMaxFlowSolver.DischargeStep | src/main/java/tlc2/diploma/graph/algo/PushRelabelMaxFlowSolver.java:59-76 | One step of discharge keeps the preflow, bookkeeping and queue invariants. It pushes only along an admissible view (room, origin higher than target) and relabels only with the cursor exhausted. Otherwise it advances the cursor, wrapping to 0. |
| PushRelabelMaxFlowSolver.Discharge | src/main/java/tlc2/diploma/graph/algo/PushRelabelMaxFlowSolver.java:59-76 | The invariants are kept, and a discharge that finishes leaves the node with no excess. |
| PushRelabelMaxFlowSolver.InitialExcess | src/main/java/tlc2/diploma/graph/algo/PushRelabelMaxFlowSolver.java:19-30 | Initially only the source has excess, and it is INF. |
| PushRelabelMaxFlowSolver.Start | src/main/java/tlc2/diploma/graph/algo/PushRelabelMaxFlowSolver.java:19-30 | The constructor sets the source's height to the node count and every other height and cursor to 0, then pushes from the source keeping the invariants. |
| PushRelabelMaxFlowSolver.Drain | src/main/java/tlc2/diploma/graph/algo/PushRelabelMaxFlowSolver.java:79-86 | Processing the queue keeps the preflow and bookkeeping invariants, and when it completes the queue is empty. |
| PushRelabelMaxFlowSolver.FindMaxFlow | src/main/java/tlc2/diploma/graph/algo/PushRelabelMaxFlowSolver.java:79-86 | Only flows change and they stay in bounds. On completion every node other than source and sink keeps its net outflow, so conservation is kept. |
| NaiveMaxFlowSolver.FeedRoot | src/main/java/tlc2/diploma/graph/algo/NaiveMaxFlowSolver.java:37-46 | Every forward edge from u into the root gains one unit, the sum counts them, and exactly that much is routed from u to the root. |
| NaiveMaxFlowSolver.FirstVisit | src/main/java/tlc2/diploma/graph/algo/NaiveMaxFlowSolver.java:18-36 | The edge's head ends marked used. A head that was already used is left as it is. Otherwise its action edges are searched, and `found` says whether it has any. Flows only grow and the sum is routed from the head to the root. Under the search invariant the invariant is kept, the sum is positive when an action edge was followed, and a head with no action edge has a record into the root. |
| NaiveMaxFlowSolver.NaiveDfs | src/main/java/tlc2/diploma/graph/algo/NaiveMaxFlowSolver.java:18-49 | Flows only grow, and the returned sum is routed from the edge's origin to the root. The target ends marked used. If it was already used, only its root edges are fed. The search invariant is: no flow is negative, and every settled action record carries a unit and leads to a marked node. Suppose it holds, every action record out of a reached node ends at a node with a record into the root, and the edge's tail is reached from the root along action records. Then the invariant still holds, the sum is positive, and the edge itself carries at least one unit. |
| NaiveMaxFlowSolver.VisitActions | src/main/java/tlc2/diploma/graph/algo/NaiveMaxFlowSolver.java:25-36 | The loop over u's forward action edges routes its sum from u to the root. It reports whether such an edge exists, and if none exists it changes nothing. Under the search invariant, with u reached from the root, every action edge of u from position i on ends up with at least one unit and a marked head. |
| NaiveMaxFlowSolver.FromRoot | src/main/java/tlc2/diploma/graph/algo/NaiveMaxFlowSolver.java:52-61 | The searches from the root's action edges only raise flows, and every node's balance is restored (root to root). Under the search invariant, every action edge out of the root from position i on ends up with at least one unit. |
| NaiveMaxFlowSolver.ClosingPass | src/main/java/tlc2/diploma/graph/algo/NaiveMaxFlowSolver.java:63-72 | Every record from k on shifts by one: -1 for action records, and to full capacity for source and sink records. Earlier records are unchanged. |
| NaiveMaxFlowSolver.FindMaxFlow | src/main/java/tlc2/diploma/graph/algo/NaiveMaxFlowSolver.java:52-73 | The root searches give a flow that only grew and is balanced root to root, and they change only records the search can reach: those leaving the root or the head of an action record, that are actions or lead into the root. After the closing pass every node's balance has moved by the closing shifts, so on a reduced network the flow is conserved between source and sink. On a reduced network the flow is within bounds exactly when the search put at least one unit on every action record (and no record beyond its capacity), and an action record whose tail the search cannot enter is left at -1. Suppose no flow is negative and every action record out of a reached node ends at a node with a record into the root. Then the search puts at least one unit on every action record whose tail the root reaches along action records. |
| NaiveMaxFlowSolver.ClosingBounds | src/main/java/tlc2/diploma/graph/algo/NaiveMaxFlowSolver.java:63-72 | On a reduced network, the closed flow is within bounds exactly when every action record got at least one unit from the search and none went past its capacity; an action record the search cannot reach ends at -1. |
| NaiveMaxFlowSolver.ClosingNetOut | src/main/java/tlc2/diploma/graph/algo/NaiveMaxFlowSolver.java:63-72 | The closing pass moves every node's balance by the shifts of the records at it, so a network whose shifts cancel the searched balances ends conserved between source and sink. |
| HeuristicNetworkPathOptimizer.Search | src/main/java/tlc2/diploma/graph/algo/HeuristicNetworkPathOptimizer.java:60-117 | The search covers both the unit-weight distance BFS and the 0-1 colour BFS. The root gets 0 and every label is in [0, INF]. Each finite label is the weight of a usable walk from the root, and no usable walk to a node weighs less than its label. |
| HeuristicNetworkPathOptimizer.ClosedOptimal | src/main/java/tlc2/diploma/graph/algo/HeuristicNetworkPathOptimizer.java:72-84 | Once no relaxation is pending, every usable walk from the root weighs at least its end's label. |
| HeuristicNetworkPathOptimizer.IncFlowReturn | src/main/java/tlc2/diploma/graph/algo/HeuristicNetworkPathOptimizer.java:41-54 | `incFlow` on a view of a non-action edge into the root changes the total flow on such edges by +d (forward view) or -d (backward view); on any other view it leaves that total unchanged. |
| HeuristicNetworkPathOptimizer.SimpleCycleDfs | src/main/java/tlc2/diploma/graph/algo/HeuristicNetworkPathOptimizer.java:29-58 | Returns at most its flow argument, and 0 for flow 0. It routes -df from u to the root, the flow on return edges drops by exactly df, flows stay in bounds, and it changes nothing when it returns 0. Cursors only advance. |
| HeuristicNetworkPathOptimizer.CancelCycles | src/main/java/tlc2/diploma/graph/algo/HeuristicNetworkPathOptimizer.java:127-131 | Repeated cancellation keeps every node's balance and flow bounds. It reports progress exactly when the return flow dropped, and changes nothing otherwise. |
| HeuristicNetworkPathOptimizer.Rounds | src/main/java/tlc2/diploma/graph/algo/HeuristicNetworkPathOptimizer.java:121-135 | The bounded rounds only reroute flow: balances are kept and the return flow does not grow. |
| HeuristicNetworkPathOptimizer.OptimizePaths | src/main/java/tlc2/diploma/graph/algo/HeuristicNetworkPathOptimizer.java:119-136 | The whole optimizer keeps every node's balance and flow bounds and never increases the return flow. |
| BfsNetworkPathOptimizer.SeedViews | src/main/java/tlc2/diploma/graph/algo/BFSNetworkPathOptimizer.java:29-44 | The target of every backward view in the root's list that has room is labelled 0 and queued. |
| BfsNetworkPathOptimizer.NoCycle | src/main/java/tlc2/diploma/graph/algo/BFSNetworkPathOptimizer.java:46-65 | If the search covered everything without reaching the root, no removable root-to-root path exists. |
| BfsNetworkPathOptimizer.Trace | src/main/java/tlc2/diploma/graph/algo/BFSNetworkPathOptimizer.java:67-78 | Walking parents back from a node adds one unit along a seed walk to it, and removes one unit of flow into the root. |
| BfsNetworkPathOptimizer.TryRemovePath | src/main/java/tlc2/diploma/graph/algo/BFSNetworkPathOptimizer.java:28-80 | On success, the network is one unit augmented along a removable root-to-root path: one unit less flows into the root, and every node's balance is kept. On failure, nothing changes and no removable path exists. |
| BfsNetworkPathOptimizer.OptimizePaths | src/main/java/tlc2/diploma/graph/algo/BFSNetworkPathOptimizer.java:82-89 | Ends with no removable path left, balances kept and no more flow into the root. |
| AcyclicFlowPathExtractor.ExtractPathAcyclicDfs | src/main/java/tlc2/diploma/graph/algo/AcyclicFlowPathExtractor.java:26-49 | Each frame consumes at most one unit: the first takeable view at or after the cursor. The consumed walk ends at the root or at an exhausted node. The record is the trail of that walk in post-order (the root edge left out), flows stay in bounds, and cursors never pass an untaken takeable view. |
| AcyclicFlowPathExtractor.TakeView | src/main/java/tlc2/diploma/graph/algo/AcyclicFlowPathExtractor.java:36-46 | Taking a view consumes one unit on it before descending, and the cursor stays on it. |
| AcyclicFlowPathExtractor.TrailChains | src/main/java/tlc2/diploma/graph/algo/AcyclicFlowPathExtractor.java:40-45 | The trail of a descent from v starts at v and is chained edge to edge. |
| AcyclicFlowPathExtractor.New | src/main/java/tlc2/diploma/graph/algo/AcyclicFlowPathExtractor.java:20-24 | All cursors start at 0 and no path has been taken. |
| AcyclicFlowPathExtractor.Next | src/main/java/tlc2/diploma/graph/algo/AcyclicFlowPathExtractor.java:60-65 | Returns the trail of a descent from the root, in traversal order. It starts at the root and is chained, its units are consumed from the flow, bounds are kept, cursors only advance, and the call count grows by one. |
| AcyclicFlowPathExtractor.ExtractAll | src/main/java/tlc2/diploma/graph/algo/AcyclicFlowPathExtractor.java:55-65 | Calling `next` while `hasNext` holds yields exactly the paths still owed (`pathCount` from a new extractor). Each is a chained trail from the root's state, `hasNext` is false at the end, and only flows change, within bounds. |
| EulerFlowPathExtractor.HasNext | src/main/java/tlc2/diploma/graph/algo/EulerFlowPathExtractor.java:44-46 | There is a next trail exactly when the stack holds a view. |
| EulerFlowPathExtractor.New | src/main/java/tlc2/diploma/graph/algo/EulerFlowPathExtractor.java:24-38 | The constructor takes one unit from the root's first view and pushes it onto an otherwise empty stack, with all cursors at 0. |
| EulerFlowPathExtractor.FirstTakeable | src/main/java/tlc2/diploma/graph/algo/EulerFlowPathExtractor.java:58-75 | Gives the first index at or after the cursor whose view is forward, not into the sink, and has flow; every view skipped has none of that. |
| EulerFlowPathExtractor.Loop | src/main/java/tlc2/diploma/graph/algo/EulerFlowPathExtractor.java:53-85 | Every pushed view is a consumed forward unit. The stack before plus the pushes equals the stack after plus the pops. The popped action views are emitted in order, cursors only advance, and the loop stops on an empty stack or after a root pop that collected something. |
| EulerFlowPathExtractor.Next | src/main/java/tlc2/diploma/graph/algo/EulerFlowPathExtractor.java:49-91 | One call runs the loop from an empty trail and returns what it collected, reversed into traversal order. Afterwards either the stack is empty (so `hasNext` is false) or the returned trail is not empty. |
| EulerFlowPathExtractor.ExtractAll | src/main/java/tlc2/diploma/graph/algo/EulerFlowPathExtractor.java:44-91 | Calling `next` until `hasNext` is false empties the stack. The trails together hold exactly the emitted pops, with multiplicity. |
| EulerFlowPathExtractor.EmittedCount | src/main/java/tlc2/diploma/graph/algo/EulerFlowPathExtractor.java:76-80 | Each action record's trail edge is emitted once per pop of its forward view. |
| EulerFlowPathExtractor.EmitsRecord | src/main/java/tlc2/diploma/graph/algo/EulerFlowPathExtractor.java:76-80 | Among popped views, only an action record's own forward view emits its trail edge. |
| EulerFlowPathExtractor.EveryUnitOnce | src/main/java/tlc2/diploma/graph/algo/EulerFlowPathExtractor.java:58-85 | Over a complete extraction, each action record appears in the trails exactly as often as it was on the initial stack plus the flow units taken from it. |
| FileIntStack.New | src/main/java/tlc2/diploma/util/FileIntStack.java:20-30 | A new stack is well formed and empty. |
| FileIntStack.Size | src/main/java/tlc2/diploma/util/FileIntStack.java:95-99 | The size formula equals the number of values held. |
| FileIntStack.IsEmpty | src/main/java/tlc2/diploma/util/FileIntStack.java:101-103 | Empty exactly when nothing is held, and exactly when the size is 0. |
| FileIntStack.ShiftForward | src/main/java/tlc2/diploma/util/FileIntStack.java:42-52 | Writes the full first batch to file `batchPos`, advances `batchPos` and moves the second batch into first place; the contents are unchanged. |
| FileIntStack.ShiftBack | src/main/java/tlc2/diploma/util/FileIntStack.java:54-66 | Fails with "Stack is empty" exactly when no file is left. Otherwise it reads file `batchPos-1` back as the first batch and deletes it; the contents are unchanged. |
| FileIntStack.Push | src/main/java/tlc2/diploma/util/FileIntStack.java:68-74 | The value goes on top and the size grows by one. |
| FileIntStack.Pop | src/main/java/tlc2/diploma/util/FileIntStack.java:76-85 | Fails with "Stack is empty" exactly when nothing is held. Otherwise it returns the top value and leaves the rest. |
| FileIntStack.Peek | src/main/java/tlc2/diploma/util/FileIntStack.java:87-93 | Fails exactly when empty. Otherwise it returns the top value, and the contents are unchanged. |
| FileIntStack.PeekIsPop | src/main/java/tlc2/diploma/util/FileIntStack.java:76-93 | `peek` succeeds exactly when `pop` does, and returns the same value. |
| FileIntStack.PushAll | src/main/java/tlc2/diploma/util/FileIntStack.java:68-74 | Pushing a sequence appends it to the contents. |
| FileIntStack.PopsReversePushes | src/main/java/tlc2/diploma/util/FileIntStack.java:68-85 | Popping as many values as were pushed returns them in reverse order and restores the earlier contents. |
| FileIntStack.PopNContents | src/main/java/tlc2/diploma/util/FileIntStack.java:76-85 | Pops depend only on the logical contents, not on how they are split between batches and files. |

## Left out

- Concurrency: the `synchronized` blocks, the wait/notify rendezvous of the fingerprint `addEdge`, and `System.gc()`. `StateNetwork.AddActionEdge` requires both fingerprints to be registered already.
- After `shutdown` the fingerprint map is cleared, so the Java fingerprint `addEdge` would wait forever. No model call can reach that state, because the precondition cannot be met.
- File I/O in `FileIntStack`: the batch files are a map from batch index to the batch's ints. Channels, paths and the temporary directory are not modelled.
- Logging, timestamps and the floating-point average path length (`StateGraphPathExtractor.java:192`).
- `ensureEdgeCapacity`: it only pre-sizes arrays and has no observable effect.
- Java `int` overflow: flows, excesses and sums are mathematical integers. INF = 2147483647 is kept as a named sentinel.
- `StateGraphPathExtractor.ExtractPaths` requires the node count plus one to stay below INF. The code relies on this bound when it uses INF as "unlabelled".
- The trace depth that sizes the heuristic optimizer's rounds comes from a global checker object. The model takes it as the parameter `depth`.
- DinicMaxFlowSolver.FindMaxFlow: takes a `fuel` bound, which the Java code does not have. It is spent one unit per phase and one unit per push of each blocking flow. It promises the invariants on every run, and an unreachable sink only when it completes (`done`).
- PushRelabelMaxFlowSolver.FindMaxFlow: takes a `fuel` bound on discharges and queue rounds, which the Java code does not have. The Java loops end by the height argument of push-relabel, which the model does not prove; the fuel stands in for that termination proof. It promises conservation only when it completes. It also does not state the height-function invariant or that the final flow is maximal.
- StateGraphPathExtractor.ExtractPaths: takes the `fuel` that it hands to Dinic's solver. It runs the heuristic optimizer only when the naive solver's flow is within bounds, where the Java code always runs it on an acyclic graph (see Findings); in the other case the model keeps the naive flow and its path count.
- DinicMaxFlowSolver.DinicBfs: states that labels are reachable path lengths, not that they are shortest.
- NaiveMaxFlowSolver.FindMaxFlow: states the flow it routes and the closing pass, not that the result is a maximum flow. Its bounds equivalence also needs no record pushed past its capacity, which holds while flows stay below Java's `int` range and is not derived from the search.
- HeuristicNetworkPathOptimizer.OptimizePaths: requires the incoming flow to be within bounds, which the Java caller does not guarantee (see Findings). It states that balances and bounds are kept and the return flow does not grow, not that the resulting path count is optimal.
- StateGraphPathExtractor.PathCountFalls: does not show that the optimizer lowers the path count on every run. The cycle search may raise an action record into the root through its backward view, and that flow counts toward the path count but not toward the return flow.
- EulerFlowPathExtractor.New: the Java constructor throws on a root with no adjacent edge. The model requires an edge there. `ExtractPaths` calls it only on a graph with a reachable cycle, where `CycleLeavesRoot` shows the edge exists, so that throw cannot happen on this path.
- AcyclicFlowPathExtractor.Next: states what one trail consumes, not that `pathCount` calls together cover every action edge.
- EulerFlowPathExtractor.ExtractAll: states that each action edge appears as often as the units taken from it, not that every unit of the circulation is taken on every network.
- The BFS optimizer's queue is local to each `tryRemovePath` call in the model, so its being empty after every call holds by construction and is not stated.
- The BFS optimizer's per-node `count` list and `countMap` are written but never read, so they are not modelled.
- `JsonStateWriter` is modelled only through the calls it makes into the extractor (`AddInitialState`, `AddSuccessor`): the JSON it writes, its location maps and the TLC objects it receives are left out.
- StateGraphPathExtractor.ExtractPaths: does not prove that the naive flow is within bounds when every state is reached. That also needs no record pushed past its capacity, which holds only inside Java's `int` range. So the model still runs the optimizer only when the bounds check passes.
- `ConcreteAction`, `TLCPE`, `TLCPEOverrides` and the other exporters in `tlc2/util` are out of scope. They work with TLC values, the SANY syntax tree, JSON, files and sockets.

## Notes

- The Java degree loop computes, for each node, in-degree minus out-degree. A positive difference gets an edge from the source, a negative one an edge to the sink. The model follows the code.

## Findings

| source | as written | input that shows it | evidently intended | confidence | as-written member | corrected member |
|---|---|---|---|---|---|---|
| src/main/java/tlc2/diploma/graph/StateNetwork.java:34-40 | `res = a % b; if (a < 0) res += b;` adds b even when a is a negative multiple of b | a = -b, e.g. mod(-1, 1) = 1 and mod(-3, 3) = 3, outside [0, b) | a result in [0, b), i.e. `res += b` only when `res < 0` | not executed | StateNetwork.ModAsWrittenLeavesRange | StateNetwork.Mod |
| src/main/java/tlc2/diploma/graph/StateGraphPathExtractor.java:154-173 | The naive search starts only from the root's action edges, and its closing pass (`NaiveMaxFlowSolver.java:63-67`) takes one unit off every action record; `extractPaths()` then hands the result to the heuristic optimizer on every acyclic graph | two initial states s1 (the root) and s2 and one action s2 -> t: nothing leads from s1 to s2, so the action record ends at -1 | every action covered by some trail: every initial state is linked to the root, and the optimizer runs only on a flow within bounds. The corrected builder (`AddInitialState`) adds the links; `ExtractPaths` then proves that every action record carries a unit after the circulation, and runs the optimizer only when the flow is within bounds | not executed | StateGraphPathExtractor.UnreachedActionExample | StateGraphPathExtractor.ExtractPaths |
