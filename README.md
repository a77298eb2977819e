# BMSSP: a verified model of the solver and its benchmark pipeline

This project models the repository binghan1227/BMSSP in Dafny. The repository has two layers, and the model covers both.

**The C++ solver.**
- `BlockList` (block_list.cpp) is a lazy-deletion min-heap with a best-value map. The model is a class with fields `M`, `upperBound`, `dists` and `pq`. Its methods model `insert`, `batch_prepend`, `pull` and `is_empty`.
- The BMSSP procedures (bmssp.cpp) work on `min_costs`, an array they lower in place. They are `find_pivots`, `base_bmssp`, `bmssp_bounded` and the set-up of `solve_sssp`.
- The Dijkstra baseline (dijkstra.cpp) covers the adjacency construction and the heap loop.
- types.h gives the `State` order.
- trace.h gives the JSON serialisers `vec_json` and `pairs_json`.

**The Python pipeline.**
- From experiments/run_experiments.py:
  - `generate_connected_graph`, with the random generator as a stream of draws;
  - `write_graph_to_file`, as the text it writes;
  - `extract_timing`, as a leftmost regex search;
  - the success or failure classification of `run_solver`;
  - `make_seed`;
  - the sweep loops of `run_node_scaling` and `run_edge_density`, with the solver as an oracle.
- From experiments/visualize.py: `aggregate`.

Costs are `ExtReal` (`Fin(r)` or `Inf`), standing for a C++ `double` that may be `+infinity`. Weights and timings are `real`, and float rounding is not modelled. Heaps are multisets of `State`: `top()` is the unique least entry under the `State` order. `pop()` removes one copy of it.

## Module layout

| file | module | models |
|---|---|---|
| types.dfy | `Types` | types.h, and `ExtReal` for costs |
| heaps.dfy | `Heaps` | `std::priority_queue<State, …, greater<State>>` |
| text.dfy | `Text` | decimal rendering and reading of integers; split and join |
| graphs.dfy | `Graphs` | walks over `adj` and soundness/optimality of a cost table |
| trace.dfy | `Trace` | trace.h |
| block_list.dfy | `BlockLists` | block_list.cpp |
| dijkstra.dfy | `Dijkstra` | dijkstra.cpp |
| bmssp.dfy | `Bmssp` | bmssp.cpp |
| randomness.dfy | `Randomness` | `randint`, `uniform`, `shuffle` on a stream of draws |
| generator.dfy | `Generator` | `generate_connected_graph` |
| graph_file.dfy | `GraphFile` | `write_graph_to_file` |
| timing.dfy | `Timing` | `extract_timing`, `run_solver`, `make_seed` |
| sweeps.dfy | `Sweeps` | `run_node_scaling`, `run_edge_density` |
| aggregate.dfy | `Aggregate` | `aggregate` |

**How operations are modelled.**
- Each imperative operation is a `method` with the source's loop.
- It is proved equal to a specification function on values, for example:
  - `BlockLists.PullLoop` for `pull`'s loop;
  - `Generator.Generated` for the generator;
  - `Sweeps.Sweep` for the sweeps.
- The lemmas beside each function then state what the source promises about it.
- The BMSSP methods instead carry their promises in their own contracts. Those contracts hold the invariants of `min_costs`: no entry is ever raised, and every finite entry is the weight of a walk from the source.

## Model

| member | source | states |
|---|---|---|
| Types.ExtReal.Plus | bmssp.cpp:22 | adding a finite weight to a cost gives infinity exactly when the cost is infinite |
| Types.ExtReal.Max | bmssp.cpp:70 | `std::max` is at least both arguments and is one of them |
| Types.ExtReal.Min | bmssp.cpp:102 | `std::min` is at most both arguments and is one of them |
| Types.LtIsStrictTotalOrder | types.h:9-10 | `<` on costs is irreflexive, total on distinct values and transitive |
| Types.GreaterIsLexicographic | types.h:8-12 | `a > b` iff a's cost is larger, or the costs are equal and a's node id is larger |
| Types.GreaterIrreflexive | types.h:8-12 | `a > a` never holds |
| Types.GreaterTrichotomous | types.h:8-12 | for distinct states exactly one of `a > b` and `b > a` holds; for equal ones neither does |
| Types.GreaterTransitive | types.h:8-12 | `>` is transitive |
| Types.NotAfterCost | types.h:8-12 | an entry that pops no later than another has a cost no larger |
| Types.NotAfterIsTotalPreorder | types.h:8-12 | the pop order is total, transitive and antisymmetric |
| Heaps.TopExists | dijkstra.cpp:31-37 | every non-empty heap has an entry that precedes all others |
| Heaps.TopAfterPush | dijkstra.cpp:33 | after a push the top is the pushed entry if it does not come after the old top, and the old top otherwise |
| Heaps.TopUnique | dijkstra.cpp:36 | the top of a heap is unique |
| Heaps.Top | dijkstra.cpp:36 | `top()` is in the heap and pops no later than any entry |
| Heaps.Pop | dijkstra.cpp:37 | `pop()` removes exactly one copy of the top |
| Heaps.PopKeepsOrder | dijkstra.cpp:36-37 | every entry left after a pop comes from the heap and does not precede the removed top |
| Heaps.TopOfSubHeap | block_list.cpp:27 | the top of a sub-heap never precedes the top of the heap it came from |
| Text.DigitChar | trace.h:22 | a digit below ten renders as the matching decimal digit |
| Text.NatToString | trace.h:22 | a natural renders as a non-empty run of digits, longer than one digit exactly from 10 on |
| Text.NatDigitsRoundTrip | trace.h:22 | the digits of a natural read back as that natural, with no leading zero |
| Text.IntToStringRoundTrip | trace.h:22 | reading the rendering of any integer gives that integer back |
| Text.IntToStringHasNo | trace.h:20-23 | a rendering is non-empty and holds no separator character such as `,`, space or newline |
| Text.Split | trace.h:20-23 | splitting always gives at least one piece |
| Text.JoinAppend | trace.h:21-22 | joining one more part adds one separator and the part |
| Text.SplitPlain | trace.h:20-23 | a text without the separator splits into itself |
| Text.SplitFirst | trace.h:20-23 | a separator-free piece followed by the separator splits off as the first piece |
| Text.SplitJoin | trace.h:20-23 | splitting a join of separator-free parts gives the parts back |
| Text.CountConcat | trace.h:20-23 | occurrence counts add up over concatenation |
| Text.CountAbsent | trace.h:20-23 | an absent character is counted zero times |
| Text.CountJoin | trace.h:20-23 | a join of separator-free parts holds one separator fewer than there are parts |
| Trace.RenderingsStep | trace.h:20-23 | the element texts of one more element end with that element's rendering |
| Trace.PairTextsStep | trace.h:31-34 | the object texts of one more pair end with that pair's object |
| Trace.VecJson | trace.h:17-26 | the streaming loop produces the bracketed, comma-separated renderings of the vector |
| Trace.PairsJson | trace.h:29-36 | the streaming loop produces the bracketed, comma-separated `{"n":…,"d":…}` objects |
| Trace.OpenedAppend | trace.h:21-22 | each step writes a comma before every element but the first, then the element |
| Trace.OpenedIsJoin | trace.h:19-23 | what the loop has written is `[` followed by the join of the parts |
| Trace.JoinFirst | trace.h:20-23 | a join starts with its first part |
| Trace.VecJsonShape | trace.h:18-25 | the output is bracketed; it is `[]` exactly for the empty vector; otherwise it has \|v\|-1 commas, and splitting between the brackets at the commas gives texts that read back as the elements in order |
| Trace.PairsJsonShape | trace.h:29-35 | the output is bracketed; it is `[]` exactly for no pairs; when the number format writes no brace there is one `{` and one `}` per pair |
| Trace.PairCount | trace.h:33 | one object holds exactly one `{` and one `}` |
| Trace.CountJoinOnes | trace.h:31-34 | a join of parts holding a character once holds it once per part |
| Graphs.WalkExtend | dijkstra.cpp:42-43 | a walk followed by an edge is a walk whose weight grows by the edge's weight |
| Graphs.EmptyWalk | dijkstra.cpp:32 | the empty walk reaches the source at weight 0 |
| Graphs.LeastAlongWalk | dijkstra.cpp:42-47 | with every finite node relaxed and the source's entry at most 0, every walk ends at a finite entry no larger than its weight |
| Graphs.RelaxedMeansLeast | dijkstra.cpp:42-47 | such a table is never undercut by any walk, whatever the signs of the weights |
| Graphs.ShortestMeansInfIffUnreachable | dijkstra.cpp:58-63 | a shortest-distance entry is INF exactly when no walk reaches the node, and a finite one is the least weight of a walk |
| Graphs.SoundIsUpperBound | bmssp.cpp:143-148 | an entry of a sound table is at least the node's shortest distance, and a finite entry means the node is reached |
| Dijkstra.OutEdgesMembers | dijkstra.cpp:16-23 | an edge is in `adj[u]` exactly when some input line `u v w` with both ends below n produced it |
| Dijkstra.OutEdgesInRange | dijkstra.cpp:20-21 | every kept edge points below n |
| Dijkstra.BuildAdjacency | dijkstra.cpp:15-23 | the loop builds n lists, each holding the kept input edges of its node in input order |
| Dijkstra.InitialInvariant | dijkstra.cpp:30-33 | the table of infinities with 0 at the source, and that one heap entry, satisfy the loop invariant |
| Dijkstra.TopInRange | dijkstra.cpp:36 | the top of the heap names a node and has a finite cost |
| Dijkstra.SkipKeeps | dijkstra.cpp:39-40 | skipping a stale top keeps the invariant |
| Dijkstra.StartScan | dijkstra.cpp:36-42 | a top that is not stale carries the node's current entry, and its scan starts |
| Dijkstra.RelaxKeeps | dijkstra.cpp:43-47 | relaxing an edge keeps the scan invariant and never raises an entry |
| Dijkstra.RelaxSound | dijkstra.cpp:43-46 | a lowered entry is the weight of a walk |
| Dijkstra.RelaxEntries | dijkstra.cpp:45-46 | lowering an entry and pushing it keeps every heap entry current |
| Dijkstra.RelaxPending | dijkstra.cpp:45-46 | lowering and pushing keeps every other node pending or relaxed |
| Dijkstra.RelaxScanned | dijkstra.cpp:42-47 | after edge j, the first j+1 edges of the node are relaxed |
| Dijkstra.FinishScan | dijkstra.cpp:42-48 | after the last edge the outer invariant holds again |
| Dijkstra.DoneIsShortest | dijkstra.cpp:35-49 | with the heap empty, the table holds the shortest distances |
| Dijkstra.ShortestPaths | dijkstra.cpp:30-49 | every finite entry is the weight of a walk from the source; the source's entry is at most 0; once the heap is empty the entries are the shortest distances |
| Dijkstra.Run | dijkstra.cpp:15-49 | the same for the adjacency built from the input edges |
| Dijkstra.Report | dijkstra.cpp:58-65 | one line per node, `Node i: ` then INF or the number |
| Dijkstra.ReportSaysInfIffUnreachable | dijkstra.cpp:58-63 | with shortest distances, node v's line says INF exactly when v is unreachable |
| BlockLists.PullStep | block_list.cpp:20-25 | one iteration pops the top and collects at most that top's id |
| BlockLists.InsertChangesOnlyWhenAdmitted | block_list.cpp:5-10 | `insert` changes the state iff the value is below the bound and new or better; it then records the value and pushes the pair |
| BlockLists.InsertKeepsBound | block_list.cpp:6 | `insert` keeps every heap entry below the upper bound |
| BlockLists.BatchKeepsBound | block_list.cpp:12-15 | `batch_prepend` keeps every heap entry below the upper bound |
| BlockLists.BatchKeepsSmallest | block_list.cpp:12-15 | per key only the smallest in-bound value survives: presence, upper bounds, origin of the value, and the heap only grows |
| BlockLists.BatchKeyPresence | block_list.cpp:12-15 | a key is present iff it was before or was offered in bound |
| BlockLists.BatchValueBounds | block_list.cpp:12-15 | a key's value is at most its old value and every in-bound value offered for it |
| BlockLists.BatchValueOrigin | block_list.cpp:12-15 | a key's value is its old value or one of the values offered for it |
| BlockLists.PullCollectsAtMostCap | block_list.cpp:19-26 | `pull` returns at most M ids, extends what was collected, and stops with entries left only when full |
| BlockLists.PullExtendsFrontier | block_list.cpp:19-26 | the ids collected so far are a prefix of the result, which holds at most M ids |
| BlockLists.PullStopsFull | block_list.cpp:19 | if entries are left, M ids were collected |
| BlockLists.PullTakesSmallest | block_list.cpp:19-26 | `pull` only removes entries, and each removed entry precedes every entry left |
| BlockLists.PullBound | block_list.cpp:19-28 | removed costs are at most the returned bound, which is at most every cost left and at most the upper bound; it equals the upper bound iff the heap emptied |
| BlockLists.PullKeepsBound | block_list.cpp:19-26 | the heap left by `pull` stays below the upper bound |
| BlockLists.PullOnEmpty | block_list.cpp:19-28 | on an empty heap `pull` returns no ids and the upper bound, and changes nothing |
| BlockLists.PullReturnsLiveEntries | block_list.cpp:20-25 | each returned id comes from a removed entry whose cost was at most the value `operator[]` read, where an absent or already erased key reads as 0.0 |
| BlockLists.RemovedFromPop | block_list.cpp:20-21 | an entry removed by a later pop, like the top, was removed from the heap |
| BlockLists.StepCollectsPassedTop | block_list.cpp:22-24 | a step that collects an id collects the top, which passed the check |
| BlockLists.StepKeepsPassed | block_list.cpp:22-25 | passing the check against the map after a step means passing it before |
| BlockLists.PullReturnsLiveTop | block_list.cpp:19-25 | a live top is the first id a pull with room returns |
| BlockLists.BoundsNondecreasing | block_list.cpp:27 | with no insert in between, a later bound is never below an earlier one |
| BlockLists.InsertNewExact | test_block_list.cpp:385-389 | inserting a key not yet present keeps each key waiting exactly once at its value, and adds no other key |
| BlockLists.BatchNewExact | block_list.cpp:12-15 | `batch_prepend` of distinct new keys keeps that, and adds only offered keys |
| BlockLists.ExactLive | block_list.cpp:31-37 | on such contents `is_empty` drops nothing and the top is live |
| BlockLists.RemoveKey | block_list.cpp:24 | erasing a key takes exactly it out of the keys |
| BlockLists.PullStepExact | block_list.cpp:20-25 | one step collects the top's key, erases it from the map, and keeps the rest exact |
| BlockLists.PullLoopExact | block_list.cpp:19-26 | `pull` keeps the contents exact; its ids plus the keys still waiting are the keys it started with, each once |
| BlockLists.PullPops | block_list.cpp:19-26 | each step pops an entry and collects at most one id |
| BlockLists.DropStaleShrinks | block_list.cpp:31-37 | `is_empty` only drops entries |
| BlockLists.DrainShrinks | test_block_list.cpp:395-398 | a pull after `is_empty` that returns an id leaves fewer entries, so pulling until empty ends |
| BlockLists.DrainReturnsEachKeyOnce | test_block_list.cpp:384-409 | pulling until `is_empty` says yes, or a pull returns nothing, returns every inserted key exactly once and nothing else |
| BlockLists.DropStaleKeepsLive | block_list.cpp:31-37 | `is_empty` removes only stale entries, keeps every live one, reports empty iff no entry was live, and otherwise leaves a live top |
| BlockLists.DropStaleRemovesStale | block_list.cpp:32-35 | the removed entries are stale and the heap only shrinks |
| BlockLists.DropStaleKeepsLiveEntries | block_list.cpp:32-35 | every copy of every live entry stays |
| BlockLists.DropStaleLeavesLiveTop | block_list.cpp:32-36 | the heap empties iff no entry is live, and otherwise a live entry is on top |
| BlockLists.DropStaleKeepsBound | block_list.cpp:32-35 | `is_empty` keeps every entry below the upper bound |
| BlockLists.PullEntries | block_list.cpp:19-26 | the loop leaves exactly the map, heap and ids that `PullLoop` describes |
| BlockLists.DropStaleEntries | block_list.cpp:32-35 | the loop leaves exactly the heap that `DropStale` describes |
| BlockLists.BlockList.constructor | block_list.cpp:3 | sets M and the upper bound; the map and heap are empty |
| BlockLists.BlockList.Insert | block_list.cpp:5-10 | the new state is `Inserted` of the old; M and the bound are unchanged |
| BlockLists.BlockList.BatchPrepend | block_list.cpp:12-15 | the new state is `insert` applied to each pair in order |
| BlockLists.BlockList.Pull | block_list.cpp:17-29 | the new state and ids are those of `PullLoop` with cap `(size_t)M`; the bound is the new top's cost, or the upper bound when the heap is empty |
| BlockLists.BlockList.IsEmpty | block_list.cpp:31-37 | the map is unchanged, the heap is `DropStale` of the old one, and the answer is whether it is empty |
| Bmssp.NoneRaisedTrans | bmssp.cpp:23-24 | not raising any entry is transitive |
| Bmssp.LowerOne | bmssp.cpp:23-24 | writing a value no larger than the entry raises nothing |
| Bmssp.StillBelow | bmssp.cpp:23-27 | an entry lowered from one below the bound is still below it, so layer members stay below the bound |
| Bmssp.WitnessStep | bmssp.cpp:22 | a walk's cost plus an edge is the cost of a walk to the edge's head |
| Bmssp.SoundUpdate | bmssp.cpp:24 | writing a cost that a walk attains keeps the table sound |
| Bmssp.Below | bmssp.cpp:82-85 | the ids whose cost is strictly below b are exactly those kept |
| Bmssp.WalkEndsAtRoot | bmssp.cpp:41-46 | a finished walk up `bp_map` ends at a node that is not a key, after as many steps as it counts |
| Bmssp.TreeSizeStep | bmssp.cpp:47 | one more leaf adds its walk's length to its root's tally only |
| Bmssp.PivotByStep | bmssp.cpp:47-49 | after one more leaf, r is a pivot iff it was, or it is that leaf's root and its tally reached k |
| Bmssp.WalkUp | bmssp.cpp:41-46 | the loop returns the root and step count of the walk, or reports that it has not ended after \|bp_map\| steps |
| Bmssp.TalliedStarts | bmssp.cpp:38-39 | before any leaf no walk is tallied and nothing is a pivot |
| Bmssp.TallyStep | bmssp.cpp:40-50 | one iteration of the pivot loop keeps the tallies and the pivot list |
| Bmssp.CollectPivots | bmssp.cpp:38-50 | if every walk ends, the pivots are distinct and are exactly the roots that reached tally k while the leaves were tallied |
| Bmssp.TalliedAll | bmssp.cpp:40-51 | once every leaf is tallied, every walk has ended, the pivots are distinct and are exactly the roots that reached tally k |
| Bmssp.TreeSizeGrows | bmssp.cpp:47 | tallies never shrink as leaves are added |
| Bmssp.LastEnding | bmssp.cpp:40-47 | some leaf's walk ending at r means a last such leaf exists |
| Bmssp.PivotHasFinalTally | bmssp.cpp:47-49 | a pivot has a walk ending at it and a final tally of at least k |
| Bmssp.FinalTallyMakesPivot | bmssp.cpp:47-49 | a root with a walk ending at it and a final tally of at least k is a pivot |
| Bmssp.PivotsByFinalTally | bmssp.cpp:38-51 | a root is a pivot iff some walk ends at it and its final tally is at least k |
| Bmssp.UnendedWalkStaysInKeys | bmssp.cpp:43-44 | while a walk has not ended, it passes keys only |
| Bmssp.FollowAdds | bmssp.cpp:43-44 | a+b steps are a steps then b more |
| Bmssp.FollowStaysAtRoot | bmssp.cpp:43 | from a non-key the walk stays put |
| Bmssp.WalkRepeats | bmssp.cpp:43-46 | a walk not ended after \|bp_map\| steps has passed some key twice |
| Bmssp.DistinctCard | bmssp.cpp:43-46 | a sequence of nodes with no repeats has as many distinct members as elements, which bounds a walk up `bp_map` that repeats no node |
| Bmssp.SubsetCard | bmssp.cpp:43-46 | a set of nodes inside the keys of `bp_map` is no larger than they are |
| Bmssp.WalkRunsForever | bmssp.cpp:43-46 | such a walk never ends: it passes only keys forever |
| Bmssp.CycleStaysInKeys | bmssp.cpp:43-46 | once a walk returns to a node, it passes only keys from then on |
| Bmssp.WalkEndInRange | bmssp.cpp:41-47 | with `bp_map` pointing at nodes, a finished walk from a node ends at a node |
| Bmssp.KeepRelaxed | bmssp.cpp:22-24 | a relaxed edge stays relaxed while costs are only lowered |
| Bmssp.RelaxEdge | bmssp.cpp:22-28 | relaxing one edge keeps the layer state, raises nothing and leaves that edge relaxed |
| Bmssp.RelaxLowers | bmssp.cpp:22-24 | lowering the edge's head to the path through it keeps the state and raises nothing |
| Bmssp.GrowLayer | bmssp.cpp:25-28 | a node below the bound joins the new layer, mapped to the edge's tail |
| Bmssp.RelaxEdges | bmssp.cpp:21-30 | the loop over a node's edges keeps the layer state, raises nothing and relaxes all its edges against the layer's starting costs |
| Bmssp.KeepLayerRelaxed | bmssp.cpp:20-31 | lowering costs keeps the layer's relaxed edges relaxed |
| Bmssp.ExpandLayer | bmssp.cpp:19-31 | one layer: costs only lowered and sound; every entry it lowers below the bound is a node of the new layer, and every node of the new layer is below the bound and mapped in `bp_map` to a last-layer node with an edge into it; every edge out of the last layer is relaxed against the costs it was scanned with |
| Bmssp.RelaxEdgeComplete | bmssp.cpp:22-28 | relaxing one edge misses no node lowered below the bound, and maps each new layer node to the tail of an edge into it |
| Bmssp.LayerChainExtend | bmssp.cpp:18-33 | one more expansion of the last layer extends the chain of layers, each the expansion of the one before |
| Bmssp.PrefixesWithinExtend | bmssp.cpp:32-35 | a layer appended while the ids stayed within k·\|frontier\| keeps every earlier prefix within that limit, so the early return happens only at the last layer |
| Bmssp.LayersStep | bmssp.cpp:32-33 | appending a layer keeps the state between layers |
| Bmssp.PivotsInRange | bmssp.cpp:40-51 | pivots reached from nodes over a `bp_map` into the nodes are nodes |
| Bmssp.BuildingStarts | bmssp.cpp:14-16 | the frontier as the only layer, with an empty `bp_map`, starts the layer state |
| Bmssp.NextLayer | bmssp.cpp:19-33 | one layer: the last layer is expanded and appended, keeping the chain, the table invariants and the prefix limit |
| Bmssp.LayersInRange | bmssp.cpp:20-44 | between layers the last layer holds nodes and `bp_map` maps to nodes |
| Bmssp.FindPivots | bmssp.cpp:11-52 | costs only lowered and sound; the layers form a chain from the frontier, each layer the complete expansion of the one before, with every `bp_map` entry the tail of an edge into its key; the second result is all layers one after another; there are k+1 layers unless the ids passed k·\|frontier\|, which only the last layer does, and then the pivots are the frontier; otherwise the pivots are distinct and are exactly the roots whose final tally reached k, or `ok` is false when a walk up `bp_map` never ends |
| Bmssp.SettlingStarts | bmssp.cpp:57-61 | the start node's entry on the heap, with nothing settled and `max_cost` its entry, satisfies the loop state and the search facts |
| Bmssp.PopKeepsOthers | bmssp.cpp:64-65 | popping the top leaves every other heap entry in place |
| Bmssp.SkipVisited | bmssp.cpp:66-67 | dropping an entry of a visited node keeps the loop state |
| Bmssp.SkipVisitedFacts | bmssp.cpp:66-67 | dropping a visited node's entry keeps every changed entry settled or waiting at its current cost |
| Bmssp.SettleNew | bmssp.cpp:64-70 | settling a new node at its popped cost keeps the loop state, and `max_cost` becomes the larger cost |
| Bmssp.SettleNewFacts | bmssp.cpp:68-70 | settling the top's node records a cost that a walk attains, and below B after the first; changed entries stay tracked |
| Bmssp.PoppedInOrderSettles | bmssp.cpp:63-70 | with non-negative weights, popping the least entry keeps the popped costs non-decreasing, ends them at `max_cost`, and leaves no waiting entry below it |
| Bmssp.PlusNonNegative | bmssp.cpp:73 | a cost plus a non-negative weight is no lower, so pushed offers never undercut the settled cost |
| Bmssp.BaseRelaxEdge | bmssp.cpp:72-77 | relaxing an edge, writing and pushing only below B, keeps the loop state |
| Bmssp.BaseRelaxEdgeFacts | bmssp.cpp:73-77 | writing and pushing an offer below B from the node last settled keeps the search facts |
| Bmssp.KeepRelaxedFrom | bmssp.cpp:73-77 | an edge relaxed from its popped cost stays relaxed while entries are only lowered |
| Bmssp.KeepSettledRelaxed | bmssp.cpp:72-78 | the edges of the settled nodes stay relaxed while entries are only lowered |
| Bmssp.SettledRelaxedExtend | bmssp.cpp:69 | settling one more node keeps the relaxed edges of those before it |
| Bmssp.KeepEdgesRelaxed | bmssp.cpp:72-78 | lowering entries keeps the earlier settled nodes' edges and the scanned edges relaxed, and adds the edge just relaxed |
| Bmssp.RelaxOne | bmssp.cpp:73-77 | one edge out of the node just settled: the loop state and search facts hold after it, the earlier settled nodes' edges stay relaxed, and this node's edges up to this one are relaxed from the popped cost unless the offer reaches B |
| Bmssp.RelaxSettled | bmssp.cpp:72-78 | the loop over the settled node's edges keeps the loop state and search facts, and leaves every edge of every settled node relaxed from its popped cost |
| Bmssp.SearchStep | bmssp.cpp:64-78 | one round pops the least entry, drops it if its node is visited, or settles the node and relaxes its edges; the state is kept, and the round settles a node or shrinks the heap |
| Bmssp.SearchEndsSettled | bmssp.cpp:63-79 | when the loop stops, the settled nodes are at most k+1 distinct nodes starting with the start node at its entry, each popped at a cost a walk attains and at least its entry, below B after the first, in non-decreasing order under non-negative weights, with all their edges relaxed |
| Bmssp.SearchEndsResult | bmssp.cpp:80-86 | with at most k settled, the result is B and the settled nodes, and every entry that changed is a settled node's; with k+1, the bound is the largest popped cost and the ids are the settled nodes strictly below it |
| Bmssp.SearchEnds | bmssp.cpp:80-86 | the state the loop stops in gives both halves of the outcome |
| Bmssp.FilterBelow | bmssp.cpp:82-85 | the loop keeps, in order, the ids whose entry is strictly below the bound |
| Bmssp.BaseBmssp | bmssp.cpp:54-87 | entries are only lowered, only below B, and stay sound; the settled nodes are at most k+1 distinct nodes, the start node first at its entry, each popped at a cost a walk attains and bounding its entry, below B after the first, popped in order under non-negative weights, with all their edges relaxed; with at most k settled the result is B and all of them, and every changed entry is theirs; otherwise the bound is the largest popped cost and the ids are the settled nodes strictly below it |
| Bmssp.Pow2 | bmssp.cpp:96 | 2^e is at least 1 |
| Bmssp.Pow2Grows | bmssp.cpp:96-106 | powers of two grow with the exponent |
| Bmssp.BackedLowered | bmssp.cpp:118-120 | every block list entry stays at or above its node's entry while `min_costs` is only lowered |
| Bmssp.PairsBackedLowered | bmssp.cpp:118-124 | the same for the pairs queued in `to_prepend` |
| Bmssp.InsertedBacked | bmssp.cpp:122 | inserting a node at a cost not below its entry keeps every heap entry at or above its node's entry |
| Bmssp.BatchBacked | bmssp.cpp:128 | `batch_prepend` of such pairs keeps that |
| Bmssp.PulledBacked | bmssp.cpp:109 | a pull returns nodes whose entries are at most the returned bound, which is at most B, and keeps the heap backed |
| Bmssp.PullAfterNotEmpty | bmssp.cpp:108-109 | once `is_empty` says no, a pull returns at least one id |
| Bmssp.LowerAlongEdge | bmssp.cpp:117-120 | lowering a head along an edge keeps the table sound and raises nothing |
| Bmssp.RelaxReturnedEdge | bmssp.cpp:118-125 | one edge out of a returned id: costs only lowered and sound, the block list stays in bound and backed, and `to_prepend` gains at most that pair, in [res.first, pulled.bound) |
| Bmssp.RelaxReturned | bmssp.cpp:117-126 | the edge loop of one returned id: costs only lowered and sound; the block list stays in bound and backed; `to_prepend` only grows, keeping its old pairs as a prefix, and stays in [res.first, pulled.bound) |
| Bmssp.RelaxAllReturned | bmssp.cpp:115-127 | every returned id joins `u_set` in order; costs only lowered and sound; the block list stays backed; every queued pair lies in [res.first, pulled.bound) and backed by its entry |
| Bmssp.SeedPivots | bmssp.cpp:100-103 | `min_ub` is at most B and every pivot's entry, and is B or one of those entries; the block list stays in bound and backed |
| Bmssp.PullLive | bmssp.cpp:108-109 | with a live entry waiting, the pull returns at least one node; its bound is at most B, and every returned node's entry is at most that bound |
| Bmssp.ResultWithinPull | bmssp.cpp:110-112 | the bound a recursive call returns is at most the pulled bound, and so at most B |
| Bmssp.LoopStep | bmssp.cpp:109-128 | one iteration: costs only lowered and sound, the block list stays in bound and backed; when the call finishes, it was on a non-empty pull within B, returned a bound within the pull, `min_ub` becomes that bound, and u_set grows by exactly its ids |
| Bmssp.CallsSoFarExtend | bmssp.cpp:108-112 | one more call within B extends the record: u_set is all calls' ids in order and `min_ub` the last call's bound |
| Bmssp.RunLoop | bmssp.cpp:105-129 | costs only lowered and sound; when it finishes, \|u_set\| ≥ k·2^(t·l) or the block list was drained, and then its heap is empty; u_set is the ids of the recorded calls in order, each on a non-empty pull within B, and `min_ub` is the last call's bound or the seed |
| Bmssp.BmsspBounded | bmssp.cpp:89-135 | costs only lowered and sound; the bound is at most B (at level 0 it may instead be the first node's entry); level 0 is the outcome of `base_bmssp` on the first frontier node; above it, the `find_pivots` outcome (layers chain, pivots), the loop's recorded calls and stop condition, the seed `min_ub` as in `SeedPivots`, and the result: u_set then the layer ids strictly below the last bound |
| Bmssp.InitialSound | bmssp.cpp:143-144 | the table of infinities with 0 at the start is sound |
| Bmssp.SolveSssp | bmssp.cpp:137-148 | the returned table is sound and has at most 0 at the start, so it never undercuts a shortest distance |
| Randomness.RandBelow | experiments/run_experiments.py:41 | a draw reduced below a bound is below it |
| Randomness.RandInt | experiments/run_experiments.py:41 | `randint(a, b)` lies in [a, b] |
| Randomness.Random01 | experiments/run_experiments.py:43 | `random()` lies in [0, 1) |
| Randomness.Uniform | experiments/run_experiments.py:43 | `uniform(a, b)` lies in [a, b), or is a when a = b |
| Randomness.ScaleBelow | experiments/run_experiments.py:43 | a fraction of a span lies within it |
| Randomness.Swap | experiments/run_experiments.py:39 | a swap keeps the length |
| Randomness.SwapIsPermutation | experiments/run_experiments.py:39 | a swap is a permutation and keeps elements distinct |
| Randomness.SwapMultiset | experiments/run_experiments.py:39 | a swap keeps the multiset |
| Randomness.FisherYatesIsPermutation | experiments/run_experiments.py:39 | the shuffle is a permutation and keeps elements distinct |
| Randomness.Shuffle | experiments/run_experiments.py:60 | the in-place loop produces the Fisher–Yates result on the draws |
| Generator.Range | experiments/run_experiments.py:38 | `list(range(n))` holds 0..n-1 in order |
| Generator.Nodes | experiments/run_experiments.py:38-39 | the shuffled order is a permutation of 0..n-1 without repeats |
| Generator.GenerateConnectedGraph | experiments/run_experiments.py:20-61 | the loops return, or raise, exactly what `Generated` describes for the stream |
| Generator.GrowTree | experiments/run_experiments.py:40-45 | the tree loop builds exactly the tree phase |
| Generator.AddExtraEdges | experiments/run_experiments.py:47-58 | the extra-edge loop builds exactly the extra phase, capped at `remaining * 100` attempts |
| Generator.PairSetAppend | experiments/run_experiments.py:45 | one more edge adds its pair to `edge_set` |
| Generator.TreePhaseShape | experiments/run_experiments.py:40-45 | each node after the first gets one edge from an earlier node of the order, with a weight in range |
| Generator.TreeReaches | experiments/run_experiments.py:40-45 | every node of the order is reached from the first along tree edges |
| Generator.NodesCover | experiments/run_experiments.py:38-39 | the order holds exactly the nodes 0..n-1 |
| Generator.TreeEdgesGood | experiments/run_experiments.py:38-45 | tree edges have no self-loop or repeated pair, in-range ends and weights, and `edge_set` matches them |
| Generator.TreeIsSpanning | experiments/run_experiments.py:37-45 | the tree phase gives n-1 edges reaching every node from the shuffled root |
| Generator.AddEdgeKeepsGood | experiments/run_experiments.py:54-57 | a fresh non-loop pair in range keeps the per-edge promises |
| Generator.ExtraPhaseFails | experiments/run_experiments.py:51-53 | the extra loop fails iff it must draw over an empty node range, with the `randint` error |
| Generator.GrowsStep | experiments/run_experiments.py:51-58 | one attempt adding at most one edge and three draws composes with the rest |
| Generator.ExtraPhaseKeeps | experiments/run_experiments.py:48-58 | the extra loop only appends good edges, stops at m edges and makes at most three draws per attempt |
| Generator.GeneratedErrors | experiments/run_experiments.py:31-53 | the generator raises iff m < n-1, or n ≤ 0 with m > 0; the edge-count error is raised iff m < n-1 |
| Generator.PermutationKeeps | experiments/run_experiments.py:60 | reordering the edges keeps the per-edge promises and every edge |
| Generator.ReachableTransfer | experiments/run_experiments.py:60 | paths survive when every edge survives |
| Generator.BuiltExtendsTree | experiments/run_experiments.py:37-60 | on success the built list starts with the tree edges, keeps the promises, and the result is its shuffle |
| Generator.GeneratedIsShuffle | experiments/run_experiments.py:60-61 | the result is a permutation of the built edges, with no repeated pair |
| Generator.GeneratedGraph | experiments/run_experiments.py:31-61 | no self-loop, no repeated pair, ends below n, weights in [0.1, 100), between n-1 and m edges, exactly n-1 when m = n-1 |
| Generator.GeneratedConnected | experiments/run_experiments.py:38-61 | every node is reached from the shuffled root (not necessarily from 0) |
| GraphFile.WriteGraph | experiments/run_experiments.py:64-70 | the writes produce exactly `GraphText` |
| GraphFile.WrittenHeader | experiments/run_experiments.py:67 | before any edge the file holds the header line |
| GraphFile.WrittenEdge | experiments/run_experiments.py:68-69 | writing edge i appends its line |
| GraphFile.WrittenGraph | experiments/run_experiments.py:70 | the source line completes the file |
| GraphFile.WrittenStep | experiments/run_experiments.py:66-70 | writing a line appends it and a newline |
| GraphFile.EdgeLinesStep | experiments/run_experiments.py:68 | the lines of one more edge end with its line |
| GraphFile.WrittenIsJoin | experiments/run_experiments.py:66-70 | the file is its lines joined at newlines, plus a final newline |
| GraphFile.EdgeLineIsOneLine | experiments/run_experiments.py:69 | an edge line holds no newline when the weight text holds none |
| GraphFile.HeaderIsOneLine | experiments/run_experiments.py:67-70 | the header and source lines hold no newline |
| GraphFile.LinesAreOneLine | experiments/run_experiments.py:67-70 | no line holds a newline |
| GraphFile.AllOneLine | experiments/run_experiments.py:67-70 | a header, body and last line without newlines make lines without newlines |
| GraphFile.GraphFileSplits | experiments/run_experiments.py:66-70 | cutting the file at newlines gives its lines and an empty rest |
| GraphFile.GraphFileLines | experiments/run_experiments.py:64-70 | the lines are the header with the actual edge count, one line per edge in list order, the source, and nothing after the last newline |
| GraphFile.LinesShape | experiments/run_experiments.py:66-70 | the lines position by position |
| GraphFile.HeaderReadsBack | experiments/run_experiments.py:67-70 | the header reads back as n and the number of edges listed, and the last line as the source |
| GraphFile.EdgeLineReadsBack | experiments/run_experiments.py:69 | an edge line reads back as its ends and the weight's text |
| Timing.SkipSpaces | experiments/run_experiments.py:75 | `\s*` stops at the first non-blank |
| Timing.SkipRun | experiments/run_experiments.py:75 | `[\d.]+` stops at the first character outside the class |
| Timing.MatchMask | experiments/run_experiments.py:75 | position t of the mask says whether the pattern matches at t |
| Timing.StartsAtEnd | experiments/run_experiments.py:75 | a concatenation holds its second part after the first |
| Timing.StartsAtExtend | experiments/run_experiments.py:75 | a text's extensions hold what it holds |
| Timing.SkipSpacesExact | experiments/run_experiments.py:75 | a maximal blank run ends at the first non-blank |
| Timing.SkipRunExact | experiments/run_experiments.py:75 | a maximal digit-and-dot run ends at the first other character |
| Timing.SliceStartsAt | experiments/run_experiments.py:75 | a slice sits where it was cut |
| Timing.SpacesSlice | experiments/run_experiments.py:75 | a slice over blanks is blank |
| Timing.RunSlice | experiments/run_experiments.py:75 | a non-empty slice over digits and dots is a run |
| Timing.AssembleMatch | experiments/run_experiments.py:75 | the pieces of a match in sequence make a match |
| Timing.MatchAtSound | experiments/run_experiments.py:75 | what the scan captures is the group of a real match at that position |
| Timing.MatchAtComplete | experiments/run_experiments.py:75 | every match at a position is found, with its unique group |
| Timing.FirstTrueIsLeast | experiments/run_experiments.py:75 | the first-true search finds the least marked position, or none |
| Timing.SearchIsLeftmost | experiments/run_experiments.py:75 | `re.search` finds the leftmost matching position, and nothing when none matches |
| Timing.Pow10 | experiments/run_experiments.py:77 | 10^e is at least 1 |
| Timing.IndexOf | experiments/run_experiments.py:77 | the first occurrence of a character, or the length |
| Timing.RunPartsAreDigits | experiments/run_experiments.py:77 | around the only dot of a run there are digits only |
| Timing.FracValue | experiments/run_experiments.py:77 | a fraction's value times 10^digits is its digits' value |
| Timing.StartRun | experiments/run_experiments.py:75-77 | a captured group consists of digits and dots |
| Timing.ParseFloatAccepts | experiments/run_experiments.py:77 | `float` accepts a run iff it has at most one dot and at least one digit |
| Timing.CountAt | experiments/run_experiments.py:77 | counting from the first occurrence |
| Timing.CountZeroIff | experiments/run_experiments.py:77 | a character is counted zero times iff absent |
| Timing.CountPositive | experiments/run_experiments.py:77 | a present character is counted at least once |
| Timing.ParseFloatReadsDecimal | experiments/run_experiments.py:77 | digits with an optional fraction parse to their decimal value |
| Timing.LineAtStart | experiments/run_experiments.py:73-78 | a timing line at the start of the output yields its number's parse |
| Timing.ParseNumberText | experiments/run_experiments.py:77 | a number as `ostream` writes it parses back to its value |
| Timing.TimingLineReadsBack | experiments/run_experiments.py:73-78 | the `<label> Time: <num> ms` line the solvers print yields its value |
| Timing.RunSolverClassifies | experiments/run_experiments.py:81-101 | success iff exit code 0 and a readable timing, which is then the time; every failure (non-zero exit, no timing, timeout, exception) reports 0.0 |
| Timing.MakeSeed | experiments/run_experiments.py:104-106 | the seed lies in [0, 2^31) and agrees with the hash modulo 2^31 |
| Timing.MakeSeedKeepsLowHashes | experiments/run_experiments.py:104-106 | a hash already in [0, 2^31) is its own seed |
| Sweeps.Solvers | experiments/run_experiments.py:122-124 | BMSSP first, then Dijkstra exactly when a baseline is given |
| Sweeps.RunSweep | experiments/run_experiments.py:131-145 | the nested loops produce exactly the rows and error of `Sweep` |
| Sweeps.RunPoint | experiments/run_experiments.py:134-145 | the trial loop of a point produces exactly `TrialsFrom` |
| Sweeps.RunRowMeans | experiments/run_experiments.py:139-143 | a row is produced iff `run_solver` reported success, and it records configuration, seed, solver name and time |
| Sweeps.CollectGrows | experiments/run_experiments.py:139-145 | collecting adds at most one element per item |
| Sweeps.CollectSound | experiments/run_experiments.py:139-145 | every collected element comes from the accumulator or an item |
| Sweeps.CollectKeeps | experiments/run_experiments.py:139-145 | collecting keeps the accumulator as a prefix |
| Sweeps.CollectComplete | experiments/run_experiments.py:139-145 | every item's elements are collected |
| Sweeps.SolversStep | experiments/run_experiments.py:139-145 | one step of the solver loop |
| Sweeps.SolversFromGrows | experiments/run_experiments.py:139-143 | a trial adds no more rows than there are solvers |
| Sweeps.MoreTimes | experiments/run_experiments.py:134-145 | one more trial adds one more multiple of the solver count to the row bound |
| Sweeps.PrefixKeeps | experiments/run_experiments.py:131-145 | a row already written is among the rows at the end |
| Sweeps.PrefixMembers | experiments/run_experiments.py:131-145 | all rows already written are among the rows at the end |
| Sweeps.SolversFromRuns | experiments/run_experiments.py:139-145 | a trial adds exactly the rows of its successful runs, all on the same graph |
| Sweeps.TrialsFromNoError | experiments/run_experiments.py:134-137 | the trial loop ends without an error iff every remaining trial's generator succeeds |
| Sweeps.TrialsFromErrorOrigin | experiments/run_experiments.py:134-137 | an error the trial loop stops with is the error of some remaining trial's generator |
| Sweeps.TrialsFromErrors | experiments/run_experiments.py:134-137 | the trial loop stops with an error iff some remaining trial's generator fails, and with that error |
| Sweeps.TrialsFromKeeps | experiments/run_experiments.py:134-145 | the trial loop keeps what was written |
| Sweeps.TrialsFromGrows | experiments/run_experiments.py:134-145 | no more rows than remaining trials × solvers |
| Sweeps.TrialsFromSound | experiments/run_experiments.py:134-145 | every added row is the row of a successful run |
| Sweeps.TrialsFromComplete | experiments/run_experiments.py:134-145 | with no generator failure, every successful run has its row |
| Sweeps.PointsFromErrors | experiments/run_experiments.py:131-137 | the point loop stops with an error iff some trial of a remaining point fails to generate |
| Sweeps.PointsFromKeeps | experiments/run_experiments.py:131-145 | the point loop keeps what was written |
| Sweeps.PointsFromGrows | experiments/run_experiments.py:131-145 | no more rows than remaining points × trials × solvers |
| Sweeps.PointsFromSound | experiments/run_experiments.py:131-145 | every row is the row of a successful run of some point, trial and solver |
| Sweeps.PointsFromComplete | experiments/run_experiments.py:131-145 | with no generator failure, every successful run has its row |
| Sweeps.TrialGraphOk | experiments/run_experiments.py:135-137 | a trial's graph is generated iff its point is feasible, whatever the seed |
| Sweeps.SweepErrors | experiments/run_experiments.py:131-137 | a sweep ends in an error iff it has trials and some point is infeasible |
| Sweeps.RanMeans | experiments/run_experiments.py:135-143 | a run means: the graph was generated from the trial's seed, the solver read it, and `run_solver` reported success with the row's time |
| Sweeps.SweepRows | experiments/run_experiments.py:131-145 | rows are exactly the successful runs (all of them when no generator fails), no more rows than points × trials × solvers |
| Sweeps.SweepIsRuns | experiments/run_experiments.py:131-145 | the rows are, in order, each run's row list (point by point, trial by trial, solver by solver); a generator error cuts the list short, otherwise the rows are all of it |
| Sweeps.PointsFromIsRuns | experiments/run_experiments.py:131-145 | the point loop appends the row lists of its points' runs in turn, all of them when no generator fails |
| Sweeps.TrialsFromIsRuns | experiments/run_experiments.py:134-145 | the trial loop appends the row lists of its trials' runs in turn, all of them when no generator fails; a generator error cuts the list short |
| Sweeps.SolversFromIsRuns | experiments/run_experiments.py:139-145 | a trial's solver loop appends each solver's row list in solver order |
| Sweeps.CollectJoins | experiments/run_experiments.py:139-145 | collecting is the accumulator followed by every item's list, joined in order (the solver loop's rows) |
| Sweeps.RunRowsAtMostOne | experiments/run_experiments.py:139-143 | one run gives one row when `run_solver` reports success and none otherwise |
| Sweeps.CollectShift | experiments/run_experiments.py:139-145 | a longer prefix gives the same additions |
| Sweeps.TrialsShift | experiments/run_experiments.py:134-145 | the trial loop after a longer prefix gives the same additions and error |
| Sweeps.PointsShift | experiments/run_experiments.py:131-145 | the point loop after a longer prefix gives the same additions and error |
| Sweeps.PointsConcat | experiments/run_experiments.py:131-145 | the points of a+b: those of a, then, unless that failed, those of b |
| Sweeps.PointsSuffix | experiments/run_experiments.py:131-145 | skipping past a gives the points of b |
| Sweeps.SweepAppend | experiments/run_experiments.py:131-145 | rows come in point order |
| Sweeps.NodeScalingPoints | experiments/run_experiments.py:131-132 | each node count with `multiplier * n` edges, in order |
| Sweeps.EdgeDensityPoints | experiments/run_experiments.py:172-174 | the fixed node count with `multiplier * n` edges for each multiplier, in order |
| Sweeps.RunNodeScaling | experiments/run_experiments.py:109-147 | the CSV is the header then one line per row of the sweep; the error is the sweep's |
| Sweeps.RunEdgeDensity | experiments/run_experiments.py:150-189 | the same, with the multiplier column |
| Sweeps.NodeScalingRows | experiments/run_experiments.py:131-142 | every row has a requested n, the requested m = multiplier·n, a trial in range, that trial's seed and a listed solver |
| Sweeps.EdgeDensityRows | experiments/run_experiments.py:172-184 | every row has the fixed n, a listed multiplier, m = multiplier·n, a trial in range, its seed and a listed solver |
| Sweeps.CsvTableLines | experiments/run_experiments.py:128-142 | the header first, then each row's cells in order, the edges column being the requested m, every line as wide as the header |
| Sweeps.CellsShape | experiments/run_experiments.py:142 | seven cells iff the row has a multiplier; the edge count second |
| Aggregate.Min | experiments/visualize.py:50 | `min` is a timing and bounds all timings from below |
| Aggregate.Max | experiments/visualize.py:51 | `max` is a timing and bounds all timings from above |
| Aggregate.SmallestKey | experiments/visualize.py:43 | the least key of a non-empty set |
| Aggregate.SmallestExists | experiments/visualize.py:43 | a non-empty set of integers has a least element |
| Aggregate.SortedKeys | experiments/visualize.py:43 | `sorted(groups)` holds exactly the keys, strictly ascending |
| Aggregate.PrependSmallest | experiments/visualize.py:43 | the least key before the others in order gives all keys in order |
| Aggregate.TimingsOfKey | experiments/visualize.py:39-41 | a key that occurs has a non-empty group |
| Aggregate.KeysHaveTimings | experiments/visualize.py:43-44 | every sorted key has a non-empty group |
| Aggregate.Aggregate | experiments/visualize.py:36-53 | the two loops return exactly `Aggregated` |
| Aggregate.FillGroups | experiments/visualize.py:38-41 | the first loop succeeds iff every row has the key; its dict maps each key to exactly that key's timings |
| Aggregate.GroupedStep | experiments/visualize.py:41 | `setdefault(key, []).append(t)` keeps the dict grouped |
| Aggregate.BuildGroups | experiments/visualize.py:42-52 | the second loop builds one entry per key, in key order |
| Aggregate.KeysHaveGroups | experiments/visualize.py:43-44 | every sorted key has a non-empty list in the dict |
| Aggregate.EntriesAreGroups | experiments/visualize.py:43-52 | the entries built from the dict are the entries of the rows' groups |
| Aggregate.SameGroups | experiments/visualize.py:42-52 | lists of entries agreeing everywhere are equal |
| Aggregate.PrefixStep | experiments/visualize.py:39-41 | one more row adds its key and appends its timing to its group |
| Aggregate.SumBounds | experiments/visualize.py:48 | values between lo and hi sum to between n·lo and n·hi |
| Aggregate.QuotientBounds | experiments/visualize.py:48 | bounds on a sum bound the quotient |
| Aggregate.MeanBetween | experiments/visualize.py:48-51 | min ≤ mean ≤ max |
| Aggregate.MeanBounds | experiments/visualize.py:48 | values between lo and hi have their mean between them |
| Aggregate.SquaredDeviationsNonNegative | experiments/visualize.py:49 | squared deviations are never negative |
| Aggregate.VarianceNonNegative | experiments/visualize.py:49 | the sample variance is never negative |
| Aggregate.SumConstant | experiments/visualize.py:48 | n copies of c sum to n·c |
| Aggregate.SquaredDeviationsZero | experiments/visualize.py:49 | squared deviations from c vanish iff every value is c |
| Aggregate.SquareSign | experiments/visualize.py:49 | a square is zero for zero and otherwise positive |
| Aggregate.PositiveSquare | experiments/visualize.py:49 | the square of a positive number is positive |
| Aggregate.PositiveProduct | experiments/visualize.py:49 | a product of positives is positive (a proof aid for `PositiveSquare`) |
| Aggregate.MeanConstant | experiments/visualize.py:48 | equal values have that value as their mean |
| Aggregate.VarianceZero | experiments/visualize.py:49 | the sample variance is zero iff all values are equal |
| Aggregate.QuotientZero | experiments/visualize.py:49 | a quotient by a positive number is zero iff the dividend is |
| Aggregate.StatsMeans | experiments/visualize.py:44-52 | an entry: min and max are timings bounding all of them, min ≤ mean ≤ max; std is 0 for one timing (and mean is that timing); otherwise std is the root of the non-negative (n-1)-denominator variance, which is zero iff all timings agree |
| Aggregate.TimingsAppend | experiments/visualize.py:39-41 | grouping a concatenation concatenates the groups: input order is kept |
| Aggregate.TimingsMembers | experiments/visualize.py:39-41 | a group holds exactly the timings of the rows with that key |
| Aggregate.TimingsCount | experiments/visualize.py:39-41 | a group holds no more timings than rows, and all rows when all share the key |
| Aggregate.TimingsOnlyKeyAndTime | experiments/visualize.py:40-41 | only the key column and `time_ms` matter for grouping, not the solver |
| Aggregate.AggregatedOnlyKeyAndTime | experiments/visualize.py:40-41 | the same for the whole result |
| Aggregate.AggregatedFails | experiments/visualize.py:36-45 | KeyError iff some row lacks the key column; no rows give the empty list |
| Aggregate.AggregatedSorted | experiments/visualize.py:43-52 | entry keys strictly ascend, and each entry holds its key's non-empty timings and their statistics |
| Aggregate.AggregatedKeys | experiments/visualize.py:39-45 | exactly one entry per distinct key value |

## Left out

- Process spawning, stdin redirection, `timeout`, `tempfile`, file and CSV writing, `print`, argparse `main` and `parse_int_list` are I/O or command-line handling. `run_solver` is modelled only as a classifier over how the process ended (`Timing.ProcessOutcome`). Running a solver is the parameter `Env.run` of the sweeps.
- Python's Mersenne Twister is a stream of draws (`Randomness.Stream`), one draw per call. `randint(a, b)` is `a + draw % (b - a + 1)`. `uniform(a, b)` is `a + (b - a) * frac`, where frac is a draw scaled into [0, 1). `random.shuffle` is Fisher–Yates on those draws. Seeding maps a seed to a stream (`Env.streams`).
- Python's tuple `hash` is a function parameter of `make_seed`.
- Float formatting and parsing are opaque:
  - `:.4f`, and `ostream` printing of a double, are function parameters (`fmt`, `weightText`, `timeText`);
  - `float()` is modelled exactly on digit-and-dot runs. No exponent form arises from the regex group.
- Weights, costs and timings are exact reals, so rounding, NaN and overflow of doubles are not modelled. `statistics.mean` is the exact mean.
- The square root in `statistics.stdev` is a function parameter. The variance under it is modelled exactly.
- `read_csv`'s int/float/str coercion and all plotting are left out. `aggregate` takes rows whose grouping column holds integers.
- Aggregate.Stats: a single-timing group's `std` is the integer `0` in the source. The model writes it as `0.0`.
- Timing.ExtractTiming: `\s` is ASCII whitespace and `\d` an ASCII digit. Python's Unicode classes are not modelled. The label is taken literally; the labels used hold no regex metacharacter.
- main.cpp, bmssp.h, the tests of test_block_list.cpp other than the stress pull, the chrono timing in dijkstra.cpp, and trace.h's `TRACE` macros with their file stream and counter are not part of this model. They are drivers, declarations, tests or I/O.
- block_list.h declares a D0/D1/locator design that block_list.cpp does not implement. It is not part of this model; only `PullResult` follows the header.
- `solve_sssp`'s derivation of `k`, `t` and `l` through `log2`, `pow` and `ceil` is left out; they are parameters. `pow(2, …)` for `M` and `max_u` is the exact integer power `Bmssp.Pow2`.
- Bmssp.BmsspBounded requires `2^(t·(l-1))` to fit in a 32-bit `int`. The source would overflow `int M` otherwise. The float-to-`size_t` conversion of `max_u` is taken as exact.
- Dijkstra.ShortestPaths: the heap loop gets a `fuel` bound on its pops. Its termination is not evident from the code. `done` says the heap ran empty; only then are the distances claimed to be shortest.
- Bmssp.RunLoop: the loop of `bmssp_bounded` gets a `fuel` bound too, and `done` is false when the bound ran out.
- Bmssp.WalkUp: the walk up `bp_map` is capped at `|bp_map|` steps. `WalkRunsForever` proves that a walk not ended by then never ends. Zero-weight cycles can make `bp_map` cyclic, where the source loops forever; the model reports this as `ok` false.
- Bmssp.CollectPivots: `unordered_set` iteration order is unspecified, and the model uses insertion order.
- Bmssp.BmsspBounded, Bmssp.SolveSssp: that the solver computes shortest distances is not claimed. The model proves three things: every finite entry is the weight of a walk from the start; no entry is ever raised; so the table never undercuts a true distance (`Graphs.SoundIsUpperBound`).
- Dijkstra.Run requires input ids to be non-negative and the source to be below n. The source indexes vectors with them without a check, which is undefined behaviour otherwise.
- BlockLists.DrainReturnsEachKeyOnce: the stress test's repeated pull (test_block_list.cpp:379-409) is proved for contents where each key waits exactly once at its value (`Exact`), which inserting distinct keys into an empty list gives (`InsertNewExact`). After an insert lowers a waiting key, a stale copy stays in the heap, and `operator[]` on an erased key reads 0.0; what a pull returns then is stated by `PullReturnsLiveEntries` and not by this lemma. The test's per-batch ordering check is `BoundsNondecreasing`.
- Bmssp.ExpandLayer: a node whose offer only matches its entry (`d == min_costs[e.to]`, leaving it unchanged) joins the new layer in the source. The contract forces only nodes whose entry the expansion lowered into the layer; a matched node may be in it, and if so it is below the bound and mapped to an edge tail. Nor does the contract state how often a node occurs in a layer: the source pushes it once per accepted edge, and that count feeds the size test `all_layers.size() > k·|frontier|` (bmssp.cpp:34-35). The "complete expansion" of the `Bmssp.FindPivots` row is therefore membership, not an exact list.
- Bmssp.BaseBmssp: as in `find_pivots`, an offer equal to its head's entry (`d == min_costs[e.to]`) is pushed and may be settled in the source. When at most k nodes are settled, the contract forces into them every node whose entry the search lowered, and leaves a matched but unchanged node unforced.
- Bmssp.BmsspBounded: the block list is local to the call. `RunLoop` states that a drained list's heap is empty; the outcome of `BmsspBounded` only records the `drained` flag, the calls and their ids, and does not restate the list's contents.
- Bmssp.BmsspBounded: the contract does not state which nodes' entries are final when a call returns. The source's algorithm relies on that, and it needs the shortest-path argument that is not claimed here.
