# djikastra.py in Dafny

A model of `djikastra.py`: a directed, weighted graph made of `Node` records, the `Graph` class
that holds them (`add_node`, `add_edge`), and `solve(graph, source_node_id, target_node_id)`.
`solve` gives the source distance 0. It then relaxes the unvisited neighbours of the current node
and marks that node visited. Next it moves to the unvisited neighbour reached by the lightest edge
(the first such entry in neighbour order when weights tie), and stops once the current node has no
unvisited neighbour. Finally it walks the `previous_node` chain back from the target. It returns
the ids along that chain, target first and source last, together with the target's distance.

The model has five modules:

- `GraphStore` (`graph_store.dfy`) holds the data model.
  - Nodes are integer handles into an arena kept by the `Graph` class.
  - Each per-node field of `Node` (id, neighbour set, distance, predecessor, visited flag) is a
    sequence field of `Graph`, indexed by handle.
  - `nodes`, `visited` and `unvisited` are set fields.
  - `Graph()`, `Node(id)`, `add_node` and `add_edge` are a constructor and methods. Each is proved
    against the pure view `Topo()` and `Traversal()`; `add_edge` is proved against the function
    `AddEdgeSpec`.
- `PathSolver` (`path_solver.dfy`) gives reference functions for each step of `solve`:
  - `Relaxed`: the relaxation, in a closed form that does not depend on neighbour order;
  - `Visit`: marking the current node visited;
  - `NextCurrent`: `index(min(...))` over the unvisited neighbours;
  - `Traverse`: the whole `while` loop;
  - `Walk` and `Reconstruction`: the path walk;
  - `FinalState` and `SolveOutcome`: the whole call.

  The loops of the source (the source and target scans, the relaxation loop, the main loop and the
  walk back) are methods over a `Graph`. Each is proved to compute exactly these functions.
- `SolverTheorems` (`solver_theorems.dfy`) proves what the result means.
  - Relaxation only lowers distances, and only at unvisited neighbours.
  - Each iteration moves exactly the current node from `unvisited` to `visited`.
  - The loop runs at most once per node.
  - Every predecessor link is an edge whose weight accounts for the distance.
  - Visits are ranked, so the predecessor chain is acyclic.
  - Hence a returned path runs from the target id to the source id along edges, and its cost is
    the sum of the edge weights along it.
- `SampleGraph` (`sample_graph.dfy`) is the `__main__` block. It builds the five-node sample graph
  through the `Graph` methods and proves that `solve(graph, 0, 3)` returns `([3, 1, 2, 0], 4)`.
- `DetourGraph` (`detour_graph.dfy`) is a four-node graph on which `solve` does not return a
  shortest path.

Three facts about the code shape the model:

- When the current node has no unvisited neighbour, the loop ends at the `break` (line 60). No
  other node is picked.
- The code raises no errors of its own. Unknown ids, duplicate ids and unreachable targets are
  not reported as such (see "Left out").
- The next node is the one reached by the lightest edge, not the one at the least tentative
  distance. So the result is not always a shortest path. `DetourGraph.DetourNotShortest` shows an
  instance: edges 0->1:1, 0->2:5, 1->3:10 and 2->3:1. From 0 to 3, `solve` returns
  `([3, 1, 0], 11)`, while the route through 2 costs 6.

## Model

| member | source | states |
|---|---|---|
| GraphStore.Graph.constructor | djikastra.py:9-13 | a new graph has no nodes, and its visited and unvisited sets are empty |
| GraphStore.Graph.NewNode | djikastra.py:1-7 | `Node(id)` is a fresh record with this id, no neighbours, no predecessor, distance infinity and not visited; the node set and the partition sets are unchanged |
| GraphStore.Graph.AddNode | djikastra.py:16-18 | `add_node` adds the node to `nodes` and to `unvisited`; nothing else changes; adding a node already present changes nothing (idempotent) |
| GraphStore.Graph.AddEdge | djikastra.py:20-24 | `add_edge` leaves the graph equal to `AddEdgeSpec` of the old graph, and the traversal fields are unchanged |
| GraphStore.Graph.AddEdgesFrom | djikastra.py:22-24 | the inner scan for one outer node `a` adds `(b, weight)` for every node `b` with the target id, and only when `a` has the source id; every other neighbour set is unchanged |
| GraphStore.Graph.AddNeighbour | djikastra.py:24 | `neighbours.add((node_2, weight))` is a set insertion at one node only |
| GraphStore.AddEdgeMeaning | djikastra.py:20-24 | after `add_edge`, an entry of `a`'s neighbour set is either an old entry or `(b, w)` with `a` of id `from` and `b` of id `to`, both in the graph; every other node's set is unchanged; if either id is absent, the graph is unchanged; well-formedness is kept |
| GraphStore.Plus | djikastra.py:44 | `inf + w` is `inf`; a finite distance grows by exactly `w`; adding a weight never makes a distance smaller |
| GraphStore.Below | djikastra.py:46 | the `<` on distances is the strict form of `<=`, and holds exactly when `b <= a` does not; infinity is below nothing |
| GraphStore.Insert | djikastra.py:24 | `set.add` puts the pair in the set and grows it by at most one entry |
| GraphStore.InsertAll | djikastra.py:22-24 | the inner scan's insertions never shrink the neighbour set, and add at most one entry per matched node |
| GraphStore.WithId | djikastra.py:22-23 | the inner scan matches at most one node per handle it passes |
| GraphStore.AddEdgeSpec | djikastra.py:20-24 | `add_edge` keeps the ids, the node set and the number of records; a node whose id is not `from_node_id` keeps its neighbour set unchanged |
| GraphStore.InsertAllElements | djikastra.py:24 | repeated `set.add` keeps the old entries, adds exactly the new pairs, and never duplicates an entry |
| GraphStore.WithIdElements | djikastra.py:22-23 | the inner scan matches exactly the nodes of the graph with the target id |
| GraphStore.InsertAllStep | djikastra.py:22-24 | one more step of the inner scan adds the next matching node, or nothing |
| GraphStore.LastWithId | djikastra.py:31-33 | a scan that keeps overwriting its answer ends with the last matching node; it finds none exactly when no node has the id |
| GraphStore.Lookup | djikastra.py:62-65 | the node a lookup finds is in the graph and has the requested id |
| PathSolver.MinWeightTo | djikastra.py:42-48 | the lightest weight of the entries leading to `v`: it is absent exactly when no entry leads to `v`, it is the weight of such an entry, and no such entry is lighter |
| PathSolver.Relaxed | djikastra.py:42-48 | relaxation leaves the visited flags and the partition sets unchanged |
| PathSolver.Visit | djikastra.py:50-52 | marking visited sets the current node's flag, adds it to `visited` and removes it from `unvisited`; every other flag, every distance and every predecessor is unchanged |
| PathSolver.UnvisitedNeighbours | djikastra.py:54 | the comprehension has at most one entry per neighbour entry |
| PathSolver.UnvisitedEntry | djikastra.py:54 | each entry of the comprehension is a neighbour entry whose node is not visited |
| PathSolver.Weights | djikastra.py:55 | one weight per unvisited entry, in the same order |
| PathSolver.NextCurrent | djikastra.py:54-58 | the node advanced to is an unvisited neighbour of the current node, reached by one of its edges |
| PathSolver.Step | djikastra.py:42-52 | one iteration moves exactly the current node from `unvisited` to `visited`, sets its flag and keeps its distance |
| PathSolver.Reconstruction | djikastra.py:67-75 | no path exactly when the walk back fails; a found path starts with the target id and ends with the source id, and its cost is the target's distance |
| PathSolver.SolveOutcome | djikastra.py:28-75 | a path `solve` returns starts with `target_node_id`, and its cost is the target's distance in the final state |
| PathSolver.RelaxedKeepsCurrent | djikastra.py:42-48 | relaxing never changes the current node's own distance or predecessor (weights are not negative) |
| PathSolver.RelaxedNothing | djikastra.py:42 | a node without neighbours changes nothing |
| PathSolver.RelaxedExtend | djikastra.py:42-48 | relaxing one more entry `(v, w)` is the loop body: if `v` is unvisited and `d(cur) + w` is below `d(v)`, then `v` takes that distance and `cur` as its predecessor; otherwise nothing changes |
| PathSolver.FirstMinIndex | djikastra.py:57 | `index(min(ws))` is a position of the least weight, and every earlier position is strictly heavier |
| PathSolver.AllVisited | djikastra.py:54-56 | the list of unvisited neighbours is empty exactly when every neighbour is visited |
| PathSolver.NextEntry | djikastra.py:54-58 | the chosen entry is the first of the lightest unvisited entries in neighbour order |
| PathSolver.NextEntryHead | djikastra.py:57 | the first unvisited entry wins a tie with the lightest later entry |
| PathSolver.NextCurrentChoice | djikastra.py:54-60 | the next current node is the node of the first lightest unvisited neighbour entry; there is none, and the loop breaks, exactly when every neighbour is visited |
| PathSolver.StepConsistent | djikastra.py:42-52 | an iteration keeps the partition consistent, moves exactly the current node from `unvisited` to `visited`, and sets its flag; the node it advances to is unvisited |
| PathSolver.Traverse | djikastra.py:40-60 | the loop keeps the partition consistent, and the start node and all nodes visited before it end up visited |
| PathSolver.TraverseStep | djikastra.py:40-60 | the loop is one iteration followed by either `break` or the loop from the next current node |
| PathSolver.Started | djikastra.py:31-34 | the source lookup sets the distance of every node with the source id to 0; every other distance, and every predecessor, flag and partition set, is unchanged |
| PathSolver.StartedConsistent | djikastra.py:30-38 | after the source lookup the state is consistent, and the chosen source is unvisited |
| PathSolver.Walk | djikastra.py:67-73 | a found walk is non-empty, starts at the target, ends at the source, and stays within the graph's handles |
| PathSolver.FinalState | djikastra.py:28-60 | after the loop of `solve` the partition is still consistent |
| PathSolver.WalkUnfold | djikastra.py:70-72 | one step back from a non-source node follows its `previous_node` |
| PathSolver.WalkStuck | djikastra.py:70-72 | a walk that meets a node without predecessor, or exceeds the bound, finds no path |
| PathSolver.WalkBackStep | djikastra.py:70-72 | one pass of the walk-back loop appends the current id and moves to its predecessor |
| PathSolver.WalkBackEnd | djikastra.py:70-73 | reaching the source ends the walk, with the source id appended last |
| PathSolver.LocateSource | djikastra.py:30-34 | the source scan returns the last node with the source id and sets the distance of every node with that id to 0; nothing else changes |
| PathSolver.LocateTarget | djikastra.py:62-65 | the target scan returns the last node with the target id |
| PathSolver.Relax | djikastra.py:42-48 | the relaxation loop over the neighbour set computes exactly `Relaxed` |
| PathSolver.MarkVisited | djikastra.py:50-52 | the current node gets its flag, joins `visited` and leaves `unvisited`; nothing else changes |
| PathSolver.WalkBack | djikastra.py:67-73 | the walk-back loop, bounded by `fuel` steps, returns the ids of `Walk`, or no path |
| PathSolver.ReconstructPath | djikastra.py:67-75 | path reconstruction on the graph's own fields returns `Reconstruction`: the ids of the walk and the target's distance |
| PathSolver.Iterate | djikastra.py:42-60 | one pass of the loop body leaves the nodes and edges unchanged, leaves the state `Step` gives, and returns `NextCurrent`: the first lightest unvisited neighbour, or none for the `break`; the loop from that node then ends where the whole loop does |
| PathSolver.Explore | djikastra.py:40-60 | the `while` loop leaves the graph in state `Traverse` |
| PathSolver.Solve | djikastra.py:28-75 | `solve` leaves the graph in `FinalState` and returns `SolveOutcome` |
| SolverTheorems.RelaxedMeaning | djikastra.py:42-48 | relaxation never raises a distance; a node whose distance or predecessor changes is an unvisited neighbour of the current node, strictly improved, takes the current node as predecessor, and gets the current distance plus its lightest edge; afterwards no unvisited neighbour is farther than the current distance plus any edge to it |
| SolverTheorems.StartedSettles | djikastra.py:30-38 | after the source lookup the loop invariant holds: the nodes with the source id are at 0 with no predecessor, and no link is broken |
| SolverTheorems.StepStepped | djikastra.py:42-52 | an iteration moves the current node to `visited`; every other node either keeps its distance and predecessor, or is an improved unvisited neighbour reached through the current node |
| SolverTheorems.SteppedAt | djikastra.py:42-52 | such an iteration keeps the invariant at each node |
| SolverTheorems.StepSettles | djikastra.py:42-52 | an iteration from a node at a finite distance keeps the invariant, and that node takes the next rank |
| SolverTheorems.RankedExtend | djikastra.py:50-51 | visiting one more node extends the visit ranking |
| SolverTheorems.SteppedNodes | djikastra.py:42-52 | such an iteration keeps roots, finite distances and predecessor links at every node |
| SolverTheorems.SteppedSettles | djikastra.py:42-52 | such an iteration keeps the whole invariant |
| SolverTheorems.TraverseSettles | djikastra.py:40-60 | the whole loop keeps the invariant |
| SolverTheorems.FinalSettled | djikastra.py:28-60 | after `solve`'s loop the invariant holds, with the nodes of the source id as roots |
| SolverTheorems.SettledPredecessors | djikastra.py:43-48 | in the invariant, a node's predecessor is visited, has an edge to it, and the node's distance is the predecessor's plus that lightest edge |
| SolverTheorems.SolvePredecessors | djikastra.py:43-52 | after `solve`'s loop, every node's predecessor is visited, has an edge to the node, and accounts for its distance with that edge; every visited node has a finite distance |
| SolverTheorems.SolveSourceAtZero | djikastra.py:31-34 | after `solve`'s loop, every node with the source id is still at distance 0 with no predecessor |
| SolverTheorems.InRoots | djikastra.py:31-34 | every node with the source id is one that the lookup sets to 0 |
| SolverTheorems.ImprovesTrans | djikastra.py:46-48 | "later than" is transitive: distances only fall, and visited nodes stay frozen |
| SolverTheorems.SteppedLowers | djikastra.py:46-50 | an iteration lowers distances only, and leaves visited nodes untouched |
| SolverTheorems.TraverseOnlyLowers | djikastra.py:40-60 | the whole loop only lowers distances, and never changes a node that was visited before it started |
| SolverTheorems.Rounds | djikastra.py:40-60 | the loop runs at least once and at most once per unvisited node |
| SolverTheorems.RoundsVisited | djikastra.py:50-52 | each iteration visits exactly one new node, so the loop runs at most once per node of the graph |
| SolverTheorems.WalkLinks | djikastra.py:70-72 | along a found path, each node's `previous_node` is the next node of the path |
| SolverTheorems.WalkCost | djikastra.py:44-48 | along a found path, the start's distance is the source's distance plus the summed lightest edge weights, and each step crosses an edge |
| SolverTheorems.PlusZero | djikastra.py:44 | adding weight 0 leaves a distance unchanged |
| SolverTheorems.PlusPlus | djikastra.py:44 | adding two weights one after the other is adding their sum |
| SolverTheorems.RouteCons | djikastra.py:70-72 | putting a node with an edge in front of a route gives a route, and its cost grows by that edge |
| SolverTheorems.WalkReaches | djikastra.py:70-72 | with one root, the walk back from a visited node reaches the source within its rank plus one steps (the chain is acyclic) |
| SolverTheorems.UniqueRoots | djikastra.py:31-34 | with unique ids, the only node set to 0 is the one the lookup returns |
| SolverTheorems.FoundRoute | djikastra.py:67-75 | a found path starts with the target id and ends with the source id; consecutive entries are joined by `previous_node` and by an edge; from a source at 0, the cost is the summed weights along the path |
| SolverTheorems.IdsOfEnds | djikastra.py:71-73 | the ids of a path start with its first node's id and end with its last node's id |
| SolverTheorems.VisitedPredecessor | djikastra.py:46-48 | an unvisited non-root node at a finite distance has a visited predecessor |
| SolverTheorems.FiniteFound | djikastra.py:67-72 | with one root, a target at a finite distance has a walk back to the source |
| SolverTheorems.FoundIffFinite | djikastra.py:67-75 | with one root, no path is found exactly when the target's distance is infinite |
| SolverTheorems.SameNodeFound | djikastra.py:67-75 | from a node to itself, the path is that node's id alone, at that node's distance |
| SolverTheorems.SolveRoute | djikastra.py:67-75 | a path `solve` returns starts with the target id, ends with the source id, and follows `previous_node` and the graph's edges; its cost is the summed weights along it |
| SolverTheorems.SolveSameNode | djikastra.py:34 | `solve(g, id, id)` returns `[id]` at cost 0 |
| SolverTheorems.SolveNoPath | djikastra.py:67-75 | with unique ids, `solve` finds no path exactly when the target's distance stayed infinite |
| SampleGraph.SampleShape | djikastra.py:81-94 | the sample graph is well formed and fresh, holds ids 0 and 3, and their lookups find handles 0 and 3 |
| SampleGraph.SampleAddEdge | djikastra.py:89-94 | on nodes whose ids are their handles, `add_edge(a, b, w)` adds `(b, w)` to `a` alone |
| SampleGraph.SampleFinal | djikastra.py:40-60 | on the sample, the loop ends with distances [0, 3, 1, 4, 7] and predecessors [-, 2, 0, 1, 3] |
| SampleGraph.SampleWalk | djikastra.py:67-73 | on the sample, the walk back from 3 is 3, 1, 2, 0 |
| SampleGraph.SampleSolved | djikastra.py:100 | `solve(graph, 0, 3) == ([3, 1, 2, 0], 4)` on the sample graph |
| SampleGraph.AddFresh | djikastra.py:83-87 | `add_node(Node(id))` appends a fresh record and adds it to `nodes` and `unvisited` |
| SampleGraph.SampleNodes | djikastra.py:81-87 | `Graph()` and the five `add_node` calls give nodes 0..4, with no edges and nothing solved |
| SampleGraph.AddSampleEdge | djikastra.py:89-94 | one `add_edge` on the sample nodes adds one entry to one neighbour set |
| SampleGraph.SampleEdges | djikastra.py:89-94 | the six `add_edge` calls build the sample graph |
| SampleGraph.SampleMain | djikastra.py:79-100 | the `__main__` block, run on the graph object, returns `([3, 1, 2, 0], 4)` |
| DetourGraph.DetourShape | djikastra.py:79-94 | the four-node graph is well formed and fresh, and the lookups of ids 0 and 3 find handles 0 and 3 |
| DetourGraph.DetourLeg1 | djikastra.py:42-58 | from 0, nodes 1 and 2 take 0 as predecessor, and the lightest edge leads to 1 |
| DetourGraph.DetourLeg2 | djikastra.py:42-58 | from 1, node 3 takes distance 11 and is next, while 2 is still unvisited |
| DetourGraph.DetourLeg3 | djikastra.py:42-60 | from 3 there is no unvisited neighbour, so the loop breaks with 2 unvisited |
| DetourGraph.DetourFinal | djikastra.py:40-60 | the loop ends with distances [0, 1, 5, 11] and node 2 unvisited |
| DetourGraph.DetourWalk | djikastra.py:67-73 | the walk back from 3 is 3, 1, 0 |
| DetourGraph.DetourReconstruction | djikastra.py:67-75 | the reconstruction gives ids [3, 1, 0] at cost 11 |
| DetourGraph.DetourSolved | djikastra.py:28-75 | `solve(graph, 0, 3) == ([3, 1, 0], 11)` |
| DetourGraph.DetourRoutes | djikastra.py:44 | the route 0 -> 1 -> 3 costs 11, and the route 0 -> 2 -> 3 costs 6 |
| DetourGraph.DetourNotShortest | djikastra.py:54-58 | `solve` returns a path of cost 11 while a route of cost 6 exists: the lightest-edge advance does not always find a shortest path |

## Left out

- The `print` calls at lines 36 and 100 are left out, since they are output only; `SampleMain` returns the value that would be printed.
- `float('inf')`: modelled as `Distance.Inf`. Weights are natural numbers rather than Python numbers, and floating point is not modelled.
- Python set iteration order and hashing: node sets are iterated in ascending handle order, and a neighbour set is a sequence in insertion order with no duplicates. The lightest-edge tie-break (the first entry in that order) depends on this choice.
- `Node(id, previous_node, shortest_path_from_start)`: only the defaults are modelled. No caller in the file passes the other two arguments.
- Python object identity: nodes are handles into the graph's arena. A node created but never added still exists in the arena without being in `nodes`.
- The line-36 "missing source" path: `solve` requires that both ids exist (`HasNode`). With a missing source id the code goes on to fail at `current_node.neighbours` (line 42); with a missing target id, it fails on `None.id` at line 71. Neither failure is modelled.
- The unreachable-target walk: `previous_node` becomes `None` (line 72), the test `None != source` at line 70 holds, and the code fails on `None.id` at line 71. The same happens when the chain ends at another node that carries the source id. The model stops the walk after `|nodes|` steps and returns `NoPath`. With unique ids, `SolveNoPath` shows that the bound is never what hides a target at a finite distance.
- `path.append` without a call (line 69) does nothing and is not modelled.
- `while graph.unvisited != 0` compares a set with an integer, so the test is always true: the loop ends only at the `break`. The model's loop has no such test.
- `Solve` requires a graph that has not been solved yet (`Fresh`). Running `solve` twice on one graph reuses stale distances in the code; that path is not modelled.
- Line 73 appends `source_node_id`; the model appends the id of the source node found, which is the same value.
- Duplicate ids are allowed, as in the code. Lookups take the last matching node in handle order, and every node with the source id starts at 0. `SolveNoPath` assumes unique ids (`UniqueIds`), because with several roots a finite distance may come from another root.
- `SolverTheorems.Rounds` is a ghost count of loop iterations used only in proofs.
- Node ids are `int`. The code accepts any value as an id, but it only compares ids with `==`, so integers lose nothing.
- Concurrency is not modelled: the code is single-threaded.
