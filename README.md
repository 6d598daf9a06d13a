# graph4py in Dafny

A model of graph4py, a small Python library of graphs stored as adjacency
lists and of the searches run over them. The model covers:

- the `Graph` class of `src/graph.py`: a `directed` flag and an `adj_list` that
  `add_node`, `add_edge`, `remove_edge` and `remove_node` update in place,
  `get_neighbors`, and the four searches written as methods (`dfs`, `bfs`, the
  lazy-deletion `dijkstra` and `a_star`);
- the stand-alone searches of `src/algorithms/` (`bfs`, `dfs`, `dijkstra`,
  which reads its graph through `graph.nodes` and `graph.get_edges`, and
  `a_star`);
- the `Edge` value of `src/edge.py` and the `Node` object of `src/node.py`.

Node ids are integers. A weight is an integer, and `float("inf")` is the
`Inf` of the `Dist` datatype. An exception the code raises is an `Err` value
of a `Result`. What a search prints is the sequence its method returns.

The properties proved are these:

- Every mutator keeps two graph invariants. Every neighbour is a key, and an
  undirected graph stores each edge in both directions.
- Breadth-first search prints what a reference function of the queue and the
  visited set computes, in the queue's order. That output is exactly the
  reachable ids, each once, in non-decreasing hop distance.
- Depth-first search prints what a recursive reference function computes.
  That output is the reachable ids, each once, each discovered through an
  edge from an earlier one.
- Both Dijkstras return, on non-negative weights, the least walk weight to
  every node. An unreachable node gets `Inf`.
- A* returns a path along edges from the start to the goal. When the
  heuristic never overestimates the remaining weight, that path has the least
  weight. It returns `[]` exactly when the goal is unreachable, and it raises
  `KeyError` for a missing heuristic.
- Termination is proved for every loop, with no fuel. For the two Dijkstras
  and A* it is proved under non-negative weights only.
- The distances, the breadth-first order and the depth-first order that
  `tests/test_algorithms.py` expects follow from the model.

Files, one module each:

- `common.dfy`: ids, weights, `Dist`, `Result`, adjacency shape.
- `paths.dfy`: walks, reachability, least walk weight, relaxation.
- `text.dfy`: `str()` of an int.
- `edges.dfy`: the `Edge` value.
- `nodes.dfy`: the `Node` class.
- `graph_ops.dfy`: the mutators as functions, and their invariants.
- `frontier.dfy`: heap minimum and the termination measure.
- `bfs.dfy`: breadth-first search.
- `dfs.dfy`: depth-first search.
- `dijkstra.dfy`: `src/algorithms/dijkstra.py`.
- `astar.dfy`: `a_star`.
- `graph.dfy`: the `Graph` class, and the lazy Dijkstra of its method.
- `examples.dfy`: the test scenarios.

## Model

| member | source | states |
|---|---|---|
| Common.DataOrEmpty | src/edge.py:28 | `data or {}`: a missing dict becomes the empty dict, and a given one is kept |
| Text.DigitChar | src/node.py:18-19 | a digit value below ten becomes a digit character that reads back as the same value |
| Text.NatToString | src/node.py:18-19 | `str(n)` of a natural is a non-empty string of digits, one digit long exactly when `n < 10` |
| Text.IntToString | src/node.py:18-19 | `str(i)` is non-empty, all digits except a leading `-`, and it starts with `-` exactly when `i < 0` |
| Text.NatRoundTrip | src/node.py:18-19 | reading the decimal digits of `str(n)` gives back `n` |
| Text.IntRoundTrip | src/node.py:18-19 | reading `str(i)` gives back `i`, so `str` is injective on ids |
| Edges.NewEdge | src/edge.py:7-28 | the constructor stores source, target, weight and the directed flag as given, and data defaults to `{}` |
| Edges.Defaults | src/edge.py:7-14 | with the optional arguments left out, the edge has weight 1, is undirected and has empty data |
| Edges.Edge.Reverse | src/edge.py:34-36 | `reverse()` swaps source and target and keeps weight, direction and data |
| Edges.ReverseInvolution | src/edge.py:34-36 | reversing twice gives the same edge, and a reversal changes the edge exactly when it is not a loop |
| Edges.Arrow | src/edge.py:31 | the direction mark is `→` exactly for a directed edge, and `↔` otherwise |
| Edges.ReprShowsDirection | src/edge.py:30-32 | `__repr__` contains `→` exactly when the edge is directed and `↔` exactly when it is not |
| Nodes.Node.constructor | src/node.py:7-16 | a new node has the given id, data defaulting to `{}`, and no position |
| Nodes.Node.UpdatePosition | src/node.py:32-35 | the position becomes `(x, y)`, and the data is left alone |
| Nodes.IdHash | src/node.py:29-30 | CPython's `hash` of an int: never `-1`, the id itself for ids of small size other than `-1`, and `-2` for `-1` |
| Nodes.Node.Equals | src/node.py:24-27 | two nodes are equal exactly when the node equals the other's id, and equal nodes hash alike |
| Nodes.Node.EqualsValue | src/node.py:24-27 | a node equal to an id hashes as that id does |
| Nodes.Node.Hash | src/node.py:29-30 | `__hash__` is never `-1`, and for a non-negative id of small size it is the id |
| Nodes.Node.ToString | src/node.py:18-19 | `str(node)` is the id's decimal text, with `-` first exactly for a negative id, and reads back as the id |
| Nodes.EqualsIsEquivalence | src/node.py:24-27 | node equality is reflexive, symmetric and transitive, and comparing a node with an id agrees with comparing it with a node of that id |
| Nodes.EqualNodesHashAlike | src/node.py:24-30 | equal nodes have equal `__hash__` values |
| Nodes.ToStringDeterminesId | src/node.py:18-27 | two nodes print the same `str` exactly when they are equal |
| GraphOps.Without | src/graph.py:51 | the filter keeps exactly the entries whose node differs from the removed one, and never grows the list |
| GraphOps.FilterUnknownIsIdentity | src/graph.py:49-53 | in a graph whose neighbours are all keys, filtering a non-key out of a list changes nothing |
| GraphOps.AddNodeKeepsInvariants | src/graph.py:30-33 | `add_node` keeps "every neighbour is a key" and the undirected symmetry |
| GraphOps.AddEdgeEffect | src/graph.py:35-47 | `add_edge` makes both endpoints keys, appends `(node2, w)` to `node1`'s list, appends `(node1, w)` to `node2`'s list when undirected (both to the same list for a loop), and leaves every other list alone |
| GraphOps.AddEdgeKeepsClosed | src/graph.py:35-47 | `add_edge` keeps every neighbour a key |
| GraphOps.RemovedEdge | src/graph.py:49-53 | the keys stay the same, `node1`'s list no longer names `node2`, and in an undirected graph `node2`'s list no longer names `node1` |
| GraphOps.RemovedNode | src/graph.py:55-60 | the removed node is no longer a key and no list names it; removing an absent node changes nothing |
| GraphOps.AddEdgeKeepsSymmetric | src/graph.py:35-47 | an undirected `add_edge` keeps the same multiset of entries in both directions |
| GraphOps.RemoveEdgeEffect | src/graph.py:49-53 | `remove_edge` keeps the keys, leaves no entry for `node2` in `node1`'s list (nor the reverse when undirected), filters exactly those lists and leaves the others alone |
| GraphOps.RemoveEdgeKeepsInvariants | src/graph.py:49-53 | `remove_edge` keeps every neighbour a key, and keeps the symmetry of an undirected graph |
| GraphOps.RemoveNodeEffect | src/graph.py:55-60 | `remove_node` of an absent node changes nothing; otherwise it drops the key and filters the node out of every other list |
| GraphOps.RemoveNodeKeepsInvariants | src/graph.py:55-60 | `remove_node` keeps every neighbour a key and keeps the symmetry |
| Graphs.Graph.constructor | src/graph.py:21-28 | a new graph has the given direction flag and an empty adjacency, and satisfies the invariants |
| Graphs.Graph.AddNode | src/graph.py:30-33 | a new node gets an empty list, an existing one keeps its list, and the invariants are kept |
| Graphs.Graph.AddEdge | src/graph.py:35-47 | the adjacency becomes the `add_edge` effect above, and the invariants are kept |
| Graphs.Graph.RemoveEdge | src/graph.py:49-53 | an unknown `node1` raises `KeyError` with nothing changed; an unknown `node2` in an undirected graph raises `KeyError` after `node1`'s list has been filtered; otherwise the effect above; the invariants are kept |
| Graphs.Graph.RemoveNode | src/graph.py:55-60 | the adjacency becomes the `remove_node` effect above, and the invariants are kept |
| Graphs.Graph.GetNeighbors | src/graph.py:62-64 | the stored list for a key and `[]` otherwise; in a valid graph every entry names a key |
| Graphs.Graph.Dfs | src/graph.py:75-90 | an unknown start raises `KeyError`; otherwise the print order is the depth-first order, and visits the reachable ids once each |
| Graphs.Graph.Bfs | src/graph.py:92-107 | an unknown start raises `KeyError`; otherwise the print order is the breadth-first order, so every reachable id is printed once, the start first, in non-decreasing hop distance |
| Graphs.LazyDijkstra | src/graph.py:116-131 | with non-negative weights, the loop ends with every key mapped to its least walk weight from the start, with the start at 0 and no edge able to lower a distance |
| Graphs.PopAndRelax | src/graph.py:119-129 | one pop keeps the loop invariant, raises no distance, and either lowers a distance or shrinks the heap |
| Graphs.RelaxAll | src/graph.py:125-129 | relaxing all edges of the popped node leaves it relaxed, raises no distance, and keeps the invariant |
| Graphs.RelaxEdge | src/graph.py:126-129 | one edge relaxation keeps the partial-relaxation invariant for one more edge |
| Graphs.Graph.Dijkstra | src/graph.py:109-131 | an unknown start raises `KeyError`; otherwise every key is mapped to its least walk weight from the start, `Inf` when unreachable |
| Graphs.Graph.AStar | src/graph.py:133-169 | a start with no heuristic raises `KeyError`, a start equal to the goal is its own path, and a start with no list raises `KeyError`; a non-empty answer is a path along edges from the start to the goal, and a least-weight one when the heuristic is admissible; `[]` comes back exactly when the goal is unreachable; with every heuristic present there is no error |
| BreadthFirst.Unvisited | src/algorithms/bfs.py:16-17 | the generator yields only unvisited ids taken from the list, and every unvisited id of the list |
| BreadthFirst.UnvisitedConcat | src/algorithms/bfs.py:16-17 | filtering two lists one after the other is filtering their concatenation: the generator keeps the list's order and its repeats |
| BreadthFirst.EmittedFresh | src/algorithms/bfs.py:11-18 | from any queue and visited set, the rest of the loop prints no id twice and no visited id, and only ids that are queued or are the target of some edge |
| BreadthFirst.Order | src/algorithms/bfs.py:8-18 | the breadth-first order starts with the start and has no repeats |
| BreadthFirst.Bfs | src/algorithms/bfs.py:1-18 | the printed sequence is the breadth-first order (`Order`); it holds exactly the reachable ids, each once, the start first, in non-decreasing hop distance |
| DepthFirst.Visit | src/algorithms/dfs.py:12-18 | a helper call only adds to the visited set |
| DepthFirst.VisitAll | src/algorithms/dfs.py:17-18 | the loop over a neighbour list only adds to the visited set |
| DepthFirst.DfsHelper | src/algorithms/dfs.py:12-18 | the recursive helper with its loop leaves the visited set and prints the ids that the reference function gives |
| DepthFirst.VisitFacts | src/algorithms/dfs.py:12-18 | a helper call marks its node visited; it prints nothing when the node was already visited, and otherwise prints the node first; every id it prints was unvisited, is printed once and was reached through an edge from an earlier one |
| DepthFirst.OrderVisitsReachable | src/algorithms/dfs.py:1-18 | from an empty visited set, the final visited set is exactly the reachable ids, and the print order starts at the start, has no repeats and discovers each id through an edge |
| DepthFirst.Order | src/algorithms/dfs.py:1-9 | the depth-first order begins with the start |
| DepthFirst.Dfs | src/algorithms/dfs.py:1-9 | `dfs` prints the depth-first order: the reachable ids, each once, each discovered through an earlier one |
| Frontier.MinEntryExists | src/graph.py:120 | a non-empty heap has an entry no greater than any other, which is what `heappop` returns |
| Frontier.MinByExists | src/graph.py:150 | a non-empty open set has a node of least `f_score`, which is what `min(open_set, key=...)` picks |
| Frontier.LowerIsBetter | src/graph.py:127-128 | lowering one distance strictly decreases the termination measure (fewer infinite entries, or a smaller finite sum) |
| Frontier.LowerKeepsProgress | src/graph.py:127-128 | after a run of lowerings, one more still leaves the distances strictly better than at the start of the round |
| Paths.RelaxedIsShortest | src/graph.py:125-129 | when every distance is a walk weight, the start is at 0, and no edge can lower a distance, each distance is the least walk weight |
| Paths.ShortestUnique | src/graph.py:109-131 | the least walk weight is unique, so any two correct answers agree |
| Paths.UnknownStartReachesOnlyItself | src/graph.py:62-64 | from an id with no list (`get_neighbors` gives `[]`), only that id is reachable |
| Paths.PathIsWalk | src/algorithms/astar.py:21-27 | a node sequence along edges is a walk, so its last node is reachable from its first |
| Paths.WeightSplit | src/algorithms/astar.py:31 | the weight of a walk is the weight of its first part plus that of the rest, the sum `g_score[current] + weight` builds up |
| Paths.WalkSuffix | src/algorithms/astar.py:31 | the tail of a walk from any node on it is a walk to the same end, and the two parts' weights add up to the whole |
| AStarSearch.Reversed | src/algorithms/astar.py:27 | `path[::-1]` has the same length, with entry `i` taken from position `n - 1 - i` |
| AStarSearch.StartSearch | src/algorithms/astar.py:11-16 | only the start is open and nothing has a predecessor; the start's `g_score` is 0 and its `f_score` its heuristic; every other node scores `inf`; the loop invariant holds |
| AStarSearch.WalkBack | src/algorithms/astar.py:23-26 | following `came_from` back from the goal ends at the start; the trail read runs backwards along edges, traces a walk from the start to the goal, weighs at most the goal's `g_score`, and is just the start when the goal is the start |
| AStarSearch.Reconstruct | src/algorithms/astar.py:21-27 | walking `came_from` back from the goal ends; the reversed trail runs from the start to the goal along edges, traces a walk of weight at most the goal's `g_score`, and is `[start]` when the goal is the start |
| AStarSearch.ExpandOne | src/algorithms/astar.py:30-36 | one neighbour either raises `KeyError` for its missing heuristic or keeps the expansion invariant for one more neighbour |
| AStarSearch.ExpandNeighbours | src/algorithms/astar.py:29-36 | expanding the current node either raises `KeyError` for a neighbour without heuristic or keeps the search invariant; no `g_score` rises, and either one falls or nothing changes |
| AStarSearch.Round | src/algorithms/astar.py:18-36 | one iteration returns the goal's path (a least-weight one when the heuristic is admissible), or a `KeyError`, or keeps the invariant while the termination measure decreases |
| AStarSearch.ClosedPrefix | src/algorithms/astar.py:29-36 | along a walk from the start whose first nodes are all closed, the next node has a finite `g_score` no greater than the weight walked so far |
| AStarSearch.FirstOpen | src/algorithms/astar.py:29-36 | a walk from the start to an open node meets a first open node, whose `g_score` is at most the weight of the walk up to it |
| AStarSearch.GoalIsLeast | src/algorithms/astar.py:19-22 | when the goal is the open node of least `f_score` and the heuristic is admissible, no walk from the start to the goal weighs less than the goal's `g_score` |
| AStarSearch.FoundLeast | src/algorithms/astar.py:19-27 | the path read back when the goal is selected traces a least-weight walk from the start to the goal, given an admissible heuristic |
| AStarSearch.SearchExhausted | src/algorithms/astar.py:18-38 | when the open set runs empty the goal is unreachable, so `[]` is the right answer |
| AStarSearch.AStar | src/algorithms/astar.py:1-38 | a start with no heuristic raises `KeyError`; a start equal to the goal gives `[start]`; any `KeyError` names an id with no heuristic; a non-empty answer is a path from the start to the goal; `[]` exactly when the goal is unreachable; with an admissible heuristic a returned path has the least weight of any walk from the start to the goal; no error when every node has a heuristic |
| DijkstraSearch.FromAdjacency | src/algorithms/dijkstra.py:15-19 | the edge graph built from an adjacency has exactly its keys as nodes, and each node has as many edges as list entries, each leaving that node with the graph's direction flag |
| DijkstraSearch.Pairs | src/algorithms/dijkstra.py:39-41 | each edge contributes its `(target, weight)`, in order |
| DijkstraSearch.Adj | src/algorithms/dijkstra.py:19 | the adjacency the edges describe has exactly the graph's nodes as keys |
| DijkstraSearch.WellFormedIsClosed | src/algorithms/dijkstra.py:39-44 | every edge target is a node (so `distances[neighbor]` exists) exactly when the adjacency's neighbours are all keys |
| DijkstraSearch.FromAdjacencyAgrees | src/algorithms/dijkstra.py:39-41 | an adjacency list read back as `Edge` objects gives the same adjacency, well formed exactly when it is closed |
| DijkstraSearch.Initial | src/algorithms/dijkstra.py:19-27 | the start is at 0, every other node is at `inf`, the heap holds `(0, start)` and nothing is visited |
| DijkstraSearch.RelaxEdge | src/algorithms/dijkstra.py:43-46 | a strictly shorter distance replaces the stored one and is pushed once; otherwise nothing changes; no distance rises |
| DijkstraSearch.RelaxNext | src/algorithms/dijkstra.py:39-46 | relaxing edge `i` keeps the relaxation invariant for one more edge |
| DijkstraSearch.RelaxEdges | src/algorithms/dijkstra.py:39-46 | after all edges of the visited node are relaxed, the loop invariant holds again and no distance has risen |
| DijkstraSearch.Round | src/algorithms/dijkstra.py:29-36 | one pop keeps the loop invariant, raises no distance, and either visits a new node or shrinks the heap |
| DijkstraSearch.Finished | src/algorithms/dijkstra.py:29-48 | when the heap is empty, unreachable nodes are at `inf`, the expanded nodes are exactly those with finite distance, and with non-negative weights every distance is the least walk weight |
| DijkstraSearch.Dijkstra | src/algorithms/dijkstra.py:6-48 | an unknown start raises `ValueError`; otherwise every node gets a distance; a finite one is a walk weight, an unreachable node stays `inf`, and each finite node is expanded exactly once; with non-negative weights the start is at 0 and every distance is the least walk weight |
| Scenarios.WeightedGraphLists | tests/test_algorithms.py:32-37 | the four `add_edge` calls build the lists `{1: [(2,2),(3,4)], 2: [(1,2),(3,1),(4,7)], 3: [(1,4),(2,1)], 4: [(2,7)]}` |
| Scenarios.ExpectedIsShortest | tests/test_algorithms.py:40 | each of `{1: 0, 2: 2, 3: 3, 4: 9}` is the least walk weight from node 1 in that graph |
| Scenarios.DijkstraScenario | tests/test_algorithms.py:32-40 | any map of least walk weights from node 1 over the test graph's nodes is `{1: 0, 2: 2, 3: 3, 4: 9}`, so `Graph.dijkstra` returns it |
| Scenarios.AlgorithmsDijkstraScenario | tests/test_algorithms.py:32-40 | the same graph read through nodes and edges gives the same distances from the stand-alone `dijkstra` |
| Scenarios.TreeGraphLists | tests/test_algorithms.py:20-25 | the four unweighted `add_edge` calls build the lists `{1: [2,3], 2: [1,4], 3: [1,5], 4: [2], 5: [3]}` |
| Scenarios.DfsScenario | tests/test_algorithms.py:20-29 | `dfs(g, 1)` prints `1 2 4 3 5` |
| Scenarios.BfsScenario | tests/test_algorithms.py:8-17 | `bfs(g, 1)` prints `1 2 3 4 5` |

## Left out

- Floating-point weights: weights are integers, and `float("inf")` is `Inf`.
- String node ids (`Union[int, str]` in `src/algorithms/dijkstra.py`): ids are integers.
- Output formatting: `print`, `display`, `Graph.__repr__`, `Node.__repr__`
  (it prints the data dict) and the spacing of printed ids. A search's output
  is the sequence of ids it prints.
- The GUI (`src/gui.py`) and the JSON storage (`src/storage.py`) are not part of this model.
- DepthFirst.Dfs, Graphs.Graph.Dfs: the interpreter's recursion limit is not
  modelled. Both helpers recurse once per newly visited node along a branch
  (`src/algorithms/dfs.py:12-18`, `src/graph.py:84-90`). On a graph with a
  branch of about 1000 nodes, CPython prints part of the order and then
  raises `RecursionError`. The model returns the whole order.
- Edges.Edge.Repr: every weight prints as a whole float (`weight=3.0`). A
  weight passed as a Python int prints without `.0`, and the model does not
  tell the two apart.
- Graphs.Graph.Bfs, Graphs.Graph.Dfs: for an unknown start, the source prints
  the start before the `KeyError`. The model returns only the error.
- Graphs.Graph.Dijkstra, Graphs.LazyDijkstra, Graphs.Graph.AStar, AStarSearch.AStar:
  these require non-negative weights, and their termination is proved only
  under that requirement.
  - The source's loops also stop on a graph with negative edges but no
    negative cycle. The model excludes such graphs, so it proves nothing
    about them.
  - A negative cycle keeps the source's loops running.
  - `DijkstraSearch.Dijkstra` needs no such requirement. A negative edge can
    make its answer differ from the least walk weights, and its contract
    states least weights only for non-negative weights.
- AStarSearch.AStar requires every neighbour to be a key. On the `Graph`
  class this is the class invariant, and every mutator keeps it. A stray
  neighbour would make the source's `g_score[neighbor]` raise `KeyError`.
- DijkstraSearch.Dijkstra requires every edge target to be a node of the
  graph. An edge leaving the node set would make the source's
  `distances[neighbor]` raise `KeyError`, and the model does not include that
  error.
- AStarSearch.AStar, Graphs.Graph.AStar: the least weight of the returned
  path is stated only for an admissible heuristic (`AStarSearch.Admissible`).
  - Admissible means: from every node with a heuristic, every walk to the goal
    weighs at least `h[v] - h[goal]`. With `h[goal] == 0` this is the usual
    "never overestimates".
  - For any other heuristic the source promises no least path, and the model
    states only that the path runs along edges.
- AStarSearch.AStar: which of several least paths comes back is not derived.
  - The test's `[1, 3, 4]` is not derived. `[1, 2, 3, 4]` weighs 3 as well,
    and the contract allows either. The source returns
    `[1, 3, 4]` whatever the `min` ties: node 3 gets `g_score` 2 from node 1,
    and the later offer of 2 through node 2 is not strictly smaller.
- Heap order among entries of equal distance. Which least entry `heappop`
  returns is left open, since the answer does not depend on it.
- `Node.position` holds real coordinates. Nothing else reads them.
- Hash randomisation does not apply to ints. `__hash__` is modelled as CPython's integer hash.
- `src/algorithms/dijkstra.py` reads `graph.nodes`, `graph.node_list` and
  `graph.get_edges`. The `Graph` class of `src/graph.py` has none of these.
  - The model gives this function a read-only graph of nodes and `Edge`
    values (`DijkstraSearch.EdgeGraph`).
  - `DijkstraSearch.FromAdjacency` relates that graph to `adj_list`.

Error cases, as the code has them:

- `remove_edge` indexes `adj_list[node1]` (`src/graph.py:51`), so an unknown
  endpoint raises `KeyError` instead of being ignored.
- The `Graph` methods `bfs`, `dfs`, `dijkstra` and `a_star` index `adj_list`
  directly, so an unknown start raises `KeyError`.
- `a_star` looks up `heuristic[...]` directly, so a missing entry raises
  `KeyError`. No default value stands in for it.
- `bfs` filters neighbours against the visited set only. The queue may hold an
  id twice, and the visited check at dequeue time drops the repeat.
