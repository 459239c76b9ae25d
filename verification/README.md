# A* route planner — Dafny model

This project models the route-search core of an OpenStreetMap route planner:
the `RoutePlanner` class that, given a start and an end node of a street
graph, runs A* over the graph and reconstructs the route it finds together
with its length in metres.

The graph is an arena of nodes (`RouteModel.Model`): node positions, a
distance function, a neighbour lookup and the map's metric scale. The search
bookkeeping that the source keeps inside each node (`g_value`, `h_value`,
`visited`, `parent`) and the planner's `open_list` live in a
`RoutePlanner.Planner` value, and every operation is a pure function from one
planner state to the next. References to nodes become node indices.

Modules:

- `Wrappers` — `Option`.
- `RouteModel` — the graph, its assumptions (`Valid`: the distance is
  non-negative, symmetric and zero between equal positions, the scale is
  positive, the neighbour lookup returns nodes of the graph), the hop-sum
  `PathLength` and the list facts the proofs use.
- `Frontier` — the comparator `Compare`, the sort of the open list and
  `NextNode`.
- `RoutePlanner` — `CalculateHValue`, `AddNeighbors`, `ConstructFinalPath`,
  the loop invariant of the search and the per-iteration lemmas.
- `SearchRun` — the main loop as a reference definition (`Iterate`: the
  states reached by repeated iterations, stopping at the first state where
  the open list is empty or the popped node passes the goal test).
- `AStar` — the `AStarSearch` loop, proved to end in exactly the state the
  reference definition halts in.

The neighbour lookup (`RouteModel::Node::FindNeighbors`), the distance and
`MetricScale` belong to the street-map model, which is not part of this
model; they are parameters of `Model`. The lookup is modelled as a function
of the current node and the current `visited` flags that returns the
neighbours it selects. `AStarSearch` is proved to terminate under the
assumption `ReturnsUnvisited` that the lookup returns only nodes not yet
visited; that is an assumption about the street-map model, not something
this model checks.

## Model

| member | source | states |
|---|---|---|
| RoutePlanner.CalculateHValue | src/route_planner.cpp:18-21 | the heuristic is never negative and is zero for any node at the end node's position |
| RoutePlanner.Expand | src/route_planner.cpp:29-35 | after the loop over a neighbour list, every listed neighbour has `current` as parent, its heuristic as `h` and is visited, and gets `g(current)` plus the hop as `g` (also when `current` lists itself, whose `g` a zero hop leaves unchanged); the neighbours are appended to the open list in order; every other node keeps all its bookkeeping |
| RoutePlanner.AddNeighbors | src/route_planner.cpp:24-36 | the same facts for the neighbours the graph's lookup returns for `current`, with start and end unchanged and the bookkeeping still covering the whole graph |
| Frontier.CompareIsStrictWeakOrder | src/route_planner.cpp:40-44 | the comparator on `f = g + h` is irreflexive and transitive, and incomparability is transitive, as the sort requires |
| Frontier.Insert | src/route_planner.cpp:49 | inserting into a list sorted by descending `f` yields a sorted list with the entry added once and nothing else changed |
| Frontier.Sort | src/route_planner.cpp:49 | the sorted open list is a permutation of the original (same multiset) in descending `f` order |
| Frontier.NextNode | src/route_planner.cpp:47-55 | the returned node is in the open list and has the lowest `f` of all entries; exactly one occurrence of it is removed, the remaining list is the rest of the original as a multiset and stays in descending order |
| Frontier.LastIsLowest | src/route_planner.cpp:52-54 | the last entry of any descending permutation of the open list has an `f` no larger than any entry of the open list |
| RoutePlanner.Walk | src/route_planner.cpp:63-79 | following parent links from a node gives a trail that starts at the node, ends at a node with no parent, has each node's parent next, and its accumulated length is the sum of the hop distances along it; a parentless node gives the trail of itself alone |
| RoutePlanner.ReversedTrail | src/route_planner.cpp:82 | reversing a goal-to-start trail gives a start-to-goal path in which each node is the parent of the next |
| RouteModel.PathLengthReverse | src/route_planner.cpp:70-82 | the hop sum of a path is unchanged by reversing it, since the distance is symmetric, so the length accumulated walking backwards is the length of the forward path |
| RoutePlanner.ConstructFinalPath | src/route_planner.cpp:58-86 | the reconstructed path is non-empty, ends at the goal, starts at a node with no parent, each node is the parent of the next, and the distance is the sum of the path's hops times the metric scale; a parentless goal gives the one-node path of length zero |
| RoutePlanner.OpenStart | src/route_planner.cpp:97-101 | the state before the first iteration has only the start node open and visited, and satisfies the loop invariant |
| RoutePlanner.StepKeepsInvariant | src/route_planner.cpp:104-117 | an iteration that does not hit the goal keeps every open node visited, every parent chain leading back to the start, and every visited closed node off the goal position; it visits a new node or shortens the open list, so the loop ends |
| RoutePlanner.ExpandKeepsParents | src/route_planner.cpp:29-34 | expanding a visited node with unvisited neighbours keeps parent links between visited nodes only, acyclic (each parent ranked below its child), with the start as the only visited node without a parent |
| RoutePlanner.StepEntersOnce | src/route_planner.cpp:29-34 | with a lookup that never repeats a node, every node enters the open list at most once, and unvisited nodes plus open entries drop by exactly one per iteration |
| RoutePlanner.FoundRouteBeginsAtStart | src/route_planner.cpp:106-112 | the route reconstructed from a popped node begins at the start node; on the first iteration it is the start node alone with length zero |
| RoutePlanner.ExhaustedMissesGoal | src/route_planner.cpp:104-120 | once the open list is empty, the start is visited and no visited node sits at the end node's position |
| SearchRun.IterateOneMore | src/route_planner.cpp:104-117 | one more iteration of the reference loop from a state where it has not halted is one more pop-and-expand step |
| SearchRun.HaltedStateUnique | src/route_planner.cpp:104-117 | the reference loop halts in at most one state: any two iteration counts that both reach a halting state reach the same one |
| SearchRun.IterateAdvances | src/route_planner.cpp:106-116 | when the popped node misses the goal, the next state of the run is the popped node's expansion on the list without it |
| SearchRun.HaltsAtGoalOrExhausted | src/route_planner.cpp:104-112 | the loop's two exits, an empty open list and a popped node at the end node's position, are halting states of the reference loop; this is the definition of halting read at the state the method stops in, and adds no fact of its own |
| AStar.AStarSearch | src/route_planner.cpp:96-121 | the search terminates in the state where the reference loop from the opened start halts; it reports a route exactly when that state's open list is non-empty, and the route is the reconstruction from the node popped there, which sits at the end node's position, and begins at the start node; when it reports no path, no node it reached sits at the end position; when start and end coincide the route is the start alone with length zero |

## Left out

- Single-precision arithmetic: `g`, `h`, `f` and distances are `real`, so float rounding (and ties it may create or break in `Compare`) is not modelled.
- The constructor's percentage scaling of the input coordinates and its `FindClosestNode` lookups (src/route_planner.cpp:4-15): `AStarSearch` takes the start and end node directly.
- `RouteModel::Node::FindNeighbors`, `distance` and `MetricScale` are part of the street-map model, which is not part of this model; they are abstract parameters constrained by `Valid`.
- Storing the route in `m_Model.path` and the planner's `distance` field: `AStarSearch` returns the route and its distance as its result.
- The console message printed when no path is found (src/route_planner.cpp:120).
- `ConstructFinalPath` returns node indices rather than copies of the nodes.
- `std::sort` is modelled by an insertion sort, which is stable: among entries of equal `f` the model always pops the one latest in the open list. `Sort` and `NextNode` state only a sorted permutation and a lowest-`f` pick, but `AStarSearch` is tied to the reference run `Iterate`, which pops through this sort, so its halting state, parent links and route are those of this tie order. `std::sort` promises no order among equal entries, so on ties the program may pop another node and end in a different state with a different route.
- Optimality of the route is not claimed: nodes are marked visited when first discovered and never re-opened, so the code does not guarantee the shortest path. The search is only proved to return a parent-linked route from start to a node at the goal position.
- AStar.AStarSearch: "no path" is stated as "no reached node is at the goal position", not as "the goal is unreachable in the graph", because the neighbour lookup is abstract.
- RoutePlanner.CalculateHValue: its contract states non-negativity and zero at the goal; the value itself (the distance to the end node) is stated through `AddNeighbors`' `h` postcondition.
- The neighbour vector `current_node->neighbors` that `AddNeighbors` loops over is modelled as the fresh answer of the lookup just called; whether the source's vector keeps entries from earlier calls depends on the street-map model, which is not part of this model.
- The bookkeeping is reset before each search (every node unvisited, parentless, with `g = h = 0`). The source resets nothing and relies on whatever the nodes already hold; it also never computes the start node's `h`. A second search over the same graph in the source may therefore behave differently from this model.
- Termination is proved only under `ReturnsUnvisited` (the lookup returns nodes not yet visited); a lookup that returns visited nodes again could keep the source's loop running.
- `NextNode` on an empty open list is undefined in the source (`back()` of an empty vector); the model requires a non-empty list, which the loop guard ensures.
