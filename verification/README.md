# Smart Route Planner — route computation in Dafny

This project models the route computation of the Smart Route Planner: the
`dijkstra(graph, start, end)` search of `Route-planner.py` and the trip estimate
of `plan_trip`. It proves properties of the model.

- **Graph.** The graph is `Graph(nodes: set<string>, edges: map<string, seq<Edge>>)`, with
  `Edge(target, weight: nat)`. Node coordinates are only used for drawing, so they are dropped.
  `Distance` is `Finite(km)` or `Infinite`. `Infinite` stands for `float('inf')`.
- **Search state.** The state is `SearchState(dist, prev, queue)`. These are `distances`, `previous` and the
  heap `pq`. The heap is a multiset of `Entry(d, node)`. Extraction picks *any* entry of least
  distance. Ties between entries are not specified.
- **Search.** `Dijkstra.Search` runs the lazy-deletion loop until the heap is empty, as the source does.
  A popped entry is stale when its distance exceeds the recorded distance. A stale entry is skipped.
  Otherwise `Relaxation.Visit` relaxes every edge of the popped node in list order. A neighbour
  improves only on a strict decrease. It then gets the popped node as predecessor and a new heap entry.
- **Termination.** The loop ends because the triple (number of unreached nodes, sum of the finite
  distances, heap size) falls lexicographically with every pop.
- **Reconstruction.** `Dijkstra.Reconstruct` walks the predecessor links back from `end`. The path is built by
  prepending. This gives the same sequence as the source's append-then-reverse.
- **Predecessor ranking.** The walk back terminates because predecessor links never form a cycle, even with
  zero-weight edges. This is proved with ghost stamps. Every node whose distance drops during a visit
  is stamped with the current step number. A predecessor always comes strictly earlier in the order
  (distance, stamp).
- **Errors.** The source raises `KeyError` on a malformed graph in two places. The model returns an error for both:
  - `MissingAdjacency`: a popped node has no adjacency list (line 43).
  - `UnknownNeighbour`: an edge names a neighbour that is not a node (line 45).

  Only nodes the search reaches are looked up, so the search raises exactly when some node
  reachable from `start` has one of these defects (`SoundFrom` fails). Defects elsewhere in
  the graph are never seen.
- **Endpoints.** `plan_trip` checks that both endpoints are nodes before it searches (lines 93-95). This check is
  a precondition of the search and the `NotFound` error of `TripEstimate.PlanTrip`.
- **Trip estimate.** The speed of a mode is Bike 40, Car 60 or Bus 50 km/h, and 50 km/h for any other
  string. The displayed minutes are `int(distance / speed * 60)`. In exact arithmetic, with whole
  kilometres, this is `(km * 60) / speed` in integer division.
- **Unreachable destination.** The distance of an unreachable destination is `inf`. Then `int(duration)` on line 112
  raises `OverflowError` and nothing is displayed. `PlanTrip` models this as
  `Failure(InfiniteDuration)`.

Besides the properties of each step, the model proves that the search is optimal.

- When `end` is reachable, the returned path is a walk from `start` to `end`.
- When `end` is reachable, the returned distance is the weight of the returned path.
- No walk from `start` to `end` is lighter. The weight of a walk takes the cheapest edge of each step.
- The distance is `Infinite` exactly when no walk from `start` to `end` exists. The path is then the
  one-node `[end]`.

Three points of the behaviour are easy to misread, and the model follows the code on each:

- A reachable node without an adjacency entry is not treated as having no outgoing edges. The
  code raises `KeyError` (line 43), and the model reports `MissingAdjacency`.
- An unreachable destination gets neither an empty path nor a path from `start`. The code
  always returns the one-node path `[end]`, and so does the model.
- `dijkstra` itself does not reject unknown endpoints. Only the caller checks them (lines
  93-95). The model makes them a precondition of the search and the `NotFound` error of
  `PlanTrip`.

Files: `wrappers.dfy` (Option, Result), `graphs.dfy` (graph, distances, walks), `queue.dfy`
(heap abstraction), `relaxation.dfy` (state, initialisation, relaxation, visit),
`invariant.dfy` (loop invariant, ranking, termination measure), `dijkstra.dfy` (search,
reconstruction, optimality), `trip.dfy` (speeds, minutes, `plan_trip`), `examples.dfy` (a worked
query).

## Model

| member | source | states |
|---|---|---|
| Relaxation.Init | Route-planner.py:32-35 | every node starts at distance infinity with no predecessor, except `start` at 0; the heap holds exactly `(0, start)` |
| SearchInvariant.InitInvariant | Route-planner.py:32-35 | the initial state satisfies the loop invariant and has no predecessor links to rank |
| PriorityQueue.MinExists | Route-planner.py:37-38 | a non-empty heap always has an entry of least distance to pop |
| Relaxation.Relax | Route-planner.py:44-48 | an edge changes the state only when `d + w` is strictly below the neighbour's distance; then it sets that distance, makes the popped node the predecessor and pushes `(d + w, neighbour)`; no distance ever rises and afterwards `dist[v] <= d + w` |
| Relaxation.RelaxEdges | Route-planner.py:43-48 | relaxing an adjacency list raises exactly when some edge names a node without a distance entry, and the error names such a neighbour; otherwise the key sets are kept |
| Relaxation.RelaxEdgesMonotone | Route-planner.py:43-48 | relaxing a list never raises a distance; a node whose distance is unchanged keeps its predecessor; unchanged distances mean an unchanged state |
| Relaxation.RelaxEdgesSettles | Route-planner.py:43-48 | after relaxing a list every edge in it satisfies `dist[v] <= d + w` |
| Relaxation.RelaxEdgesQueue | Route-planner.py:46-48 | relaxation only adds heap entries, and each added entry is at least its node's distance |
| Relaxation.RelaxEdgesPredecessor | Route-planner.py:45-47 | a node whose distance changed has the popped node as predecessor and a finite distance |
| Relaxation.RelaxEdgesRequeued | Route-planner.py:45-48 | a node whose distance changed has a heap entry at its new, finite distance |
| Relaxation.RelaxEdgesCheapest | Route-planner.py:44-46 | a node whose distance changed is the target of some edge in the list, and its new distance is at least `d` plus the cheapest such edge |
| Relaxation.RelaxEdgesKeepsSettled | Route-planner.py:44-47 | a node whose distance is already at most `d` keeps its distance and predecessor, since no edge weight is negative |
| Relaxation.Visit | Route-planner.py:38-48 | a stale entry leaves the state unchanged; a missing adjacency list or unknown neighbour raises and the error names a real defect of the popped node; a well-formed graph never raises; otherwise distances only fall and every edge of the popped node satisfies `dist[v] <= d + w` |
| Relaxation.DefectMeansMalformed | Route-planner.py:43-45 | the search raises only on a graph that is not well formed |
| Relaxation.DefectBreaksSound | Route-planner.py:43-45 | a defect at a node reachable from `start` means some reachable node fails one of the two lookups |
| Graphs.WellFormedIsSound | Route-planner.py:43-45 | in a well-formed graph every reachable node passes both lookups |
| SearchInvariant.StaleInvariant | Route-planner.py:38-41 | popping and skipping a stale entry keeps the loop invariant |
| SearchInvariant.NotStaleIsCurrent | Route-planner.py:38-41 | under the loop invariant, a popped entry that is not skipped carries exactly its node's recorded distance |
| SearchInvariant.SettleFacts | Route-planner.py:43-48 | visiting a current entry keeps the popped node's distance (its own edges cannot lower it), leaves all its edges relaxed, only lowers distances, only adds heap entries at or above their node's distance, and leaves unchanged nodes' predecessors alone |
| SearchInvariant.SettleChanged | Route-planner.py:45-48 | a node whose distance changed in the visit now has the popped node as predecessor, an edge from it whose cheapest weight closes the gap, and a heap entry at its new distance |
| SearchInvariant.SettleQueued | Route-planner.py:46-48 | after a visit, no heap entry undercuts its node's distance |
| SearchInvariant.StaysRelaxed | Route-planner.py:44-46 | a node whose edges were all relaxed stays relaxed while other distances only fall |
| SearchInvariant.SettlePendingAt | Route-planner.py:40-48 | after a visit, a reached node still has its current entry in the heap or has all its edges relaxed |
| SearchInvariant.SettlePredecessorAt | Route-planner.py:45-47 | after a visit, a predecessor link still joins two reached nodes by an edge whose cheapest weight closes the gap between their distances |
| SearchInvariant.SettleInvariant | Route-planner.py:40-48 | visiting a current entry keeps the whole loop invariant, including `dist[start] = 0` with no predecessor |
| SearchInvariant.VisitInvariant | Route-planner.py:37-48 | any successful visit keeps the loop invariant |
| SearchInvariant.SettleRanked | Route-planner.py:45-47 | after visiting a current entry, every predecessor comes strictly earlier in (distance, stamp), with the changed nodes freshly stamped |
| SearchInvariant.VisitRanked | Route-planner.py:45-47 | after a visit, every predecessor still comes strictly earlier in (distance, stamp), with the changed nodes freshly stamped |
| SearchInvariant.InitReachable | Route-planner.py:32-35 | initially only `start` is reached, and it is reachable along the one-node walk |
| SearchInvariant.SettleReachable | Route-planner.py:44-47 | a node newly reached while visiting `u` is reachable: the walk to `u` followed by the edge to it |
| SearchInvariant.VisitReachable | Route-planner.py:37-48 | after any successful visit every reached node is still reachable from `start` |
| SearchInvariant.VisitFailure | Route-planner.py:37-45 | a visit raises only at a reached node, so the error names a node reachable from `start` and the graph is not sound from `start` |
| SearchInvariant.Step | Route-planner.py:37-48 | one successful pop keeps the whole loop invariant, the ranking and reachability, and lowers the termination measure |
| SearchInvariant.Progress | Route-planner.py:44-46 | lowering distances pointwise lowers (unreached count, finite total) lexicographically, strictly when any distance changed |
| SearchInvariant.SettleProgress | Route-planner.py:40-48 | visiting a current entry either lowers some distance, and with it (unreached count, finite total), or changes nothing but removes the popped entry |
| SearchInvariant.VisitProgress | Route-planner.py:37-48 | every pop lowers (unreached count, finite total, heap size) lexicographically, so the loop ends |
| SearchInvariant.EmptyQueueFixpoint | Route-planner.py:37 | once the heap is empty, every edge out of every reached node satisfies `dist[v] <= dist[u] + w` |
| Dijkstra.Search | Route-planner.py:32-48 | the loop ends; it raises exactly when some node reachable from `start` lacks an adjacency list or has an edge to a non-node, and the error names such a node; on success the distances are a fixpoint of relaxation, `start` has distance 0 and no predecessor, predecessor links are consistent and acyclic, the heap is empty |
| Dijkstra.FixpointSound | Route-planner.py:37-48 | once the search finishes without raising, every node reachable from `start` has passed both lookups |
| Dijkstra.Reconstruct | Route-planner.py:50-55 | the path is non-empty, ends at `end`, begins at a node without predecessor, and each node is the predecessor of the next; no node repeats; a destination without predecessor gives `[end]` |
| Dijkstra.ChainAhead | Route-planner.py:50-55 | along the predecessor chain every node comes strictly after all earlier ones in (distance, stamp), which is why the walk back ends and never revisits a node |
| Dijkstra.ChainIsWalk | Route-planner.py:45-55 | after the search, a predecessor chain to a reached node is a walk whose weight is the difference of its end distances |
| Dijkstra.WalkBound | Route-planner.py:37-48 | at the fixpoint, the distance of the last node of any walk from a reached node is at most its first distance plus the walk's weight |
| Dijkstra.Finish | Route-planner.py:50-56 | the returned distance is exactly `distances[end]`; the path is the predecessor chain ending at `end`, starts at a node without predecessor and repeats no node; an unreached `end` gives `[end]`; a reached one gives a walk from `start` whose weight is the distance |
| Dijkstra.ShortestPath | Route-planner.py:27-56 | the path is non-empty, ends at `end` and repeats no node; `start == end` gives `([start], 0)`; a finite distance comes with a walk from `start` of exactly that weight; no walk from `start` to `end` is lighter, so the distance is infinite (path `[end]`) exactly when none exists; it raises exactly when a node reachable from `start` has a missing adjacency list or an edge to a non-node, and the error names such a node |
| Examples.OnlyShortWalk | Route-planner.py:43-48 | in the three-node network A->B 2, B->C 3, A->C 10, the only walk from A to C of at most 5 km is A, B, C |
| Examples.ShortestIsDetour | Route-planner.py:27-56 | in that network, any route that is a walk of its own weight and no heavier than every walk from A to C is `(["A", "B", "C"], 5)` |
| Examples.TriangleRoute | Route-planner.py:27-56 | the search from A to C in that network returns `(["A", "B", "C"], 5)` and not the direct edge |
| TripEstimate.Speed | Route-planner.py:101-103 | Car is 60 km/h, Bike 40, and every other string, Bus included, 50 |
| TripEstimate.Minutes | Route-planner.py:106-112 | the displayed minutes are the largest whole number `m` with `m * speed <= km * 60` |
| TripEstimate.WholeMinutesFit | Route-planner.py:106-112 | any whole number of minutes that fits into the trip is at most the displayed minutes |
| TripEstimate.FasterIsSooner | Route-planner.py:101-112 | over the same distance a faster mode never displays more minutes |
| TripEstimate.DocumentedExamples | Route-planner.py:101-112 | 60 km by Car gives 60 minutes; 50 km by an unknown mode falls back to 50 km/h and gives 60 minutes |
| TripEstimate.Estimate | Route-planner.py:106-112 | an infinite distance has no integer duration (`OverflowError`); a finite one gives the truncated minutes |
| TripEstimate.PlanTrip | Route-planner.py:89-112 | unknown endpoints give `NotFound` and nothing else does; the search error occurs exactly when a node reachable from the source has a missing adjacency list or an edge to a non-node, and names such a node; success gives a shortest walk between the endpoints that repeats no node, its weight and its truncated minutes; equal endpoints give the one-node path, 0 km and 0 minutes; an unreachable destination fails with `InfiniteDuration`; a graph sound from the source with a walk between the endpoints always succeeds |

## Left out

- `load_graph` (lines 8-24) is left out. It is file I/O and JSON parsing, and the graph arrives already parsed.
- `visualize_route` (lines 59-86) is left out. It is matplotlib drawing with no logic of its own. Node coordinates are dropped for the same reason.
- The Tkinter window, its widgets, `messagebox` and the module-level globals (lines 89-95, 109-154) are left out. The endpoint check is kept, as a precondition of the search and as the `NotFound` result of `PlanTrip`. The `strip()` of the entry texts is left out, and the endpoints arrive as given strings.
- The display text is left out: the `' → '` join, the `:.2f` formatting and the mode label (lines 109-113). `PlanTrip` returns the values that would be shown.
- Float semantics are left out. Weights are non-negative whole kilometres (a negative cycle, which the JSON would allow, keeps the loop of lines 37-48 running forever), and `float('inf')` is the `Infinite` distance.
- TripEstimate.Minutes: uses exact integer division, not doubles. In doubles the source can show one minute less: 82 km by Bike gives `82 / 40 * 60 = 122.99999999999999`, so `int` shows 122 where `Minutes` gives 123.
- The binary-heap layout of `heapq` is left out. Its tie-breaking on node names is left out too: any entry of least distance may be popped.
