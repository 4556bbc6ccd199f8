# Directed and undirected graphs

This project models two Python graph classes in Dafny and proves what their
operations do.

- `DirectedGraph` (d_graph.py) is a directed graph over the vertices
  `0 .. v_count-1`. It stores a square adjacency matrix whose cell `(i, j)`
  holds the positive weight of edge `i -> j`, or 0 when there is no edge. It
  offers vertex and edge updates, path validation, DFS and BFS with
  ascending-index tie-breaking, three-colour cycle detection, and Dijkstra
  shortest distances.
- `UndirectedGraph` (ud_graph.py) is a simple undirected graph over string
  labels. It stores a dictionary from each vertex to the list of its
  neighbours. It offers vertex and edge updates, path validation, DFS and BFS
  in alphabetical order, a count of connected components, and cycle
  detection. DFS and BFS sort the neighbour lists in place as a side effect.

The modules:

| file | module | contents |
|---|---|---|
| wrappers.dfy | `Wrappers` | `Option` (Python's `None`) |
| sequences.dfy | `Sequences` | small sequence facts, the arbitrary choice of a set element, and the bookkeeping of which path position pushed each frontier entry |
| strings.dfy | `StringOrder` | Python's `str` ordering; `list.sort` as the unique sorted permutation |
| dgraph_spec.dfy | `DGraphSpec` | walks, reachability, weights, cycles and shortest distances on a matrix; the loop invariants of the directed algorithms and the lemmas that prove them |
| dgraph.dfy | `DGraph` | class `DirectedGraph` (fields `vCount`, `adjMatrix`) and the inner loops of its methods |
| udgraph_spec.dfy | `UdGraphSpec` | adjacency, walks, components and cycles on an adjacency map; the effect of each update; the loop invariants of the undirected algorithms |
| udgraph.dfy | `UdGraph` | class `UndirectedGraph` (field `adjList`) |

Both classes carry a `Valid()` invariant:

- **Directed:** the matrix is `v_count × v_count`, weights are non-negative,
  and the diagonal is 0.
- **Undirected:** adjacency is symmetric, with no self-loops; every neighbour
  is a vertex; no list holds a neighbour twice.

Every method needs `Valid()` and keeps it. Python's raised errors and `None`
results are modelled as early returns or `Option` values, where the source
handles them.

## Model

| member | source | states |
|---|---|---|
| DGraph.DirectedGraph.constructor | d_graph.py:18-35 | With no edge list, the graph is empty. With an edge list, it has one vertex more than the largest endpoint. Each cell holds the weight of the last edge in the list that add_edge accepts for it, or 0. |
| DGraphSpec.MaxEndpoint | d_graph.py:29-31 | The first pass gives a value that bounds every endpoint, is at least 0, and is either 0 or one of the endpoints. |
| DGraphSpec.LastWeightSnoc | d_graph.py:34-35 | One more edge of the list changes only the cell it names, and only when add_edge accepts it. |
| DGraphSpec.LastWeight | d_graph.py:34-35 | A cell the edge list leaves non-zero holds the weight of an accepted edge for that cell. That weight is positive. Diagonal cells stay 0. |
| DGraph.LargestEndpoint | d_graph.py:29-31 | The loop computes exactly MaxEndpoint of the edge list. |
| DGraph.DirectedGraph.AddVertex | d_graph.py:56-70 | There is one more vertex, and the new count is returned. Every existing weight is unchanged. The new row and column are 0. |
| DGraph.DirectedGraph.AddEdge | d_graph.py:73-93 | Cell (src, dst) becomes the weight exactly when both are vertices, they differ, and the weight is at least 1. Otherwise, and for every other cell, nothing changes. |
| DGraph.DirectedGraph.RemoveEdge | d_graph.py:96-106 | Only cell (src, dst) can change, and it becomes 0. The edge set loses exactly that pair. Out-of-range indices change nothing. |
| DGraph.DirectedGraph.GetVertices | d_graph.py:109-113 | The result holds exactly 0 .. v_count-1, strictly ascending. |
| DGraph.DirectedGraph.GetEdges | d_graph.py:116-136 | A triple is in the result iff it is an edge with its weight. The result is strictly in row-major order, so there are no duplicates. |
| DGraph.DirectedGraph.PyStep | d_graph.py:153 | Python indexing succeeds exactly for indices in [-n, n). For indices of vertices, the answer is whether the edge exists. |
| DGraph.DirectedGraph.IsValidPath | d_graph.py:139-156 | The result is true iff every consecutive pair passes Python's lookup. Otherwise it is the outcome of the first failing pair: false, or None for IndexError. On vertex labels it is exactly "empty, or a walk". |
| DGraph.PushDescending | d_graph.py:190-194 | Pushes exactly the successors, in descending index order (see SuccsDown). |
| DGraphSpec.SuccsDownDescending | d_graph.py:188-194 | The pushed successors are strictly descending, so the lowest index ends on top. |
| DGraph.EnqueueAscending | d_graph.py:228-233 | Enqueues exactly the successors, in ascending index order (see SuccsUp). |
| DGraphSpec.SuccsUpAscending | d_graph.py:228-233 | The enqueued successors are strictly ascending. |
| DGraph.DirectedGraph.Dfs | d_graph.py:159-196 | For a start that is not a vertex, the result is empty. Otherwise it is a duplicate-free traversal from the start: each vertex after the first has an edge from an earlier one, and it stops at v_end or at the end of the reachable set. The order is depth-first with the lowest index first: each next vertex is the least unvisited successor of the latest visited vertex that still has one (PicksLeastFresh). |
| DGraphSpec.DfsPicksLeast | d_graph.py:175-194 | Popping a fresh vertex from the stack extends the depth-first order: the stack holds, in push order, the successors of each visited vertex, descending, so its top is the least fresh successor of the latest vertex with one. |
| DGraphSpec.DfsVisit | d_graph.py:183-194 | Visiting the popped vertex and pushing its successors in descending order keeps the loop invariant: the traversal facts, the owner order of the stack and the depth-first order of the path. |
| DGraphSpec.DfsDetermined | d_graph.py:159-196 | Two results that are traversals in depth-first order from the same start are equal: the contract of dfs fixes its result completely. |
| DGraph.DirectedGraph.Bfs | d_graph.py:199-235 | For a start that is not a vertex, the result is empty. Otherwise it is a duplicate-free traversal from the start that stops at v_end, or else covers exactly the reachable vertices. The order is breadth-first with the lowest index first: each next vertex is the least unvisited successor of the earliest visited vertex that still has one (PicksBreadthFirst). |
| DGraphSpec.BfsPicksFirst | d_graph.py:215-233 | Taking a fresh vertex from the front of the queue extends the breadth-first order: the queue holds the successors of the visited vertices in visiting order, each group ascending. |
| DGraphSpec.BfsVisit | d_graph.py:221-233 | Visiting the dequeued vertex and enqueueing its successors in ascending order keeps the loop invariant, breadth-first order included. |
| DGraphSpec.BfsDetermined | d_graph.py:199-235 | Two results that are traversals in breadth-first order from the same start are equal: the contract of bfs fixes its result completely. |
| DGraphSpec.TraversalPrefixEqual | d_graph.py:175-186 | A traversal that is a prefix of another traversal from the same start is the whole of it. |
| DGraphSpec.TraversalReachable | d_graph.py:175-186 | Everything a traversal lists is reachable from its start. |
| DGraphSpec.TraversalDone | d_graph.py:175-186 | When the frontier is empty, the path holds exactly the vertices reachable from the start. |
| DGraphSpec.ClosedHoldsReachable | d_graph.py:183-194 | A set that contains the start and is closed under edges contains everything reachable from the start. |
| DGraph.DirectedGraph.HasCycle | d_graph.py:238-256 | The result is true iff the graph has a directed cycle. |
| DGraph.DirectedGraph.HasCycleRec | d_graph.py:259-289 | A true result means a cycle exists. A false result means the vertex and everything it reaches are black, ranked by finish time. The white, grey and black sets stay a partition, and grey is unchanged. |
| DGraphSpec.StackCycle | d_graph.py:274-275 | An edge from the top of the recursion stack back to a grey vertex closes a cycle. |
| DGraphSpec.RankedAcyclic | d_graph.py:283-289 | If every edge leads to a lower finish rank, the graph has no cycle. This is why a false result is correct. |
| DGraphSpec.FinishVertex | d_graph.py:286-287 | Blackening a vertex whose successors are all black keeps the finish ranking. |
| DGraph.MinIndex | d_graph.py:308 | Returns a position of the least (distance, vertex) pair: the one heappop returns. |
| DGraph.PushRelaxed | d_graph.py:319-326 | Queues exactly (d + weight, neighbour) for each edge out of the current vertex. |
| DGraph.Distances | d_graph.py:328-331 | The result has one entry per vertex. It is the settled distance when there is one, and infinity (None) otherwise. |
| DGraph.DirectedGraph.Dijkstra | d_graph.py:292-333 | There is one entry per vertex, and the source has distance 0. An entry is finite iff its vertex is reachable. A finite entry is the least total weight over all walks from the source. |
| DGraphSpec.PoppedIsShortest | d_graph.py:308-314 | The first time a vertex leaves the queue, its distance is the shortest one. |
| DGraphSpec.CrossingQueued | d_graph.py:319-326 | Where a walk first leaves the settled set, that edge's relaxed distance is queued. |
| DGraphSpec.DijkstraDone | d_graph.py:305-326 | When the queue is empty, the settled vertices are exactly those reachable, and the source sits at 0. |
| DGraphSpec.WeightPrefix | d_graph.py:326 | A prefix of a walk weighs no more than the walk, because weights are non-negative. |
| DGraphSpec.ShortestToSelf | d_graph.py:303 | The shortest distance from a vertex to itself is 0. |
| UdGraph.UndirectedGraph.constructor | ud_graph.py:18-29 | The vertices are exactly the labels named by the pairs. Two vertices are adjacent iff some pair of distinct labels joins them. |
| UdGraphSpec.ListedSnoc | ud_graph.py:28-29 | One more pair of the list adds exactly its own edge and, when its labels differ, its own two ends. |
| UdGraph.UndirectedGraph.AddVertex | ud_graph.py:45-52 | The map becomes WithVertex: an absent v gets an empty list, and otherwise nothing changes. Adjacency is unchanged. |
| UdGraphSpec.AddVertexKeeps | ud_graph.py:49-52 | A new isolated vertex keeps the invariant and every adjacency. |
| UdGraph.UndirectedGraph.AddEdge | ud_graph.py:55-72 | When u == v, nothing changes. Otherwise both ends become vertices. If they were not adjacent, each is appended to the other's list. Adjacency becomes the old adjacency plus {u, v}. |
| UdGraphSpec.LinkKeeps | ud_graph.py:71-72 | Appending each end to the other's list keeps the invariant, adds u and v as vertices, and adds exactly the edge {u, v}. |
| UdGraphSpec.LinkAfterVertices | ud_graph.py:62-72 | Creating the missing ends first does not change the final lists. |
| UdGraph.UndirectedGraph.RemoveEdge | ud_graph.py:75-87 | If u and v are not both vertices, or not adjacent, nothing changes. Otherwise the first occurrence of each is removed from the other's list. The vertex set is unchanged, and adjacency loses exactly {u, v}. |
| UdGraphSpec.RemoveFirst | ud_graph.py:84-85 | list.remove drops exactly one occurrence of the element. |
| UdGraphSpec.RemoveFirstDistinct | ud_graph.py:84-85 | In a list without repetition, removal keeps exactly the other elements and keeps the list free of repetition. |
| UdGraphSpec.UnlinkKeeps | ud_graph.py:83-87 | Removing two adjacent vertices from each other's lists keeps the invariant and removes exactly that edge. |
| UdGraph.UndirectedGraph.RemoveVertex | ud_graph.py:90-102 | An absent v changes nothing. Otherwise v is no longer a vertex and appears in no list. Adjacency keeps exactly the edges not touching v. Every remaining list is its old contents with v removed by list.remove, in the old order, and is unchanged when it did not hold v. |
| UdGraphSpec.UnlinkedStep | ud_graph.py:98-99 | One call remove_edge(v, x) removes v from x's list and leaves the lists of the vertices not yet visited by the loop as they were. |
| UdGraphSpec.UnlinkedDone | ud_graph.py:98-102 | After the loop, deleting v's entry keeps the invariant, and each remaining list is its old contents without v. |
| UdGraph.UndirectedGraph.GetVertices | ud_graph.py:105-114 | Each vertex appears exactly once. |
| UdGraph.UndirectedGraph.GetEdges | ud_graph.py:117-131 | Every pair is an edge. Every edge appears in one orientation, never both. |
| UdGraph.UndirectedGraph.IsValidPath | ud_graph.py:134-153 | The result is the as-written acceptance test, PathAccepted. On paths without the empty label, it accepts exactly the empty path and the walks. |
| UdGraphSpec.PathAcceptedIsWalk | ud_graph.py:140-151 | Without empty labels, as-written acceptance means exactly "empty, or a walk". |
| UdGraphSpec.EmptyLabelAccepted | ud_graph.py:147 | With vertices "" and "a" and no edges, the path ["", "a"] is accepted although it is not a walk. |
| UdGraph.UndirectedGraph.IsValidPathStrict | ud_graph.py:134-153 | With the intended `is not None` test, the result is true iff the path is empty or a walk. |
| UdGraph.AppendAll | ud_graph.py:189-190 | Appends the whole list, in order, to the frontier. |
| UdGraph.UndirectedGraph.Dfs | ud_graph.py:156-192 | For a start that is not a vertex, the result is empty. Otherwise it is a duplicate-free traversal from the start that stops at v_end or covers its component. The order is depth-first and alphabetical: each next vertex is the least unvisited neighbour of the latest visited vertex that still has one (PicksLeastFresh). Only the lists of expanded vertices are changed, each sorted descending, and adjacency is unchanged. |
| UdGraphSpec.DfsPicksLeast | ud_graph.py:177-190 | Popping a fresh vertex extends the depth-first order: the stack holds each visited vertex's neighbours reverse-sorted, so its top is the alphabetically least fresh neighbour of the latest vertex with one. |
| UdGraphSpec.DfsVisit | ud_graph.py:182-190 | Visiting the popped vertex and pushing its reverse-sorted list keeps the loop invariant, depth-first order included. |
| UdGraphSpec.DfsDetermined | ud_graph.py:156-192 | Two results that are traversals in depth-first alphabetical order from the same start are equal: the contract of dfs fixes its result completely. |
| UdGraph.UndirectedGraph.Bfs | ud_graph.py:195-228 | For a start that is not a vertex, the result is empty. Otherwise it is a duplicate-free traversal from the start that stops at v_end or covers its component. The order is breadth-first and alphabetical: each next vertex is the least unvisited neighbour of the earliest visited vertex that still has one (PicksBreadthFirst). Only the lists of expanded vertices are changed, each sorted ascending, and adjacency is unchanged. |
| UdGraphSpec.BfsPicksFirst | ud_graph.py:210-227 | Taking a fresh vertex from the front of the queue extends the breadth-first order: the queue holds the sorted lists of the visited vertices in visiting order. |
| UdGraphSpec.BfsVisit | ud_graph.py:219-227 | Visiting the dequeued vertex and enqueueing its sorted list keeps the loop invariant, breadth-first order included. |
| UdGraphSpec.BfsDetermined | ud_graph.py:195-228 | Two results that are traversals in breadth-first alphabetical order from the same start are equal: the contract of bfs fixes its result completely. |
| UdGraphSpec.TraversalPrefixEqual | ud_graph.py:172-182 | A traversal that is a prefix of another traversal from the same start is the whole of it. |
| UdGraphSpec.TraversalReachable | ud_graph.py:172-182 | Everything a traversal lists is in the start's component. |
| UdGraphSpec.TraversalDone | ud_graph.py:172-182 | When the frontier is empty, the path is exactly the start's component. |
| UdGraphSpec.SortedAt | ud_graph.py:187 | Sorting lists in place only reorders them (Permuted). |
| UdGraphSpec.SortIdempotent | ud_graph.py:187 | Sorting a list a second time changes nothing. |
| UdGraphSpec.SortedAtTwice | ud_graph.py:245 | Sorting the lists of S, then those of T, equals sorting those of S + T once. |
| StringOrder.SortBy | ud_graph.py:187 | Sorting yields a permutation of the list, sorted ascending or descending. |
| StringOrder.SortedUnique | ud_graph.py:223 | Two sorted permutations of the same list are equal, so any correct sort gives the same list. |
| StringOrder.LessTransitive | ud_graph.py:184-186 | Python's string order is transitive. |
| StringOrder.LessTotal | ud_graph.py:184-186 | Python's string order is total. |
| UdGraphSpec.PermutedValid | ud_graph.py:187 | Reordering lists keeps the invariant. |
| UdGraphSpec.PermutedAdj | ud_graph.py:223 | Reordering lists keeps adjacency. |
| UdGraphSpec.PermutedReachable | ud_graph.py:245 | Reordering lists keeps connectivity. |
| UdGraphSpec.ReachableSymmetric | ud_graph.py:243-248 | Connectivity in an undirected graph is symmetric. |
| UdGraph.UndirectedGraph.CountConnectedComponents | ud_graph.py:231-251 | The count equals the number of connected components. Afterwards every list is sorted descending, and adjacency is unchanged. |
| UdGraphSpec.TraversalIsComponent | ud_graph.py:245 | A DFS without v_end, on any reordering of the lists, lists exactly the start's component. |
| UdGraphSpec.ComponentRound | ud_graph.py:241-249 | One round removes exactly one component. The remaining set stays a union of components. |
| UdGraphSpec.EdgelessComponents | ud_graph.py:231-251 | A graph without edges has one component per vertex. |
| UdGraph.UndirectedGraph.HasCycle | ud_graph.py:254-269 | The result is true iff the graph has a cycle of at least three distinct vertices. |
| UdGraph.UndirectedGraph.HasCycleRec | ud_graph.py:272-294 | A true result means a cycle exists. A false result means the vertex is visited, hangs below the vertex it came from, and the search forest only grew. Every edge at a visited vertex off the recursion stack is then a tree edge of that forest. |
| UdGraphSpec.BackEdgeCycle | ud_graph.py:284-285 | A visited neighbour other than the parent closes a cycle. |
| UdGraphSpec.ScanEnd | ud_graph.py:280-294 | After the whole list is scanned, every edge at the vertex is a tree edge. |
| UdGraphSpec.ForestAcyclic | ud_graph.py:266-269 | If every edge is a tree edge of a timed forest, the graph has no cycle. This is why a false result is correct. |

## Left out

- `__str__` of both classes (d_graph.py:37-52, ud_graph.py:31-41) and the demonstration blocks under `if __name__ == '__main__'`: they only print.
- The array layout of `heapq`: the priority queue is a sequence. Each pop removes the least (distance, vertex) pair, as `heappop` does.
- Python's `float('inf')` in the result of dijkstra is `None`.
- Recursion depth: the Python recursion limit on deep `has_cycle_rec` searches is not modelled.
- The sets `unvisited`, `visiting` and `visited`, which the Python recursion shares and mutates, are passed in and returned as values. The resulting states are the same; the aliasing is not modelled.
- DGraph.DirectedGraph.Dijkstra: requires `src` to be a vertex. For other values Python raises IndexError, or wraps a negative index to the last rows. The model does not follow either path.
- DGraph.DirectedGraph.IsValidPath: a Python IndexError becomes the result `None`. Non-integer labels (a TypeError) are not modelled.
- UdGraph.UndirectedGraph.constructor: states the vertex set and adjacency only, not the order of each neighbour list.
- UdGraph.UndirectedGraph.GetVertices: states membership and no repetition, but not Python's dictionary insertion order. The model iterates the keys in an arbitrary order.
- UdGraph.UndirectedGraph.GetEdges: returns the set that the Python code builds, not its conversion to a list, whose order is arbitrary.
- UdGraph.UndirectedGraph.HasCycle and DGraph.DirectedGraph.HasCycle: `set.pop` is an arbitrary choice. The contracts hold for every choice, but the model does not fix which vertex is popped.
- UdGraph.UndirectedGraph.CountConnectedComponents: the order in which `set.pop` picks vertices is arbitrary, as above. The final state of the lists does not depend on it.

## Findings

| source | as written | input that shows it | evidently intended | confidence | as-written member | corrected member |
|---|---|---|---|---|---|---|
| ud_graph.py:147 | `if last_visited and ...` tests the truthiness of the previous label, so the adjacency check is skipped after the empty label `""` | graph with vertices `""` and `"a"` and no edges; the path `["", "a"]` is accepted | `if last_visited is not None and ...`: a non-empty path is valid iff it is a walk | not executed | UdGraphSpec.EmptyLabelAccepted | UdGraph.UndirectedGraph.IsValidPathStrict |
