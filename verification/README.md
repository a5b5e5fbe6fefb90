# Graph utilities of util_functions.py, modelled in Dafny

`util_functions.py` holds four helpers that the repository's graph
algorithms share. Each takes a graph given as a dictionary from integer
vertex to its list of successors.

- `dfs` runs an iterative depth-first search from `start_in`. The search
  stops early once it discovers `terminate_in`.
- `get_transposed` reverses every edge.
- `is_strongly_connected` drops isolated vertices, runs `dfs` from one
  anchor vertex on the graph and on its transpose, and compares both
  visited sets with the remaining vertices.
- `has_euler_cycle` is the degree-balance test: every vertex must have as
  many outgoing edges as incoming ones.

The dictionary is modelled as `Graph(keys, adj)`.
- `keys` is the dictionary's iteration order.
- `adj` maps each vertex to its list.
- `Valid` says the keys are distinct and match the mapping.
- `WellFormed` adds that every successor is itself a key.

Files:
- `graphs.dfy` (module `Graphs`): the graph type, paths and reachability.
- `traversal.dfy` (module `Traversal`): `dfs` is `Traversal.Dfs`, built on
  the stack machine `Traversal.Explore`.
- `transposition.dfy` (module `Transposition`): `get_transposed` is
  `Transposition.Transpose`, which fills a `defaultdict(list)` key by key
  through `TransposeFrom`.
- `connectivity.dfy` (module `Connectivity`): `is_strongly_connected` is
  `Connectivity.IsStronglyConnectedAsWritten`. The corrected version is
  `Connectivity.IsStronglyConnected`, and both are
  `Connectivity.ConnectivityCheck` with a different search target.
- `euler.dfy` (module `EulerCycle`): `has_euler_cycle` is
  `EulerCycle.HasEulerCycle`, with its `defaultdict` counter.

Python's `None` is `Option.None`. The default `terminate_in=-1` is the
target `Some(-1)`. A search with no target at all is `None`.

Each operation is paired with a reference definition that uses no loop:
- reachability along paths, for `dfs`;
- edge counts per vertex pair, for `get_transposed`;
- strong connectivity among the vertices that have an edge, for
  `is_strongly_connected`;
- in-degree and out-degree, for `has_euler_cycle`.

Lemmas connect each operation with its reference for all inputs.

## Model

| member | source | states |
|---|---|---|
| Traversal.Dfs | util_functions.py:7-34 | The result is absent exactly when the start is not a key. Otherwise it starts with the start vertex and has no duplicates. Every later vertex is a successor of an earlier one. The target does not appear after the start except in the last position. The search either visits a successor-closed set or ends on the target. |
| Traversal.FirstUnvisited | util_functions.py:22-23 | The inner `for` scan stops at the first successor not yet visited. Every successor before that point is already visited. |
| Traversal.Explore | util_functions.py:18-32 | The `while stack` loop only appends to the result. No vertex it appends, except possibly the last, is the target. |
| Traversal.ExploreVisitsOnce | util_functions.py:23-25 | A vertex is appended only when it is not yet in the result, so the result stays duplicate-free. Every appended vertex is a successor of a vertex appended before it. |
| Traversal.ExploreStopsOrCloses | util_functions.py:21-34 | When the loop ends, either every successor of a visited vertex is visited, or the last vertex appended is the target. |
| Traversal.DfsIsDepthFirst | util_functions.py:21-32 | The visit order is depth-first in list order. Each vertex after the start is the first entry, in list order, not yet visited of the list of the latest earlier vertex that still had an unvisited successor. Every vertex visited after that one had all its successors visited already. |
| Traversal.OnlyDepthFirstOrders | util_functions.py:21-32 | On the graph 0 -> [1, 2], 1 -> [3], the depth-first order `[0, 1, 3, 2]` has this property. The breadth-first order `[0, 1, 2, 3]` and the early-stopping `[0, 2]` do not. |
| Traversal.PushRun | util_functions.py:21-30 | From any stack and visit order: if each of the next vertices is the first unvisited entry of the list of the top of the stack and is not the target, the loop pushes exactly those vertices, one per iteration, and appends them to the visit order. |
| Traversal.DfsVisitsOnlyReachable | util_functions.py:22-25 | Every vertex `dfs` returns is reachable from the start. |
| Traversal.DfsWithoutTargetIsReachableSet | util_functions.py:21-34 | Without a target, the vertices returned are exactly the vertices reachable from the start. |
| Traversal.DfsIgnoresTargetAtStart | util_functions.py:18-28 | The start is never compared with the target, so a search whose target is its own start returns the untargeted result. |
| Traversal.DfsIgnoresAbsentTarget | util_functions.py:27-28 | A target that is not a key never stops the search, so the result equals the untargeted one. |
| Traversal.DfsDoctest | util_functions.py:10-13 | On the eight-vertex doctest graph, `dfs` from 0 returns `[0, 2, 1, 6, 3, 7, 4, 5]`. |
| Transposition.Transpose | util_functions.py:36-50 | The transposed dictionary is again valid: its keys are distinct and match its mapping. |
| Transposition.TransposeKeys | util_functions.py:44-48 | A vertex is a key of the transpose exactly when it is a key of the graph or appears in some list. |
| Transposition.TransposeCounts | util_functions.py:47-48 | u appears in v's transposed list as many times as v appears in u's list, so parallel edges are kept. |
| Transposition.TransposeEdge | util_functions.py:47-48 | The edge u to v is present in the transpose, as v to u, exactly when it is present in the graph. |
| Transposition.TransposeFromSplit | util_functions.py:44-48 | Running the outer loop over one run of keys and then another gives the same dictionary as running it over both runs in one pass. |
| Transposition.TransposeKeepsEarlierEntries | util_functions.py:44-48 | Stop the loop after any first part of the key order: each list built so far is a prefix of the same list in the finished transpose, because later keys only append. |
| Transposition.TransposeList | util_functions.py:44-48 | The transposed list of v names the keys in key order, each key u as many times as u's list names v, with all copies of u together. |
| Transposition.TransposeWellFormed | util_functions.py:44-50 | When every successor is a key, the transpose has the same keys and is closed too. |
| Transposition.TransposeTwice | util_functions.py:36-50 | Transposing twice gives back every list up to the order of its entries. |
| Transposition.TransposeTwiceKeys | util_functions.py:36-50 | Transposing a closed graph twice gives back the same keys. |
| Transposition.TransposeReversesReachability | util_functions.py:36-50 | v is reachable from u in the transpose exactly when u is reachable from v in the graph. |
| Transposition.TransposeDoctest | util_functions.py:39-40 | The doctest's 4-cycle with an isolated vertex transposes to `{0: [3], 1: [0], 2: [1], 3: [2], 4: []}`, key order included. |
| Connectivity.EmptyTransposedListIffNoInEdge | util_functions.py:63-64 | A vertex's transposed list is empty exactly when no list names the vertex. |
| Connectivity.IsolatedVerticesHaveNoEdges | util_functions.py:63-65 | A key is isolated exactly when its list is empty and no list names it. The remaining `vertices` are exactly the keys with an edge. |
| Connectivity.ConnectivityCheckSound | util_functions.py:63-70 | Whatever target the two searches use, a true answer means every vertex with an edge reaches every other one. |
| Connectivity.IsStronglyConnectedCorrect | util_functions.py:52-70 | Searching without a target, the check answers true exactly when the graph is strongly connected on its non-isolated vertices. |
| Connectivity.IsStronglyConnectedAsWrittenCorrect | util_functions.py:67-70 | With the default target -1, a true answer is still sound. When -1 is not a vertex, or is the anchor, the answer is exact. |
| Connectivity.SentinelVerdicts | util_functions.py:67-68 | For any graph whose dictionary is the strongly connected `{0: [-1], -1: [1], 1: [0]}`, with anchor 0, the check as written answers false; the corrected check answers true. With anchor -1, the check as written answers true. |
| Connectivity.IsolatedVertexIrrelevant | util_functions.py:55-70 | Adding an isolated vertex after the other keys does not change the non-isolated vertices. It also does not change the verdict, for any target of the two searches, including the default -1 as written. |
| Connectivity.ExploreWithIsolated | util_functions.py:18-32 | A search started among the original keys, with any target, returns the same list after a vertex without edges is added to the graph. |
| Connectivity.TransposeWithIsolated | util_functions.py:36-50 | Transposing a closed graph with an isolated vertex appended to its keys gives the transpose of the graph with the same vertex appended, empty list and key position included. |
| Connectivity.IsolatedVertexSearchesUnchanged | util_functions.py:63-70 | With any target, the check gives the same answer after an isolated vertex is added, for every anchor that has an edge. |
| Connectivity.CycleWithIsolatedVerdicts | util_functions.py:56-59 | In any graph with the lists of the doctest's 4-cycle plus isolated vertex 4, the non-isolated vertices are 0..3. The answer is true from each of them. |
| Connectivity.TwoTrianglesVerdicts | util_functions.py:60-61 | Take any graph in which 0 -> 1 -> 2 -> 0 is a closed triangle and vertex 10 has an edge, as in the doctest's two disjoint triangles. The answer is false from every possible anchor. |
| EulerCycle.DiscountLookup | util_functions.py:84-85 | The inner loop lowers each counter by the vertex's number of occurrences in the list and leaves the other counters alone. |
| EulerCycle.TallyFromLookup | util_functions.py:82-85 | After the outer loop over distinct keys, a counter has gained the vertex's own list length (if it is one of those keys) and lost its occurrences in those keys' lists. |
| EulerCycle.BalanceIsNet | util_functions.py:80-85 | Each vertex's final counter, with a missing entry read as 0, is its out-degree minus its in-degree. |
| EulerCycle.HasEulerCycleIffBalanced | util_functions.py:87 | The answer is true exactly when every vertex has equal in-degree and out-degree. |
| EulerCycle.EdgelessHasEulerCycle | util_functions.py:80-87 | A graph without edges, including the empty graph, passes the test. |
| EulerCycle.InDegreeOverPermutation | util_functions.py:82-85 | In-degrees do not depend on the order of the keys or of the entries within any list. |
| EulerCycle.EulerVerdictIgnoresOrder | util_functions.py:82-87 | Reordering the keys, or the entries of any list, leaves the answer unchanged. |
| EulerCycle.EulerDoctest | util_functions.py:75-78 | The doctest 4-cycle passes. Adding the edge 1 to 3 makes it fail. |

## Left out

- Traversal.Dfs: requires every successor to be a key. The code raises `KeyError` at util_functions.py:22 only when the search pushes a successor that is not a key and is not the target, since line 22 looks up the list of the pushed top. Other inputs with missing successors return normally but are outside the model. For example, `dfs({0: [5]}, 0, 5)` returns `[0, 5]`, and `dfs({0: [], 1: [9]}, 0)` returns `[0]`. The graphs the repository passes in are closed: `read_graph` gives every destination its own key (main (7).py:22-24), and so do the doctest graphs of util_functions.py.
- Connectivity.IsStronglyConnected: the anchor is a parameter that must be a non-isolated vertex. The code takes `next(iter(vertices))` (util_functions.py:67-68), so the anchor depends on set iteration order. The general lemmas hold for every allowed anchor. `Connectivity.SentinelVerdicts` fixes anchor 0, and the check as written answers differently from anchor -1.
- Connectivity.IsStronglyConnectedAsWritten: when every vertex is isolated, `next(iter(vertices))` raises `StopIteration` (util_functions.py:67). The model requires a non-isolated anchor, so it gives no answer in that case.
- Transposition.Transpose: the key order of the transposed dictionary is only stated for the doctest graph. In general only validity is claimed, together with the contents and the order of each list (Transposition.TransposeList).
- The doctest self-test under `__main__` (util_functions.py:89-91) is process-level tooling, not logic.
- Vertex types other than `int` are left out. Hashable vertices of any type would behave the same.
- Python's dynamic typing is left out. A `graph` argument that is not a dictionary of integer lists is outside the model.

## Findings

| source | as written | input that shows it | evidently intended | confidence | as-written member | corrected member |
|---|---|---|---|---|---|---|
| util_functions.py:67-68 | Both `dfs` calls omit `terminate_in`, so they use the default -1. A search that reaches vertex -1 stops there, before visiting the rest of the graph. | `{0: [-1], -1: [1], 1: [0]}` with anchor 0: the forward search returns `[0, -1]`, which is not `{0, -1, 1}`, so the answer is False although the graph is a single cycle. CPython's set iteration yields 0 first here: hash(-1) is -2, so in a table of 8 slots -1 sits in slot 6, after 0 and 1. From anchor -1 the check as written answers True, since the start is never compared with the target. | full searches with no target, so that the answer is True exactly for strongly connected graphs | not executed | Connectivity.SentinelVerdicts | Connectivity.IsStronglyConnectedCorrect |
