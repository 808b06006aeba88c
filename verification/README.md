# Shortest paths on street graphs: a Dafny model

This project models the core of a small Python repository that computes
single-source shortest paths on road networks. It has three parts.

- **Array-scan Dijkstra** (`DijkstraAlgorithm`) and its two near-copies:
  `EnhancedDijkstra` and the inlined `basic_dijkstra`.
  - Each round, a strict `<` scan picks the unvisited vertex with the smallest finite distance.
  - The picked vertex is marked visited.
  - The arcs into unvisited neighbours are then relaxed.
- **Bellman-Ford** (`BellmanFordAlgorithm`).
  - It makes at most V-1 passes over the edge list in file order.
  - It stops early after a quiet pass.
  - A final scan then raises the negative-cycle flag.
- **Path and data helpers.**
  - The backward predecessor walk `get_path`, in its `[]` and `None` variants.
  - The loaders' vertex-count and adjacency rules.
  - The street-network converter, which turns `LINESTRING` rows into an edge table with dense vertex ids.

Each engine has a pure functional model: `Dijkstra.Run` and `BellmanFord.Run`.
`DijkstraAlgorithm`, the inlined `basic_dijkstra` and `BellmanFordAlgorithm`
are written as imperative methods with loops and proved equal to that model.
`EnhancedDijkstra` repeats `DijkstraAlgorithm` line for line and shares its
methods, so the three Dijkstra copies compute the same tables. The
properties are stated against independent graph definitions in `Graphs`:

- walks over a set of edges (`IsWalk`) and their weight (`Weight`);
- reachability (`Reaches`);
- the shortest-distance predicate (`IsShortest`);
- "no negative cycle reachable from the source" (`NoNegativeCycleFrom`).

The "unreached" value `sys.maxsize` is the constructor `Inf` of `Dist`, and
a finite distance is `Fin(d)`.

Files:

| file | contents |
|---|---|
| `graphs.dfy` | distances, edges, walks and their lemmas |
| `loaders.dfy` | adjacency building and vertex counts |
| `options.dfy` | the `Option` type shared by the path helpers and the converter |
| `paths.dfy` | `get_path` |
| `dijkstra.dfy` | the functional Dijkstra model and its proofs |
| `bellman_ford.dfy` | the functional Bellman-Ford model and its proofs |
| `engines.dfy` | the loop-based methods of `DijkstraAlgorithm`, `basic_dijkstra` and `BellmanFordAlgorithm` |
| `crosscheck.dfy` | agreement of the two engines |
| `text.dfy` | the Python string operations the parser uses |
| `converter.dfy` | the dataset converter |

## Model

| member | source | states |
|---|---|---|
| Dijkstra.FindMinSpec | dijkstra_algorithm.py:43-51 | the scan yields -1 exactly when no unvisited vertex has a finite distance; otherwise it yields an unvisited vertex of minimum distance with no lower-id vertex of that distance (first minimum wins) |
| DijkstraAlgorithm.FindMinDistanceVertex | dijkstra_algorithm.py:43-51 | the loop computes that scan: -1 iff nothing is left, else the lowest-id unvisited minimum; `EnhancedDijkstra.find_min_distance_vertex` (dijkstra_with_path_display.py, lines 31-41) is the same loop |
| Dijkstra.RelaxFacts | dijkstra_algorithm.py:87-94 | relaxation changes no visited vertex; it only lowers distances; every changed entry now has `cur` as predecessor and a distance of `base` plus the weight of an arc into it; afterwards no arc into an unvisited vertex can lower its target |
| DijkstraAlgorithm.RelaxArcs | dijkstra_algorithm.py:87-94 | the neighbour loop, with its `visited` test and strict `<`, leaves exactly the arrays of the functional round `Visit`, so it has every property `Dijkstra.VisitFacts` states |
| Dijkstra.VisitFacts | dijkstra_algorithm.py:83-94 | one round freezes the entries of the picked vertex and all earlier visited ones; a changed entry is an unvisited neighbour of the picked vertex, now recording it as predecessor with distance `dist[c] + w` |
| Dijkstra.LoopKeepsGood | dijkstra_algorithm.py:75-94 | the rounds preserve the invariant. Visited ids stay distinct, the source keeps `0`/`-1`, and a distance is infinite iff it has no predecessor (source aside). Each predecessor was finalised earlier and explains the distance by an arc, and every finite distance is a walk weight. With non-negative weights, finalised distances are minimal |
| Dijkstra.LoopFinishes | dijkstra_algorithm.py:75-81 | V rounds suffice: since each round visits one new vertex, no finite unvisited vertex remains afterwards, whether the loop ran out or broke early |
| Dijkstra.RunBasics | dijkstra_algorithm.py:64-72 | the result has V entries, `distances[source] == 0` and `predecessors[source] == -1` |
| Dijkstra.RunPredecessor | dijkstra_algorithm.py:87-94 | a distance is unreached iff the vertex is not the source and has no predecessor; a predecessor `p` is in range and has an arc `(v, w)` with `distances[v] == distances[p] + w` |
| Dijkstra.RunReach | dijkstra_algorithm.py:53-96 | a final distance is unreached exactly when no walk from the source reaches the vertex |
| Dijkstra.RunShortest | dijkstra_algorithm.py:53-96 | with non-negative weights every final distance is the minimum walk weight from the source |
| Dijkstra.RunChainEnds | dijkstra_algorithm.py:87-94 | the predecessor chain from any vertex reaches -1 within V steps, so `get_path` terminates on the engine's output |
| Dijkstra.RunPath | dijkstra_algorithm.py:110-121 | on the engine's output `get_path` returns `[]` iff the target is unreached; otherwise a path from the source to the target, in range, each step an arc whose weight is the increase in distance |
| DijkstraAlgorithm.ShortestPath | dijkstra_algorithm.py:53-96 | the loop-based engine equals the functional model; source `0`/`-1`; unreached iff not reachable; shortest distances under non-negative weights; `EnhancedDijkstra.shortest_path` (dijkstra_with_path_display.py, lines 43-74) is the same loop, so it returns the same tables |
| CompareBasic.BasicDijkstra | compare_basic_vs_enhanced.py:58-87 | the inlined scan with its break returns exactly the tables of the functional model (hence of `DijkstraAlgorithm.shortest_path`), shortest under non-negative weights |
| Paths.PathToShape | dijkstra_algorithm.py:110-121 | `[]` iff the target has no predecessor and is not the source; otherwise the result ends at the target, starts at a vertex with predecessor -1, and each adjacent pair `(a, b)` has `predecessors[b] == a` |
| Paths.GetPath | dijkstra_algorithm.py:110-121 | the backward walk followed by the reversal computes `PathTo`; the Bellman-Ford `get_path` (bellman_ford_algorithm.py, lines 97-109) is the same walk |
| Paths.PathToOrNone | dijkstra_with_path_display.py:83-94 | `None` exactly when the `[]`-variant returns `[]`, otherwise the same list |
| Paths.GetPathOrNone | compare_basic_vs_enhanced.py:90-101 | the `None`-returning walk computes `PathToOrNone` |
| Paths.BackChainShape | dijkstra_algorithm.py:116-118 | the collected chain starts at the target, consecutive entries are predecessor-linked, and it ends at a vertex with predecessor -1 |
| Loaders.AdjacencyKeepsRowOrder | dijkstra_algorithm.py:155-157 | every adjacency list holds that source's rows in file order |
| Loaders.AdjacencyKeys | dijkstra_algorithm.py:155-156 | a vertex is a key exactly when some row starts at it |
| Loaders.AdjacencyEdges | dijkstra_algorithm.py:155-157 | the adjacency dictionary holds exactly the rows of the table |
| Loaders.VertexCount | dijkstra_algorithm.py:160 | `max(endpoint) + 1` bounds every endpoint and is attained, and is 0 for no rows |
| Loaders.VertexCountFits | bellman_ford_algorithm.py:143-146 | with non-negative ids every row of the kept edge list is within `[0, V)` |
| Loaders.DistinctCountFitsIffDense | dijkstra_with_path_display.py:167-180 | with V the number of distinct endpoints, every row is in range iff the endpoints are exactly `0 .. V-1` |
| Loaders.CountsAgreeIffDense | compare_basic_vs_enhanced.py:23-27 | the distinct-endpoint count equals `max + 1` iff the ids are exactly `0 .. V-1` |
| BellmanFord.CycleScan | bellman_ford_algorithm.py:74-81 | the flag is raised iff some edge with a finite source still improves its target |
| BellmanFord.PassBound | bellman_ford_algorithm.py:59-68 | a pass only lowers distances, and afterwards every edge it scanned is respected by the new distances |
| BellmanFord.PassFlag | bellman_ford_algorithm.py:56-68 | `updated` is raised iff some distance went down; a pass with no update leaves the tables unchanged |
| BellmanFord.PassFlagIsScan | bellman_ford_algorithm.py:59-81 | a pass raises `updated` exactly when the cycle scan on the same distances would fire |
| BellmanFord.EarlyExitSame | bellman_ford_algorithm.py:55-72 | stopping after the first quiet pass gives the same tables as running all the passes: a quiet pass is a fixed point |
| BellmanFord.EarlyExitNoCycle | bellman_ford_algorithm.py:70-81 | if the passes end with a quiet pass, `has_negative_cycle` is false |
| BellmanFord.PassesFacts | bellman_ford_algorithm.py:53-72 | passes keep the invariant (each finite distance is a walk weight, unreached iff no predecessor, each predecessor an edge that explains the distance); after `i` more passes each distance is at most the weight of every walk with `k + i` edges or fewer |
| BellmanFord.RunReach | bellman_ford_algorithm.py:34-83 | a final distance is unreached exactly when the vertex is not reachable from the source |
| BellmanFord.RunNegativeCycle | bellman_ford_algorithm.py:74-81 | the flag is raised exactly when a negative-weight cycle is reachable from the source |
| BellmanFord.RunShortest | bellman_ford_algorithm.py:34-83 | when no negative cycle is reachable, every final distance is the minimum walk weight |
| BellmanFord.RunPredecessor | bellman_ford_algorithm.py:65-68 | `distances[source] <= 0`; a non-source vertex is unreached iff it has no predecessor; every predecessor is the source of an edge `(src, v, w)` in the list, with `distances[src] + w <= distances[v]` |
| BellmanFord.RunTightPredecessor | bellman_ford_algorithm.py:46-68 | with no reachable negative cycle, `distances[source] == 0` and the predecessor edge is tight: `distances[v] == distances[src] + w` |
| BellmanFord.RunChainEnds | bellman_ford_algorithm.py:104-106 | when no negative cycle is reachable from the source, the predecessor chain from any vertex reaches -1 within V steps, so `get_path` terminates on the engine's output |
| BellmanFord.RunPath | bellman_ford_algorithm.py:97-109 | when no negative cycle is reachable, `get_path` returns `[]` iff the target is unreached; otherwise a path in range from the source to the target, each step an edge of the list whose weight is the increase in distance |
| BellmanFordAlgorithm.RelaxAll | bellman_ford_algorithm.py:56-68 | one pass over the rows in file order leaves exactly the tables and `updated` flag of the functional pass `RelaxEdges`, so it has what `BellmanFord.PassBound` and `BellmanFord.PassFlag` state |
| BellmanFordAlgorithm.ScanCycles | bellman_ford_algorithm.py:74-81 | the scan with its early `break` returns `CycleScan`: true iff some row with a finite source still improves its target |
| BellmanFordAlgorithm.ShortestPath | bellman_ford_algorithm.py:34-83 | the loops with both early exits equal the functional model; unreached iff not reachable; the flag is set iff a negative cycle is reachable; without one, shortest distances |
| CrossCheck.EnginesAgree | main_demo.py:104-123 | on one table with non-negative weights, Dijkstra on the built adjacency and Bellman-Ford on the list give identical distance arrays, and no negative cycle is reported |
| Graphs.ShortenWalk | bellman_ford_algorithm.py:53-54 | with no reachable negative cycle, every walk to a vertex has one of fewer than V edges weighing no more, which is why V-1 passes suffice |
| Graphs.FixedPointWalk | bellman_ford_algorithm.py:70-72 | once no edge can be relaxed, a distance plus any walk's weight bounds the distance at the walk's end |
| Text.StripSpec | create_nyc_datasets.py:35-36 | `strip` cuts exactly leading and trailing whitespace: the result is a slice with only whitespace removed on either side and no whitespace at its ends |
| Text.LowerIsFalse | create_nyc_datasets.py:132 | `oneway.lower() == 'false'` holds exactly for five-letter texts spelling `false` in any mix of cases |
| Text.RemoveAllIsSplit | create_nyc_datasets.py:26 | `replace(pat, '')` deletes exactly the left-to-right, non-overlapping occurrences that `split(pat)` cuts at: it equals gluing the `split` pieces back together without separator |
| Text.JoinSplit | create_nyc_datasets.py:29 | joining the pieces of `split(sep)` gives back the string |
| Text.SplitJoin | create_nyc_datasets.py:29 | splitting a join gives back the pieces when none holds the separator's first character |
| NycConverter.ParseFormat | create_nyc_datasets.py:21-38 | parsing `LINESTRING (c0, ..., ck)` with two or more coordinates returns `(c0, ck)` |
| NycConverter.ParseRejects | create_nyc_datasets.py:21-32 | an empty geometry, and a single-coordinate polyline, both give `None` |
| NycConverter.ParseStripped | create_nyc_datasets.py:35-38 | each parsed end neither starts nor ends with whitespace |
| NycConverter.Clamp | create_nyc_datasets.py:107-109 | the weight is at least 1 and equals the rounded length when that is at least 1 |
| NycConverter.FeedRule | create_nyc_datasets.py:78-136 | for one row: a rejected row changes nothing. For an accepted row, existing ids are unchanged, the mapping gains exactly the two ends, a new start coordinate gets the next id and a new, different end coordinate the one after, and the counter grows by the number of new coordinates. The forward edge between the ends' ids with the clamped weight is appended. The reverse edge follows iff the stripped, lower-cased `oneway` is `false` and the budget has room |
| NycConverter.Select | create_nyc_datasets.py:68 | the Python slice `rows[start_row:start_row + num_rows + 5000]`: empty past the end, otherwise the rows from `start_row` on, `num_rows + 5000` of them or as many as remain |
| NycConverter.ConvertedTable | create_nyc_datasets.py:68-136 | at most `num_rows` edges, weights at least 1, one id per distinct coordinate, the ids exactly `0 .. V-1`, so the `max + 1` rule and the distinct-endpoint rule both give V |
| NycConverter.ProcessRow | create_nyc_datasets.py:74-136 | the loop body, with its `continue`s, performs one `Feed` step |
| NycConverter.CreateGraphDataset | create_nyc_datasets.py:53-136 | the loop with its budget break computes `Convert`; at most `num_rows` edges, weights at least 1, endpoints below `len(node_mapping)`, and `max + 1` equals `len(node_mapping)` |

## Left out

- File reading, CSV parsing and output writing are left out. The loaders are functions over an already-parsed list of `(src, tgt, weight)` rows, and the converter takes its rows as already read.
- The numeric value of `sys.maxsize` is left out. The sentinel is `Inf`, and distances at or above 2^63-1, where the Python comparisons would mix real distances with the sentinel, are not modelled.
- Graph validity is a precondition, not an error path. Validity means the source vertex is in range and every endpoint is in `[0, V)`. Which tables the Python code rejects depends on which entries it reads: reading `distances[x]` with `x >= V` raises `IndexError`. A negative `x` from `-V` to `-1` wraps around to the end of the list, and one below `-V` raises `IndexError` as well. An entry the code never reads does no harm, so the code accepts some invalid tables without any error.
- Dijkstra.Run: the requires excludes tables the source handles. `ArcsWithin` rules out an arc to an out-of-range vertex even when the arc leaves a vertex the scan never picks, and the source never reads such an arc. An example is the rows `(0,1,3)` and `(7,8,2)` with V = 4, the distinct-endpoint count of the `EnhancedDijkstra` and comparison loaders: vertex 7 is never picked, so the source returns normally.
- BellmanFord.Run: the requires excludes tables the source handles. `EdgesWithin` rules out a row whose target is out of range even when its source is never reached, and the source never reads `distances[dest]` for such a row. An example is the rows `(0,1,3)` and `(2,9,1)` with V = 3, which a caller gets when choosing V itself. A row source `>= V`, by contrast, raises `IndexError` at the first read of `distances[src]`: in the first pass, or in the cycle scan when V = 1 and no pass runs. A negative row source from `-V` to `-1` wraps around to the end of the list, so that read raises no error; one below `-V` raises `IndexError` as well.
- `EnhancedDijkstra` is the same loop as `DijkstraAlgorithm`, line for line, so `DijkstraAlgorithm.FindMinDistanceVertex` and `DijkstraAlgorithm.ShortestPath` stand for both. Its `defaultdict` lookup matches `Arcs` returning `[]` for a missing key.
- Paths.GetPath: the walk is only modelled when the chain from the target reaches -1 within `|pred|` steps, which is a precondition. The precondition is proved on Dijkstra output (`Dijkstra.RunChainEnds`), and on Bellman-Ford output when no negative cycle is reachable from the source (`BellmanFord.RunChainEnds`). With a reachable negative cycle the source's walk (bellman_ford_algorithm.py, lines 104-106) can loop forever, so that case is not modelled. An example is the edges `(0,1,1)`, `(1,2,-3)` and `(2,1,1)` with V = 3. The passes leave `predecessors == [-1, 2, 1]`, so the walk from vertex 1 or 2 never reaches -1.
- The float parse of `length` and `round` are left out because they are floating point. A row carries `Some(round(length))` for a finite positive length, and `None` for an empty cell, a text `float` rejects, or a length at or below 0.
- NycConverter.CreateGraphDataset: two exceptions of the source are not modelled, so the method returns normally where the source raises.
  - A `length` of `nan` or `inf` passes the `length <= 0` test. `int(round(length))` (create_nyc_datasets.py, line 107) then raises `ValueError` for `nan` and `OverflowError` for `inf`, outside the `try`. The ids of that row's coordinates are already assigned by then.
  - When no row is accepted, or `num_rows` is 0, the edge list is empty. The weight summary (line 149) then raises `ValueError` from `min()` after the file has been written.
- The converter's metadata columns (`street_name`, `highway`, `maxspeed`, `length_meters`) are left out because no engine reads them. The emitted edge keeps only its stripped `oneway` text.
- The converter's rows with a missing cell are left out, because `None.strip()` would raise in the source. The bare `except` in `parse_linestring`, which no string input reaches, is also left out.
- Text.Lower maps only ASCII letters. For comparing with `"false"` this is exact: the non-ASCII characters that Python lower-cases to ASCII letters are U+0130 and U+212A, and they yield `"i̇"` and `"k"`, neither of which occurs in `"false"`.
- The converter's `edges_created` counter is modelled as the length of the edge list, which it always equals.
- Printing, timing and the `run_*` wrappers are left out as I/O. So are `display_path_with_streets`, the travel-time arithmetic, and the benchmarking, chart, random-generation and subset scripts, which are I/O or floating point.
