# GraphingAlgos shortest paths, in Dafny

GraphingAlgos is a Django backend. It serves single-source and all-pairs
shortest distances over a dense adjacency matrix, computed three ways:

- sequentially: Bellman-Ford, heap Dijkstra and Floyd-Warshall;
- with MPI: each rank works on the stripe `range(rank, n, size)`, and the
  results are combined with `gather` / `allreduce`;
- with CuPy: scalar `minimum` relaxations and a whole-matrix
  Floyd-Warshall step.

This project models those engines, the duplicated stand-alone copies, the
random graph generator and the status-code branches of the views. The model
is built from pure functions over an extended-integer distance type.

## Module layout

- `Dists`: `Dist = Fin(int) | Inf`, with `Inf` absorbing.
  - `Add`, the strict `Less`, `Le` and `Min`.
  - The initial distance vector (`INFINITY` everywhere, `0` at the source).
- `Strides`: `range(start, stop, step)` as a sequence. Every vertex belongs
  to exactly one rank's stripe.
- `Walks`: walks in the matrix and their weights.
  - `Witnessed`: every finite entry is the weight of a real walk.
  - `BelowWalks`: an entry is at most the weight of every walk.
  - Two vectors with both properties are equal.
  - With non-negative weights, a walk can be shortened to at most `n`
    vertices.
- `BellmanFord`, `BellmanFordPaths`: the relaxation passes for both
  relaxation rules.
  - The `if ... <` rule is used by the sequential and MPI code; the CuPy
    `minimum` rule gives the same vector.
  - The per-rank function and the column-wise min merge.
  - Correctness, and the MPI counterexample with its corrected version.
- `DijkstraSelect`, `Dijkstra`, `DijkstraPaths`: Dijkstra's selection step.
  - The per-rank `(dist, index)` candidate, and the `MPI.MIN` `allreduce` as
    a fold.
  - The MPI loop and the CuPy `argmin` loop.
  - Correctness.
- `DijkstraHeap`: the `heapq` version, as a method with a loop invariant.
- `FloydWarshall`, `FloydWarshallPaths`, `FloydWarshallMpi`: the engines
  and their correctness.
  - The in-place triple loop, restricted to a rank's rows.
  - The vectorised CuPy step.
  - The row merge `[min(col) for col in zip(*parts)]` under Python list
    order.
  - The MPI counterexample and its corrected version.
- `Agreement`: on a graph without negative weights and with a zero
  diagonal, every correct engine reports the same distances from vertex 0.
- `RandomGraph`: `generate_random_graph`, with NumPy's generator replaced
  by an oracle.
- `Handlers`: the nine views, each with its status code and body.
  - A graph id is looked up in a map, and the MPI rank is a parameter.
  - The CuPy views read the configured graph, and a device failure is a
    boolean parameter.
  - `Uncaught` stands for an exception that no `except` clause catches.

Modelling decisions:

- `INFINITY` comes from a configuration module that is not part of this
  model. It is taken to be `float('inf')`, the value the sequential views
  compare against, and it is modelled as the absorbing `Inf`.
- Weights are integers, since the generator draws them from `randint(1, 100)`.
- A graph with no vertices is allowed. Wherever the source writes `dist[0]`
  or `dist[source]` on an empty list, the model takes the error path.
- A `gather` followed by a min, and an `allreduce`, are left folds over the
  ranks' results in rank order.

## Model

| member | source | states |
|---|---|---|
| Strides.StrideMembers | django_backend/src/mpi/views.py:18 | `v` is in `range(rank, n, size)` exactly when `v < n` and `v % size == rank` |
| Strides.StripesPartition | django_backend/src/mpi/views.py:62 | every vertex below `n` is in its owner's stripe and in no other rank's stripe |
| Strides.SingleStrideIsRange | algorithms/floyd_warshall_mpi.py:14 | with one rank the stripe is `0, 1, …, n-1` in order |
| Strides.StrideOneIsRange | algorithms/floyd_warshall_mpi.py:14 | a single rank's `range(0, n, 1)` is the whole of `range(n)`, the index list the sequential views loop over |
| BellmanFord.BellmanFordCpuMonotone | django_backend/src/sequential/views.py:19-23 | the pass loop only ever lowers `dist`: after `j` passes no entry is above its value after any `k <= j` passes, and the returned vector is below the vector after every pass |
| BellmanFord.RelaxEdgeProps | django_backend/src/sequential/views.py:22-23 | one relaxation touches only `dist[v]` and never raises it; when it changes it, the edge is finite, the new value is `dist[u] + w`, and that value is strictly smaller; afterwards `dist[v] <= dist[u] + w` |
| BellmanFord.RelaxRulesAgree | algorithms/bellman_ford_cuda.py:17-18 | the CuPy `dist[v] = minimum(dist[v], dist[u] + w)` on finite edges produces the same vector as the strict `if` update |
| BellmanFord.PassesRulesAgree | django_backend/src/cuda/views.py:30-34 | any number of full passes with the `minimum` rule equals the same passes with the strict `if` rule |
| BellmanFord.PassesProps | django_backend/static_files/stock_algorithms/bellman_ford_mpi.py:13-17 | after any number of passes over a target list, no entry has increased, and entries outside the targets are unchanged |
| BellmanFord.BellmanFordCudaMatchesCpu | algorithms/bellman_ford_cuda.py:8-19 | the CuPy engine from source 0 returns exactly the sequential view's vector |
| BellmanFord.BellmanFordRankFrame | django_backend/src/mpi/views.py:11-22 | a rank never writes outside its stripe: such entries stay `INFINITY`, except the source, which stays `0`; no entry rises above its initial value |
| BellmanFord.BellmanFordSingleRank | django_backend/static_files/stock_algorithms/bellman_ford_mpi.py:8-29 | with one rank, `range(0, n, 1)` is every target `range(n)`, so the rank's vector is the sequential Bellman-Ford, and the `min` merge over the one gathered vector returns it unchanged |
| BellmanFord.MinOverIsMin | django_backend/static_files/stock_algorithms/bellman_ford_mpi.py:29 | `min` over the gathered entries at `j` is one of them and is at most every one of them |
| BellmanFord.MergeMinSpec | django_backend/src/mpi/views.py:40 | the merged vector has length `n`; entry `j` is one of the gathered entries at `j` and is at most each of them |
| BellmanFord.BellmanFordMpiIsOwnerValue | django_backend/src/mpi/views.py:35-40 | every merged entry other than the source is the value computed by the rank that owns that vertex |
| BellmanFordPaths.BellmanFordCpuCorrect | django_backend/src/sequential/views.py:15-23 | every finite entry is the weight of a walk from 0; every entry is at most the weight of every walk of at most `n-1` edges; with no negative weight, it is at most every walk's weight |
| BellmanFordPaths.BellmanFordCudaCorrect | django_backend/src/cuda/views.py:24-35 | the same three properties for the CuPy engine, from any source |
| BellmanFordPaths.BellmanFordMpiWitnessed | django_backend/src/mpi/views.py:35-40 | for every number of ranks, each finite merged entry is the weight of a real walk, so the merge never reports a distance that is too small |
| BellmanFordPaths.BellmanFordMpiMissesWalk | django_backend/src/mpi/views.py:16-21 | on the chain 0 -> 1 -> 2 with two ranks, the merged `dist[2]` stays `INFINITY`, although the walk 0,1,2 weighs 2 and the sequential result is at most 2 |
| BellmanFordPaths.BellmanFordMpiSyncedCorrect | django_backend/src/mpi/views.py:16-40 | when ranks exchange and min-merge their vectors after every pass, for every number of ranks the result is witnessed by walks, is bounded by every walk of at most `n-1` edges, and with no negative weight is below every walk |
| BellmanFordPaths.BellmanFordMpiSyncedSingleRank | django_backend/src/mpi/views.py:16-21 | with one rank the exchanging engine is the sequential one |
| DijkstraSelect.LocalMinSpec | django_backend/src/mpi/views.py:61-64 | a rank's candidate is the least `(dist, index)` pair among the unvisited vertices of its stripe with `dist < INFINITY`, or `(INFINITY, -1)` when there is none |
| DijkstraSelect.GlobalMinSpec | django_backend/src/mpi/views.py:66-67 | the `MPI.MIN` reduction of the candidates is the least unvisited finite `(dist, index)` pair over all vertices, with ties going to the smaller index |
| DijkstraSelect.SelectionIndependentOfSize | django_backend/static_files/stock_algorithms/dijkstra_mpi.py:18-24 | the reduced choice is the same for every number of ranks |
| Dijkstra.GlobalMinEmpty | django_backend/src/mpi/views.py:68-70 | the reduced index is negative exactly when no unvisited vertex has a finite distance; otherwise the chosen vertex is unvisited |
| Dijkstra.MpiRoundVisitsOne | django_backend/static_files/stock_algorithms/dijkstra_mpi.py:26-30 | a round that does not break removes exactly the chosen vertex from the unvisited set |
| Dijkstra.VisitSpec | django_backend/src/mpi/views.py:72-78 | visiting `u` marks it visited; each `dist[v]` becomes its relaxation through `u` if `v` is unvisited and the edge finite; no entry rises; visited entries are unchanged |
| Dijkstra.VisitRulesAgree | django_backend/src/cuda/views.py:65-67 | the CuPy `minimum` relaxation of a visit equals the strict `if` relaxation |
| Dijkstra.MpiLoopExhausts | django_backend/src/mpi/views.py:59-72 | with as many rounds as unvisited vertices, the loop ends with no unvisited vertex at a finite distance |
| Dijkstra.DijkstraMpiIndependentOfSize | django_backend/src/mpi/views.py:53-83 | the distances rank 0 returns are the same for every number of ranks |
| Dijkstra.ArgMinSpec | django_backend/src/cuda/views.py:62 | `argmin` returns the first index holding the least value |
| Dijkstra.ArgMinIsSelection | django_backend/src/cuda/views.py:61-62 | when some unvisited vertex is finite, the first `argmin` of the masked distances is the vertex the MPI reduction selects |
| Dijkstra.CudaLoopExhausted | django_backend/src/cuda/views.py:60-67 | once no unvisited vertex is finite, further CuPy rounds leave the distances unchanged |
| Dijkstra.DijkstraCudaMatchesMpi | django_backend/src/cuda/views.py:53-69 | the CuPy Dijkstra returns exactly the MPI Dijkstra's distances, for any number of ranks |
| DijkstraPaths.MpiLoopLowers | django_backend/static_files/stock_algorithms/dijkstra_mpi.py:30-34 | the loop never raises a distance |
| DijkstraPaths.DijkstraMpiWitnessed | django_backend/static_files/stock_algorithms/dijkstra_mpi.py:8-38 | for any weights and any number of ranks, each finite distance is the weight of a walk from the source |
| DijkstraPaths.DijkstraMpiCorrect | django_backend/src/mpi/views.py:53-83 | with no negative weight, the result is witnessed, is below every walk from the source, and is `0` at the source |
| DijkstraPaths.DijkstraCudaCorrect | django_backend/src/cuda/views.py:53-69 | with no negative weight, the CuPy result is witnessed and below every walk from the source |
| DijkstraHeap.ExpandProps | django_backend/src/sequential/views.py:54-59 | expanding `u` keeps the old heap entries; every new entry is a finite `(d, v)` with `dist[v] <= d`; no distance rises; every lowered `dist[v]` is pushed as `(dist[v], v)` |
| DijkstraHeap.SkipKeepsInv | django_backend/src/sequential/views.py:49-51 | popping an already visited vertex and skipping it keeps the loop invariant |
| DijkstraHeap.DijkstraCpu | django_backend/src/sequential/views.py:42-59 | the loop ends; the expansion order lists distinct vertices, exactly those with finite distance; the distances are witnessed; with no negative weight they are below every walk from 0, `0` at 0, and equal the MPI Dijkstra's |
| FloydWarshall.UpdateCellSpec | django_backend/src/sequential/views.py:84-85 | one update sets `(i, j)` to `min(d[i][j], d[i][k] + d[k][j])`, leaves every other cell alone and raises nothing |
| FloydWarshall.UpdateRowsFrame | django_backend/src/mpi/views.py:118-121 | one pivot step over a list of rows leaves every other row unchanged and raises no entry |
| FloydWarshall.FloydWarshallCpuBelow | django_backend/src/sequential/views.py:78-85 | the sequential result is entry-wise at most the input |
| FloydWarshall.FloydWarshallRankFrame | algorithms/floyd_warshall_mpi.py:9-18 | a rank's rows outside its stripe equal the input rows, and every entry is at most the input entry |
| FloydWarshall.FloydWarshallSingleRank | algorithms/floyd_warshall_mpi.py:13-17 | with one rank, `range(0, n, 1)` is every row `range(n)`, so the rank's loop is the full in-place k-i-j triple loop of the sequential engine |
| FloydWarshall.VecStepsBelow | algorithms/floyd_warshall_cuda.py:12-15 | the CuPy result is entry-wise at most the input |
| FloydWarshall.VecStepKeepsPivot | algorithms/floyd_warshall_cuda.py:15 | when `d[k][k] >= 0`, the vectorised step leaves row `k` and column `k` unchanged |
| FloydWarshall.UpdateRowsIsVec | django_backend/src/mpi/views.py:117-121 | when `d[k][k] >= 0`, the in-place step on a list of rows gives those rows their vectorised-step values and leaves the others alone |
| FloydWarshall.StepIsVec | django_backend/src/cuda/views.py:91-94 | when `d[k][k] >= 0`, the in-place step over all rows equals `minimum(dist, column_k + row_k)` computed from the pre-step matrix |
| FloydWarshall.FloydWarshallCpuMatchesCuda | algorithms/floyd_warshall_cuda.py:8-16 | with no negative entry, the CuPy engine returns exactly the sequential matrix |
| FloydWarshall.FloydWarshallDiagonal | django_backend/src/sequential/views.py:81-85 | with no negative entry and a zero diagonal, the diagonal stays `0` in the sequential and the CuPy result |
| FloydWarshallPaths.FloydWarshallRankWitnessed | django_backend/src/mpi/views.py:113-122 | for any weights, every finite entry of a rank's matrix is the weight of a walk between the two vertices |
| FloydWarshallPaths.VecStepBounded | algorithms/floyd_warshall_cuda.py:15 | with no negative weight, if every entry is below every walk with interior vertices under `K`, then after step `K` it is below every walk with interior vertices under `K+1` |
| FloydWarshallPaths.FloydWarshallCpuCorrect | django_backend/src/sequential/views.py:81-85 | with no negative weight and a zero diagonal, each finite entry `(i, j)` is the weight of a walk from `i` to `j`, and each entry is at most the weight of every such walk |
| FloydWarshallPaths.FloydWarshallCudaCorrect | django_backend/src/cuda/views.py:87-96 | the same two properties for the CuPy engine |
| FloydWarshallMpi.LexTotal | algorithms/floyd_warshall_mpi.py:29 | Python list order on rows of equal length is total: of two different rows one is smaller |
| FloydWarshallMpi.PyMinLeast | algorithms/floyd_warshall_mpi.py:29 | `min` over rows returns a row that no gathered row is smaller than |
| FloydWarshallMpi.PyMinOfSmallest | algorithms/floyd_warshall_mpi.py:29 | if one gathered row is entry-wise at most every other, `min` returns that row |
| FloydWarshallMpi.MergeRowsSpec | algorithms/floyd_warshall_mpi.py:29 | the merged row `i` is one of the gathered rows at index `i`, and none of them is smaller under list order |
| FloydWarshallMpi.FloydWarshallMpiSingleRank | algorithms/floyd_warshall_mpi.py:20-29 | with one rank the merged matrix is the sequential Floyd-Warshall |
| FloydWarshallMpi.FloydWarshallMpiSound | algorithms/floyd_warshall_mpi.py:9-29 | for any number of ranks, the merged matrix is entry-wise at most the input, and each finite entry is a walk weight |
| FloydWarshallMpi.FloydWarshallMpiMissesWalk | django_backend/src/mpi/views.py:117-121 | with edges 2 -> 1 -> 0 -> 3 and two ranks, the merged `(2, 3)` stays `INFINITY`, while the sequential result there is finite |
| FloydWarshallMpi.SyncedStepIsVec | algorithms/floyd_warshall_mpi.py:13-17 | when the rows are merged after every pivot and no entry is negative, each synchronised step equals the vectorised step, for any number of ranks |
| FloydWarshallMpi.FloydWarshallMpiSyncedCorrect | algorithms/floyd_warshall_mpi.py:13-29 | with no negative weight, the synchronised engine equals the sequential one for any number of ranks; with a zero diagonal as well, it is witnessed and below every walk |
| Agreement.EnginesAgree | django_backend/src/sequential/views.py:14-85 | on a graph with no negative weight and a zero diagonal, every correct engine gives the same distances from 0: Bellman-Ford from CuPy, from the synchronised MPI engine and sequentially; Dijkstra on MPI (any rank count) and on CuPy; row 0 of Floyd-Warshall sequentially, on CuPy and on the synchronised MPI engine |
| RandomGraph.GenerateRandomGraph | django_backend/src/utils/graph.py:4-12 | a negative `size` is exactly the `ValueError` case of `np.full`; otherwise the matrix is `size` by `size` with a zero diagonal; off the diagonal, `(i, j)` is an edge exactly when its draw is below `density`, and an edge weighs `randint`'s pick, between 1 and 99; density 0 gives no edge; no weight is negative |
| Handlers.BellmanFordCpuView | django_backend/src/sequential/views.py:8-32 | 404 with "Graph not found" exactly when the id is missing; an uncaught error exactly for an empty graph; otherwise 200 with the Bellman-Ford distances, which are witnessed and, with no negative weight, shortest |
| Handlers.DijkstraCpuView | django_backend/src/sequential/views.py:35-68 | the same status codes as the Bellman-Ford view; on 200 the heap Dijkstra distances, which are witnessed and, with no negative weight, shortest |
| Handlers.FloydWarshallCpuView | django_backend/src/sequential/views.py:71-94 | 404 exactly when the id is missing, and otherwise 200 (even for an empty graph); the table is square, witnessed and, with no negative weight and a zero diagonal, below every walk |
| Handlers.BellmanFordMpiView | django_backend/src/mpi/views.py:25-50 | 404 with a failure body exactly when the id is missing; an uncaught error exactly for an empty graph; 204 exactly on ranks other than 0; rank 0 answers 200 with a witnessed vector that, with one rank, is the sequential result |
| Handlers.PyIndex | django_backend/src/mpi/views.py:57 | Python indexing of a length-`n` list succeeds exactly for `-n <= i < n`, and then addresses position `i mod n` |
| Handlers.DijkstraMpiView | django_backend/src/mpi/views.py:86-110 | a `source` that `int()` rejects is uncaught; a missing id gives 404; a source outside the list gives 500 with a failure body; other ranks give 204; rank 0 gives 200 with distances that do not depend on the rank count, are witnessed and, with no negative weight, are shortest and `0` at the source |
| Handlers.FloydWarshallMpiView | django_backend/src/mpi/views.py:125-152 | 404 exactly when the id is missing, 204 exactly on ranks other than 0, otherwise 200 with a square, witnessed table that, with one rank, is the sequential table |
| Handlers.CudaBellmanFordView | django_backend/src/cuda/views.py:9-35 | 500 with an error body exactly when the device fails or the graph is empty; otherwise 200 with the sequential Bellman-Ford vector, witnessed and, with no negative weight, shortest |
| Handlers.CudaDijkstraView | django_backend/src/cuda/views.py:38-69 | 500 exactly when the device fails or the graph is empty; otherwise 200 with the MPI Dijkstra's distances, witnessed and, with no negative weight, shortest |
| Handlers.CudaFloydWarshallView | django_backend/src/cuda/views.py:72-96 | 500 exactly when the device fails; otherwise 200 with a square, witnessed table that, with no negative weight, is the sequential table |

## Left out

- Timing: the `timeit` decorator and the `time_seconds` field. They read a wall clock.
- The database: `Graph` rows and their JSON encoding are replaced by a map from id to matrix.
- Response rendering: DRF's JSON encoding, including how it renders `inf`.
- Floating point: CuPy and NumPy `float32` and `float64` values are integers here. A float32 sum that rounds is not modelled.
- The `INFINITY` value: it is taken to be `float('inf')`.
- The NumPy row merge at django_backend/src/mpi/views.py:140.
  - There the gathered rows are NumPy arrays. Python `min` on two or more arrays of length two or more raises `ValueError`, which the view turns into a 500.
  - `Handlers.FloydWarshallMpiView` models the list merge of algorithms/floyd_warshall_mpi.py:29 instead.
- Deep copies: `copy.deepcopy` and `graph.copy()` are the identity on immutable values, so "the input is not mutated" holds by construction.
- Non-square graphs: every stored graph comes from the generator, so every engine requires a square matrix.
- The exception message in a 500 body: `str(e)` is abstracted away.
- The random number stream: the oracle gives one draw and one pick per cell.
  - NumPy consumes `randint` only when the draw succeeds, so the real stream shifts.
  - The model indexes the stream by cell instead.
- Concurrency: the MPI collectives are folds in rank order; there is no message passing or scheduling.
- `print` output: the stand-alone `main` functions in the stock and `algorithms/` copies print their results. Only their merges are modelled.
- Other plumbing: URL configuration, the TypeScript front ends, `api_test.py`, `static_files/main.py` and `visualize.py` are not part of this model.
- Handlers.CudaDijkstraView: reports the MPI Dijkstra's distances and does not restate the CuPy loop, because `Dijkstra.DijkstraCudaMatchesMpi` proves the two equal.
- Handlers.BellmanFordMpiView: promises only walk-witnessed entries for two or more ranks. The stronger "shortest" promise does not hold; see Findings.
- Handlers.FloydWarshallMpiView: promises only a witnessed table for two or more ranks, for the same reason.

## Findings

| source | as written | input that shows it | evidently intended | confidence | as-written member | corrected member |
|---|---|---|---|---|---|---|
| django_backend/src/mpi/views.py:16-21 | each rank relaxes only its own stripe `range(rank, n, size)`, using its own stale copy of every other entry; the vectors are exchanged only once, after all `n-1` passes | 3 vertices with `g[0][1] = g[1][2] = 1`, `g[0][2] = INFINITY`, two ranks: rank 0 owns 0 and 2 and never learns `dist[1]`, rank 1 cannot reach 2, so the merged `dist[2]` is `INFINITY` instead of 2 | exchange and min-merge the vectors after every pass, so the merged result is the sequential Bellman-Ford for any number of ranks | not executed | BellmanFordPaths.BellmanFordMpiMissesWalk | BellmanFordPaths.BellmanFordMpiSyncedCorrect |
| django_backend/src/mpi/views.py:117-121 | each rank updates its own rows, but reads pivot row `k` from its own copy, where that row stays stale when another rank owns it; rows are merged only at the end | 4 vertices, edges 2 -> 1 -> 0 -> 3, no edge 2 -> 0, 2 -> 3 or 1 -> 3, zero diagonal, two ranks: rank 0 owns row 2 but never sees row 1 improve, so the merged `(2, 3)` is `INFINITY` while the sequential result is finite | broadcast row `k` (or merge the rows) after every pivot, so the result is the sequential Floyd-Warshall for any number of ranks | not executed | FloydWarshallMpi.FloydWarshallMpiMissesWalk | FloydWarshallMpi.FloydWarshallMpiSyncedCorrect |
