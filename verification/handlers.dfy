/** The Django views around the engines: which status code and which body
    each request gets. The database is a map from graph id to the stored
    matrix; an MPI view is a function of the rank that serves it; a CuPy
    view reads the configured graph and may fail on the device. An
    exception no `except` clause catches is `Uncaught`: Django then answers
    500 on its own. */
module Handlers {
  import opened Dists
  import opened Walks
  import BellmanFord
  import BellmanFordPaths
  import Dijkstra
  import DijkstraPaths
  import DijkstraHeap
  import FloydWarshall
  import FloydWarshallPaths
  import FloydWarshallMpi

  const OK: int := 200
  const NO_CONTENT: int := 204
  const NOT_FOUND: int := 404
  const SERVER_ERROR: int := 500

  datatype Option<T> = None | Some(value: T)

  /** Stored graphs by id. Every stored graph is square: they are written
      by `generate_random_graph`. */
  type Db = map<int, Matrix>

  predicate StoredSquare(db: Db)
  {
    forall id :: id in db ==> IsSquare(db[id])
  }

  /** Where a failure message comes from. */
  datatype Reason = GraphNotFound | Raised

  /** The JSON bodies. The `time_seconds` field and the text of a caught
      exception are left abstract. */
  datatype Body =
    | Empty                                          // no body
    | NotFoundMessage                                // {"message": "Graph not found"}
    | Failure(reason: Reason)                        // {"status": "failure", "message": ...}
    | Distances(algorithm: string, dist: seq<Dist>)  // {"algorithm": ..., "distances": ...}
    | DistanceTable(algorithm: string, table: Matrix)
    | Timed(result: seq<Dist>)                       // {"result": ..., "time_seconds": ...}
    | TimedTable(table: Matrix)
    | Success(result: seq<Dist>)                     // {"status": "success", "result": ...}
    | SuccessTable(table: Matrix)
    | Error                                          // {"status": "error", "message": str(e)}

  datatype Outcome = Reply(code: int, body: Body) | Uncaught

  // ---------------------------------------------------------------------
  // Sequential views

  /** `BellmanFordCPU.get`. An empty graph makes `dist[0] = 0` raise an
      `IndexError` that only `Graph.DoesNotExist` is caught around. */
  function BellmanFordCpuView(db: Db, id: int): (r: Outcome)
    requires StoredSquare(db)
    ensures r == Uncaught <==> id in db && |db[id]| == 0
    ensures r.Reply? ==> (r.code == NOT_FOUND <==> id !in db)
    ensures r.Reply? && r.code == NOT_FOUND ==> r.body == NotFoundMessage
    ensures r.Reply? && r.code != NOT_FOUND ==>
      && r.code == OK && id in db && r.body.Distances? && r.body.algorithm == "bellman_ford"
      && |r.body.dist| == |db[id]| && Witnessed(db[id], 0, r.body.dist)
      && (NonNegMatrix(db[id]) ==> BelowWalks(db[id], 0, r.body.dist))
  {
    if id !in db then Reply(NOT_FOUND, NotFoundMessage)
    else
      var g := db[id];
      if |g| == 0 then Uncaught
      else
        BellmanFordPaths.BellmanFordCpuCorrect(g);
        Reply(OK, Distances("bellman_ford", BellmanFord.BellmanFordCpu(g)))
  }

  /** `DijkstraCPU.get`, with the heap algorithm. */
  method DijkstraCpuView(db: Db, id: int) returns (r: Outcome)
    requires StoredSquare(db)
    ensures r == Uncaught <==> id in db && |db[id]| == 0
    ensures r.Reply? ==> (r.code == NOT_FOUND <==> id !in db)
    ensures r.Reply? && r.code == NOT_FOUND ==> r.body == NotFoundMessage
    ensures r.Reply? && r.code != NOT_FOUND ==>
      && r.code == OK && id in db && r.body.Distances? && r.body.algorithm == "dijkstra"
      && |r.body.dist| == |db[id]| && Witnessed(db[id], 0, r.body.dist)
      && (NonNegMatrix(db[id]) ==> BelowWalks(db[id], 0, r.body.dist))
  {
    if id !in db {
      return Reply(NOT_FOUND, NotFoundMessage);
    }
    var g := db[id];
    if |g| == 0 {
      return Uncaught;
    }
    var dist, _ := DijkstraHeap.DijkstraCpu(g);
    r := Reply(OK, Distances("dijkstra", dist));
  }

  /** `FloydWarshallCPU.get`; an empty graph gives an empty table. */
  function FloydWarshallCpuView(db: Db, id: int): (r: Outcome)
    requires StoredSquare(db)
    ensures r.Reply?
    ensures r.code == NOT_FOUND <==> id !in db
    ensures r.code == NOT_FOUND ==> r.body == NotFoundMessage
    ensures r.code != NOT_FOUND ==>
      && r.code == OK && id in db && r.body.DistanceTable? && r.body.algorithm == "floyd_warshall"
      && IsSquare(r.body.table) && |r.body.table| == |db[id]|
      && FloydWarshallPaths.PairsWitnessed(db[id], r.body.table)
      && (NonNegMatrix(db[id]) && ZeroDiagonal(db[id]) ==> FloydWarshallPaths.PairsBelowWalks(db[id], r.body.table))
  {
    if id !in db then Reply(NOT_FOUND, NotFoundMessage)
    else
      var g := db[id];
      FloydWarshallPaths.FloydWarshallRankWitnessed(g, 0, 1);
      FloydWarshall.FloydWarshallSingleRank(g);
      if NonNegMatrix(g) && ZeroDiagonal(g) then
        FloydWarshallPaths.FloydWarshallCpuCorrect(g);
        Reply(OK, DistanceTable("floyd_warshall", FloydWarshall.FloydWarshallCpu(g)))
      else
        Reply(OK, DistanceTable("floyd_warshall", FloydWarshall.FloydWarshallCpu(g)))
  }

  // ---------------------------------------------------------------------
  // MPI views, as served by rank `rank` of `size`

  /** `BellmanFordAPI.get`. Only rank 0 answers with the merged distances;
      they are always real walk weights, and with one rank they are the
      sequential view's distances. */
  function BellmanFordMpiView(db: Db, id: int, rank: nat, size: nat): (r: Outcome)
    requires StoredSquare(db) && rank < size
    ensures r == Uncaught <==> id in db && |db[id]| == 0
    ensures r.Reply? ==> (r.code == NOT_FOUND <==> id !in db)
    ensures r.Reply? ==> (r.code == NO_CONTENT <==> id in db && rank != 0)
    ensures r.Reply? && r.code == NOT_FOUND ==> r.body == Failure(GraphNotFound)
    ensures r.Reply? && r.code == NO_CONTENT ==> r.body == Empty
    ensures r.Reply? && r.code !in {NOT_FOUND, NO_CONTENT} ==>
      && r.code == OK && rank == 0 && id in db && r.body.Timed?
      && |r.body.result| == |db[id]| && Witnessed(db[id], 0, r.body.result)
      && (size == 1 ==> r.body.result == BellmanFord.BellmanFordCpu(db[id]))
  {
    if id !in db then Reply(NOT_FOUND, Failure(GraphNotFound))
    else
      var g := db[id];
      if |g| == 0 then Uncaught
      else if rank != 0 then Reply(NO_CONTENT, Empty)
      else
        BellmanFordPaths.BellmanFordMpiWitnessed(g, 0, size);
        BellmanFord.BellmanFordSingleRank(g);
        Reply(OK, Timed(BellmanFord.BellmanFordMpi(g, 0, size)))
  }

  /** The `source` query parameter: missing, an integer, or text `int()`
      rejects. */
  datatype Query = Absent | Integer(value: int) | NotAnInteger

  /** `int(request.GET.get('source', 0))` for a query that parses. */
  function SourceOf(q: Query): int
    requires q != NotAnInteger
  {
    if q.Absent? then 0 else q.value
  }

  /** Python list indexing on a list of length `n`: a negative index counts
      from the end; anything outside `[-n, n)` raises `IndexError`. */
  function PyIndex(i: int, n: nat): (r: Option<nat>)
    ensures r.Some? <==> -(n as int) <= i < n
    ensures r.Some? ==> n > 0 && r.value < n && r.value % n == i % n
  {
    if 0 <= i < n then Some(i)
    else if -(n as int) <= i < 0 then Some(n + i)
    else None
  }

  /** `DijkstraParallelAPI.get`. A `source` that does not parse fails before
      the `try`; one outside the graph fails inside it, on every rank. The
      answer rank 0 gives does not depend on the number of ranks. */
  function DijkstraMpiView(db: Db, id: int, query: Query, rank: nat, size: nat): (r: Outcome)
    requires StoredSquare(db) && rank < size
    ensures r == Uncaught <==> query == NotAnInteger
    ensures r.Reply? ==> (r.code == NOT_FOUND <==> id !in db)
    ensures r.Reply? && id in db ==> (r.code == SERVER_ERROR <==> PyIndex(SourceOf(query), |db[id]|).None?)
    ensures r.Reply? && r.code == NOT_FOUND ==> r.body == Failure(GraphNotFound)
    ensures r.Reply? && r.code == SERVER_ERROR ==> r.body == Failure(Raised)
    ensures r.Reply? && r.code == NO_CONTENT ==> rank != 0 && r.body == Empty
    ensures r.Reply? && r.code !in {NOT_FOUND, SERVER_ERROR, NO_CONTENT} ==>
      && r.code == OK && rank == 0 && id in db && r.body.Timed?
      && PyIndex(SourceOf(query), |db[id]|).Some?
      && var s := PyIndex(SourceOf(query), |db[id]|).value;
      && |r.body.result| == |db[id]|
      && r.body.result == Dijkstra.DijkstraMpi(db[id], s, 1)
      && Witnessed(db[id], s, r.body.result)
      && (NonNegMatrix(db[id]) ==> BelowWalks(db[id], s, r.body.result) && r.body.result[s] == Fin(0))
  {
    if query == NotAnInteger then Uncaught
    else if id !in db then Reply(NOT_FOUND, Failure(GraphNotFound))
    else
      var g := db[id];
      match PyIndex(SourceOf(query), |g|)
      case None => Reply(SERVER_ERROR, Failure(Raised))
      case Some(s) =>
        if rank != 0 then Reply(NO_CONTENT, Empty)
        else
          Dijkstra.DijkstraMpiIndependentOfSize(g, s, size);
          DijkstraPaths.DijkstraMpiWitnessed(g, s, size);
          if NonNegMatrix(g) then
            DijkstraPaths.DijkstraMpiCorrect(g, s, size);
            Reply(OK, Timed(Dijkstra.DijkstraMpi(g, s, size)))
          else
            Reply(OK, Timed(Dijkstra.DijkstraMpi(g, s, size)))
  }

  /** `FloydWarshallAPI.get`, with the rows merged in list order. The table
      rank 0 reports holds only real walk weights and is the sequential
      table when there is one rank. */
  function FloydWarshallMpiView(db: Db, id: int, rank: nat, size: nat): (r: Outcome)
    requires StoredSquare(db) && rank < size
    ensures r.Reply?
    ensures r.code == NOT_FOUND <==> id !in db
    ensures r.code == NO_CONTENT <==> id in db && rank != 0
    ensures r.code == NOT_FOUND ==> r.body == Failure(GraphNotFound)
    ensures r.code == NO_CONTENT ==> r.body == Empty
    ensures r.code !in {NOT_FOUND, NO_CONTENT} ==>
      && r.code == OK && rank == 0 && id in db && r.body.TimedTable?
      && IsSquare(r.body.table) && |r.body.table| == |db[id]|
      && FloydWarshallPaths.PairsWitnessed(db[id], r.body.table)
      && (size == 1 ==> r.body.table == FloydWarshall.FloydWarshallCpu(db[id]))
  {
    if id !in db then Reply(NOT_FOUND, Failure(GraphNotFound))
    else if rank != 0 then Reply(NO_CONTENT, Empty)
    else
      var g := db[id];
      FloydWarshallMpi.FloydWarshallMpiSound(g, size);
      if size == 1 then
        FloydWarshallMpi.FloydWarshallMpiSingleRank(g);
        Reply(OK, TimedTable(FloydWarshallMpi.FloydWarshallMpi(g, size)))
      else
        Reply(OK, TimedTable(FloydWarshallMpi.FloydWarshallMpi(g, size)))
  }

  // ---------------------------------------------------------------------
  // CuPy views, on the configured graph

  /** `CudaBellmanFordAPIView.get`. Every exception is caught: a device
      failure, or `dist[0] = 0` on an empty graph. */
  function CudaBellmanFordView(graph: Matrix, deviceFails: bool): (r: Outcome)
    requires IsSquare(graph)
    ensures r.Reply?
    ensures r.code == SERVER_ERROR <==> deviceFails || |graph| == 0
    ensures r.code == SERVER_ERROR ==> r.body == Error
    ensures r.code != SERVER_ERROR ==>
      && r.code == OK && r.body.Success? && |r.body.result| == |graph|
      && r.body.result == BellmanFord.BellmanFordCpu(graph)
      && Witnessed(graph, 0, r.body.result)
      && (NonNegMatrix(graph) ==> BelowWalks(graph, 0, r.body.result))
  {
    if deviceFails || |graph| == 0 then Reply(SERVER_ERROR, Error)
    else
      BellmanFord.BellmanFordCudaMatchesCpu(graph);
      BellmanFordPaths.BellmanFordCpuCorrect(graph);
      Reply(OK, Success(BellmanFord.BellmanFordCuda(graph, 0)))
  }

  /** `CudaDijkstraAPIView.get`. */
  function CudaDijkstraView(graph: Matrix, deviceFails: bool): (r: Outcome)
    requires IsSquare(graph)
    ensures r.Reply?
    ensures r.code == SERVER_ERROR <==> deviceFails || |graph| == 0
    ensures r.code == SERVER_ERROR ==> r.body == Error
    ensures r.code != SERVER_ERROR ==>
      && r.code == OK && r.body.Success? && |r.body.result| == |graph|
      && r.body.result == Dijkstra.DijkstraMpi(graph, 0, 1)
      && Witnessed(graph, 0, r.body.result)
      && (NonNegMatrix(graph) ==> BelowWalks(graph, 0, r.body.result))
  {
    if deviceFails || |graph| == 0 then Reply(SERVER_ERROR, Error)
    else
      Dijkstra.DijkstraCudaMatchesMpi(graph, 0, 1);
      DijkstraPaths.DijkstraMpiWitnessed(graph, 0, 1);
      if NonNegMatrix(graph) then
        DijkstraPaths.DijkstraMpiCorrect(graph, 0, 1);
        Reply(OK, Success(Dijkstra.DijkstraCuda(graph, 0)))
      else
        Reply(OK, Success(Dijkstra.DijkstraCuda(graph, 0)))
  }

  /** `CudaFloydWarshallAPIView.get`; an empty graph gives an empty table. */
  function CudaFloydWarshallView(graph: Matrix, deviceFails: bool): (r: Outcome)
    requires IsSquare(graph)
    ensures r.Reply?
    ensures r.code == SERVER_ERROR <==> deviceFails
    ensures r.code == SERVER_ERROR ==> r.body == Error
    ensures r.code != SERVER_ERROR ==>
      && r.code == OK && r.body.SuccessTable?
      && IsSquare(r.body.table) && |r.body.table| == |graph|
      && FloydWarshallPaths.PairsWitnessed(graph, r.body.table)
      && (NonNegMatrix(graph) ==> r.body.table == FloydWarshall.FloydWarshallCpu(graph))
  {
    if deviceFails then Reply(SERVER_ERROR, Error)
    else
      FloydWarshallPaths.InputWitnessed(graph);
      FloydWarshallPaths.VecStepsWitnessed(graph, graph, 0);
      if NonNegMatrix(graph) then
        FloydWarshall.FloydWarshallCpuMatchesCuda(graph);
        Reply(OK, SuccessTable(FloydWarshall.FloydWarshallCuda(graph)))
      else
        Reply(OK, SuccessTable(FloydWarshall.FloydWarshallCuda(graph)))
  }
}
