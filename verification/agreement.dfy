/** The engines side by side. On a graph without negative weights and with
    a zero diagonal — every graph `generate_random_graph` produces — each
    engine that is correct computes the same shortest-walk distances from
    vertex 0, because two vectors that are both witnessed by walks and
    below every walk are equal. */
module Agreement {
  import opened Dists
  import opened Walks
  import BellmanFord
  import BellmanFordPaths
  import Dijkstra
  import DijkstraPaths
  import FloydWarshall
  import FloydWarshallPaths
  import FloydWarshallMpi

  /** Row `src` of an all-pairs result that is witnessed and below every
      walk is a single-source result with the same two properties. */
  lemma RowIsSingleSource(g: Matrix, d: Matrix, src: nat)
    requires IsSquare(g) && IsSquare(d) && |d| == |g| && src < |g|
    requires FloydWarshallPaths.PairsWitnessed(g, d) && FloydWarshallPaths.PairsBelowWalks(g, d)
    ensures Witnessed(g, src, d[src]) && BelowWalks(g, src, d[src])
  {
    forall p | WalkFrom(g, src, p)
      ensures Le(d[src][p[|p| - 1]], Weight(g, p))
    {
      assert IsWalk(g, p);
    }
  }

  /** Every engine reports the same distances from vertex 0, whatever the
      number of MPI ranks (for Dijkstra and the synchronised MPI engines). */
  lemma EnginesAgree(g: Matrix, size: nat)
    requires IsSquare(g) && |g| >= 1 && size >= 1 && NonNegMatrix(g) && ZeroDiagonal(g)
    ensures BellmanFord.BellmanFordCuda(g, 0) == BellmanFord.BellmanFordCpu(g)
    ensures BellmanFordPaths.BellmanFordMpiSynced(g, 0, size) == BellmanFord.BellmanFordCpu(g)
    ensures Dijkstra.DijkstraMpi(g, 0, size) == BellmanFord.BellmanFordCpu(g)
    ensures Dijkstra.DijkstraCuda(g, 0) == BellmanFord.BellmanFordCpu(g)
    ensures FloydWarshall.FloydWarshallCpu(g)[0] == BellmanFord.BellmanFordCpu(g)
    ensures FloydWarshall.FloydWarshallCuda(g)[0] == BellmanFord.BellmanFordCpu(g)
    ensures FloydWarshallMpi.FloydWarshallMpiSynced(g, size)[0] == BellmanFord.BellmanFordCpu(g)
  {
    var bf := BellmanFord.BellmanFordCpu(g);
    BellmanFordPaths.BellmanFordCpuCorrect(g);
    BellmanFordPaths.BellmanFordCudaCorrect(g, 0);
    ShortestUnique(g, 0, BellmanFord.BellmanFordCuda(g, 0), bf);
    BellmanFordPaths.BellmanFordMpiSyncedCorrect(g, 0, size);
    ShortestUnique(g, 0, BellmanFordPaths.BellmanFordMpiSynced(g, 0, size), bf);
    DijkstraPaths.DijkstraMpiCorrect(g, 0, size);
    ShortestUnique(g, 0, Dijkstra.DijkstraMpi(g, 0, size), bf);
    DijkstraPaths.DijkstraCudaCorrect(g, 0);
    ShortestUnique(g, 0, Dijkstra.DijkstraCuda(g, 0), bf);
    FloydWarshallPaths.FloydWarshallCpuCorrect(g);
    RowIsSingleSource(g, FloydWarshall.FloydWarshallCpu(g), 0);
    ShortestUnique(g, 0, FloydWarshall.FloydWarshallCpu(g)[0], bf);
    FloydWarshall.FloydWarshallCpuMatchesCuda(g);
    FloydWarshallMpi.FloydWarshallMpiSyncedCorrect(g, size);
  }
}
