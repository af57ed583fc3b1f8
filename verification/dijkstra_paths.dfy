/** What the MPI and CuPy Dijkstra results mean in terms of walks: every
    finite distance is the weight of a walk from the source, for any
    weights; with non-negative weights no distance exceeds the weight of
    any walk from the source, so the result is the exact shortest-walk
    distance. */
module DijkstraPaths {
  import opened Dists
  import opened Walks
  import opened DijkstraSelect
  import opened Dijkstra

  // ---------------------------------------------------------------------
  // Soundness, for any weights

  lemma VisitWitnessed(rule: Rule, g: Matrix, src: nat, st: State, u: nat)
    requires Valid(g, st) && u < |g| && Witnessed(g, src, st.dist)
    ensures Witnessed(g, src, Visit(rule, g, st, u).dist)
  {
    var r := Visit(rule, g, st, u);
    VisitSpec(rule, g, st, u);
    forall v | 0 <= v < |g| && r.dist[v].Fin?
      ensures WalkOfWeight(g, src, v, r.dist[v])
    {
      if r.dist[v] != st.dist[v] {
        MinSpec(st.dist[v], Add(st.dist[u], g[u][v]));
        ExtendWitness(g, src, st.dist[u], u, v);
      }
    }
  }

  lemma {:induction false} MpiLoopWitnessed(g: Matrix, src: nat, st: State, iters: nat, size: nat)
    requires Valid(g, st) && size >= 1 && Witnessed(g, src, st.dist)
    ensures Witnessed(g, src, MpiLoop(g, st, iters, size).dist)
    decreases iters
  {
    if iters > 0 {
      var c := GlobalMin(st.dist, st.visited, size);
      if c.1 >= 0 {
        VisitWitnessed(StrictIf, g, src, st, c.1);
        MpiLoopWitnessed(g, src, Visit(StrictIf, g, st, c.1), iters - 1, size);
      }
    }
  }

  /** The loop only ever lowers distances. */
  lemma {:induction false} MpiLoopLowers(g: Matrix, st: State, iters: nat, size: nat)
    requires Valid(g, st) && size >= 1
    ensures forall v :: 0 <= v < |g| ==> Le(MpiLoop(g, st, iters, size).dist[v], st.dist[v])
    decreases iters
  {
    if iters > 0 {
      var c := GlobalMin(st.dist, st.visited, size);
      if c.1 >= 0 {
        var st' := Visit(StrictIf, g, st, c.1);
        VisitSpec(StrictIf, g, st, c.1);
        MpiLoopLowers(g, st', iters - 1, size);
        forall v | 0 <= v < |g|
          ensures Le(MpiLoop(g, st, iters, size).dist[v], st.dist[v])
        {
          LeTrans(MpiLoop(g, st', iters - 1, size).dist[v], st'.dist[v], st.dist[v]);
        }
      }
    }
  }

  /** Every finite distance of `dijkstra_mpi` is the weight of a walk from
      the source, whatever the weights and the number of ranks. */
  lemma DijkstraMpiWitnessed(g: Matrix, source: nat, size: nat)
    requires IsSquare(g) && source < |g| && size >= 1
    ensures Witnessed(g, source, DijkstraMpi(g, source, size))
  {
    InitWitnessed(g, source);
    MpiLoopWitnessed(g, source, Start(|g|, source), |g|, size);
  }

  // ---------------------------------------------------------------------
  // Optimality, for non-negative weights

  /** No edge between two visited vertices can lower a distance. */
  predicate Closed(g: Matrix, st: State)
    requires Valid(g, st)
  {
    forall u, v :: 0 <= u < |g| && 0 <= v < |g| && st.visited[u] && st.visited[v] ==>
      Le(st.dist[v], Add(st.dist[u], g[u][v]))
  }

  /** Visited vertices are no farther than unvisited ones. */
  predicate Ordered(st: State)
  {
    forall u, v ::
      (0 <= u < |st.dist| && 0 <= v < |st.dist| && u < |st.visited| && v < |st.visited|
       && st.visited[u] && !st.visited[v]) ==> Le(st.dist[u], st.dist[v])
  }

  lemma LeMin(a: Dist, b: Dist, c: Dist)
    requires Le(a, b) && Le(a, c)
    ensures Le(a, Min(b, c))
  {
    MinSpec(b, c);
  }

  /** Visiting the selected vertex keeps `Closed` and `Ordered` when no
      weight is negative: the selected vertex is no farther than any
      unvisited one, so no edge out of it can improve a visited vertex. */
  lemma VisitSelectedKeepsOrder(g: Matrix, st: State, size: nat)
    requires Valid(g, st) && size >= 1 && NonNegMatrix(g)
    requires Settled(g, st) && Closed(g, st) && Ordered(st)
    requires GlobalMin(st.dist, st.visited, size).1 >= 0
    ensures Closed(g, Visit(StrictIf, g, st, GlobalMin(st.dist, st.visited, size).1))
    ensures Ordered(Visit(StrictIf, g, st, GlobalMin(st.dist, st.visited, size).1))
  {
    var c := GlobalMin(st.dist, st.visited, size);
    var u: nat := c.1;
    var r := Visit(StrictIf, g, st, u);
    GlobalMinSpec(st.dist, st.visited, size);
    GlobalMinEmpty(st, size);
    VisitSpec(StrictIf, g, st, u);
    // the selected vertex is no farther than any unvisited vertex
    forall v | 0 <= v < |g| && !st.visited[v]
      ensures Le(st.dist[u], st.dist[v])
    {
      assert v in Below(|g|);
      if st.dist[v].Fin? {
        assert Candidate(st.dist, st.visited, v);
      }
    }
    forall x, v | 0 <= x < |g| && 0 <= v < |g| && r.visited[x] && r.visited[v]
      ensures Le(r.dist[v], Add(r.dist[x], g[x][v]))
    {
      if x == u {
        AddNonNeg(st.dist[u], g[u][v]);
        if v != u {
          LeTrans(st.dist[v], st.dist[u], Add(st.dist[u], g[u][v]));
        }
      }
    }
    forall x, v | 0 <= x < |g| && 0 <= v < |g| && r.visited[x] && !r.visited[v]
      ensures Le(r.dist[x], r.dist[v])
    {
      AddNonNeg(st.dist[u], g[u][v]);
      LeTrans(st.dist[x], st.dist[u], Add(st.dist[u], g[u][v]));
      LeMin(st.dist[x], st.dist[v], Add(st.dist[u], g[u][v]));
    }
  }

  lemma {:induction false} MpiLoopKeepsOrder(g: Matrix, st: State, iters: nat, size: nat)
    requires Valid(g, st) && size >= 1 && NonNegMatrix(g)
    requires Settled(g, st) && Closed(g, st) && Ordered(st)
    ensures Closed(g, MpiLoop(g, st, iters, size))
    decreases iters
  {
    if iters > 0 {
      var c := GlobalMin(st.dist, st.visited, size);
      if c.1 >= 0 {
        VisitSelectedKeepsOrder(g, st, size);
        VisitSettled(StrictIf, g, st, c.1);
        MpiLoopKeepsOrder(g, Visit(StrictIf, g, st, c.1), iters - 1, size);
      }
    }
  }

  /** A settled, closed and exhausted state admits no further relaxation. */
  lemma FinalNoRelaxable(g: Matrix, st: State)
    requires Valid(g, st) && Settled(g, st) && Closed(g, st) && Exhausted(st)
    ensures NoRelaxable(g, st.dist)
  {
  }

  /** Started settled, closed and ordered, with a round for every
      unvisited vertex, the loop ends where no edge can lower a distance. */
  lemma MpiLoopFinal(g: Matrix, st: State, iters: nat, size: nat)
    requires Valid(g, st) && size >= 1 && NonNegMatrix(g)
    requires Settled(g, st) && Closed(g, st) && Ordered(st)
    requires |Unvisited(st.visited)| <= iters
    ensures NoRelaxable(g, MpiLoop(g, st, iters, size).dist)
  {
    MpiLoopExhausts(g, st, iters, size);
    MpiLoopSettled(g, st, iters, size);
    MpiLoopKeepsOrder(g, st, iters, size);
    FinalNoRelaxable(g, MpiLoop(g, st, iters, size));
  }

  /** With non-negative weights `dijkstra_mpi` returns exactly the
      shortest-walk distances from the source: each finite entry is the
      weight of a walk, no entry exceeds the weight of any walk, and the
      source is at 0. */
  lemma DijkstraMpiCorrect(g: Matrix, source: nat, size: nat)
    requires IsSquare(g) && source < |g| && size >= 1 && NonNegMatrix(g)
    ensures Witnessed(g, source, DijkstraMpi(g, source, size))
    ensures BelowWalks(g, source, DijkstraMpi(g, source, size))
    ensures DijkstraMpi(g, source, size)[source] == Fin(0)
  {
    var st := Start(|g|, source);
    var r := DijkstraMpi(g, source, size);
    DijkstraMpiWitnessed(g, source, size);
    StartSettled(g, source);
    assert Unvisited(st.visited) == Below(|g|);
    MpiLoopFinal(g, st, |g|, size);
    MpiLoopLowers(g, st, |g|, size);
    FixpointBelowWalks(g, source, r);
    SourceAtZero(g, source, r);
  }

  /** The CuPy engine inherits the same guarantee through its equality with
      the MPI engine. */
  lemma DijkstraCudaCorrect(g: Matrix, source: nat)
    requires IsSquare(g) && source < |g| && NonNegMatrix(g)
    ensures Witnessed(g, source, DijkstraCuda(g, source))
    ensures BelowWalks(g, source, DijkstraCuda(g, source))
  {
    DijkstraCudaMatchesMpi(g, source, 1);
    DijkstraMpiCorrect(g, source, 1);
  }
}
