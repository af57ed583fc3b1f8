/** The MPI and CuPy Dijkstra engines. Both keep a distance and a visited
    flag per vertex and repeat `n` times: pick a vertex, mark it visited,
    relax its edges into unvisited vertices. The MPI engine picks with the
    rank-parallel selection and stops as soon as nothing reachable is left;
    the CuPy engine picks the first argmin of the masked distances and never
    stops early. Every MPI rank receives the same reduced pair and so holds
    the same state; the state below is that common state. */
module Dijkstra {
  import opened Dists
  import opened Walks
  import opened DijkstraSelect

  datatype State = State(dist: seq<Dist>, visited: seq<bool>)

  predicate Valid(g: Matrix, st: State)
  {
    IsSquare(g) && |st.dist| == |g| && |st.visited| == |g|
  }

  /** `dist = [INFINITY] * n; visited = [False] * n; dist[source] = 0` */
  function Start(n: nat, source: nat): (st: State)
    requires source < n
    ensures |st.dist| == n && |st.visited| == n
  {
    State(InitDist(n, source), seq(n, _ => false))
  }

  /** The body of the relaxation loop for target `j`:
      `if not visited[j] and graph[u][j] != INFINITY: <rule>` */
  function RelaxOne(rule: Rule, g: Matrix, d: seq<Dist>, visited: seq<bool>, u: nat, j: nat): (r: seq<Dist>)
    requires IsSquare(g) && |d| == |g| && |visited| == |g| && u < |g| && j < |g|
    ensures |r| == |d|
  {
    var w := g[u][j];
    var cand := Add(d[u], w);
    if visited[j] || w == Inf then d
    else match rule
      case StrictIf => if Less(cand, d[j]) then d[j := cand] else d
      case MinAssign => d[j := Min(d[j], cand)]
  }

  /** `for v in range(j, n): <RelaxOne>` */
  function RelaxUnvisited(rule: Rule, g: Matrix, d: seq<Dist>, visited: seq<bool>, u: nat, j: nat): (r: seq<Dist>)
    requires IsSquare(g) && |d| == |g| && |visited| == |g| && u < |g| && j <= |g|
    ensures |r| == |d|
    decreases |g| - j
  {
    if j == |g| then d
    else RelaxUnvisited(rule, g, RelaxOne(rule, g, d, visited, u, j), visited, u, j + 1)
  }

  /** `visited[u] = True`, then the relaxation loop over every `v`. */
  function Visit(rule: Rule, g: Matrix, st: State, u: nat): (r: State)
    requires Valid(g, st) && u < |g|
    ensures Valid(g, r)
  {
    var vis := st.visited[u := true];
    State(RelaxUnvisited(rule, g, st.dist, vis, u, 0), vis)
  }

  /** The loop of `dijkstra_mpi` with `iters` rounds left: reduce the
      per-rank minima, `break` when the reduced index is negative, else
      visit the selected vertex. */
  function MpiLoop(g: Matrix, st: State, iters: nat, size: nat): (r: State)
    requires Valid(g, st) && size >= 1
    ensures Valid(g, r)
    decreases iters
  {
    if iters == 0 then st
    else
      var c := GlobalMin(st.dist, st.visited, size);
      if c.1 < 0 then st
      else MpiLoop(g, Visit(StrictIf, g, st, c.1), iters - 1, size)
  }

  /** The distances rank 0 returns from `dijkstra_mpi(graph, source, rank, size)`. */
  function DijkstraMpi(g: Matrix, source: nat, size: nat): (r: seq<Dist>)
    requires IsSquare(g) && source < |g| && size >= 1
    ensures |r| == |g|
  {
    MpiLoop(g, Start(|g|, source), |g|, size).dist
  }

  /** `cp.where(~visited, dist, INFINITY)` */
  function Mask(st: State): (m: seq<Dist>)
    requires |st.dist| == |st.visited|
    ensures |m| == |st.dist|
  {
    seq(|st.dist|, i requires 0 <= i < |st.dist| => if st.visited[i] then Inf else st.dist[i])
  }

  /** The scan behind `argmin` from index `i` on, `best` being the index of
      the least value so far; a later index wins only when strictly smaller. */
  function ArgMinFrom(m: seq<Dist>, i: nat, best: nat): (r: nat)
    requires best < |m| && i <= |m|
    ensures r < |m|
    decreases |m| - i
  {
    if i == |m| then best
    else ArgMinFrom(m, i + 1, if Less(m[i], m[best]) then i else best)
  }

  /** `cp.argmin(m)` */
  function ArgMin(m: seq<Dist>): (r: nat)
    requires |m| >= 1
    ensures r < |m|
  {
    ArgMinFrom(m, 1, 0)
  }

  /** The loop of `dijkstra_cuda` with `iters` rounds left. */
  function CudaLoop(g: Matrix, st: State, iters: nat): (r: State)
    requires Valid(g, st) && |g| >= 1
    ensures Valid(g, r)
    decreases iters
  {
    if iters == 0 then st
    else CudaLoop(g, Visit(MinAssign, g, st, ArgMin(Mask(st))), iters - 1)
  }

  /** The distances `dijkstra_cuda(graph, source)` returns. */
  function DijkstraCuda(g: Matrix, source: nat): (r: seq<Dist>)
    requires IsSquare(g) && source < |g|
    ensures |r| == |g|
  {
    CudaLoop(g, Start(|g|, source), |g|).dist
  }

  // ---------------------------------------------------------------------
  // One visit

  /** Relaxation closed form for a marked `u`. */
  function Relaxed(g: Matrix, d: seq<Dist>, visited: seq<bool>, u: nat, v: nat): Dist
    requires IsSquare(g) && |d| == |g| && |visited| == |g| && u < |g| && v < |g|
  {
    if !visited[v] && g[u][v] != Inf then Min(d[v], Add(d[u], g[u][v])) else d[v]
  }

  /** Once `u` is marked, the sweep never writes `dist[u]`, so it is a
      pointwise update: every unvisited `v` from `j` on with an edge from
      `u` drops to `min(dist[v], dist[u] + w)` and nothing else changes,
      under either rule. */
  lemma {:induction false} RelaxUnvisitedAt(rule: Rule, g: Matrix, d: seq<Dist>, visited: seq<bool>, u: nat, j: nat)
    requires IsSquare(g) && |d| == |g| && |visited| == |g| && u < |g| && j <= |g|
    requires visited[u]
    ensures forall v :: 0 <= v < |g| ==>
      RelaxUnvisited(rule, g, d, visited, u, j)[v] == if j <= v then Relaxed(g, d, visited, u, v) else d[v]
    decreases |g| - j
  {
    if j < |g| {
      var d' := RelaxOne(rule, g, d, visited, u, j);
      assert d'[u] == d[u];
      assert forall v :: 0 <= v < |g| ==> d'[v] == if v == j then Relaxed(g, d, visited, u, v) else d[v];
      RelaxUnvisitedAt(rule, g, d', visited, u, j + 1);
      forall v | 0 <= v < |g| && j < v
        ensures Relaxed(g, d', visited, u, v) == Relaxed(g, d, visited, u, v)
      {
      }
    }
  }

  /** What a visit does: marks `u`, lowers each unvisited target with an
      edge from `u` to `min(dist[v], dist[u] + w)`, leaves the rest —
      every visited vertex included — unchanged, and never raises an entry. */
  lemma VisitSpec(rule: Rule, g: Matrix, st: State, u: nat)
    requires Valid(g, st) && u < |g|
    ensures Visit(rule, g, st, u).visited == st.visited[u := true]
    ensures forall v :: 0 <= v < |g| ==>
      Visit(rule, g, st, u).dist[v] == Relaxed(g, st.dist, st.visited[u := true], u, v)
    ensures forall v :: 0 <= v < |g| ==> Le(Visit(rule, g, st, u).dist[v], st.dist[v])
    ensures forall v :: 0 <= v < |g| && st.visited[u := true][v] ==> Visit(rule, g, st, u).dist[v] == st.dist[v]
  {
    RelaxUnvisitedAt(rule, g, st.dist, st.visited[u := true], u, 0);
    forall v | 0 <= v < |g|
      ensures Le(Visit(rule, g, st, u).dist[v], st.dist[v])
    {
      MinSpec(st.dist[v], Add(st.dist[u], g[u][v]));
    }
  }

  /** The MPI test-and-assign and the CuPy `minimum` give the same visit. */
  lemma VisitRulesAgree(g: Matrix, st: State, u: nat)
    requires Valid(g, st) && u < |g|
    ensures Visit(StrictIf, g, st, u) == Visit(MinAssign, g, st, u)
  {
    VisitSpec(StrictIf, g, st, u);
    VisitSpec(MinAssign, g, st, u);
  }

  /** For every visited `u` and unvisited `v`, the edge `u -> v` cannot
      lower `dist[v]`. */
  predicate Settled(g: Matrix, st: State)
    requires Valid(g, st)
  {
    forall u, v :: 0 <= u < |g| && 0 <= v < |g| && st.visited[u] && !st.visited[v] ==>
      Le(st.dist[v], Add(st.dist[u], g[u][v]))
  }

  lemma StartSettled(g: Matrix, source: nat)
    requires IsSquare(g) && source < |g|
    ensures Settled(g, Start(|g|, source))
  {
  }

  /** Any visit keeps `Settled`: old visited vertices keep their distance
      while targets only drop, and the new vertex has just relaxed every
      unvisited target. */
  lemma VisitSettled(rule: Rule, g: Matrix, st: State, u: nat)
    requires Valid(g, st) && u < |g| && Settled(g, st)
    ensures Settled(g, Visit(rule, g, st, u))
  {
    var r := Visit(rule, g, st, u);
    VisitSpec(rule, g, st, u);
    forall x, v | 0 <= x < |g| && 0 <= v < |g| && r.visited[x] && !r.visited[v]
      ensures Le(r.dist[v], Add(r.dist[x], g[x][v]))
    {
      assert r.dist[x] == st.dist[x];
      if x == u {
        MinSpec(st.dist[v], Add(st.dist[u], g[u][v]));
      } else {
        LeTrans(r.dist[v], st.dist[v], Add(st.dist[x], g[x][v]));
      }
    }
  }

  /** No unvisited vertex is at a finite distance. */
  predicate Exhausted(st: State)
  {
    forall i :: 0 <= i < |st.dist| && i < |st.visited| && !st.visited[i] ==> st.dist[i] == Inf
  }

  /** Once exhausted, a visit of any vertex changes no distance: a visited
      source is already settled and an unvisited one is at `INFINITY`. */
  lemma VisitExhausted(rule: Rule, g: Matrix, st: State, u: nat)
    requires Valid(g, st) && u < |g| && Settled(g, st) && Exhausted(st)
    ensures Visit(rule, g, st, u).dist == st.dist
    ensures Exhausted(Visit(rule, g, st, u))
  {
    var r := Visit(rule, g, st, u);
    VisitSpec(rule, g, st, u);
    forall v | 0 <= v < |g|
      ensures r.dist[v] == st.dist[v]
    {
      if !r.visited[v] && g[u][v] != Inf && !st.visited[u] {
        assert st.dist[u] == Inf;
      }
    }
  }

  // ---------------------------------------------------------------------
  // The MPI loop

  /** The selection is empty exactly when the state is exhausted. */
  lemma GlobalMinEmpty(st: State, size: nat)
    requires |st.dist| == |st.visited| && size >= 1
    ensures GlobalMin(st.dist, st.visited, size).1 < 0 <==> Exhausted(st)
    ensures GlobalMin(st.dist, st.visited, size).1 >= 0 ==>
      !st.visited[GlobalMin(st.dist, st.visited, size).1]
  {
    var c := GlobalMin(st.dist, st.visited, size);
    GlobalMinSpec(st.dist, st.visited, size);
    if c.1 < 0 {
      forall i | 0 <= i < |st.dist| && !st.visited[i]
        ensures st.dist[i] == Inf
      {
        assert i in Below(|st.dist|);
      }
    }
  }

  /** The MPI loop computes the same state for every number of ranks. */
  lemma {:induction false} MpiLoopAnySize(g: Matrix, st: State, iters: nat, size: nat)
    requires Valid(g, st) && size >= 1
    ensures MpiLoop(g, st, iters, size) == MpiLoop(g, st, iters, 1)
    decreases iters
  {
    if iters > 0 {
      SelectionIndependentOfSize(st.dist, st.visited, size);
      var c := GlobalMin(st.dist, st.visited, size);
      if c.1 >= 0 {
        MpiLoopAnySize(g, Visit(StrictIf, g, st, c.1), iters - 1, size);
      }
    }
  }

  /** `dijkstra_mpi` returns the same distances whatever the number of ranks. */
  lemma DijkstraMpiIndependentOfSize(g: Matrix, source: nat, size: nat)
    requires IsSquare(g) && source < |g| && size >= 1
    ensures DijkstraMpi(g, source, size) == DijkstraMpi(g, source, 1)
  {
    MpiLoopAnySize(g, Start(|g|, source), |g|, size);
  }

  /** The vertices not yet visited. */
  function Unvisited(visited: seq<bool>): set<nat>
  {
    set i: nat | i < |visited| && !visited[i]
  }

  /** Each round that does not break marks exactly one new vertex visited. */
  lemma MpiRoundVisitsOne(g: Matrix, st: State, size: nat)
    requires Valid(g, st) && size >= 1
    requires GlobalMin(st.dist, st.visited, size).1 >= 0
    ensures Unvisited(Visit(StrictIf, g, st, GlobalMin(st.dist, st.visited, size).1).visited)
         == Unvisited(st.visited) - {GlobalMin(st.dist, st.visited, size).1 as nat}
    ensures GlobalMin(st.dist, st.visited, size).1 in Unvisited(st.visited)
  {
    var u := GlobalMin(st.dist, st.visited, size).1;
    GlobalMinEmpty(st, size);
    VisitSpec(StrictIf, g, st, u);
  }

  /** The loop ends exhausted once it has had a round for every unvisited
      vertex: each round either breaks on an exhausted state or visits one. */
  lemma {:induction false} MpiLoopExhausts(g: Matrix, st: State, iters: nat, size: nat)
    requires Valid(g, st) && size >= 1 && |Unvisited(st.visited)| <= iters
    ensures Exhausted(MpiLoop(g, st, iters, size))
    decreases iters
  {
    var c := GlobalMin(st.dist, st.visited, size);
    GlobalMinEmpty(st, size);
    if iters == 0 {
      assert Unvisited(st.visited) == {};
      forall i | 0 <= i < |st.dist| && !st.visited[i]
        ensures st.dist[i] == Inf
      {
        assert i in Unvisited(st.visited);
      }
    } else if c.1 >= 0 {
      MpiRoundVisitsOne(g, st, size);
      MpiLoopExhausts(g, Visit(StrictIf, g, st, c.1), iters - 1, size);
    }
  }

  lemma {:induction false} MpiLoopSettled(g: Matrix, st: State, iters: nat, size: nat)
    requires Valid(g, st) && size >= 1 && Settled(g, st)
    ensures Settled(g, MpiLoop(g, st, iters, size))
    decreases iters
  {
    if iters > 0 {
      var c := GlobalMin(st.dist, st.visited, size);
      if c.1 >= 0 {
        VisitSettled(StrictIf, g, st, c.1);
        MpiLoopSettled(g, Visit(StrictIf, g, st, c.1), iters - 1, size);
      }
    }
  }

  // ---------------------------------------------------------------------
  // The CuPy loop against the MPI loop

  /** `i` is the first index holding the least value of `m`. */
  predicate FirstMin(m: seq<Dist>, i: nat)
  {
    && i < |m|
    && (forall j :: 0 <= j < |m| ==> Le(m[i], m[j]))
    && (forall j :: 0 <= j < i ==> Less(m[i], m[j]))
  }

  lemma FirstMinUnique(m: seq<Dist>, i: nat, i': nat)
    requires FirstMin(m, i) && FirstMin(m, i')
    ensures i == i'
  {
    Trichotomy(m[i], m[i']);
  }

  lemma {:induction false} ArgMinFromSpec(m: seq<Dist>, i: nat, best: nat)
    requires best < i <= |m|
    requires forall j :: 0 <= j < i ==> Le(m[best], m[j])
    requires forall j :: 0 <= j < best ==> Less(m[best], m[j])
    ensures FirstMin(m, ArgMinFrom(m, i, best))
    decreases |m| - i
  {
    if i < |m| {
      var b := if Less(m[i], m[best]) then i else best;
      forall j | 0 <= j < i + 1
        ensures Le(m[b], m[j])
      {
        if b == i && j < i {
          LeTrans(m[i], m[best], m[j]);
        }
      }
      forall j | 0 <= j < b
        ensures Less(m[b], m[j])
      {
        if b == i {
          Trichotomy(m[i], m[best]);
          assert Le(m[best], m[j]);
        }
      }
      ArgMinFromSpec(m, i + 1, b);
    }
  }

  /** `argmin` returns the first index of the least value. */
  lemma ArgMinSpec(m: seq<Dist>)
    requires |m| >= 1
    ensures FirstMin(m, ArgMin(m))
  {
    ArgMinFromSpec(m, 1, 0);
  }

  /** When some unvisited vertex is at a finite distance, the CuPy pick and
      the MPI pick coincide. */
  lemma ArgMinIsSelection(st: State)
    requires |st.dist| == |st.visited| >= 1
    requires GlobalMin(st.dist, st.visited, 1).1 >= 0
    ensures ArgMin(Mask(st)) == GlobalMin(st.dist, st.visited, 1).1
  {
    var c := GlobalMin(st.dist, st.visited, 1);
    var m := Mask(st);
    GlobalMinSpec(st.dist, st.visited, 1);
    forall j | 0 <= j < |m|
      ensures Le(m[c.1], m[j])
    {
      assert j in Below(|st.dist|);
      if Candidate(st.dist, st.visited, j) {
        assert !CandLess((st.dist[j], j), c);
      }
    }
    forall j | 0 <= j < c.1
      ensures Less(m[c.1], m[j])
    {
      assert j in Below(|st.dist|);
      if Candidate(st.dist, st.visited, j) {
        assert !CandLess((st.dist[j], j), c);
        Trichotomy(st.dist[j], c.0);
      }
    }
    ArgMinSpec(m);
    FirstMinUnique(m, ArgMin(m), c.1);
  }

  /** Once exhausted, the CuPy rounds still visit vertices but change no
      distance. */
  lemma {:induction false} CudaLoopExhausted(g: Matrix, st: State, iters: nat)
    requires Valid(g, st) && |g| >= 1 && Settled(g, st) && Exhausted(st)
    ensures CudaLoop(g, st, iters).dist == st.dist
    decreases iters
  {
    if iters > 0 {
      var u := ArgMin(Mask(st));
      VisitExhausted(MinAssign, g, st, u);
      VisitSettled(MinAssign, g, st, u);
      CudaLoopExhausted(g, Visit(MinAssign, g, st, u), iters - 1);
    }
  }

  lemma {:induction false} CudaLoopMatchesMpi(g: Matrix, st: State, iters: nat)
    requires Valid(g, st) && |g| >= 1 && Settled(g, st)
    ensures CudaLoop(g, st, iters).dist == MpiLoop(g, st, iters, 1).dist
    decreases iters
  {
    if iters > 0 {
      var c := GlobalMin(st.dist, st.visited, 1);
      GlobalMinEmpty(st, 1);
      if c.1 < 0 {
        CudaLoopExhausted(g, st, iters);
      } else {
        ArgMinIsSelection(st);
        VisitRulesAgree(g, st, c.1);
        VisitSettled(StrictIf, g, st, c.1);
        CudaLoopMatchesMpi(g, Visit(StrictIf, g, st, c.1), iters - 1);
      }
    }
  }

  /** The CuPy engine returns exactly what the MPI engine returns, for any
      number of ranks, although it never breaks out of its loop. */
  lemma DijkstraCudaMatchesMpi(g: Matrix, source: nat, size: nat)
    requires IsSquare(g) && source < |g| && size >= 1
    ensures DijkstraCuda(g, source) == DijkstraMpi(g, source, size)
  {
    StartSettled(g, source);
    CudaLoopMatchesMpi(g, Start(|g|, source), |g|);
    DijkstraMpiIndependentOfSize(g, source, size);
  }
}
