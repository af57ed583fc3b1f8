/** What the Bellman-Ford results mean in terms of walks of the graph:
    every finite entry is the weight of a real walk from the source, and
    after `k` passes no entry exceeds the weight of any walk with at most
    `k` edges. The sequential and CuPy engines meet both; the MPI merge as
    written meets only the first, and the per-pass synchronised variant
    meets both. */
module BellmanFordPaths {
  import opened Dists
  import opened Strides
  import opened Walks
  import opened BellmanFord

  // ---------------------------------------------------------------------
  // Soundness: finite entries are walk weights

  lemma RelaxEdgeWitnessed(rule: Rule, g: Matrix, src: nat, d: seq<Dist>, u: nat, v: nat)
    requires IsSquare(g) && |d| == |g| && u < |g| && v < |g|
    requires Witnessed(g, src, d)
    ensures Witnessed(g, src, RelaxEdge(rule, g, d, u, v))
  {
    var r := RelaxEdge(rule, g, d, u, v);
    RelaxEdgeProps(rule, g, d, u, v);
    forall x | 0 <= x < |r| && r[x].Fin?
      ensures WalkOfWeight(g, src, x, r[x])
    {
      if x == v && r[v] != d[v] {
        ExtendWitness(g, src, d[u], u, v);
      } else {
        assert r[x] == d[x];
      }
    }
  }

  lemma {:induction false} RelaxTargetsWitnessed(rule: Rule, g: Matrix, src: nat, d: seq<Dist>, u: nat, vs: seq<nat>)
    requires IsSquare(g) && |d| == |g| && u < |g| && ValidTargets(g, vs)
    requires Witnessed(g, src, d)
    ensures Witnessed(g, src, RelaxTargets(rule, g, d, u, vs))
    decreases |vs|
  {
    if vs != [] {
      RelaxEdgeWitnessed(rule, g, src, d, u, vs[0]);
      RelaxTargetsWitnessed(rule, g, src, RelaxEdge(rule, g, d, u, vs[0]), u, vs[1..]);
    }
  }

  lemma {:induction false} RelaxFromWitnessed(rule: Rule, g: Matrix, src: nat, d: seq<Dist>, u0: nat, vs: seq<nat>)
    requires IsSquare(g) && |d| == |g| && ValidTargets(g, vs)
    requires Witnessed(g, src, d)
    ensures Witnessed(g, src, RelaxFrom(rule, g, d, u0, vs))
    decreases |g| - u0
  {
    if u0 < |g| {
      RelaxTargetsWitnessed(rule, g, src, d, u0, vs);
      RelaxFromWitnessed(rule, g, src, RelaxTargets(rule, g, d, u0, vs), u0 + 1, vs);
    }
  }

  lemma {:induction false} PassesWitnessed(rule: Rule, g: Matrix, src: nat, d: seq<Dist>, k: nat, vs: seq<nat>)
    requires IsSquare(g) && |d| == |g| && ValidTargets(g, vs)
    requires Witnessed(g, src, d)
    ensures Witnessed(g, src, Passes(rule, g, d, k, vs))
    decreases k
  {
    if k > 0 {
      RelaxFromWitnessed(rule, g, src, d, 0, vs);
      PassesWitnessed(rule, g, src, Pass(rule, g, d, vs), k - 1, vs);
    }
  }

  /** Merging witnessed vectors keeps them witnessed: each merged entry is
      one of the gathered entries. */
  lemma MergeWitnessed(g: Matrix, src: nat, parts: seq<seq<Dist>>)
    requires IsSquare(g) && |parts| >= 1
    requires forall i :: 0 <= i < |parts| ==> |parts[i]| == |g| && Witnessed(g, src, parts[i])
    ensures Witnessed(g, src, MergeMin(parts, |g|))
  {
    var m := MergeMin(parts, |g|);
    MergeMinSpec(parts, |g|);
    forall v | 0 <= v < |m| && m[v].Fin?
      ensures WalkOfWeight(g, src, v, m[v])
    {
      assert Gathered(m[v], parts, v);
      var i :| 0 <= i < |parts| && v < |parts[i]| && m[v] == parts[i][v];
    }
  }

  // ---------------------------------------------------------------------
  // Completeness bound: k passes cover every walk of at most k edges

  /** One pass extends the bound by one edge for every target it sweeps. */
  lemma PassExtendsBound(rule: Rule, g: Matrix, src: nat, d: seq<Dist>, k: nat, vs: seq<nat>)
    requires IsSquare(g) && |d| == |g| && ValidTargets(g, vs) && src < |g|
    requires BoundedBy(g, src, d, k)
    ensures forall p {:trigger WalkFrom(g, src, p)} :: WalkFrom(g, src, p) && |p| <= k + 2 && p[|p| - 1] in vs ==>
              Le(Pass(rule, g, d, vs)[p[|p| - 1]], Weight(g, p))
  {
    forall p | WalkFrom(g, src, p) && |p| <= k + 2 && p[|p| - 1] in vs
      ensures Le(Pass(rule, g, d, vs)[p[|p| - 1]], Weight(g, p))
    {
      PassExtendsWalk(rule, g, src, d, k, vs, p);
    }
  }

  /** What one pass guarantees at a target `v`: it is no higher than before,
      and no higher than the relaxation through any `u`. */
  lemma PassAt(rule: Rule, g: Matrix, d: seq<Dist>, vs: seq<nat>, u: nat, v: nat)
    requires IsSquare(g) && |d| == |g| && ValidTargets(g, vs) && u < |g| && v < |g| && v in vs
    ensures Le(Pass(rule, g, d, vs)[v], d[v])
    ensures Le(Pass(rule, g, d, vs)[v], Add(d[u], g[u][v]))
  {
    RelaxFromProps(rule, g, d, 0, vs);
    var t :| 0 <= t < |vs| && vs[t] == v;
  }

  /** A walk one edge longer than the bound covers, ending in a target. */
  lemma PassExtendsEdge(rule: Rule, g: Matrix, src: nat, d: seq<Dist>, k: nat, vs: seq<nat>, q: seq<nat>, v: nat)
    requires IsSquare(g) && |d| == |g| && ValidTargets(g, vs) && src < |g|
    requires BoundedBy(g, src, d, k)
    requires WalkFrom(g, src, q) && |q| <= k + 1 && v < |g| && v in vs
    ensures IsWalk(g, q + [v])
    ensures Le(Pass(rule, g, d, vs)[v], Weight(g, q + [v]))
  {
    var u := q[|q| - 1];
    WeightSnoc(g, q, v);
    assert Le(d[u], Weight(g, q));
    PassAt(rule, g, d, vs, u, v);
    AddMono(Weight(g, q), d[u], g[u][v], g[u][v]);
    LeTrans(Pass(rule, g, d, vs)[v], Add(d[u], g[u][v]), Weight(g, q + [v]));
  }

  lemma PassExtendsWalk(rule: Rule, g: Matrix, src: nat, d: seq<Dist>, k: nat, vs: seq<nat>, p: seq<nat>)
    requires IsSquare(g) && |d| == |g| && ValidTargets(g, vs) && src < |g|
    requires BoundedBy(g, src, d, k)
    requires WalkFrom(g, src, p) && |p| <= k + 2 && p[|p| - 1] in vs
    ensures Le(Pass(rule, g, d, vs)[p[|p| - 1]], Weight(g, p))
  {
    var v := p[|p| - 1];
    if |p| == 1 {
      PassAt(rule, g, d, vs, v, v);
      assert Le(d[v], Weight(g, p));
      LeTrans(Pass(rule, g, d, vs)[v], d[v], Weight(g, p));
    } else {
      var q := p[..|p| - 1];
      assert q + [v] == p;
      PassExtendsEdge(rule, g, src, d, k, vs, q, v);
    }
  }

  lemma AllTargets(g: Matrix, v: nat)
    requires v < |g|
    ensures v in Stride(0, |g|, 1)
  {
    SingleStrideIsRange(0, |g|);
    assert Stride(0, |g|, 1)[v] == v;
  }

  lemma {:induction false} PassesBound(rule: Rule, g: Matrix, src: nat, d: seq<Dist>, k: nat, j: nat)
    requires IsSquare(g) && |d| == |g| && src < |g|
    requires ValidTargets(g, Stride(0, |g|, 1))
    requires BoundedBy(g, src, d, j)
    ensures BoundedBy(g, src, Passes(rule, g, d, k, Stride(0, |g|, 1)), j + k)
    decreases k
  {
    if k > 0 {
      var vs := Stride(0, |g|, 1);
      PassExtendsBound(rule, g, src, d, j, vs);
      var d1 := Pass(rule, g, d, vs);
      forall p | WalkFrom(g, src, p) && |p| <= j + 2
        ensures Le(d1[p[|p| - 1]], Weight(g, p))
      {
        AllTargets(g, p[|p| - 1]);
      }
      PassesBound(rule, g, src, d1, k - 1, j + 1);
    }
  }

  /** Full-target Bellman-Ford from any source, under either relaxation
      rule: every finite entry is the weight of a walk from the source, and
      no entry exceeds the weight of any walk with at most `n - 1` edges. */
  lemma BellmanFordFromCorrect(rule: Rule, g: Matrix, src: nat)
    requires IsSquare(g) && src < |g|
    ensures ValidTargets(g, Stride(0, |g|, 1))
    ensures Witnessed(g, src, BellmanFordFrom(rule, g, src, Stride(0, |g|, 1)))
    ensures BoundedBy(g, src, BellmanFordFrom(rule, g, src, Stride(0, |g|, 1)), |g| - 1)
  {
    StrideValid(g, 0, 1);
    InitWitnessed(g, src);
    PassesWitnessed(rule, g, src, InitDist(|g|, src), |g| - 1, Stride(0, |g|, 1));
    PassesBound(rule, g, src, InitDist(|g|, src), |g| - 1, 0);
  }

  /** The sequential view's distances from vertex 0 are walk weights and
      lie at or below every walk of at most `n - 1` edges; without negative
      weights they lie below every walk at all, since cutting cycles out
      of a walk never makes it heavier. */
  lemma BellmanFordCpuCorrect(g: Matrix)
    requires IsSquare(g) && |g| >= 1
    ensures Witnessed(g, 0, BellmanFordCpu(g))
    ensures BoundedBy(g, 0, BellmanFordCpu(g), |g| - 1)
    ensures NonNegMatrix(g) ==> BelowWalks(g, 0, BellmanFordCpu(g))
  {
    StrideOneIsRange(|g|);
    BellmanFordFromCorrect(StrictIf, g, 0);
    if NonNegMatrix(g) {
      BoundedBelowWalks(g, 0, BellmanFordCpu(g));
    }
  }

  /** The same for the CuPy engine, from any source. */
  lemma BellmanFordCudaCorrect(g: Matrix, source: nat)
    requires IsSquare(g) && source < |g|
    ensures Witnessed(g, source, BellmanFordCuda(g, source))
    ensures BoundedBy(g, source, BellmanFordCuda(g, source), |g| - 1)
    ensures NonNegMatrix(g) ==> BelowWalks(g, source, BellmanFordCuda(g, source))
  {
    StrideOneIsRange(|g|);
    BellmanFordFromCorrect(MinAssign, g, source);
    if NonNegMatrix(g) {
      BoundedBelowWalks(g, source, BellmanFordCuda(g, source));
    }
  }

  // ---------------------------------------------------------------------
  // The MPI merge as written

  /** Each rank, and hence the merge, only ever reports real walk weights. */
  lemma BellmanFordMpiWitnessed(g: Matrix, src: nat, size: nat)
    requires IsSquare(g) && src < |g| && size >= 1
    ensures Witnessed(g, src, BellmanFordMpi(g, src, size))
  {
    var parts := GatherRanks(g, src, size);
    forall r | 0 <= r < size
      ensures Witnessed(g, src, parts[r])
    {
      StrideValid(g, r, size);
      InitWitnessed(g, src);
      PassesWitnessed(StrictIf, g, src, InitDist(|g|, src), |g| - 1, Stride(r, |g|, size));
    }
    MergeWitnessed(g, src, parts);
  }

  /** The shape of the counterexample: three vertices, a zero self-loop at
      0, no direct edge 0 -> 2, and the two-edge path 0 -> 1 -> 2. */
  predicate ChainOfThree(g: Matrix)
  {
    && IsSquare(g) && |g| == 3
    && g[0][0] == Fin(0) && g[0][1] == Fin(1) && g[0][2] == Inf && g[1][2] == Fin(1)
  }

  /** Rank 0 of two owns vertices 0 and 2; it never learns `dist[1]`, so it
      can never reach vertex 2. */
  lemma RankZeroStuck(g: Matrix)
    requires ChainOfThree(g)
    ensures BellmanFordRank(g, 0, 0, 2)[2] == Inf
  {
    assert InitDist(3, 0) == [Fin(0), Inf, Inf];
    assert Stride(0, 3, 2) == [0, 2];
    RankZeroPassesFixed(g, 2);
  }

  /** Rank 0's sweep from any `u` leaves `[0, INF, INF]` as it is. */
  lemma RankZeroSweepFixed(g: Matrix, u: nat)
    requires ChainOfThree(g) && u < 3
    ensures RelaxTargets(StrictIf, g, [Fin(0), Inf, Inf], u, [0, 2]) == [Fin(0), Inf, Inf]
  {
    var d0 := [Fin(0), Inf, Inf];
    assert RelaxEdge(StrictIf, g, d0, u, 0) == d0;
    assert RelaxEdge(StrictIf, g, d0, u, 2) == d0;
    assert [0, 2][1..] == [2] && [2][1..] == [];
  }

  lemma {:induction false} RankZeroFromFixed(g: Matrix, u0: nat)
    requires ChainOfThree(g) && u0 <= 3
    ensures RelaxFrom(StrictIf, g, [Fin(0), Inf, Inf], u0, [0, 2]) == [Fin(0), Inf, Inf]
    decreases 3 - u0
  {
    if u0 < 3 {
      RankZeroSweepFixed(g, u0);
      RankZeroFromFixed(g, u0 + 1);
    }
  }

  lemma {:induction false} RankZeroPassesFixed(g: Matrix, k: nat)
    requires ChainOfThree(g)
    ensures Passes(StrictIf, g, [Fin(0), Inf, Inf], k, [0, 2]) == [Fin(0), Inf, Inf]
  {
    if k > 0 {
      RankZeroFromFixed(g, 0);
      RankZeroPassesFixed(g, k - 1);
    }
  }

  /** Counterexample: with two ranks the merged MPI result leaves vertex 2
      at `INFINITY` although the two-edge walk 0 -> 1 -> 2 of weight 2 is
      within the `n - 1 = 2` edges Bellman-Ford promises to cover (and the
      sequential engine, by `BellmanFordCpuCorrect`, reports at most 2). */
  lemma BellmanFordMpiMissesWalk(g: Matrix)
    requires ChainOfThree(g)
    ensures BellmanFordMpi(g, 0, 2)[2] == Inf
    ensures WalkFrom(g, 0, [0, 1, 2]) && Weight(g, [0, 1, 2]) == Fin(2)
    ensures Le(BellmanFordCpu(g)[2], Fin(2))
    ensures !BoundedBy(g, 0, BellmanFordMpi(g, 0, 2), 2)
  {
    var p: seq<nat> := [0, 1, 2];
    MpiStuckAtTwo(g);
    ChainWalkWeight(g);
    CpuCoversChain(g);
    WalkBreaksBound(g, 0, BellmanFordMpi(g, 0, 2), 2, p);
  }

  /** A walk of at most `k` edges that weighs less than the entry at its
      end shows that the vector is not bounded by such walks. */
  lemma WalkBreaksBound(g: Matrix, src: nat, d: seq<Dist>, k: nat, p: seq<nat>)
    requires IsSquare(g) && |d| == |g|
    requires WalkFrom(g, src, p) && |p| <= k + 1 && !Le(d[p[|p| - 1]], Weight(g, p))
    ensures !BoundedBy(g, src, d, k)
  {
  }

  /** The merged entry at vertex 2 is rank 0's, which stays `INFINITY`. */
  lemma MpiStuckAtTwo(g: Matrix)
    requires ChainOfThree(g)
    ensures BellmanFordMpi(g, 0, 2)[2] == Inf
  {
    BellmanFordMpiIsOwnerValue(g, 0, 2, 2);
    RankZeroStuck(g);
  }

  /** The sequential engine covers the two-edge walk to vertex 2. */
  lemma CpuCoversChain(g: Matrix)
    requires ChainOfThree(g)
    ensures Le(BellmanFordCpu(g)[2], Fin(2))
  {
    var p: seq<nat> := [0, 1, 2];
    ChainWalkWeight(g);
    BellmanFordCpuCorrect(g);
    BoundedAt(g, 0, BellmanFordCpu(g), 2, p);
  }

  /** A vector bounded by the walks of at most `k` edges is bounded by
      each of them. */
  lemma BoundedAt(g: Matrix, src: nat, d: seq<Dist>, k: nat, p: seq<nat>)
    requires IsSquare(g) && |d| == |g|
    requires BoundedBy(g, src, d, k) && WalkFrom(g, src, p) && |p| <= k + 1
    ensures Le(d[p[|p| - 1]], Weight(g, p))
  {
  }

  lemma ChainWalkWeight(g: Matrix)
    requires ChainOfThree(g)
    ensures WalkFrom(g, 0, [0, 1, 2]) && Weight(g, [0, 1, 2]) == Fin(2)
  {
    var p: seq<nat> := [0, 1, 2];
    assert p[..2] == [0, 1] && [0, 1][..1] == [0];
    assert Weight(g, [0, 1]) == Fin(1);
  }

  // ---------------------------------------------------------------------
  // Corrected: merge after every pass

  /** One synchronised pass: every rank relaxes its own stripe starting from
      the shared vector, then an allreduce-min merges the stripes. */
  function SyncedPass(g: Matrix, d: seq<Dist>, size: nat): (r: seq<Dist>)
    requires IsSquare(g) && |d| == |g| && size >= 1
    ensures |r| == |g|
  {
    MergeMin(seq(size, rank requires 0 <= rank < size =>
                   StrideValid(g, rank, size);
                   Pass(StrictIf, g, d, Stride(rank, |g|, size))), |g|)
  }

  function SyncedPasses(g: Matrix, d: seq<Dist>, k: nat, size: nat): (r: seq<Dist>)
    requires IsSquare(g) && |d| == |g| && size >= 1
    ensures |r| == |g|
    decreases k
  {
    if k == 0 then d else SyncedPasses(g, SyncedPass(g, d, size), k - 1, size)
  }

  /** Bellman-Ford over `size` ranks with the stripes merged after every pass. */
  function BellmanFordMpiSynced(g: Matrix, src: nat, size: nat): (r: seq<Dist>)
    requires IsSquare(g) && src < |g| && size >= 1
    ensures |r| == |g|
  {
    SyncedPasses(g, InitDist(|g|, src), |g| - 1, size)
  }

  lemma SyncedPassSound(g: Matrix, src: nat, d: seq<Dist>, size: nat, k: nat)
    requires IsSquare(g) && |d| == |g| && size >= 1 && src < |g|
    requires Witnessed(g, src, d) && BoundedBy(g, src, d, k)
    ensures Witnessed(g, src, SyncedPass(g, d, size))
    ensures BoundedBy(g, src, SyncedPass(g, d, size), k + 1)
  {
    var parts := seq(size, rank requires 0 <= rank < size =>
                   StrideValid(g, rank, size);
                   Pass(StrictIf, g, d, Stride(rank, |g|, size)));
    var m := SyncedPass(g, d, size);
    assert m == MergeMin(parts, |g|);
    forall rank | 0 <= rank < size
      ensures Witnessed(g, src, parts[rank])
    {
      StrideValid(g, rank, size);
      RelaxFromWitnessed(StrictIf, g, src, d, 0, Stride(rank, |g|, size));
    }
    MergeWitnessed(g, src, parts);
    MergeMinSpec(parts, |g|);
    forall p | WalkFrom(g, src, p) && |p| <= k + 2
      ensures Le(m[p[|p| - 1]], Weight(g, p))
    {
      var v := p[|p| - 1];
      var o := Owner(v, size);
      StripesPartition(|g|, size, v);
      StrideValid(g, o, size);
      PassExtendsBound(StrictIf, g, src, d, k, Stride(o, |g|, size));
      LeTrans(m[v], parts[o][v], Weight(g, p));
    }
  }

  lemma {:induction false} SyncedPassesSound(g: Matrix, src: nat, d: seq<Dist>, size: nat, k: nat, j: nat)
    requires IsSquare(g) && |d| == |g| && size >= 1 && src < |g|
    requires Witnessed(g, src, d) && BoundedBy(g, src, d, j)
    ensures Witnessed(g, src, SyncedPasses(g, d, k, size))
    ensures BoundedBy(g, src, SyncedPasses(g, d, k, size), j + k)
    decreases k
  {
    if k > 0 {
      SyncedPassSound(g, src, d, size, j);
      SyncedPassesSound(g, src, SyncedPass(g, d, size), size, k - 1, j + 1);
    }
  }

  /** The corrected MPI Bellman-Ford keeps the sequential guarantees for
      every rank count: walk-weight entries bounded by every walk of at
      most `n - 1` edges. */
  lemma BellmanFordMpiSyncedCorrect(g: Matrix, src: nat, size: nat)
    requires IsSquare(g) && src < |g| && size >= 1
    ensures Witnessed(g, src, BellmanFordMpiSynced(g, src, size))
    ensures BoundedBy(g, src, BellmanFordMpiSynced(g, src, size), |g| - 1)
    ensures NonNegMatrix(g) ==> BelowWalks(g, src, BellmanFordMpiSynced(g, src, size))
  {
    InitWitnessed(g, src);
    SyncedPassesSound(g, src, InitDist(|g|, src), size, |g| - 1, 0);
    if NonNegMatrix(g) {
      BoundedBelowWalks(g, src, BellmanFordMpiSynced(g, src, size));
    }
  }

  /** With one rank the corrected MPI engine is the sequential engine. */
  lemma {:induction false} SyncedPassesSingleRank(g: Matrix, d: seq<Dist>, k: nat)
    requires IsSquare(g) && |d| == |g|
    ensures ValidTargets(g, Stride(0, |g|, 1))
    ensures SyncedPasses(g, d, k, 1) == Passes(StrictIf, g, d, k, Stride(0, |g|, 1))
    decreases k
  {
    StrideValid(g, 0, 1);
    if k > 0 {
      var p := Pass(StrictIf, g, d, Stride(0, |g|, 1));
      var parts := seq(1, rank requires 0 <= rank < 1 =>
                     StrideValid(g, rank, 1);
                     Pass(StrictIf, g, d, Stride(rank, |g|, 1)));
      assert parts == [p];
      assert SyncedPass(g, d, 1) == p;
      SyncedPassesSingleRank(g, p, k - 1);
    }
  }

  lemma BellmanFordMpiSyncedSingleRank(g: Matrix)
    requires IsSquare(g) && |g| >= 1
    ensures BellmanFordMpiSynced(g, 0, 1) == BellmanFordCpu(g)
  {
    StrideOneIsRange(|g|);
    SyncedPassesSingleRank(g, InitDist(|g|, 0), |g| - 1);
  }
}
