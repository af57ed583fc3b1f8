/** Bellman-Ford as the repository runs it: the sequential view, the CuPy
    variants and the per-rank MPI function, which differ only in how an edge
    is relaxed and in which target vertices `v` a rank sweeps over. */
module BellmanFord {
  import opened Dists
  import opened Strides
  import opened Walks

  predicate ValidTargets(g: Matrix, vs: seq<nat>)
  {
    forall t :: 0 <= t < |vs| ==> vs[t] < |g|
  }

  function RelaxEdge(rule: Rule, g: Matrix, d: seq<Dist>, u: nat, v: nat): (r: seq<Dist>)
    requires IsSquare(g) && |d| == |g| && u < |g| && v < |g|
    ensures |r| == |d|
  {
    var w := g[u][v];
    match rule
    case StrictIf =>
      if w != Inf && Less(Add(d[u], w), d[v]) then d[v := Add(d[u], w)] else d
    case MinAssign =>
      if w != Inf then d[v := Min(d[v], Add(d[u], w))] else d
  }

  /** `for v in vs: relax(u, v)` */
  function RelaxTargets(rule: Rule, g: Matrix, d: seq<Dist>, u: nat, vs: seq<nat>): (r: seq<Dist>)
    requires IsSquare(g) && |d| == |g| && u < |g| && ValidTargets(g, vs)
    ensures |r| == |d|
    decreases |vs|
  {
    if vs == [] then d
    else RelaxTargets(rule, g, RelaxEdge(rule, g, d, u, vs[0]), u, vs[1..])
  }

  /** `for u in range(u0, n): for v in vs: relax(u, v)` */
  function RelaxFrom(rule: Rule, g: Matrix, d: seq<Dist>, u0: nat, vs: seq<nat>): (r: seq<Dist>)
    requires IsSquare(g) && |d| == |g| && ValidTargets(g, vs)
    ensures |r| == |d|
    decreases |g| - u0
  {
    if u0 >= |g| then d
    else RelaxFrom(rule, g, RelaxTargets(rule, g, d, u0, vs), u0 + 1, vs)
  }

  /** One full pass over every source vertex `u`, in increasing order. */
  function Pass(rule: Rule, g: Matrix, d: seq<Dist>, vs: seq<nat>): (r: seq<Dist>)
    requires IsSquare(g) && |d| == |g| && ValidTargets(g, vs)
    ensures |r| == |d|
  {
    RelaxFrom(rule, g, d, 0, vs)
  }

  /** `for _ in range(k): <pass>` */
  function Passes(rule: Rule, g: Matrix, d: seq<Dist>, k: nat, vs: seq<nat>): (r: seq<Dist>)
    requires IsSquare(g) && |d| == |g| && ValidTargets(g, vs)
    ensures |r| == |d|
    decreases k
  {
    if k == 0 then d else Passes(rule, g, Pass(rule, g, d, vs), k - 1, vs)
  }

  /** Bellman-Ford from `src`, `n - 1` passes, each relaxing targets `vs`. */
  function BellmanFordFrom(rule: Rule, g: Matrix, src: nat, vs: seq<nat>): (r: seq<Dist>)
    requires IsSquare(g) && src < |g| && ValidTargets(g, vs)
    ensures |r| == |g|
  {
    Passes(rule, g, InitDist(|g|, src), |g| - 1, vs)
  }

  lemma StrideValid(g: Matrix, rank: nat, size: nat)
    requires size >= 1
    ensures ValidTargets(g, Stride(rank, |g|, size))
  {
  }

  /** `BellmanFordCPU.get`: source 0, every target in every pass. */
  function BellmanFordCpu(g: Matrix): (r: seq<Dist>)
    requires IsSquare(g) && |g| >= 1
    ensures |r| == |g|
  {
    StrideValid(g, 0, 1);
    StrideOneIsRange(|g|);
    BellmanFordFrom(StrictIf, g, 0, Range(|g|))
  }

  /** `bellman_ford_cuda(graph, source)`: the CuPy element-wise `minimum` form. */
  function BellmanFordCuda(g: Matrix, source: nat): (r: seq<Dist>)
    requires IsSquare(g) && source < |g|
    ensures |r| == |g|
  {
    StrideValid(g, 0, 1);
    StrideOneIsRange(|g|);
    BellmanFordFrom(MinAssign, g, source, Range(|g|))
  }

  /** `bellman_ford_mpi(graph, src, rank, size)`: the rank relaxes only
      `v in range(rank, n, size)`, reading its own (otherwise untouched)
      copy of `dist` for every `u`. */
  function BellmanFordRank(g: Matrix, src: nat, rank: nat, size: nat): (r: seq<Dist>)
    requires IsSquare(g) && src < |g| && rank < size
    ensures |r| == |g|
  {
    StrideValid(g, rank, size);
    BellmanFordFrom(StrictIf, g, src, Stride(rank, |g|, size))
  }

  // ---------------------------------------------------------------------
  // The gather-and-min merge

  /** Python `min(part[j] for part in parts)`: scans left to right and
      replaces the running value only on a strictly smaller item. */
  function MinOver(parts: seq<seq<Dist>>, j: nat): Dist
    requires |parts| >= 1 && forall i :: 0 <= i < |parts| ==> j < |parts[i]|
    decreases |parts|
  {
    if |parts| == 1 then parts[0][j]
    else Min(MinOver(parts[..|parts| - 1], j), parts[|parts| - 1][j])
  }

  /** `[min(part[j] for part in parts) for j in range(n)]` */
  function MergeMin(parts: seq<seq<Dist>>, n: nat): (r: seq<Dist>)
    requires |parts| >= 1 && forall i :: 0 <= i < |parts| ==> |parts[i]| == n
    ensures |r| == n
  {
    seq(n, j requires 0 <= j < n => MinOver(parts, j))
  }

  /** What `comm.gather(local, root=0)` delivers to rank 0. */
  function GatherRanks(g: Matrix, src: nat, size: nat): (parts: seq<seq<Dist>>)
    requires IsSquare(g) && src < |g| && size >= 1
    ensures |parts| == size
    ensures forall r :: 0 <= r < size ==> |parts[r]| == |g|
  {
    seq(size, r requires 0 <= r < size => BellmanFordRank(g, src, r, size))
  }

  /** The result rank 0 returns: the column-wise minimum of all ranks. */
  function BellmanFordMpi(g: Matrix, src: nat, size: nat): (r: seq<Dist>)
    requires IsSquare(g) && src < |g| && size >= 1
    ensures |r| == |g|
  {
    MergeMin(GatherRanks(g, src, size), |g|)
  }

  // ---------------------------------------------------------------------
  // Properties of single relaxations and sweeps

  /** The CuPy `minimum` assignment and the strict-if update compute the
      same vector: both leave `dist[v]` alone unless `dist[u] + w` is
      strictly below it, and skip `INFINITY` edges. */
  lemma RelaxRulesAgree(g: Matrix, d: seq<Dist>, u: nat, v: nat)
    requires IsSquare(g) && |d| == |g| && u < |g| && v < |g|
    ensures RelaxEdge(MinAssign, g, d, u, v) == RelaxEdge(StrictIf, g, d, u, v)
  {
    var w := g[u][v];
    if w != Inf && !Less(Add(d[u], w), d[v]) {
      assert d[v := d[v]] == d;
    }
  }

  /** One relaxation changes at most `dist[v]`, only strictly downwards, only
      through a finite edge, and afterwards `dist[v] <= dist[u] + w`. */
  lemma RelaxEdgeProps(rule: Rule, g: Matrix, d: seq<Dist>, u: nat, v: nat)
    requires IsSquare(g) && |d| == |g| && u < |g| && v < |g|
    ensures var r := RelaxEdge(rule, g, d, u, v);
      && (forall x :: 0 <= x < |d| && x != v ==> r[x] == d[x])
      && Le(r[v], d[v])
      && (r[v] != d[v] ==> g[u][v] != Inf && r[v] == Add(d[u], g[u][v]) && Less(r[v], d[v]))
      && Le(r[v], Add(d[u], g[u][v]))
  {
    RelaxRulesAgree(g, d, u, v);
  }

  /** A sweep over targets `vs` never raises an entry, leaves every vertex
      outside `vs` alone, and leaves each target at most `dist[u] + w`. */
  lemma {:induction false} RelaxTargetsProps(rule: Rule, g: Matrix, d: seq<Dist>, u: nat, vs: seq<nat>)
    requires IsSquare(g) && |d| == |g| && u < |g| && ValidTargets(g, vs)
    ensures var r := RelaxTargets(rule, g, d, u, vs);
      && (forall v :: 0 <= v < |d| ==> Le(r[v], d[v]))
      && (forall v :: 0 <= v < |d| && v !in vs ==> r[v] == d[v])
      && (forall t :: 0 <= t < |vs| ==> Le(r[vs[t]], Add(d[u], g[u][vs[t]])))
    decreases |vs|
  {
    if vs != [] {
      var d1 := RelaxEdge(rule, g, d, u, vs[0]);
      RelaxEdgeProps(rule, g, d, u, vs[0]);
      RelaxTargetsProps(rule, g, d1, u, vs[1..]);
      var r := RelaxTargets(rule, g, d, u, vs);
      forall t | 0 <= t < |vs|
        ensures Le(r[vs[t]], Add(d[u], g[u][vs[t]]))
      {
        if t == 0 {
          LeTrans(r[vs[0]], d1[vs[0]], Add(d[u], g[u][vs[0]]));
        } else {
          assert vs[t] == vs[1..][t - 1];
          AddMono(d[u], d1[u], g[u][vs[t]], g[u][vs[t]]);
        }
      }
      forall v | 0 <= v < |d| && v !in vs
        ensures r[v] == d[v]
      {
        assert v !in vs[1..];
      }
    }
  }

  /** A pass (from source `u0` on) never raises an entry, leaves vertices
      outside `vs` alone, and leaves each target `v` at most
      `dist[u] + w(u, v)` for every source `u` it swept, measured at the
      start of the pass. */
  lemma {:induction false} RelaxFromProps(rule: Rule, g: Matrix, d: seq<Dist>, u0: nat, vs: seq<nat>)
    requires IsSquare(g) && |d| == |g| && ValidTargets(g, vs)
    ensures var r := RelaxFrom(rule, g, d, u0, vs);
      && (forall v :: 0 <= v < |d| ==> Le(r[v], d[v]))
      && (forall v :: 0 <= v < |d| && v !in vs ==> r[v] == d[v])
      && (forall u, t :: u0 <= u < |g| && 0 <= t < |vs| ==> Le(r[vs[t]], Add(d[u], g[u][vs[t]])))
    decreases |g| - u0
  {
    if u0 < |g| {
      var d1 := RelaxTargets(rule, g, d, u0, vs);
      RelaxTargetsProps(rule, g, d, u0, vs);
      RelaxFromProps(rule, g, d1, u0 + 1, vs);
      var r := RelaxFrom(rule, g, d, u0, vs);
      forall u, t | u0 <= u < |g| && 0 <= t < |vs|
        ensures Le(r[vs[t]], Add(d[u], g[u][vs[t]]))
      {
        if u == u0 {
          LeTrans(r[vs[t]], d1[vs[t]], Add(d[u], g[u][vs[t]]));
        } else {
          AddMono(d[u], d1[u], g[u][vs[t]], g[u][vs[t]]);
        }
      }
    }
  }

  /** Any number of passes never raises an entry and never writes outside
      the target set. */
  lemma {:induction false} PassesProps(rule: Rule, g: Matrix, d: seq<Dist>, k: nat, vs: seq<nat>)
    requires IsSquare(g) && |d| == |g| && ValidTargets(g, vs)
    ensures var r := Passes(rule, g, d, k, vs);
      && (forall v :: 0 <= v < |d| ==> Le(r[v], d[v]))
      && (forall v :: 0 <= v < |d| && v !in vs ==> r[v] == d[v])
    decreases k
  {
    if k > 0 {
      var d1 := Pass(rule, g, d, vs);
      RelaxFromProps(rule, g, d, 0, vs);
      PassesProps(rule, g, d1, k - 1, vs);
    }
  }

  /** The two relaxation rules give the same sweep, pass and pass sequence. */
  lemma {:induction false} RelaxTargetsRulesAgree(g: Matrix, d: seq<Dist>, u: nat, vs: seq<nat>)
    requires IsSquare(g) && |d| == |g| && u < |g| && ValidTargets(g, vs)
    ensures RelaxTargets(MinAssign, g, d, u, vs) == RelaxTargets(StrictIf, g, d, u, vs)
    decreases |vs|
  {
    if vs != [] {
      RelaxRulesAgree(g, d, u, vs[0]);
      RelaxTargetsRulesAgree(g, RelaxEdge(StrictIf, g, d, u, vs[0]), u, vs[1..]);
    }
  }

  lemma {:induction false} RelaxFromRulesAgree(g: Matrix, d: seq<Dist>, u0: nat, vs: seq<nat>)
    requires IsSquare(g) && |d| == |g| && ValidTargets(g, vs)
    ensures RelaxFrom(MinAssign, g, d, u0, vs) == RelaxFrom(StrictIf, g, d, u0, vs)
    decreases |g| - u0
  {
    if u0 < |g| {
      RelaxTargetsRulesAgree(g, d, u0, vs);
      RelaxFromRulesAgree(g, RelaxTargets(StrictIf, g, d, u0, vs), u0 + 1, vs);
    }
  }

  lemma {:induction false} PassesRulesAgree(g: Matrix, d: seq<Dist>, k: nat, vs: seq<nat>)
    requires IsSquare(g) && |d| == |g| && ValidTargets(g, vs)
    ensures Passes(MinAssign, g, d, k, vs) == Passes(StrictIf, g, d, k, vs)
    decreases k
  {
    if k > 0 {
      RelaxFromRulesAgree(g, d, 0, vs);
      PassesRulesAgree(g, Pass(StrictIf, g, d, vs), k - 1, vs);
    }
  }

  // ---------------------------------------------------------------------
  // Engine-level statements

  /** `k + j` passes are `k` passes followed by `j` more. */
  lemma {:induction false} PassesSplit(rule: Rule, g: Matrix, d: seq<Dist>, k: nat, j: nat, vs: seq<nat>)
    requires IsSquare(g) && |d| == |g| && ValidTargets(g, vs)
    ensures Passes(rule, g, d, k + j, vs) == Passes(rule, g, Passes(rule, g, d, k, vs), j, vs)
    decreases k
  {
    if k > 0 {
      PassesSplit(rule, g, Pass(rule, g, d, vs), k - 1, j, vs);
    }
  }

  /** More passes never raise an entry. */
  lemma PassesMonotone(rule: Rule, g: Matrix, d: seq<Dist>, k: nat, j: nat, vs: seq<nat>)
    requires IsSquare(g) && |d| == |g| && ValidTargets(g, vs) && k <= j
    ensures forall v :: 0 <= v < |g| ==> Le(Passes(rule, g, d, j, vs)[v], Passes(rule, g, d, k, vs)[v])
  {
    PassesSplit(rule, g, d, k, j - k, vs);
    PassesProps(rule, g, Passes(rule, g, d, k, vs), j - k, vs);
  }

  /** The sequential loop only ever lowers `dist`: after `j` passes no
      entry is above its value after any `k <= j` passes, and the returned
      vector is below the vector after every pass of the loop. */
  lemma BellmanFordCpuMonotone(g: Matrix, k: nat, j: nat)
    requires IsSquare(g) && |g| >= 1 && k <= j
    ensures ValidTargets(g, Range(|g|))
    ensures forall v :: 0 <= v < |g| ==>
      Le(Passes(StrictIf, g, InitDist(|g|, 0), j, Range(|g|))[v],
         Passes(StrictIf, g, InitDist(|g|, 0), k, Range(|g|))[v])
    ensures k <= |g| - 1 ==> forall v :: 0 <= v < |g| ==>
      Le(BellmanFordCpu(g)[v], Passes(StrictIf, g, InitDist(|g|, 0), k, Range(|g|))[v])
  {
    StrideValid(g, 0, 1);
    StrideOneIsRange(|g|);
    PassesMonotone(StrictIf, g, InitDist(|g|, 0), k, j, Range(|g|));
    if k <= |g| - 1 {
      PassesMonotone(StrictIf, g, InitDist(|g|, 0), k, |g| - 1, Range(|g|));
    }
  }

  /** The CuPy engine (both copies) computes exactly what the sequential
      engine computes from source 0. */
  lemma BellmanFordCudaMatchesCpu(g: Matrix)
    requires IsSquare(g) && |g| >= 1
    ensures BellmanFordCuda(g, 0) == BellmanFordCpu(g)
  {
    StrideOneIsRange(|g|);
    StrideValid(g, 0, 1);
    PassesRulesAgree(g, InitDist(|g|, 0), |g| - 1, Stride(0, |g|, 1));
  }

  /** A rank writes only indices `v` with `v % size == rank`: every other
      entry except `src` is still `INFINITY` on return, `dist[src]` is at
      most 0, and no entry ever exceeds its initial value. */
  lemma BellmanFordRankFrame(g: Matrix, src: nat, rank: nat, size: nat)
    requires IsSquare(g) && src < |g| && rank < size
    ensures var r := BellmanFordRank(g, src, rank, size);
      && (forall v :: 0 <= v < |g| && v % size != rank && v != src ==> r[v] == Inf)
      && Le(r[src], Fin(0))
      && (forall v :: 0 <= v < |g| && v % size != rank && v == src ==> r[v] == Fin(0))
      && (forall v :: 0 <= v < |g| ==> Le(r[v], InitDist(|g|, src)[v]))
  {
    StrideValid(g, rank, size);
    var vs := Stride(rank, |g|, size);
    PassesProps(StrictIf, g, InitDist(|g|, src), |g| - 1, vs);
    forall v | 0 <= v < |g| && v % size != rank
      ensures v !in vs
    {
      StrideMembers(rank, |g|, size, v);
    }
  }

  /** With a single rank the MPI function is the sequential algorithm. */
  lemma BellmanFordSingleRank(g: Matrix)
    requires IsSquare(g) && |g| >= 1
    ensures BellmanFordRank(g, 0, 0, 1) == BellmanFordCpu(g)
    ensures BellmanFordMpi(g, 0, 1) == BellmanFordCpu(g)
  {
    StrideOneIsRange(|g|);
    var m := BellmanFordMpi(g, 0, 1);
    assert forall j :: 0 <= j < |g| ==> m[j] == BellmanFordCpu(g)[j];
  }

  /** The merge: entry `j` is one of the gathered values at `j` and no
      gathered value at `j` is smaller. */
  lemma {:induction false} MinOverIsMin(parts: seq<seq<Dist>>, j: nat)
    requires |parts| >= 1 && forall i :: 0 <= i < |parts| ==> j < |parts[i]|
    ensures exists i :: 0 <= i < |parts| && MinOver(parts, j) == parts[i][j]
    ensures forall i :: 0 <= i < |parts| ==> Le(MinOver(parts, j), parts[i][j])
    decreases |parts|
  {
    if |parts| == 1 {
      assert MinOver(parts, j) == parts[0][j];
    } else {
      var init := parts[..|parts| - 1];
      MinOverIsMin(init, j);
      var i0 :| 0 <= i0 < |init| && MinOver(init, j) == init[i0][j];
      MinSpec(MinOver(init, j), parts[|parts| - 1][j]);
      if MinOver(parts, j) == MinOver(init, j) {
        assert init[i0] == parts[i0];
        assert MinOver(parts, j) == parts[i0][j];
      } else {
        assert MinOver(parts, j) == parts[|parts| - 1][j];
      }
      forall i | 0 <= i < |parts|
        ensures Le(MinOver(parts, j), parts[i][j])
      {
        if i < |parts| - 1 {
          assert init[i] == parts[i];
          LeTrans(MinOver(parts, j), MinOver(init, j), parts[i][j]);
        }
      }
    }
  }

  /** `x` is the value some gathered part holds at index `j`. */
  predicate Gathered(x: Dist, parts: seq<seq<Dist>>, j: nat)
  {
    exists i :: 0 <= i < |parts| && j < |parts[i]| && x == parts[i][j]
  }

  lemma MergeMinSpec(parts: seq<seq<Dist>>, n: nat)
    requires |parts| >= 1 && forall i :: 0 <= i < |parts| ==> |parts[i]| == n
    ensures |MergeMin(parts, n)| == n
    ensures forall j :: 0 <= j < n ==> Gathered(MergeMin(parts, n)[j], parts, j)
    ensures forall i, j :: 0 <= i < |parts| && 0 <= j < n ==> Le(MergeMin(parts, n)[j], parts[i][j])
  {
    forall j | 0 <= j < n
      ensures Gathered(MergeMin(parts, n)[j], parts, j)
    {
      MinOverIsMin(parts, j);
      var i :| 0 <= i < |parts| && MinOver(parts, j) == parts[i][j];
      assert MergeMin(parts, n)[j] == parts[i][j];
    }
    forall i, j | 0 <= i < |parts| && 0 <= j < n
      ensures Le(MergeMin(parts, n)[j], parts[i][j])
    {
      MinOverIsMin(parts, j);
    }
  }

  /** Because every non-owner rank leaves `j` at `INFINITY`, the merged
      vector is, for every `j` other than the source, exactly the value
      the owning rank `j % size` computed. */
  lemma BellmanFordMpiIsOwnerValue(g: Matrix, src: nat, size: nat, j: nat)
    requires IsSquare(g) && src < |g| && size >= 1 && j < |g| && j != src
    ensures BellmanFordMpi(g, src, size)[j] == BellmanFordRank(g, src, j % size, size)[j]
  {
    var parts := GatherRanks(g, src, size);
    MergeMinSpec(parts, |g|);
    var m := BellmanFordMpi(g, src, size);
    var o := j % size;
    forall r | 0 <= r < size
      ensures r != o ==> parts[r][j] == Inf
    {
      BellmanFordRankFrame(g, src, r, size);
    }
    var i :| 0 <= i < size && m[j] == parts[i][j];
    assert Le(m[j], parts[o][j]);
  }
}
