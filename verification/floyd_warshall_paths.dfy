/** What the Floyd-Warshall results mean in terms of walks: every finite
    entry `d[i][j]` is the weight of a walk from `i` to `j`, whatever the
    weights; with non-negative weights and a zero diagonal no entry exceeds
    the weight of any walk from `i` to `j`, so the result is the exact
    all-pairs shortest-walk distance. */
module FloydWarshallPaths {
  import opened Dists
  import opened Walks
  import opened FloydWarshall
  import opened Strides

  // ---------------------------------------------------------------------
  // Soundness, for any weights

  /** Every finite entry `d[i][j]` is the weight of a walk from `i` to `j`. */
  ghost predicate PairsWitnessed(g: Matrix, d: Matrix)
    requires IsSquare(g) && |d| == |g|
  {
    forall i, j :: 0 <= i < |g| && 0 <= j < |d[i]| && d[i][j].Fin? ==> WalkOfWeight(g, i, j, d[i][j])
  }

  /** The input is witnessed by its one-edge walks. */
  lemma InputWitnessed(g: Matrix)
    requires IsSquare(g)
    ensures PairsWitnessed(g, g)
  {
    forall i, j | 0 <= i < |g| && 0 <= j < |g[i]| && g[i][j].Fin?
      ensures WalkOfWeight(g, i, j, g[i][j])
    {
      WeightSnoc(g, [i], j);
      assert WalkFrom(g, i, [i] + [j]);
    }
  }

  /** A walk `i -> k` followed by a walk `k -> j` is a walk `i -> j`. */
  lemma ConcatWitness(g: Matrix, i: nat, k: nat, j: nat, x: Dist, y: Dist)
    requires IsSquare(g)
    requires WalkOfWeight(g, i, k, x) && WalkOfWeight(g, k, j, y)
    ensures WalkOfWeight(g, i, j, Add(x, y))
  {
    var p :| WalkFrom(g, i, p) && p[|p| - 1] == k && Weight(g, p) == x;
    var q :| WalkFrom(g, k, q) && q[|q| - 1] == j && Weight(g, q) == y;
    var r := p + q[1..];
    assert r[..|p|] == p;
    assert r[|p| - 1..] == q;
    assert IsWalk(g, r);
    WeightSplit(g, r, |p| - 1);
    assert WalkFrom(g, i, r);
  }

  lemma UpdateCellWitnessed(g: Matrix, d: Matrix, k: nat, i: nat, j: nat)
    requires IsSquare(g) && IsSquare(d) && |d| == |g| && k < |d| && i < |d| && j < |d|
    requires PairsWitnessed(g, d)
    ensures PairsWitnessed(g, UpdateCell(d, k, i, j))
  {
    UpdateCellSpec(d, k, i, j);
    var c := Add(d[i][k], d[k][j]);
    if Less(c, d[i][j]) {
      ConcatWitness(g, i, k, j, d[i][k], d[k][j]);
    }
  }

  lemma {:induction false} UpdateRowWitnessed(g: Matrix, d: Matrix, k: nat, i: nat, j0: nat)
    requires IsSquare(g) && IsSquare(d) && |d| == |g| && k < |d| && i < |d| && j0 <= |d|
    requires PairsWitnessed(g, d)
    ensures PairsWitnessed(g, UpdateRow(d, k, i, j0))
    decreases |d| - j0
  {
    if j0 < |d| {
      UpdateCellWitnessed(g, d, k, i, j0);
      UpdateRowWitnessed(g, UpdateCell(d, k, i, j0), k, i, j0 + 1);
    }
  }

  lemma {:induction false} UpdateRowsWitnessed(g: Matrix, d: Matrix, k: nat, rows: seq<nat>)
    requires IsSquare(g) && IsSquare(d) && |d| == |g| && k < |d| && ValidRows(d, rows)
    requires PairsWitnessed(g, d)
    ensures PairsWitnessed(g, UpdateRows(d, k, rows))
    decreases |rows|
  {
    if rows != [] {
      UpdateRowWitnessed(g, d, k, rows[0], 0);
      UpdateRowsWitnessed(g, UpdateRow(d, k, rows[0], 0), k, rows[1..]);
    }
  }

  lemma {:induction false} StepsFromWitnessed(g: Matrix, d: Matrix, k0: nat, rows: seq<nat>)
    requires IsSquare(g) && IsSquare(d) && |d| == |g| && ValidRows(d, rows)
    requires PairsWitnessed(g, d)
    ensures PairsWitnessed(g, StepsFrom(d, k0, rows))
    decreases |d| - k0
  {
    if k0 < |d| {
      UpdateRowsWitnessed(g, d, k0, rows);
      StepsFromWitnessed(g, UpdateRows(d, k0, rows), k0 + 1, rows);
    }
  }

  /** Every finite entry of a rank's matrix, hence of the sequential
      result, is a walk weight, whatever the weights. */
  lemma FloydWarshallRankWitnessed(g: Matrix, rank: nat, size: nat)
    requires IsSquare(g) && size >= 1
    ensures PairsWitnessed(g, FloydWarshallRank(g, rank, size))
  {
    InputWitnessed(g);
    StrideRowsValid(g, rank, size);
    StepsFromWitnessed(g, g, 0, Stride(rank, |g|, size));
  }

  lemma VecStepWitnessed(g: Matrix, d: Matrix, k: nat)
    requires IsSquare(g) && IsSquare(d) && |d| == |g| && k < |d|
    requires PairsWitnessed(g, d)
    ensures PairsWitnessed(g, VecStep(d, k))
  {
    var r: Matrix := VecStep(d, k);
    forall i, j | 0 <= i < |g| && 0 <= j < |g| && r[i][j].Fin?
      ensures WalkOfWeight(g, i, j, r[i][j])
    {
      MinSpec(d[i][j], Add(d[i][k], d[k][j]));
      if r[i][j] != d[i][j] {
        ConcatWitness(g, i, k, j, d[i][k], d[k][j]);
      }
    }
  }

  lemma {:induction false} VecStepsWitnessed(g: Matrix, d: Matrix, k0: nat)
    requires IsSquare(g) && IsSquare(d) && |d| == |g|
    requires PairsWitnessed(g, d)
    ensures PairsWitnessed(g, VecStepsFrom(d, k0))
    decreases |d| - k0
  {
    if k0 < |d| {
      VecStepWitnessed(g, d, k0);
      VecStepsWitnessed(g, VecStep(d, k0), k0 + 1);
    }
  }

  // ---------------------------------------------------------------------
  // Optimality, for non-negative weights and a zero diagonal

  /** `p` is a walk whose interior vertices are all below `K`. */
  predicate ViaBelow(g: Matrix, p: seq<nat>, K: nat)
  {
    IsWalk(g, p) && forall t :: 0 < t < |p| - 1 ==> p[t] < K
  }

  /** The classic invariant after the pivots `0 .. K-1`: no entry exceeds a
      walk whose interior uses only those pivots. */
  ghost predicate BoundedVia(g: Matrix, d: Matrix, K: nat)
    requires IsSquare(g) && IsSquare(d) && |d| == |g|
  {
    forall p {:trigger ViaBelow(g, p, K)} :: ViaBelow(g, p, K) ==> Le(d[p[0]][p[|p| - 1]], Weight(g, p))
  }

  /** No entry exceeds the weight of any walk between its two vertices. */
  ghost predicate PairsBelowWalks(g: Matrix, d: Matrix)
    requires IsSquare(g) && IsSquare(d) && |d| == |g|
  {
    forall p {:trigger IsWalk(g, p)} :: IsWalk(g, p) ==> Le(d[p[0]][p[|p| - 1]], Weight(g, p))
  }

  /** With a zero diagonal the input bounds every walk with no interior
      vertex: the empty walk and the single edges. */
  lemma InputBounded(g: Matrix)
    requires IsSquare(g) && ZeroDiagonal(g)
    ensures BoundedVia(g, g, 0)
  {
    forall p | ViaBelow(g, p, 0)
      ensures Le(g[p[0]][p[|p| - 1]], Weight(g, p))
    {
      if |p| == 2 {
        assert p[..1] == [p[0]];
      }
    }
  }

  /** The first cut of a walk weighs no more than the walk when no weight
      is negative. */
  lemma PrefixLighter(g: Matrix, p: seq<nat>, t: nat)
    requires IsSquare(g) && NonNegMatrix(g) && IsWalk(g, p) && t < |p|
    ensures IsWalk(g, p[..t + 1]) && IsWalk(g, p[t..])
    ensures Le(Weight(g, p[..t + 1]), Weight(g, p))
    ensures Le(Weight(g, p[t..]), Weight(g, p))
  {
    WeightSplit(g, p, t);
    WeightNonNeg(g, p[..t + 1]);
    WeightNonNeg(g, p[t..]);
    AddNonNeg(Weight(g, p[..t + 1]), Weight(g, p[t..]));
    AddNonNeg(Weight(g, p[t..]), Weight(g, p[..t + 1]));
  }

  /** Walks into the pivot `K` that may also pass through `K` are bounded
      by `d[i][K]`: cut at an interior visit of `K` and keep the front. */
  lemma {:induction false} IntoPivot(g: Matrix, d: Matrix, K: nat, p: seq<nat>)
    requires IsSquare(g) && IsSquare(d) && |d| == |g| && NonNegMatrix(g) && K < |g|
    requires BoundedVia(g, d, K)
    requires ViaBelow(g, p, K + 1) && p[|p| - 1] == K
    ensures Le(d[p[0]][K], Weight(g, p))
    decreases |p|
  {
    if t :| 0 < t < |p| - 1 && p[t] == K {
      PrefixLighter(g, p, t);
      assert ViaBelow(g, p[..t + 1], K + 1);
      IntoPivot(g, d, K, p[..t + 1]);
      LeTrans(d[p[0]][K], Weight(g, p[..t + 1]), Weight(g, p));
    } else {
      assert ViaBelow(g, p, K);
    }
  }

  /** Walks out of the pivot `K` are bounded by `d[K][j]`: cut at an
      interior visit of `K` and keep the back. */
  lemma {:induction false} OutOfPivot(g: Matrix, d: Matrix, K: nat, p: seq<nat>)
    requires IsSquare(g) && IsSquare(d) && |d| == |g| && NonNegMatrix(g) && K < |g|
    requires BoundedVia(g, d, K)
    requires ViaBelow(g, p, K + 1) && p[0] == K
    ensures Le(d[K][p[|p| - 1]], Weight(g, p))
    decreases |p|
  {
    if t :| 0 < t < |p| - 1 && p[t] == K {
      PrefixLighter(g, p, t);
      assert ViaBelow(g, p[t..], K + 1) by {
        forall s | 0 < s < |p[t..]| - 1
          ensures p[t..][s] < K + 1
        {
          assert p[t..][s] == p[t + s];
        }
      }
      OutOfPivot(g, d, K, p[t..]);
      LeTrans(d[K][p[|p| - 1]], Weight(g, p[t..]), Weight(g, p));
    } else {
      assert ViaBelow(g, p, K);
    }
  }

  /** One CuPy step with pivot `K` extends the invariant to pivot `K + 1`. */
  lemma VecStepBounded(g: Matrix, d: Matrix, K: nat)
    requires IsSquare(g) && IsSquare(d) && |d| == |g| && NonNegMatrix(g) && K < |g|
    requires BoundedVia(g, d, K)
    ensures BoundedVia(g, VecStep(d, K), K + 1)
  {
    var r := VecStep(d, K);
    forall p | ViaBelow(g, p, K + 1)
      ensures Le(r[p[0]][p[|p| - 1]], Weight(g, p))
    {
      var i, j := p[0], p[|p| - 1];
      MinSpec(d[i][j], Add(d[i][K], d[K][j]));
      if t :| 0 < t < |p| - 1 && p[t] == K {
        WeightSplit(g, p, t);
        assert ViaBelow(g, p[..t + 1], K + 1);
        assert ViaBelow(g, p[t..], K + 1) by {
          forall s | 0 < s < |p[t..]| - 1
            ensures p[t..][s] < K + 1
          {
            assert p[t..][s] == p[t + s];
          }
        }
        IntoPivot(g, d, K, p[..t + 1]);
        OutOfPivot(g, d, K, p[t..]);
        AddMono(Weight(g, p[..t + 1]), d[i][K], Weight(g, p[t..]), d[K][j]);
        LeTrans(r[i][j], Add(d[i][K], d[K][j]), Weight(g, p));
      } else {
        assert ViaBelow(g, p, K);
        LeTrans(r[i][j], d[i][j], Weight(g, p));
      }
    }
  }

  lemma {:induction false} VecStepsBounded(g: Matrix, d: Matrix, k0: nat)
    requires IsSquare(g) && IsSquare(d) && |d| == |g| && NonNegMatrix(g) && k0 <= |g|
    requires BoundedVia(g, d, k0)
    ensures BoundedVia(g, VecStepsFrom(d, k0), |g|)
    decreases |d| - k0
  {
    if k0 < |d| {
      VecStepBounded(g, d, k0);
      VecStepsBounded(g, VecStep(d, k0), k0 + 1);
    }
  }

  /** With non-negative weights and a zero diagonal `floyd_warshall_cuda`
      returns exactly the all-pairs shortest-walk distances. */
  lemma FloydWarshallCudaCorrect(g: Matrix)
    requires IsSquare(g) && NonNegMatrix(g) && ZeroDiagonal(g)
    ensures PairsWitnessed(g, FloydWarshallCuda(g))
    ensures PairsBelowWalks(g, FloydWarshallCuda(g))
  {
    var r := FloydWarshallCuda(g);
    InputWitnessed(g);
    VecStepsWitnessed(g, g, 0);
    InputBounded(g);
    VecStepsBounded(g, g, 0);
    forall p | IsWalk(g, p)
      ensures Le(r[p[0]][p[|p| - 1]], Weight(g, p))
    {
      assert ViaBelow(g, p, |g|);
    }
  }

  /** The sequential triple loop inherits the guarantee through its
      equality with the CuPy loop. */
  lemma FloydWarshallCpuCorrect(g: Matrix)
    requires IsSquare(g) && NonNegMatrix(g) && ZeroDiagonal(g)
    ensures PairsWitnessed(g, FloydWarshallCpu(g))
    ensures PairsBelowWalks(g, FloydWarshallCpu(g))
  {
    FloydWarshallCpuMatchesCuda(g);
    FloydWarshallCudaCorrect(g);
  }
}
