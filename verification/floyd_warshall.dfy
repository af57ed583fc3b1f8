/** Floyd-Warshall as the repository runs it: the in-place triple loop of
    the sequential view and of the per-rank MPI function (which sweeps only
    the rows of its stripe), and the vectorised CuPy step that builds the
    whole next matrix from the previous one. */
module FloydWarshall {
  import opened Dists
  import opened Strides

  predicate ValidRows(d: Matrix, rows: seq<nat>)
  {
    forall t :: 0 <= t < |rows| ==> rows[t] < |d|
  }

  /** `if dist[i][k] + dist[k][j] < dist[i][j]: dist[i][j] = dist[i][k] + dist[k][j]` */
  function UpdateCell(d: Matrix, k: nat, i: nat, j: nat): (r: Matrix)
    requires IsSquare(d) && k < |d| && i < |d| && j < |d|
    ensures IsSquare(r) && |r| == |d|
  {
    var c := Add(d[i][k], d[k][j]);
    if Less(c, d[i][j]) then d[i := d[i][j := c]] else d
  }

  /** `for j in range(j0, n): <UpdateCell>` */
  function UpdateRow(d: Matrix, k: nat, i: nat, j0: nat): (r: Matrix)
    requires IsSquare(d) && k < |d| && i < |d| && j0 <= |d|
    ensures IsSquare(r) && |r| == |d|
    decreases |d| - j0
  {
    if j0 == |d| then d else UpdateRow(UpdateCell(d, k, i, j0), k, i, j0 + 1)
  }

  /** `for i in rows: <UpdateRow from 0>` */
  function UpdateRows(d: Matrix, k: nat, rows: seq<nat>): (r: Matrix)
    requires IsSquare(d) && k < |d| && ValidRows(d, rows)
    ensures IsSquare(r) && |r| == |d|
    decreases |rows|
  {
    if rows == [] then d else UpdateRows(UpdateRow(d, k, rows[0], 0), k, rows[1..])
  }

  /** `for k in range(k0, n): <UpdateRows>` */
  function StepsFrom(d: Matrix, k0: nat, rows: seq<nat>): (r: Matrix)
    requires IsSquare(d) && ValidRows(d, rows)
    ensures IsSquare(r) && |r| == |d|
    decreases |d| - k0
  {
    if k0 >= |d| then d else StepsFrom(UpdateRows(d, k0, rows), k0 + 1, rows)
  }

  lemma StrideRowsValid(d: Matrix, rank: nat, size: nat)
    requires size >= 1
    ensures ValidRows(d, Stride(rank, |d|, size))
  {
  }

  /** The sequential view: every row, for every `k`. */
  function FloydWarshallCpu(g: Matrix): (r: Matrix)
    requires IsSquare(g)
    ensures IsSquare(r) && |r| == |g|
  {
    StrideRowsValid(g, 0, 1);
    StrideOneIsRange(|g|);
    StepsFrom(g, 0, Range(|g|))
  }

  /** `floyd_warshall_mpi(graph, rank, size)`: rows `range(rank, n, size)`
      of a private copy of the graph. */
  function FloydWarshallRank(g: Matrix, rank: nat, size: nat): (r: Matrix)
    requires IsSquare(g) && size >= 1
    ensures IsSquare(r) && |r| == |g|
  {
    StrideRowsValid(g, rank, size);
    StepsFrom(g, 0, Stride(rank, |g|, size))
  }

  /** The CuPy step `dist = minimum(dist, dist[:, k] + dist[k, :])`: every
      entry of the next matrix from the previous matrix. */
  function VecStep(d: Matrix, k: nat): (r: Matrix)
    requires IsSquare(d) && k < |d|
    ensures IsSquare(r) && |r| == |d|
  {
    seq(|d|, i requires 0 <= i < |d| =>
      seq(|d|, j requires 0 <= j < |d| => Min(d[i][j], Add(d[i][k], d[k][j]))))
  }

  /** `for k in range(k0, n): <VecStep>` */
  function VecStepsFrom(d: Matrix, k0: nat): (r: Matrix)
    requires IsSquare(d)
    ensures IsSquare(r) && |r| == |d|
    decreases |d| - k0
  {
    if k0 >= |d| then d else VecStepsFrom(VecStep(d, k0), k0 + 1)
  }

  /** `floyd_warshall_cuda(graph)`, in both copies. */
  function FloydWarshallCuda(g: Matrix): (r: Matrix)
    requires IsSquare(g)
    ensures IsSquare(r) && |r| == |g|
  {
    VecStepsFrom(g, 0)
  }

  // ---------------------------------------------------------------------
  // Monotonicity and frames of the in-place loop

  /** Entry-wise `<=` between matrices of the same shape. */
  predicate Below(a: Matrix, b: Matrix)
    requires IsSquare(a) && IsSquare(b) && |a| == |b|
  {
    forall i, j :: 0 <= i < |a| && 0 <= j < |a| ==> Le(a[i][j], b[i][j])
  }

  lemma BelowTrans(a: Matrix, b: Matrix, c: Matrix)
    requires IsSquare(a) && IsSquare(b) && IsSquare(c) && |a| == |b| == |c|
    requires Below(a, b) && Below(b, c)
    ensures Below(a, c)
  {
    forall i, j | 0 <= i < |a| && 0 <= j < |a|
      ensures Le(a[i][j], c[i][j])
    {
      LeTrans(a[i][j], b[i][j], c[i][j]);
    }
  }

  /** One cell update changes only cell `(i, j)`, to
      `min(d[i][j], d[i][k] + d[k][j])`. */
  lemma UpdateCellSpec(d: Matrix, k: nat, i: nat, j: nat)
    requires IsSquare(d) && k < |d| && i < |d| && j < |d|
    ensures forall x, y :: 0 <= x < |d| && 0 <= y < |d| ==>
      UpdateCell(d, k, i, j)[x][y] == if x == i && y == j then Min(d[i][j], Add(d[i][k], d[k][j])) else d[x][y]
    ensures Below(UpdateCell(d, k, i, j), d)
  {
    MinSpec(d[i][j], Add(d[i][k], d[k][j]));
  }

  /** Sweeping row `i` touches no other row and never raises an entry. */
  lemma {:induction false} UpdateRowFrame(d: Matrix, k: nat, i: nat, j0: nat)
    requires IsSquare(d) && k < |d| && i < |d| && j0 <= |d|
    ensures forall x :: 0 <= x < |d| && x != i ==> UpdateRow(d, k, i, j0)[x] == d[x]
    ensures forall y :: 0 <= y < j0 ==> UpdateRow(d, k, i, j0)[i][y] == d[i][y]
    ensures Below(UpdateRow(d, k, i, j0), d)
    decreases |d| - j0
  {
    if j0 < |d| {
      var d' := UpdateCell(d, k, i, j0);
      UpdateCellSpec(d, k, i, j0);
      UpdateRowFrame(d', k, i, j0 + 1);
      BelowTrans(UpdateRow(d', k, i, j0 + 1), d', d);
    }
  }

  /** Sweeping a list of rows touches no other row and never raises an entry. */
  lemma {:induction false} UpdateRowsFrame(d: Matrix, k: nat, rows: seq<nat>)
    requires IsSquare(d) && k < |d| && ValidRows(d, rows)
    ensures forall x :: 0 <= x < |d| && x !in rows ==> UpdateRows(d, k, rows)[x] == d[x]
    ensures Below(UpdateRows(d, k, rows), d)
    decreases |rows|
  {
    if rows != [] {
      var d' := UpdateRow(d, k, rows[0], 0);
      UpdateRowFrame(d, k, rows[0], 0);
      UpdateRowsFrame(d', k, rows[1..]);
      BelowTrans(UpdateRows(d', k, rows[1..]), d', d);
      forall x | 0 <= x < |d| && x !in rows
        ensures UpdateRows(d, k, rows)[x] == d[x]
      {
        assert x !in rows[1..];
      }
    }
  }

  lemma {:induction false} StepsFromFrame(d: Matrix, k0: nat, rows: seq<nat>)
    requires IsSquare(d) && ValidRows(d, rows)
    ensures forall x :: 0 <= x < |d| && x !in rows ==> StepsFrom(d, k0, rows)[x] == d[x]
    ensures Below(StepsFrom(d, k0, rows), d)
    decreases |d| - k0
  {
    if k0 < |d| {
      var d' := UpdateRows(d, k0, rows);
      UpdateRowsFrame(d, k0, rows);
      StepsFromFrame(d', k0 + 1, rows);
      BelowTrans(StepsFrom(d', k0 + 1, rows), d', d);
    }
  }

  /** A rank's result is the input outside its stripe, and no entry is
      above the input anywhere. */
  lemma FloydWarshallRankFrame(g: Matrix, rank: nat, size: nat)
    requires IsSquare(g) && rank < size
    ensures forall i :: 0 <= i < |g| && i % size != rank ==> FloydWarshallRank(g, rank, size)[i] == g[i]
    ensures Below(FloydWarshallRank(g, rank, size), g)
  {
    StrideRowsValid(g, rank, size);
    StepsFromFrame(g, 0, Stride(rank, |g|, size));
    forall i | 0 <= i < |g| && i % size != rank
      ensures i !in Stride(rank, |g|, size)
    {
      StrideMembers(rank, |g|, size, i);
    }
  }

  /** The sequential result is nowhere above the input. */
  lemma FloydWarshallCpuBelow(g: Matrix)
    requires IsSquare(g)
    ensures Below(FloydWarshallCpu(g), g)
  {
    StrideOneIsRange(|g|);
    StrideRowsValid(g, 0, 1);
    StepsFromFrame(g, 0, Stride(0, |g|, 1));
  }

  /** With a single rank the MPI function sweeps every row: it is the
      sequential loop. */
  lemma FloydWarshallSingleRank(g: Matrix)
    requires IsSquare(g)
    ensures FloydWarshallRank(g, 0, 1) == FloydWarshallCpu(g)
  {
    StrideOneIsRange(|g|);
  }

  /** Each CuPy step, and so the whole CuPy loop, never raises an entry. */
  lemma {:induction false} VecStepsBelow(d: Matrix, k0: nat)
    requires IsSquare(d)
    ensures Below(VecStepsFrom(d, k0), d)
    decreases |d| - k0
  {
    if k0 < |d| {
      var d' := VecStep(d, k0);
      forall i, j | 0 <= i < |d| && 0 <= j < |d|
        ensures Le(d'[i][j], d[i][j])
      {
        MinSpec(d[i][j], Add(d[i][k0], d[k0][j]));
      }
      VecStepsBelow(d', k0 + 1);
      BelowTrans(VecStepsFrom(d', k0 + 1), d', d);
    }
  }

  // ---------------------------------------------------------------------
  // In-place against vectorised

  lemma MinAbsorb(a: Dist, b: Dist)
    requires NonNeg(b)
    ensures Min(a, Add(a, b)) == a
  {
    AddNonNeg(a, b);
  }

  /** With `d[k][k] >= 0` the CuPy step leaves row `k` and column `k` as
      they were. */
  lemma VecStepKeepsPivot(d: Matrix, k: nat)
    requires IsSquare(d) && k < |d| && NonNeg(d[k][k])
    ensures VecStep(d, k)[k] == d[k]
    ensures forall i :: 0 <= i < |d| ==> VecStep(d, k)[i][k] == d[i][k]
  {
    forall j | 0 <= j < |d|
      ensures VecStep(d, k)[k][j] == d[k][j]
    {
      AddNonNeg(d[k][j], d[k][k]);
    }
    forall i | 0 <= i < |d|
      ensures VecStep(d, k)[i][k] == d[i][k]
    {
      MinAbsorb(d[i][k], d[k][k]);
    }
  }

  /** With `d[k][k] >= 0`, sweeping row `i` from column `j0` on gives that
      row's cells of the CuPy step from `j0` on: the in-place loop only
      ever reads `d[i][k]` and row `k`, and neither moves. */
  lemma {:induction false} UpdateRowIsVec(d: Matrix, k: nat, i: nat, j0: nat)
    requires IsSquare(d) && k < |d| && i < |d| && j0 <= |d| && NonNeg(d[k][k])
    ensures forall y :: j0 <= y < |d| ==>
      UpdateRow(d, k, i, j0)[i][y] == Min(d[i][y], Add(d[i][k], d[k][y]))
    decreases |d| - j0
  {
    if j0 < |d| {
      var d' := UpdateCell(d, k, i, j0);
      UpdateCellSpec(d, k, i, j0);
      MinAbsorb(d[i][k], d[k][k]);
      AddNonNeg(d[k][j0], d[k][k]);
      assert d'[i][k] == d[i][k];
      assert d'[k][k] == d[k][k];
      assert forall y :: j0 < y < |d| ==> d'[k][y] == d[k][y] && d'[i][y] == d[i][y];
      UpdateRowIsVec(d', k, i, j0 + 1);
      UpdateRowFrame(d', k, i, j0 + 1);
    }
  }

  lemma MinIdem(a: Dist, b: Dist)
    ensures Min(Min(a, b), b) == Min(a, b)
  {
  }

  /** With `d[k][k] >= 0`, sweeping any rows gives each swept row its CuPy
      step row and leaves the others alone. */
  lemma {:induction false} UpdateRowsIsVec(d: Matrix, k: nat, rows: seq<nat>)
    requires IsSquare(d) && k < |d| && ValidRows(d, rows) && NonNeg(d[k][k])
    ensures forall x :: 0 <= x < |d| ==>
      UpdateRows(d, k, rows)[x] == if x in rows then VecStep(d, k)[x] else d[x]
    decreases |rows|
  {
    if rows != [] {
      var i := rows[0];
      var d' := UpdateRow(d, k, i, 0);
      UpdateRowIsVec(d, k, i, 0);
      UpdateRowFrame(d, k, i, 0);
      assert d'[i] == VecStep(d, k)[i];
      assert d' == d[i := VecStep(d, k)[i]];
      VecStepKeepsPivot(d, k);
      assert d'[k] == d[k];
      forall x, y | 0 <= x < |d| && 0 <= y < |d|
        ensures VecStep(d', k)[x][y] == VecStep(d, k)[x][y]
      {
        MinIdem(d[x][y], Add(d[x][k], d[k][y]));
      }
      forall x | 0 <= x < |d|
        ensures VecStep(d', k)[x] == VecStep(d, k)[x]
      {
      }
      assert VecStep(d', k) == VecStep(d, k);
      UpdateRowsIsVec(d', k, rows[1..]);
      forall x | 0 <= x < |d|
        ensures UpdateRows(d, k, rows)[x] == if x in rows then VecStep(d, k)[x] else d[x]
      {
        if x != i && x !in rows[1..] {
          assert x !in rows;
        }
      }
    }
  }

  /** Without negative weights a sweep over any rows keeps every entry
      non-negative. */
  lemma UpdateRowsNonNeg(d: Matrix, k: nat, rows: seq<nat>)
    requires IsSquare(d) && k < |d| && ValidRows(d, rows) && NonNegMatrix(d)
    ensures NonNegMatrix(UpdateRows(d, k, rows))
  {
    UpdateRowsIsVec(d, k, rows);
    VecStepNonNeg(d, k);
  }

  lemma AllRows(n: nat, x: nat)
    requires x < n
    ensures x in Stride(0, n, 1)
  {
    SingleStrideIsRange(0, n);
    assert Stride(0, n, 1)[x] == x;
  }

  /** With `d[k][k] >= 0`, the in-place step over every row is the CuPy
      step. */
  lemma StepIsVec(d: Matrix, k: nat)
    requires IsSquare(d) && k < |d| && NonNeg(d[k][k])
    ensures ValidRows(d, Stride(0, |d|, 1))
    ensures UpdateRows(d, k, Stride(0, |d|, 1)) == VecStep(d, k)
  {
    StrideRowsValid(d, 0, 1);
    UpdateRowsIsVec(d, k, Stride(0, |d|, 1));
    forall x | 0 <= x < |d|
      ensures x in Stride(0, |d|, 1)
    {
      AllRows(|d|, x);
    }
  }

  /** The CuPy step keeps every entry non-negative. */
  lemma VecStepNonNeg(d: Matrix, k: nat)
    requires IsSquare(d) && k < |d| && NonNegMatrix(d)
    ensures NonNegMatrix(VecStep(d, k))
  {
    forall i, j | 0 <= i < |d| && 0 <= j < |d|
      ensures NonNeg(VecStep(d, k)[i][j])
    {
      MinSpec(d[i][j], Add(d[i][k], d[k][j]));
    }
  }

  lemma {:induction false} StepsFromIsVec(d: Matrix, k0: nat)
    requires IsSquare(d) && NonNegMatrix(d)
    ensures ValidRows(d, Stride(0, |d|, 1))
    ensures StepsFrom(d, k0, Stride(0, |d|, 1)) == VecStepsFrom(d, k0)
    decreases |d| - k0
  {
    StrideRowsValid(d, 0, 1);
    if k0 < |d| {
      StepIsVec(d, k0);
      VecStepNonNeg(d, k0);
      StepsFromIsVec(VecStep(d, k0), k0 + 1);
    }
  }

  /** Without negative weights the sequential loop and the CuPy loop return
      the same matrix. */
  lemma FloydWarshallCpuMatchesCuda(g: Matrix)
    requires IsSquare(g) && NonNegMatrix(g)
    ensures FloydWarshallCpu(g) == FloydWarshallCuda(g)
  {
    StrideOneIsRange(|g|);
    StepsFromIsVec(g, 0);
  }

  lemma {:induction false} VecStepsNonNeg(d: Matrix, k0: nat)
    requires IsSquare(d) && NonNegMatrix(d)
    ensures NonNegMatrix(VecStepsFrom(d, k0))
    decreases |d| - k0
  {
    if k0 < |d| {
      VecStepNonNeg(d, k0);
      VecStepsNonNeg(VecStep(d, k0), k0 + 1);
    }
  }

  /** With a zero diagonal and no negative weight, the diagonal of the
      result stays 0, in both engines. */
  lemma FloydWarshallDiagonal(g: Matrix)
    requires IsSquare(g) && NonNegMatrix(g) && ZeroDiagonal(g)
    ensures forall i :: 0 <= i < |g| ==> FloydWarshallCuda(g)[i][i] == Fin(0)
    ensures forall i :: 0 <= i < |g| ==> FloydWarshallCpu(g)[i][i] == Fin(0)
  {
    VecStepsBelow(g, 0);
    VecStepsNonNeg(g, 0);
    FloydWarshallCpuMatchesCuda(g);
  }
}
