/** The MPI Floyd-Warshall as the repository assembles it: every rank runs
    `floyd_warshall_mpi` on its own copy of the graph, rank 0 gathers the
    matrices and keeps, for each row index, the smallest gathered row under
    Python's list ordering (`[min(col) for col in zip(*all_results)]`).

    Ranks never exchange rows while they run, so a rank reads the input
    row `k` whenever it does not own `k`; the merged matrix can miss walks
    the sequential loop finds. `SyncedStep` is the repair: merge after
    every pivot step. */
module FloydWarshallMpi {
  import opened Dists
  import opened Strides
  import opened Walks
  import opened FloydWarshall
  import opened FloydWarshallPaths

  // ---------------------------------------------------------------------
  // Python list ordering and `min`

  /** Python `a < b` on two lists of numbers: the first position where they
      differ decides, and a proper prefix is smaller. */
  predicate LexLess(a: seq<Dist>, b: seq<Dist>)
    decreases |a|
  {
    if a == [] then b != []
    else if b == [] then false
    else if a[0] != b[0] then Less(a[0], b[0])
    else LexLess(a[1..], b[1..])
  }

  lemma {:induction false} LexIrreflexive(a: seq<Dist>)
    ensures !LexLess(a, a)
    decreases |a|
  {
    if a != [] {
      LexIrreflexive(a[1..]);
    }
  }

  lemma {:induction false} LexTrans(a: seq<Dist>, b: seq<Dist>, c: seq<Dist>)
    requires LexLess(a, b) && LexLess(b, c)
    ensures LexLess(a, c)
    decreases |a|
  {
    if a != [] && b != [] && c != [] && a[0] == b[0] && b[0] == c[0] {
      LexTrans(a[1..], b[1..], c[1..]);
    } else if a != [] && b != [] && c != [] {
      Trichotomy(a[0], b[0]);
      Trichotomy(b[0], c[0]);
      Trichotomy(a[0], c[0]);
    }
  }

  lemma {:induction false} LexTotal(a: seq<Dist>, b: seq<Dist>)
    requires a != b
    ensures LexLess(a, b) || LexLess(b, a)
    decreases |a|
  {
    if a != [] && b != [] {
      if a[0] == b[0] {
        assert a == [a[0]] + a[1..] && b == [b[0]] + b[1..];
        LexTotal(a[1..], b[1..]);
      } else {
        Trichotomy(a[0], b[0]);
      }
    }
  }

  /** Python's `min(items)`: the first item, replaced by every later item
      that is strictly smaller. */
  function PyMin(items: seq<seq<Dist>>): (r: seq<Dist>)
    requires |items| >= 1
    ensures r in items
    decreases |items|
  {
    if |items| == 1 then items[0]
    else
      var m := PyMin(items[..|items| - 1]);
      var x := items[|items| - 1];
      if LexLess(x, m) then x else m
  }

  /** `min` returns an item that no item is below. */
  lemma {:induction false} PyMinLeast(items: seq<seq<Dist>>)
    requires |items| >= 1
    ensures forall t :: 0 <= t < |items| ==> !LexLess(items[t], PyMin(items))
    decreases |items|
  {
    if |items| == 1 {
      LexIrreflexive(items[0]);
    } else {
      var init := items[..|items| - 1];
      var m := PyMin(init);
      var x := items[|items| - 1];
      PyMinLeast(init);
      LexIrreflexive(PyMin(items));
      forall t | 0 <= t < |items|
        ensures !LexLess(items[t], PyMin(items))
      {
        if t < |items| - 1 {
          assert items[t] == init[t];
          if LexLess(x, m) && LexLess(items[t], x) {
            LexTrans(items[t], x, m);
          }
        } else if !LexLess(x, m) && LexLess(x, m) {
        }
      }
    }
  }

  /** Entry-wise `<=` between two rows of the same length. */
  predicate RowLe(a: seq<Dist>, b: seq<Dist>)
  {
    |a| == |b| && forall j :: 0 <= j < |a| ==> Le(a[j], b[j])
  }

  /** An entry-wise smaller row is smaller in list order too. */
  lemma {:induction false} LexOfRowLe(a: seq<Dist>, b: seq<Dist>)
    requires RowLe(a, b) && a != b
    ensures LexLess(a, b)
    decreases |a|
  {
    if a[0] == b[0] {
      assert a == [a[0]] + a[1..] && b == [b[0]] + b[1..];
      assert RowLe(a[1..], b[1..]) by {
        forall j | 0 <= j < |a| - 1
          ensures Le(a[1..][j], b[1..][j])
        {
          assert a[1..][j] == a[j + 1] && b[1..][j] == b[j + 1];
        }
      }
      LexOfRowLe(a[1..], b[1..]);
    } else {
      Trichotomy(a[0], b[0]);
    }
  }

  /** When one item is entry-wise below all the others, `min` returns it. */
  lemma PyMinOfSmallest(items: seq<seq<Dist>>, o: seq<Dist>)
    requires |items| >= 1 && o in items
    requires forall t :: 0 <= t < |items| ==> RowLe(o, items[t])
    ensures PyMin(items) == o
  {
    PyMinLeast(items);
    var m := PyMin(items);
    if m != o {
      LexOfRowLe(o, m);
    }
  }

  // ---------------------------------------------------------------------
  // The gather and the merge

  /** The `i`-th rows of every gathered matrix: one `col` of `zip(*parts)`. */
  function Column(parts: seq<Matrix>, i: nat): (c: seq<seq<Dist>>)
    requires forall q :: 0 <= q < |parts| ==> i < |parts[q]|
    ensures |c| == |parts|
  {
    seq(|parts|, q requires 0 <= q < |parts| => parts[q][i])
  }

  predicate Gatherable(parts: seq<Matrix>, n: nat)
  {
    |parts| >= 1 && forall q :: 0 <= q < |parts| ==> |parts[q]| == n && IsSquare(parts[q])
  }

  /** `[min(col) for col in zip(*parts)]` */
  function MergeRows(parts: seq<Matrix>, n: nat): (r: Matrix)
    requires Gatherable(parts, n)
    ensures |r| == n && IsSquare(r)
  {
    seq(n, i requires 0 <= i < n => PyMin(Column(parts, i)))
  }

  /** Row `i` of the merge is row `i` of some gathered matrix, and none of
      the gathered rows `i` is smaller in list order. */
  lemma MergeRowsSpec(parts: seq<Matrix>, n: nat)
    requires Gatherable(parts, n)
    ensures forall i :: 0 <= i < n ==> MergeRows(parts, n)[i] in Column(parts, i)
    ensures forall i, q :: 0 <= i < n && 0 <= q < |parts| ==> !LexLess(parts[q][i], MergeRows(parts, n)[i])
  {
    forall i, q | 0 <= i < n && 0 <= q < |parts|
      ensures !LexLess(parts[q][i], MergeRows(parts, n)[i])
    {
      PyMinLeast(Column(parts, i));
      assert Column(parts, i)[q] == parts[q][i];
    }
  }

  /** The matrices of ranks `0 .. size-1`, as `comm.gather` hands them to
      rank 0. */
  function GatherRanks(g: Matrix, size: nat): (parts: seq<Matrix>)
    requires IsSquare(g) && size >= 1
    ensures Gatherable(parts, |g|)
  {
    seq(size, rank requires 0 <= rank < size => FloydWarshallRank(g, rank, size))
  }

  /** What rank 0 reports. */
  function FloydWarshallMpi(g: Matrix, size: nat): (r: Matrix)
    requires IsSquare(g) && size >= 1
    ensures IsSquare(r) && |r| == |g|
  {
    MergeRows(GatherRanks(g, size), |g|)
  }

  /** With one rank the report is the sequential result. */
  lemma FloydWarshallMpiSingleRank(g: Matrix)
    requires IsSquare(g)
    ensures FloydWarshallMpi(g, 1) == FloydWarshallCpu(g)
  {
    FloydWarshallSingleRank(g);
    var parts := GatherRanks(g, 1);
    forall i | 0 <= i < |g|
      ensures FloydWarshallMpi(g, 1)[i] == FloydWarshallCpu(g)[i]
    {
      assert Column(parts, i) == [FloydWarshallCpu(g)[i]];
    }
  }

  /** Whatever the number of ranks and the weights, every finite reported
      entry is the weight of a walk, and no entry is above the input. */
  lemma FloydWarshallMpiSound(g: Matrix, size: nat)
    requires IsSquare(g) && size >= 1
    ensures PairsWitnessed(g, FloydWarshallMpi(g, size))
    ensures Below(FloydWarshallMpi(g, size), g)
  {
    var parts := GatherRanks(g, size);
    var r: Matrix := FloydWarshallMpi(g, size);
    MergeRowsSpec(parts, |g|);
    forall i, j | 0 <= i < |g| && 0 <= j < |g|
      ensures r[i][j].Fin? ==> WalkOfWeight(g, i, j, r[i][j])
      ensures Le(r[i][j], g[i][j])
    {
      var c := Column(parts, i);
      assert r[i] in c;
      var q :| 0 <= q < |c| && c[q] == r[i];
      assert r[i] == FloydWarshallRank(g, q, size)[i];
      FloydWarshallRankWitnessed(g, q, size);
      FloydWarshallRankFrame(g, q, size);
    }
  }

  // ---------------------------------------------------------------------
  // As written: a stale row `k`

  /** Edges `2 -> 1 -> 0 -> 3`, no shortcut from 2 to 0 or 3, none from
      1 to 3, no negative weight, zero diagonal. */
  predicate StaleRowShape(g: Matrix)
  {
    && IsSquare(g) && |g| == 4 && NonNegMatrix(g) && ZeroDiagonal(g)
    && g[2][1].Fin? && g[1][0].Fin? && g[0][3].Fin?
    && g[2][0] == Inf && g[2][3] == Inf && g[1][3] == Inf
  }

  /** One pivot step of rank 0 of two, which owns rows 0 and 2 of four,
      on a matrix without negative entries. */
  lemma RankZeroStep(d: Matrix, k: nat)
    requires IsSquare(d) && |d| == 4 && k < 4 && NonNegMatrix(d)
    ensures ValidRows(d, [0, 2])
    ensures NonNegMatrix(UpdateRows(d, k, [0, 2]))
    ensures UpdateRows(d, k, [0, 2])[1] == d[1]
    ensures UpdateRows(d, k, [0, 2])[2][3] == Min(d[2][3], Add(d[2][k], d[k][3]))
  {
    UpdateRowsIsVec(d, k, [0, 2]);
    UpdateRowsNonNeg(d, k, [0, 2]);
  }

  /** Rank 0 of two owns rows 0 and 2. It keeps the input row 1, so it
      never learns the walk 1 -> 0 -> 3 that rank 1 finds; by the time it
      knows 2 -> 1 -> 0, pivot 0 is past. */
  lemma RankZeroStale(g: Matrix)
    requires StaleRowShape(g)
    ensures FloydWarshallRank(g, 0, 2)[2][3] == Inf
  {
    var rows: seq<nat> := [0, 2];
    assert Stride(0, 4, 2) == rows;
    RankZeroStep(g, 0);
    var d1 := UpdateRows(g, 0, rows);
    RankZeroStep(d1, 1);
    var d2 := UpdateRows(d1, 1, rows);
    RankZeroStep(d2, 2);
    var d3 := UpdateRows(d2, 2, rows);
    RankZeroStep(d3, 3);
    var d4 := UpdateRows(d3, 3, rows);
    assert d4[2][3] == Inf;
    assert StepsFrom(d3, 3, rows) == d4;
    assert StepsFrom(d2, 2, rows) == d4;
    assert StepsFrom(d1, 1, rows) == d4;
    assert StepsFrom(g, 0, rows) == d4;
  }

  lemma StaleWalkWeight(g: Matrix)
    requires StaleRowShape(g)
    ensures IsWalk(g, [2, 1, 0, 3]) && Weight(g, [2, 1, 0, 3]).Fin?
  {
    WeightSnoc(g, [2], 1);
    assert [2] + [1] == [2, 1];
    WeightSnoc(g, [2, 1], 0);
    assert [2, 1] + [0] == [2, 1, 0];
    WeightSnoc(g, [2, 1, 0], 3);
    assert [2, 1, 0] + [3] == [2, 1, 0, 3];
  }

  /** Counterexample: with two ranks the report leaves `(2, 3)` at
      `INFINITY`, although the walk 2 -> 1 -> 0 -> 3 has a finite weight
      and the sequential loop, by `FloydWarshallCpuCorrect`, finds it. */
  lemma FloydWarshallMpiMissesWalk(g: Matrix)
    requires StaleRowShape(g)
    ensures FloydWarshallMpi(g, 2)[2][3] == Inf
    ensures FloydWarshallCpu(g)[2][3].Fin?
    ensures !PairsBelowWalks(g, FloydWarshallMpi(g, 2))
  {
    var parts := GatherRanks(g, 2);
    var p: seq<nat> := [2, 1, 0, 3];
    MergeRowsSpec(parts, 4);
    RankZeroStale(g);
    FloydWarshallRankFrame(g, 1, 2);
    assert parts[1][2] == g[2];
    var c := Column(parts, 2);
    assert c == [parts[0][2], parts[1][2]];
    StaleWalkWeight(g);
    FloydWarshallCpuCorrect(g);
    assert IsWalk(g, p);
    assert Le(FloydWarshallCpu(g)[2][3], Weight(g, p));
  }

  // ---------------------------------------------------------------------
  // Corrected: merge after every pivot step

  /** Pivot step `k` on every rank from the shared matrix `d`, followed by
      the same row merge. */
  function SyncedStep(d: Matrix, k: nat, size: nat): (r: Matrix)
    requires IsSquare(d) && k < |d| && size >= 1
    ensures IsSquare(r) && |r| == |d|
  {
    StrideRowsValid(d, 0, size);
    var parts := seq(size, rank requires 0 <= rank < size =>
      StrideRowsValid(d, rank, size); UpdateRows(d, k, Stride(rank, |d|, size)));
    MergeRows(parts, |d|)
  }

  function SyncedStepsFrom(d: Matrix, k0: nat, size: nat): (r: Matrix)
    requires IsSquare(d) && size >= 1
    ensures IsSquare(r) && |r| == |d|
    decreases |d| - k0
  {
    if k0 >= |d| then d else SyncedStepsFrom(SyncedStep(d, k0, size), k0 + 1, size)
  }

  /** The MPI Floyd-Warshall with the rows exchanged after every pivot. */
  function FloydWarshallMpiSynced(g: Matrix, size: nat): (r: Matrix)
    requires IsSquare(g) && size >= 1
    ensures IsSquare(r) && |r| == |g|
  {
    SyncedStepsFrom(g, 0, size)
  }

  /** Without negative weights a synchronised step is the CuPy step, for
      any number of ranks: the owner's row is entry-wise below the other
      ranks' copies, so list-order `min` picks it. */
  lemma SyncedStepIsVec(d: Matrix, k: nat, size: nat)
    requires IsSquare(d) && k < |d| && size >= 1 && NonNegMatrix(d)
    ensures SyncedStep(d, k, size) == VecStep(d, k)
  {
    var v := VecStep(d, k);
    var parts := seq(size, rank requires 0 <= rank < size =>
      StrideRowsValid(d, rank, size); UpdateRows(d, k, Stride(rank, |d|, size)));
    forall i | 0 <= i < |d|
      ensures SyncedStep(d, k, size)[i] == v[i]
    {
      var c := Column(parts, i);
      var owner := i % size;
      forall q | 0 <= q < size
        ensures c[q] == if q == owner then v[i] else d[i]
        ensures RowLe(v[i], c[q])
      {
        StrideRowsValid(d, q, size);
        UpdateRowsIsVec(d, k, Stride(q, |d|, size));
        StrideMembers(q, |d|, size, i);
        forall j | 0 <= j < |d|
          ensures Le(v[i][j], d[i][j])
        {
          MinSpec(d[i][j], Add(d[i][k], d[k][j]));
        }
        LeRefl(v[i][0]);
        forall j | 0 <= j < |d|
          ensures Le(v[i][j], v[i][j])
        {
          LeRefl(v[i][j]);
        }
      }
      assert c[owner] == v[i];
      PyMinOfSmallest(c, v[i]);
    }
  }

  lemma {:induction false} SyncedStepsIsVec(d: Matrix, k0: nat, size: nat)
    requires IsSquare(d) && size >= 1 && NonNegMatrix(d)
    ensures SyncedStepsFrom(d, k0, size) == VecStepsFrom(d, k0)
    decreases |d| - k0
  {
    if k0 < |d| {
      SyncedStepIsVec(d, k0, size);
      VecStepNonNeg(d, k0);
      SyncedStepsIsVec(VecStep(d, k0), k0 + 1, size);
    }
  }

  /** Without negative weights the synchronised MPI version reports the
      sequential result for any number of ranks, and with a zero diagonal
      that is the exact all-pairs shortest-walk distance. */
  lemma FloydWarshallMpiSyncedCorrect(g: Matrix, size: nat)
    requires IsSquare(g) && size >= 1 && NonNegMatrix(g)
    ensures FloydWarshallMpiSynced(g, size) == FloydWarshallCpu(g)
    ensures ZeroDiagonal(g) ==> PairsWitnessed(g, FloydWarshallMpiSynced(g, size))
    ensures ZeroDiagonal(g) ==> PairsBelowWalks(g, FloydWarshallMpiSynced(g, size))
  {
    SyncedStepsIsVec(g, 0, size);
    FloydWarshallCpuMatchesCuda(g);
    if ZeroDiagonal(g) {
      FloydWarshallCudaCorrect(g);
    }
  }
}
