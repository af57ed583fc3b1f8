/** `generate_random_graph(size, density)`. NumPy's generator is replaced by
    an oracle: `draws[i][j]` is the value `np.random.rand()` returns when
    the loop reaches cell `(i, j)`, and `picks[i][j]` the value
    `np.random.randint(1, 100)` returns there, if it is called. */
module RandomGraph {
  import opened Dists

  /** The oracle respects the ranges of the two NumPy calls: `rand()` is in
      `[0, 1)` and `randint(1, 100)` in `[1, 100)`. */
  predicate OracleFits(size: nat, draws: seq<seq<real>>, picks: seq<seq<int>>)
  {
    && |draws| == size && |picks| == size
    && (forall i :: 0 <= i < size ==> |draws[i]| == size && |picks[i]| == size)
    && (forall i, j :: 0 <= i < size && 0 <= j < |draws[i]| ==> 0.0 <= draws[i][j] < 1.0)
    && (forall i, j :: 0 <= i < size && 0 <= j < |picks[i]| ==> 1 <= picks[i][j] < 100)
  }

  /** `np.full((size, size), INFINITY)` */
  function Full(size: nat): (g: Matrix)
    ensures IsSquare(g) && |g| == size
    ensures forall i, j :: 0 <= i < size && 0 <= j < size ==> g[i][j] == Inf
  {
    seq(size, _ => seq(size, _ => Inf))
  }

  /** The state after `np.fill_diagonal(graph, 0)` and the cells before
      `(i, j)` in row-major order have been visited. */
  ghost predicate Filled(g: Matrix, size: nat, density: real, draws: seq<seq<real>>, picks: seq<seq<int>>, i: nat, j: nat)
    requires OracleFits(size, draws, picks)
  {
    && IsSquare(g) && |g| == size
    && forall x, y :: 0 <= x < size && 0 <= y < size ==>
         g[x][y] == if x == y then Fin(0)
                    else if (x < i || (x == i && y < j)) && draws[x][y] < density then Fin(picks[x][y])
                    else Inf
  }

  /** What `generate_random_graph` gives back: the matrix, or the
      `ValueError` that `np.full` raises for a negative `size`. */
  datatype Generated = Graph(g: Matrix) | ValueError

  method GenerateRandomGraph(size: int, density: real, draws: seq<seq<real>>, picks: seq<seq<int>>)
    returns (r: Generated)
    requires size < 0 || OracleFits(size, draws, picks)
    ensures r.ValueError? <==> size < 0
    ensures r.Graph? ==> IsSquare(r.g) && |r.g| == size
    ensures r.Graph? ==> ZeroDiagonal(r.g)
    ensures r.Graph? ==> forall i, j :: 0 <= i < size && 0 <= j < size && i != j ==>
      (r.g[i][j].Fin? <==> draws[i][j] < density)
    ensures r.Graph? ==> forall i, j :: 0 <= i < size && 0 <= j < size && i != j && r.g[i][j].Fin? ==>
      r.g[i][j] == Fin(picks[i][j]) && 1 <= r.g[i][j].n <= 99
    ensures r.Graph? && density <= 0.0 ==>
      forall i, j :: 0 <= i < size && 0 <= j < size && i != j ==> r.g[i][j] == Inf
    ensures r.Graph? ==> NonNegMatrix(r.g)
  {
    if size < 0 {
      return ValueError;
    }
    var g := Full(size);
    var d := 0;
    while d < size
      invariant d <= size
      invariant IsSquare(g) && |g| == size
      invariant forall x, y :: 0 <= x < size && 0 <= y < size ==>
        g[x][y] == if x == y && x < d then Fin(0) else Inf
    {
      g := g[d := g[d][d := Fin(0)]];
      d := d + 1;
    }
    var i := 0;
    while i < size
      invariant i <= size
      invariant Filled(g, size, density, draws, picks, i, 0)
    {
      var j := 0;
      while j < size
        invariant j <= size
        invariant Filled(g, size, density, draws, picks, i, j)
      {
        if i != j && draws[i][j] < density {
          g := g[i := g[i][j := Fin(picks[i][j])]];
        }
        j := j + 1;
      }
      i := i + 1;
    }
    r := Graph(g);
  }
}
