/** Extended-integer distances shared by every engine.

    The Python code mixes integer weights with the `INFINITY` sentinel; the
    sentinel is absorbing under `+` and compares above every finite value.
    `Dist` makes that explicit: `Fin(n)` is a finite distance, `Inf` the
    sentinel. */
module Dists {

  datatype Dist = Fin(n: int) | Inf

  /** Adjacency (or distance) matrices: `g[u][v]` is the weight of edge u -> v. */
  type Matrix = seq<seq<Dist>>

  /** Python `a + b` on numbers where either may be `INFINITY`. */
  function Add(a: Dist, b: Dist): Dist
  {
    if a.Fin? && b.Fin? then Fin(a.n + b.n) else Inf
  }

  /** Python `a < b`. */
  predicate Less(a: Dist, b: Dist)
  {
    match a
    case Inf => false
    case Fin(x) => b.Inf? || x < b.n
  }

  /** Python `a <= b`. */
  predicate Le(a: Dist, b: Dist)
  {
    !Less(b, a)
  }

  /** Python's two-argument `min(a, b)`: `a` unless `b` is strictly smaller. */
  function Min(a: Dist, b: Dist): Dist
  {
    if Less(b, a) then b else a
  }

  /** A weight that is neither negative nor would ever lower a sum. */
  predicate NonNeg(a: Dist)
  {
    Le(Fin(0), a)
  }

  /** How an engine writes `dist[v]` once it has the candidate `dist[u] + w`
      over an edge that is not `INFINITY`.
      StrictIf:  `if dist[u] + w < dist[v]: dist[v] = dist[u] + w`
      MinAssign: `dist[v] = minimum(dist[v], dist[u] + w)` */
  datatype Rule = StrictIf | MinAssign

  /** `dist = [INFINITY] * n; dist[src] = 0`, the start of every
      single-source engine. */
  function InitDist(n: nat, src: nat): (d: seq<Dist>)
    requires src < n
    ensures |d| == n
  {
    seq(n, v => if v == src then Fin(0) else Inf)
  }

  predicate IsSquare(g: Matrix)
  {
    forall i :: 0 <= i < |g| ==> |g[i]| == |g|
  }

  /** Every vertex is at distance 0 from itself, as `np.fill_diagonal(graph, 0)` makes it. */
  predicate ZeroDiagonal(g: Matrix)
    requires IsSquare(g)
  {
    forall i :: 0 <= i < |g| ==> g[i][i] == Fin(0)
  }

  /** Every finite entry of `g` is non-negative. */
  predicate NonNegMatrix(g: Matrix)
  {
    forall i, j :: 0 <= i < |g| && 0 <= j < |g[i]| ==> NonNeg(g[i][j])
  }

  lemma LeRefl(a: Dist)
    ensures Le(a, a)
  {
  }

  lemma LeTrans(a: Dist, b: Dist, c: Dist)
    requires Le(a, b) && Le(b, c)
    ensures Le(a, c)
  {
  }

  /** `Less` is a strict total order on `Dist`: exactly one of the three holds. */
  lemma Trichotomy(a: Dist, b: Dist)
    ensures Less(a, b) || a == b || Less(b, a)
    ensures !(Less(a, b) && Less(b, a))
    ensures !Less(a, a)
  {
  }

  /** `Min` returns one of its arguments and is below both. */
  lemma MinSpec(a: Dist, b: Dist)
    ensures Min(a, b) == a || Min(a, b) == b
    ensures Le(Min(a, b), a) && Le(Min(a, b), b)
  {
  }

  /** Adding is monotone in both arguments. */
  lemma AddMono(a: Dist, a': Dist, b: Dist, b': Dist)
    requires Le(a', a) && Le(b', b)
    ensures Le(Add(a', b'), Add(a, b))
  {
  }

  lemma AddAssoc(a: Dist, b: Dist, c: Dist)
    ensures Add(Add(a, b), c) == Add(a, Add(b, c))
  {
  }

  /** A non-negative addend never lowers a distance. */
  lemma AddNonNeg(a: Dist, b: Dist)
    requires NonNeg(b)
    ensures Le(a, Add(a, b))
  {
  }
}
