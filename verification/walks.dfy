/** Walks in an adjacency matrix and their weights: the reference notion
    every engine's output is compared against. */
module Walks {
  import opened Dists

  /** `p` is a walk of `g` from `p[0]` to `p[|p|-1]` with `|p| - 1` edges. */
  predicate IsWalk(g: Matrix, p: seq<nat>)
  {
    |p| >= 1 && forall t :: 0 <= t < |p| ==> p[t] < |g|
  }

  /** `p` is a walk of `g` that starts at `src`. */
  predicate WalkFrom(g: Matrix, src: nat, p: seq<nat>)
  {
    IsWalk(g, p) && p[0] == src
  }

  /** Sum of the edge weights along `p`; `Inf` if it uses a missing edge. */
  function Weight(g: Matrix, p: seq<nat>): Dist
    requires IsSquare(g) && IsWalk(g, p)
    decreases |p|
  {
    if |p| == 1 then Fin(0)
    else Add(Weight(g, p[..|p| - 1]), g[p[|p| - 2]][p[|p| - 1]])
  }

  /** Appending a vertex of the graph to a walk gives a walk. */
  lemma WalkSnoc(g: Matrix, p: seq<nat>, v: nat)
    requires IsWalk(g, p) && v < |g|
    ensures IsWalk(g, p + [v])
  {
  }

  /** The last edge of a walk of at least two vertices. */
  lemma WeightLast(g: Matrix, q: seq<nat>)
    requires IsSquare(g) && IsWalk(g, q) && |q| >= 2
    ensures Weight(g, q) == Add(Weight(g, q[..|q| - 1]), g[q[|q| - 2]][q[|q| - 1]])
  {
  }

  /** Extending a walk by one edge adds that edge's weight. */
  lemma WeightSnoc(g: Matrix, p: seq<nat>, v: nat)
    requires IsSquare(g) && IsWalk(g, p) && v < |g|
    ensures IsWalk(g, p + [v])
    ensures Weight(g, p + [v]) == Add(Weight(g, p), g[p[|p| - 1]][v])
  {
    var q := p + [v];
    WalkSnoc(g, p, v);
    WeightLast(g, q);
    assert q[..|q| - 1] == p;
    assert q[|q| - 2] == p[|p| - 1] && q[|q| - 1] == v;
  }

  /** Slicing commutes with dropping the last vertex. */
  lemma DropLastSlices(p: seq<nat>, t: nat)
    requires t < |p| - 1
    ensures p[..|p| - 1][..t + 1] == p[..t + 1]
    ensures p[t..][..|p[t..]| - 1] == p[..|p| - 1][t..]
  {
    assert p[..|p| - 1][..t + 1] == p[..t + 1];
    assert p[t..][..|p[t..]| - 1] == p[..|p| - 1][t..];
  }

  /** Cutting a walk at position `t` splits its weight. */
  lemma {:induction false} WeightSplit(g: Matrix, p: seq<nat>, t: nat)
    requires IsSquare(g) && IsWalk(g, p) && t < |p|
    ensures IsWalk(g, p[..t + 1]) && IsWalk(g, p[t..])
    ensures Weight(g, p) == Add(Weight(g, p[..t + 1]), Weight(g, p[t..]))
    decreases |p|
  {
    if t == |p| - 1 {
      assert p[..t + 1] == p;
      assert p[t..] == [p[t]];
    } else {
      var q := p[..|p| - 1];
      WeightSplit(g, q, t);
      DropLastSlices(p, t);
      AddAssoc(Weight(g, p[..t + 1]), Weight(g, q[t..]), g[p[|p| - 2]][p[|p| - 1]]);
    }
  }

  // ---------------------------------------------------------------------
  // Distance vectors measured against walks

  /** Some walk of `g` from `src` to `v` weighs exactly `x`. */
  ghost predicate WalkOfWeight(g: Matrix, src: nat, v: nat, x: Dist)
    requires IsSquare(g)
  {
    exists p {:trigger WalkFrom(g, src, p)} :: WalkFrom(g, src, p) && p[|p| - 1] == v && Weight(g, p) == x
  }

  /** Every finite entry of `d` is the weight of some walk from `src`. */
  ghost predicate Witnessed(g: Matrix, src: nat, d: seq<Dist>)
    requires IsSquare(g)
  {
    forall v :: 0 <= v < |d| && d[v].Fin? ==> WalkOfWeight(g, src, v, d[v])
  }

  /** No entry of `d` exceeds the weight of a walk from `src` with at most
      `k` edges that ends there. */
  ghost predicate BoundedBy(g: Matrix, src: nat, d: seq<Dist>, k: nat)
    requires IsSquare(g) && |d| == |g|
  {
    forall p {:trigger WalkFrom(g, src, p)} :: WalkFrom(g, src, p) && |p| <= k + 1 ==>
      Le(d[p[|p| - 1]], Weight(g, p))
  }

  /** The start vector is witnessed by the one-vertex walk and bounded by
      every walk without edges. */
  lemma InitWitnessed(g: Matrix, src: nat)
    requires IsSquare(g) && src < |g|
    ensures Witnessed(g, src, InitDist(|g|, src))
    ensures BoundedBy(g, src, InitDist(|g|, src), 0)
  {
    assert WalkFrom(g, src, [src]) && Weight(g, [src]) == Fin(0);
    forall p | WalkFrom(g, src, p) && |p| <= 1
      ensures Le(InitDist(|g|, src)[p[|p| - 1]], Weight(g, p))
    {
      assert p == [src];
    }
  }

  /** A walk to `u` of weight `x` extends along edge `u -> v`. */
  lemma ExtendWitness(g: Matrix, src: nat, x: Dist, u: nat, v: nat)
    requires IsSquare(g) && u < |g| && v < |g|
    requires x.Fin? && WalkOfWeight(g, src, u, x)
    ensures WalkOfWeight(g, src, v, Add(x, g[u][v]))
  {
    var p :| WalkFrom(g, src, p) && p[|p| - 1] == u && Weight(g, p) == x;
    WeightSnoc(g, p, v);
    assert WalkFrom(g, src, p + [v]);
  }

  /** No edge can lower `d` any further. */
  predicate NoRelaxable(g: Matrix, d: seq<Dist>)
    requires IsSquare(g) && |d| == |g|
  {
    forall u, v :: 0 <= u < |g| && 0 <= v < |g| ==> Le(d[v], Add(d[u], g[u][v]))
  }

  /** No entry of `d` exceeds the weight of any walk from `src` ending there. */
  ghost predicate BelowWalks(g: Matrix, src: nat, d: seq<Dist>)
    requires IsSquare(g) && |d| == |g|
  {
    forall p {:trigger WalkFrom(g, src, p)} :: WalkFrom(g, src, p) ==> Le(d[p[|p| - 1]], Weight(g, p))
  }

  /** A vector with `d[src] <= 0` that no edge can lower lies below every
      walk from `src`, whatever its length. */
  lemma FixpointBelowWalks(g: Matrix, src: nat, d: seq<Dist>)
    requires IsSquare(g) && |d| == |g| && src < |g|
    requires NoRelaxable(g, d) && Le(d[src], Fin(0))
    ensures BelowWalks(g, src, d)
  {
    forall p | WalkFrom(g, src, p)
      ensures Le(d[p[|p| - 1]], Weight(g, p))
    {
      FixpointBelowWalk(g, src, d, p);
    }
  }

  lemma {:induction false} FixpointBelowWalk(g: Matrix, src: nat, d: seq<Dist>, p: seq<nat>)
    requires IsSquare(g) && |d| == |g| && src < |g|
    requires NoRelaxable(g, d) && Le(d[src], Fin(0))
    requires WalkFrom(g, src, p)
    ensures Le(d[p[|p| - 1]], Weight(g, p))
    decreases |p|
  {
    if |p| > 1 {
      var q := p[..|p| - 1];
      var u := q[|q| - 1];
      var v := p[|p| - 1];
      assert q + [v] == p;
      WeightSnoc(g, q, v);
      assert WalkFrom(g, src, q);
      FixpointBelowWalk(g, src, d, q);
      AddMono(Weight(g, q), d[u], g[u][v], g[u][v]);
      LeTrans(d[v], Add(d[u], g[u][v]), Weight(g, p));
    }
  }

  /** Without negative weights no walk weighs less than 0. */
  lemma {:induction false} WeightNonNeg(g: Matrix, p: seq<nat>)
    requires IsSquare(g) && IsWalk(g, p) && NonNegMatrix(g)
    ensures NonNeg(Weight(g, p))
    decreases |p|
  {
    if |p| > 1 {
      var q := p[..|p| - 1];
      WeightNonNeg(g, q);
      AddNonNeg(Weight(g, q), g[p[|p| - 2]][p[|p| - 1]]);
    }
  }

  /** A vector at most 0 at the source whose entries are walk weights is
      exactly 0 there when no weight is negative. */
  lemma SourceAtZero(g: Matrix, src: nat, d: seq<Dist>)
    requires IsSquare(g) && |d| == |g| && src < |g| && NonNegMatrix(g)
    requires Witnessed(g, src, d) && Le(d[src], Fin(0))
    ensures d[src] == Fin(0)
  {
    assert WalkOfWeight(g, src, src, d[src]);
    var p :| WalkFrom(g, src, p) && p[|p| - 1] == src && Weight(g, p) == d[src];
    WeightNonNeg(g, p);
  }

  /** Two vectors that are both witnessed by walks and below every walk
      from `src` are the same vector: the shortest-walk distances. */
  lemma ShortestUnique(g: Matrix, src: nat, d1: seq<Dist>, d2: seq<Dist>)
    requires IsSquare(g) && |d1| == |g| && |d2| == |g|
    requires Witnessed(g, src, d1) && BelowWalks(g, src, d1)
    requires Witnessed(g, src, d2) && BelowWalks(g, src, d2)
    ensures d1 == d2
  {
    forall v | 0 <= v < |g|
      ensures d1[v] == d2[v]
    {
      if d1[v].Fin? {
        assert WalkOfWeight(g, src, v, d1[v]);
        var p :| WalkFrom(g, src, p) && p[|p| - 1] == v && Weight(g, p) == d1[v];
      }
      if d2[v].Fin? {
        assert WalkOfWeight(g, src, v, d2[v]);
        var p :| WalkFrom(g, src, p) && p[|p| - 1] == v && Weight(g, p) == d2[v];
      }
    }
  }

  // ---------------------------------------------------------------------
  // Cycles

  /** A set of indices below `n` has at most `n` elements. */
  lemma {:induction false} CardBound(s: set<nat>, n: nat)
    requires forall x :: x in s ==> x < n
    ensures |s| <= n
    decreases n
  {
    if n == 0 {
      assert s == {};
    } else {
      CardBound(s - {n - 1}, n - 1);
    }
  }

  /** A sequence without repetitions has as many distinct elements as it
      has positions. */
  lemma {:induction false} DistinctCard(p: seq<nat>)
    requires forall s, t :: 0 <= s < t < |p| ==> p[s] != p[t]
    ensures |(set t | 0 <= t < |p| :: p[t])| == |p|
    decreases |p|
  {
    if p != [] {
      var q := p[..|p| - 1];
      DistinctCard(q);
      var sq := set t | 0 <= t < |q| :: q[t];
      var sp := set t | 0 <= t < |p| :: p[t];
      assert sp == sq + {p[|p| - 1]} by {
        forall x | x in sp
          ensures x in sq + {p[|p| - 1]}
        {
          var t :| 0 <= t < |p| && p[t] == x;
          if t < |p| - 1 {
            assert q[t] == x;
          }
        }
        forall x | x in sq
          ensures x in sp
        {
          var t :| 0 <= t < |q| && q[t] == x;
          assert p[t] == x;
        }
      }
      assert p[|p| - 1] !in sq;
    }
  }

  /** A walk with more vertices than the graph repeats one. */
  lemma Pigeonhole(g: Matrix, p: seq<nat>) returns (a: nat, b: nat)
    requires IsWalk(g, p) && |p| > |g|
    ensures a < b < |p| && p[a] == p[b]
  {
    if forall s, t :: 0 <= s < t < |p| ==> p[s] != p[t] {
      DistinctCard(p);
      CardBound(set t | 0 <= t < |p| :: p[t], |g|);
      assert false;
    }
    a, b :| 0 <= a < b < |p| && p[a] == p[b];
  }

  /** Dropping the vertices after position `a` up to and including the
      repeat at `b` leaves a shorter walk with the same ends. */
  lemma CutWalk(g: Matrix, p: seq<nat>, a: nat, b: nat) returns (q: seq<nat>)
    requires IsWalk(g, p) && a < b < |p| && p[a] == p[b]
    ensures IsWalk(g, q) && |q| < |p|
    ensures q[0] == p[0] && q[|q| - 1] == p[|p| - 1]
    ensures a < |q| && q[..a + 1] == p[..a + 1] && q[a..] == p[b..]
  {
    q := p[..a + 1] + p[b + 1..];
    assert q[..a + 1] == p[..a + 1];
    assert q[a..] == p[b..];
  }

  /** Cutting the closed walk between two visits of the same vertex gives
      a walk with the same ends that is no heavier, when no weight is
      negative. */
  lemma CutCycle(g: Matrix, p: seq<nat>, a: nat, b: nat) returns (q: seq<nat>)
    requires IsSquare(g) && NonNegMatrix(g) && IsWalk(g, p)
    requires a < b < |p| && p[a] == p[b]
    ensures IsWalk(g, q) && |q| < |p|
    ensures q[0] == p[0] && q[|q| - 1] == p[|p| - 1]
    ensures Le(Weight(g, q), Weight(g, p))
  {
    q := CutWalk(g, p, a, b);
    WeightSplit(g, q, a);
    WeightSplit(g, p, a);
    var r := p[a..];
    WeightSplit(g, r, b - a);
    assert r[b - a..] == p[b..];
    WeightNonNeg(g, r[..b - a + 1]);
    AddNonNeg(Weight(g, p[b..]), Weight(g, r[..b - a + 1]));
    AddMono(Weight(g, p[..a + 1]), Weight(g, p[..a + 1]), Weight(g, r), Weight(g, p[b..]));
  }

  /** Without negative weights every walk can be replaced by one with the
      same ends, at most `n` vertices and no greater weight. */
  lemma {:induction false} ShortenWalk(g: Matrix, p: seq<nat>) returns (q: seq<nat>)
    requires IsSquare(g) && NonNegMatrix(g) && IsWalk(g, p)
    ensures IsWalk(g, q) && |q| <= |g|
    ensures q[0] == p[0] && q[|q| - 1] == p[|p| - 1]
    ensures Le(Weight(g, q), Weight(g, p))
    decreases |p|
  {
    if |p| <= |g| {
      q := p;
    } else {
      var a, b := Pigeonhole(g, p);
      var p' := CutCycle(g, p, a, b);
      q := ShortenWalk(g, p');
      LeTrans(Weight(g, q), Weight(g, p'), Weight(g, p));
    }
  }

  /** Without negative weights, a vector below every walk of at most
      `n - 1` edges is below every walk. */
  lemma BoundedBelowWalks(g: Matrix, src: nat, d: seq<Dist>)
    requires IsSquare(g) && |d| == |g| && |g| >= 1 && NonNegMatrix(g)
    requires BoundedBy(g, src, d, |g| - 1)
    ensures BelowWalks(g, src, d)
  {
    forall p | WalkFrom(g, src, p)
      ensures Le(d[p[|p| - 1]], Weight(g, p))
    {
      var q := ShortenWalk(g, p);
      assert WalkFrom(g, src, q);
      LeTrans(d[p[|p| - 1]], Weight(g, q), Weight(g, p));
    }
  }
}
