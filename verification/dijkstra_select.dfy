/** The vertex selection of the MPI Dijkstra: every rank scans its stripe
    `range(rank, n, size)` for the unvisited vertex of least distance, and
    `allreduce(local_min, op=MPI.MIN)` combines the `(dist, index)` pairs.
    The result does not depend on the number of ranks. */
module DijkstraSelect {
  import opened Dists
  import opened Strides

  /** A `(dist, index)` pair, compared as Python compares tuples. */
  type Cand = (Dist, int)

  /** `(INFINITY, -1)`: the rank found nothing. */
  const NoCand: Cand := (Inf, -1)

  /** Python tuple `<` on `(dist, index)`. */
  predicate CandLess(a: Cand, b: Cand)
  {
    Less(a.0, b.0) || (a.0 == b.0 && a.1 < b.1)
  }

  /** The MIN operator applied to two Python objects. */
  function CandMin(a: Cand, b: Cand): Cand
  {
    if CandLess(b, a) then b else a
  }

  predicate Shaped(dist: seq<Dist>, visited: seq<bool>, idx: seq<nat>)
  {
    |dist| == |visited| && forall t :: 0 <= t < |idx| ==> idx[t] < |dist|
  }

  /** The rank-local scan, continuing from the running pair `acc`:
      `if not visited[i] and dist[i] < local_min[0]: local_min = (dist[i], i)` */
  function LocalMinFrom(dist: seq<Dist>, visited: seq<bool>, idx: seq<nat>, acc: Cand): (r: Cand)
    requires Shaped(dist, visited, idx)
    ensures r == acc || (0 <= r.1 < |dist| && r == (dist[r.1], r.1))
    decreases |idx|
  {
    if idx == [] then acc
    else
      var i := idx[0];
      var acc' := if !visited[i] && Less(dist[i], acc.0) then (dist[i], i) else acc;
      LocalMinFrom(dist, visited, idx[1..], acc')
  }

  /** `local_min` of rank `rank` out of `size`. */
  function LocalMin(dist: seq<Dist>, visited: seq<bool>, rank: nat, size: nat): (r: Cand)
    requires |dist| == |visited| && size >= 1
    ensures r == NoCand || (0 <= r.1 < |dist| && r == (dist[r.1], r.1))
  {
    LocalMinFrom(dist, visited, Stride(rank, |dist|, size), NoCand)
  }

  /** The reduction, folded left over the per-rank pairs. */
  function ReduceMin(cs: seq<Cand>): (r: Cand)
    requires |cs| >= 1
    ensures r in cs
    decreases |cs|
  {
    if |cs| == 1 then cs[0] else CandMin(ReduceMin(cs[..|cs| - 1]), cs[|cs| - 1])
  }

  /** `comm.allreduce(local_min, op=MPI.MIN)` over ranks `0 .. size-1`. */
  function GlobalMin(dist: seq<Dist>, visited: seq<bool>, size: nat): (r: Cand)
    requires |dist| == |visited| && size >= 1
    ensures r == NoCand || (0 <= r.1 < |dist| && r == (dist[r.1], r.1))
  {
    ReduceMin(seq(size, rank requires 0 <= rank < size => LocalMin(dist, visited, rank, size)))
  }

  // ---------------------------------------------------------------------
  // Specification of the selection

  /** Vertex `i` may be selected: unvisited with a finite distance. */
  predicate Candidate(dist: seq<Dist>, visited: seq<bool>, i: int)
  {
    0 <= i < |dist| && i < |visited| && !visited[i] && dist[i].Fin?
  }

  /** `c` is the least `(dist[i], i)` over the candidates in `pool`, or
      `(INFINITY, -1)` when the pool holds no candidate. */
  ghost predicate IsLeast(dist: seq<Dist>, visited: seq<bool>, c: Cand, pool: set<nat>)
  {
    if c == NoCand then
      forall i :: i in pool ==> !Candidate(dist, visited, i)
    else
      && c.1 in pool && Candidate(dist, visited, c.1) && c.0 == dist[c.1]
      && forall i :: i in pool && Candidate(dist, visited, i) ==> !CandLess((dist[i], i), c)
  }

  /** The least candidate of a pool is unique. */
  lemma LeastUnique(dist: seq<Dist>, visited: seq<bool>, c: Cand, c': Cand, pool: set<nat>)
    requires IsLeast(dist, visited, c, pool) && IsLeast(dist, visited, c', pool)
    ensures c == c'
  {
    if c != NoCand && c' != NoCand {
      assert !CandLess((dist[c'.1], c'.1), c);
      assert !CandLess((dist[c.1], c.1), c');
      Trichotomy(c.0, c'.0);
    }
  }

  /** The vertex indices `0 .. n-1`. */
  function Below(n: nat): (r: set<nat>)
    ensures forall i: nat :: i in r <==> i < n
    ensures |r| == n
  {
    if n == 0 then {} else Below(n - 1) + {n - 1}
  }

  function Elems(s: seq<nat>): set<nat>
  {
    set t | 0 <= t < |s| :: s[t]
  }

  /** The scan over increasing indices yields the least candidate of
      everything scanned so far: a strictly smaller distance replaces the
      running pair, and on equal distances the earlier index stays. */
  lemma {:induction false} LocalMinFromSpec(dist: seq<Dist>, visited: seq<bool>, idx: seq<nat>, acc: Cand, pool: set<nat>)
    requires Shaped(dist, visited, idx)
    requires IsLeast(dist, visited, acc, pool)
    requires forall s, t :: 0 <= s < t < |idx| ==> idx[s] < idx[t]
    requires forall i, t :: i in pool && 0 <= t < |idx| ==> i < idx[t]
    ensures IsLeast(dist, visited, LocalMinFrom(dist, visited, idx, acc), pool + Elems(idx))
    decreases |idx|
  {
    if idx == [] {
      assert Elems(idx) == {};
      assert pool + Elems(idx) == pool;
    } else {
      var i := idx[0];
      var acc' := if !visited[i] && Less(dist[i], acc.0) then (dist[i], i) else acc;
      var pool' := pool + {i};
      forall j | j in pool' && Candidate(dist, visited, j)
        ensures !CandLess((dist[j], j), acc')
      {
        if acc' != acc && j in pool {
          LeTrans(dist[i], acc.0, dist[j]);
        }
      }
      assert IsLeast(dist, visited, acc', pool');
      forall j, t | j in pool' && 0 <= t < |idx[1..]|
        ensures j < idx[1..][t]
      {
        assert idx[1..][t] == idx[t + 1];
      }
      LocalMinFromSpec(dist, visited, idx[1..], acc', pool');
      assert pool' + Elems(idx[1..]) == pool + Elems(idx) by {
        assert idx == [i] + idx[1..];
        forall x | x in Elems(idx)
          ensures x == i || x in Elems(idx[1..])
        {
          var t :| 0 <= t < |idx| && idx[t] == x;
          if t > 0 {
            assert idx[1..][t - 1] == x;
          }
        }
      }
    }
  }

  /** The pool a rank scans: its stripe. */
  lemma StripeElems(n: nat, rank: nat, size: nat)
    requires rank < size
    ensures Elems(Stride(rank, n, size)) == set i: nat | i < n && i % size == rank
  {
    var s := Stride(rank, n, size);
    forall i: nat
      ensures i in Elems(s) <==> i < n && i % size == rank
    {
      StrideMembers(rank, n, size, i);
      if i in s {
        var t :| 0 <= t < |s| && s[t] == i;
      }
    }
  }

  lemma LocalMinSpec(dist: seq<Dist>, visited: seq<bool>, rank: nat, size: nat)
    requires |dist| == |visited| && rank < size
    ensures IsLeast(dist, visited, LocalMin(dist, visited, rank, size), StripeOf(|dist|, size, rank))
  {
    var s := Stride(rank, |dist|, size);
    StrideIncreasing(rank, |dist|, size);
    LocalMinFromSpec(dist, visited, s, NoCand, {});
    StripeElems(|dist|, rank, size);
    assert {} + Elems(s) == Elems(s);
  }

  /** MIN of two least pairs is the least pair of the union of the pools. */
  lemma CandMinLeast(dist: seq<Dist>, visited: seq<bool>, a: Cand, p: set<nat>, b: Cand, q: set<nat>)
    requires IsLeast(dist, visited, a, p) && IsLeast(dist, visited, b, q)
    ensures IsLeast(dist, visited, CandMin(a, b), p + q)
  {
    var m := CandMin(a, b);
    if m != NoCand {
      forall i | i in p + q && Candidate(dist, visited, i)
        ensures !CandLess((dist[i], i), m)
      {
        Trichotomy(a.0, b.0);
        if i in p {
          assert !CandLess((dist[i], i), a);
        } else {
          assert !CandLess((dist[i], i), b);
        }
      }
    }
  }

  /** The indices below `n` owned by rank `r` out of `size`. */
  ghost function StripeOf(n: nat, size: nat, r: nat): set<nat>
    requires size >= 1
  {
    set i: nat | i < n && i % size == r
  }

  /** The indices below `n` owned by ranks `0 .. k-1` out of `size`. */
  ghost function StripesBelow(n: nat, size: nat, k: nat): set<nat>
    requires size >= 1
  {
    set i: nat | i < n && i % size < k
  }

  /** The stripes of ranks `0 .. k-2` and of rank `k-1` make up those of
      ranks `0 .. k-1`. */
  lemma StripesSplit(n: nat, size: nat, k: nat)
    requires size >= 1 && k >= 1
    ensures StripesBelow(n, size, k - 1) + StripeOf(n, size, k - 1) == StripesBelow(n, size, k)
  {
  }

  /** Folding MIN over the candidates of ranks `0 .. k-1`, each least in
      its own stripe, gives the least candidate of all their stripes. */
  lemma {:induction false} ReduceLeast(dist: seq<Dist>, visited: seq<bool>, cs: seq<Cand>, size: nat)
    requires size >= 1 && |cs| >= 1
    requires forall r :: 0 <= r < |cs| ==> IsLeast(dist, visited, cs[r], StripeOf(|dist|, size, r))
    ensures IsLeast(dist, visited, ReduceMin(cs), StripesBelow(|dist|, size, |cs|))
    decreases |cs|
  {
    var k := |cs|;
    StripesSplit(|dist|, size, k);
    if k == 1 {
      assert StripesBelow(|dist|, size, 0) == {};
    } else {
      var init := cs[..k - 1];
      ReduceLeast(dist, visited, init, size);
      CandMinLeast(dist, visited, ReduceMin(init), StripesBelow(|dist|, size, k - 1),
                   cs[k - 1], StripeOf(|dist|, size, k - 1));
    }
  }

  /** The allreduce yields the unvisited vertex of least finite distance,
      smallest index on ties, or `(INFINITY, -1)` when every unvisited
      vertex is at `INFINITY` — whatever the number of ranks. */
  lemma GlobalMinSpec(dist: seq<Dist>, visited: seq<bool>, size: nat)
    requires |dist| == |visited| && size >= 1
    ensures IsLeast(dist, visited, GlobalMin(dist, visited, size), Below(|dist|))
  {
    var cs := seq(size, rank requires 0 <= rank < size => LocalMin(dist, visited, rank, size));
    forall r | 0 <= r < size
      ensures IsLeast(dist, visited, cs[r], StripeOf(|dist|, size, r))
    {
      LocalMinSpec(dist, visited, r, size);
    }
    ReduceLeast(dist, visited, cs, size);
    assert StripesBelow(|dist|, size, size) == Below(|dist|);
  }

  /** Consequently every rank count selects the same vertex as one rank. */
  lemma SelectionIndependentOfSize(dist: seq<Dist>, visited: seq<bool>, size: nat)
    requires |dist| == |visited| && size >= 1
    ensures GlobalMin(dist, visited, size) == GlobalMin(dist, visited, 1)
  {
    GlobalMinSpec(dist, visited, size);
    GlobalMinSpec(dist, visited, 1);
    LeastUnique(dist, visited, GlobalMin(dist, visited, size), GlobalMin(dist, visited, 1), Below(|dist|));
  }
}
