/** Python's `range(start, stop, step)` and the round-robin partition
    `range(rank, n, size)` that every MPI rank iterates over. */
module Strides {

  /** The indices `range(start, stop, step)` visits, in order. */
  function Stride(start: nat, stop: nat, step: nat): (s: seq<nat>)
    requires step >= 1
    ensures forall t :: 0 <= t < |s| ==> start <= s[t] < stop
    decreases stop - start
  {
    if start >= stop then [] else [start] + Stride(start + step, stop, step)
  }

  /** `range(rank, n, size)` visits exactly the indices below `n` that are
      congruent to `rank` modulo `size`. */
  lemma {:induction false} StrideMembers(start: nat, stop: nat, step: nat, v: nat)
    requires 0 <= start < step
    ensures v in Stride(start, stop, step) <==> v < stop && v % step == start
  {
    StrideMembersFrom(start, stop, step, v, 0);
  }

  /** Generalisation used for the induction: the stride started at
      `start + m * step` holds the congruent indices from there on. */
  lemma {:induction false} StrideMembersFrom(start: nat, stop: nat, step: nat, v: nat, m: nat)
    requires 0 <= start < step
    ensures v in Stride(start + m * step, stop, step)
            <==> start + m * step <= v < stop && v % step == start
    decreases stop - (start + m * step)
  {
    var b := start + m * step;
    if b >= stop {
    } else {
      assert Stride(b, stop, step) == [b] + Stride(start + (m + 1) * step, stop, step) by {
        assert b + step == start + (m + 1) * step;
      }
      StrideMembersFrom(start, stop, step, v, m + 1);
      ModOfMultiple(start, step, m);
      if v % step == start && b < v {
        ModStep(start, step, m, v);
      }
    }
  }

  lemma ModOfMultiple(start: nat, step: nat, m: nat)
    requires 0 <= start < step
    ensures (start + m * step) % step == start
  {
    ModUnique(start + m * step, m, start, step);
  }

  /** Euclidean remainder is determined by any quotient/remainder split. */
  lemma ModUnique(x: nat, q: nat, r: nat, step: nat)
    requires 0 <= r < step && x == q * step + r
    ensures x % step == r
  {
    var q', r' := x / step, x % step;
    assert x == q' * step + r';
    if q > q' {
      MulMono(q' + 1, q, step);
    } else if q < q' {
      MulMono(q + 1, q', step);
    }
    assert q == q';
  }

  /** Between two consecutive congruent values there is no other. */
  lemma ModStep(start: nat, step: nat, m: nat, v: nat)
    requires 0 <= start < step
    requires v % step == start && start + m * step < v
    ensures start + (m + 1) * step <= v
  {
    var q := v / step;
    assert v == q * step + start;
    if q <= m {
      MulMono(q, m, step);
    }
    assert m < q;
    MulMono(m + 1, q, step);
  }

  lemma MulMono(a: nat, b: nat, c: nat)
    requires a <= b
    ensures a * c <= b * c
  {
  }

  /** The stripe a vertex belongs to. */
  function Owner(v: nat, size: nat): (r: nat)
    requires size >= 1
    ensures r < size
  {
    v % size
  }

  /** Every index below `n` lies in exactly one rank's stripe: the stripes
      of ranks `0 .. size-1` partition `range(n)`. */
  lemma StripesPartition(n: nat, size: nat, v: nat)
    requires size >= 1 && v < n
    ensures v in Stride(Owner(v, size), n, size)
    ensures forall r: nat :: r < size && r != Owner(v, size) ==> v !in Stride(r, n, size)
  {
    StrideMembers(Owner(v, size), n, size, v);
    forall r: nat | r < size && r != Owner(v, size)
      ensures v !in Stride(r, n, size)
    {
      StrideMembers(r, n, size, v);
    }
  }

  /** With one rank the stripe is the whole of `range(n)`, in order. */
  lemma {:induction false} SingleStrideIsRange(start: nat, n: nat)
    requires start <= n
    ensures |Stride(start, n, 1)| == n - start
    ensures forall t :: 0 <= t < n - start ==> Stride(start, n, 1)[t] == start + t
    decreases n - start
  {
    if start < n {
      SingleStrideIsRange(start + 1, n);
    }
  }

  /** Python's `range(n)`: the indices `0 .. n-1`, in order. */
  function Range(n: nat): seq<nat>
  {
    seq(n, t requires 0 <= t < n => t as nat)
  }

  /** `range(0, n, 1)` is `range(n)`: a single rank owns every index. */
  lemma StrideOneIsRange(n: nat)
    ensures Stride(0, n, 1) == Range(n)
  {
    SingleStrideIsRange(0, n);
  }

  /** The indices of a stride strictly increase. */
  lemma {:induction false} StrideIncreasing(start: nat, stop: nat, step: nat)
    requires step >= 1
    ensures forall s, t :: 0 <= s < t < |Stride(start, stop, step)| ==>
              Stride(start, stop, step)[s] < Stride(start, stop, step)[t]
    decreases stop - start
  {
    if start < stop {
      StrideIncreasing(start + step, stop, step);
    }
  }
}
