/** The sequential view's Dijkstra with a binary heap: pop the least
    `(dist, vertex)` entry, skip it when the vertex was already expanded,
    else expand the vertex by relaxing every edge out of it and pushing each
    improved target. */
module DijkstraHeap {
  import opened Dists
  import opened Walks
  import opened DijkstraSelect
  import Dijkstra
  import DijkstraPaths

  /** Index of the first least entry under tuple order: the entry
      `heapq.heappop` returns. */
  function MinIndexFrom(h: seq<Cand>, i: nat, best: nat): (r: nat)
    requires best < |h| && i <= |h|
    ensures r < |h|
    decreases |h| - i
  {
    if i == |h| then best
    else MinIndexFrom(h, i + 1, if CandLess(h[i], h[best]) then i else best)
  }

  function MinIndex(h: seq<Cand>): (r: nat)
    requires |h| >= 1
    ensures r < |h|
  {
    MinIndexFrom(h, 1, 0)
  }

  lemma {:induction false} MinIndexFromSpec(h: seq<Cand>, i: nat, best: nat)
    requires best < i <= |h|
    requires forall j :: 0 <= j < i ==> !CandLess(h[j], h[best])
    ensures forall j :: 0 <= j < |h| ==> !CandLess(h[j], h[MinIndexFrom(h, i, best)])
    decreases |h| - i
  {
    if i < |h| {
      var b := if CandLess(h[i], h[best]) then i else best;
      forall j | 0 <= j < i + 1
        ensures !CandLess(h[j], h[b])
      {
        if b == i && j < i {
          Trichotomy(h[j].0, h[best].0);
          Trichotomy(h[i].0, h[best].0);
          Trichotomy(h[j].0, h[i].0);
        }
      }
      MinIndexFromSpec(h, i + 1, b);
    }
  }

  /** The popped entry is no greater than any entry of the heap. */
  lemma MinIndexSpec(h: seq<Cand>)
    requires |h| >= 1
    ensures forall j :: 0 <= j < |h| ==> !CandLess(h[j], h[MinIndex(h)])
  {
    MinIndexFromSpec(h, 1, 0);
  }

  /** `for v in range(j, n): if graph[u][v] != inf: new_dist = dist[u] + graph[u][v];
      if new_dist < dist[v]: dist[v] = new_dist; heappush(heap, (new_dist, v))`.
      Targets are not checked against `visited`. */
  function Expand(g: Matrix, d: seq<Dist>, h: seq<Cand>, u: nat, j: nat): (r: (seq<Dist>, seq<Cand>))
    requires IsSquare(g) && |d| == |g| && u < |g| && j <= |g|
    ensures |r.0| == |d|
    decreases |g| - j
  {
    if j == |g| then (d, h)
    else
      var w := g[u][j];
      var nd := Add(d[u], w);
      if w != Inf && Less(nd, d[j]) then Expand(g, d[j := nd], h + [(nd, j)], u, j + 1)
      else Expand(g, d, h, u, j + 1)
  }

  /** What one sweep does for any weights: it only appends to the heap,
      every appended entry is finite, names a vertex and is no lower than
      that vertex's distance, distances never rise, and every changed
      distance has its `(dist, v)` entry in the heap. */
  lemma {:induction false} ExpandProps(g: Matrix, d: seq<Dist>, h: seq<Cand>, u: nat, j: nat)
    requires IsSquare(g) && |d| == |g| && u < |g| && j <= |g|
    ensures |Expand(g, d, h, u, j).1| >= |h| && Expand(g, d, h, u, j).1[..|h|] == h
    ensures forall t :: |h| <= t < |Expand(g, d, h, u, j).1| ==>
      var e := Expand(g, d, h, u, j).1[t];
      0 <= e.1 < |g| && e.0.Fin? && Le(Expand(g, d, h, u, j).0[e.1], e.0)
    ensures forall v :: 0 <= v < |g| ==> Le(Expand(g, d, h, u, j).0[v], d[v])
    ensures forall v :: 0 <= v < |g| && Expand(g, d, h, u, j).0[v] != d[v] ==>
      (Expand(g, d, h, u, j).0[v], v) in Expand(g, d, h, u, j).1
    decreases |g| - j
  {
    if j < |g| {
      var w := g[u][j];
      var nd := Add(d[u], w);
      if w != Inf && Less(nd, d[j]) {
        var d' := d[j := nd];
        var h' := h + [(nd, j)];
        ExpandProps(g, d', h', u, j + 1);
        var r := Expand(g, d', h', u, j + 1);
        assert r.1[..|h'|] == h';
        assert r.1[..|h|] == h by {
          assert r.1[..|h|] == r.1[..|h'|][..|h|];
        }
        assert r.1[|h|] == (nd, j);
        forall v | 0 <= v < |g|
          ensures Le(r.0[v], d[v])
        {
          LeTrans(r.0[v], d'[v], d[v]);
        }
        forall v | 0 <= v < |g| && r.0[v] != d[v]
          ensures (r.0[v], v) in r.1
        {
          if r.0[v] == d'[v] {
            assert v == j;
            assert r.1[|h|] == (r.0[v], v);
          }
        }
      } else {
        ExpandProps(g, d, h, u, j + 1);
      }
    }
  }

  /** What one sweep adds when no weight is negative: `dist[u]` stays put,
      every target ends at most `dist[u] + w`, every pushed key is at least
      `dist[u]`, and a distance changes only to `dist[u] + w`, strictly lower. */
  lemma {:induction false} ExpandNonNeg(g: Matrix, d: seq<Dist>, h: seq<Cand>, u: nat, j: nat)
    requires IsSquare(g) && |d| == |g| && u < |g| && j <= |g| && NonNegMatrix(g)
    ensures Expand(g, d, h, u, j).0[u] == d[u]
    ensures forall v :: j <= v < |g| ==> Le(Expand(g, d, h, u, j).0[v], Add(d[u], g[u][v]))
    ensures forall t :: |h| <= t < |Expand(g, d, h, u, j).1| ==> Le(d[u], Expand(g, d, h, u, j).1[t].0)
    ensures forall v :: 0 <= v < |g| && Expand(g, d, h, u, j).0[v] != d[v] ==>
      Less(Add(d[u], g[u][v]), d[v]) && Le(Expand(g, d, h, u, j).0[v], Add(d[u], g[u][v]))
    decreases |g| - j
  {
    if j < |g| {
      var w := g[u][j];
      var nd := Add(d[u], w);
      AddNonNeg(d[u], w);
      ExpandProps(g, d, h, u, j);
      if w != Inf && Less(nd, d[j]) {
        var d' := d[j := nd];
        var h' := h + [(nd, j)];
        assert d'[u] == d[u];
        ExpandNonNeg(g, d', h', u, j + 1);
        ExpandProps(g, d', h', u, j + 1);
        var r := Expand(g, d', h', u, j + 1);
        assert r.1[..|h'|] == h';
        forall t | |h| <= t < |r.1|
          ensures Le(d[u], r.1[t].0)
        {
          if t == |h| {
            assert r.1[t] == h'[t];
          }
        }
        forall v | j <= v < |g|
          ensures Le(r.0[v], Add(d[u], g[u][v]))
        {
          if v == j {
            assert Le(r.0[v], d'[v]);
          }
        }
        forall v | 0 <= v < |g| && r.0[v] != d[v]
          ensures Less(Add(d[u], g[u][v]), d[v]) && Le(r.0[v], Add(d[u], g[u][v]))
        {
          if v != j {
            assert r.0[v] != d'[v];
          } else {
            assert Le(r.0[v], d'[v]);
          }
        }
      } else {
        ExpandNonNeg(g, d, h, u, j + 1);
        var r := Expand(g, d, h, u, j + 1);
        if w != Inf {
          assert Le(d[j], nd);
          assert Le(r.0[j], d[j]);
          LeTrans(r.0[j], d[j], nd);
        }
      }
    }
  }

  lemma {:induction false} ExpandWitnessed(g: Matrix, src: nat, d: seq<Dist>, h: seq<Cand>, u: nat, j: nat)
    requires IsSquare(g) && |d| == |g| && u < |g| && j <= |g| && Witnessed(g, src, d)
    ensures Witnessed(g, src, Expand(g, d, h, u, j).0)
    decreases |g| - j
  {
    if j < |g| {
      var w := g[u][j];
      var nd := Add(d[u], w);
      if w != Inf && Less(nd, d[j]) {
        ExtendWitness(g, src, d[u], u, j);
        ExpandWitnessed(g, src, d[j := nd], h + [(nd, j)], u, j + 1);
      } else {
        ExpandWitnessed(g, src, d, h, u, j + 1);
      }
    }
  }

  /** The heap loop's invariant when no weight is negative: every expanded
      vertex is no farther than any key still in the heap, and no edge out
      of an expanded vertex can lower a distance. */
  ghost predicate Ordered(g: Matrix, dist: seq<Dist>, visited: set<nat>, heap: seq<Cand>)
    requires IsSquare(g) && |dist| == |g|
  {
    && (forall x, t :: x in visited && x < |g| && 0 <= t < |heap| ==> Le(dist[x], heap[t].0))
    && (forall x, v :: x in visited && x < |g| && 0 <= v < |g| ==> Le(dist[v], Add(dist[x], g[x][v])))
  }

  /** The part of the heap loop's invariant that holds for any weights:
      expanded vertices are finite, heap keys are finite and never below
      their vertex's distance, every finite unexpanded vertex has its own
      distance in the heap, and the distances are walk weights. */
  ghost predicate Core(g: Matrix, dist: seq<Dist>, visited: set<nat>, heap: seq<Cand>)
  {
    && IsSquare(g) && |g| >= 1 && |dist| == |g|
    && (forall x :: x in visited ==> x < |g| && dist[x].Fin?)
    && (forall t :: 0 <= t < |heap| ==> 0 <= heap[t].1 < |g| && heap[t].0.Fin? && Le(dist[heap[t].1], heap[t].0))
    && (forall v :: 0 <= v < |g| && v !in visited && dist[v].Fin? ==> (dist[v], v) in heap)
    && Witnessed(g, 0, dist) && Le(dist[0], Fin(0))
  }

  /** The heap loop's invariant. */
  ghost predicate Inv(g: Matrix, dist: seq<Dist>, visited: set<nat>, heap: seq<Cand>)
  {
    && Core(g, dist, visited, heap)
    && (NonNegMatrix(g) ==> Ordered(g, dist, visited, heap))
  }

  /** The start: only vertex 0 at distance 0, its entry alone in the heap. */
  lemma InitInv(g: Matrix)
    requires IsSquare(g) && |g| >= 1
    ensures Inv(g, InitDist(|g|, 0), {}, [(Fin(0), 0)])
  {
    InitWitnessed(g, 0);
    var d := InitDist(|g|, 0);
    forall v | 0 <= v < |g| && d[v].Fin?
      ensures (d[v], v) in [(Fin(0), 0)]
    {
      assert v == 0;
    }
  }

  /** Discarding the popped entry of an already expanded vertex keeps the
      invariant. */
  lemma SkipKeepsInv(g: Matrix, dist: seq<Dist>, visited: set<nat>, heap: seq<Cand>, i: nat)
    requires Inv(g, dist, visited, heap) && i < |heap| && heap[i].1 in visited
    ensures Inv(g, dist, visited, heap[..i] + heap[i + 1..])
  {
    var rest := heap[..i] + heap[i + 1..];
    forall t | 0 <= t < |rest|
      ensures rest[t] == heap[if t < i then t else t + 1]
    {
    }
    forall v | 0 <= v < |g| && v !in visited && dist[v].Fin?
      ensures (dist[v], v) in rest
    {
      var t :| 0 <= t < |heap| && heap[t] == (dist[v], v);
      assert t != i;
      assert rest[if t < i then t else t - 1] == heap[t];
    }
  }

  /** The least key in the heap is its vertex's current distance. */
  lemma PoppedIsDist(g: Matrix, dist: seq<Dist>, visited: set<nat>, heap: seq<Cand>, i: nat)
    requires Core(g, dist, visited, heap) && i < |heap| && heap[i].1 !in visited
    requires forall j :: 0 <= j < |heap| ==> !CandLess(heap[j], heap[i])
    ensures dist[heap[i].1] == heap[i].0
  {
    var u := heap[i].1;
    assert dist[u].Fin? && Le(dist[u], heap[i].0);
    assert (dist[u], u) in heap;
  }

  /** Expanding the popped vertex keeps the weight-independent part. */
  lemma ExpandKeepsCore(g: Matrix, dist: seq<Dist>, visited: set<nat>, heap: seq<Cand>, i: nat)
    requires Core(g, dist, visited, heap) && i < |heap| && heap[i].1 !in visited
    requires dist[heap[i].1] == heap[i].0
    ensures var u: nat := heap[i].1;
            var r := Expand(g, dist, heap[..i] + heap[i + 1..], u, 0);
            Core(g, r.0, visited + {u}, r.1)
  {
    var u: nat := heap[i].1;
    var rest := heap[..i] + heap[i + 1..];
    var r := Expand(g, dist, rest, u, 0);
    var vis := visited + {u};
    forall t | 0 <= t < |rest|
      ensures rest[t] == heap[if t < i then t else t + 1]
    {
    }
    ExpandProps(g, dist, rest, u, 0);
    ExpandWitnessed(g, 0, dist, rest, u, 0);
    assert forall t :: 0 <= t < |rest| ==> r.1[t] == rest[t];
    forall x | x in vis
      ensures x < |g| && r.0[x].Fin?
    {
      assert Le(r.0[x], dist[x]);
    }
    forall v | 0 <= v < |g| && v !in vis && r.0[v].Fin?
      ensures (r.0[v], v) in r.1
    {
      if r.0[v] == dist[v] {
        var t :| 0 <= t < |heap| && heap[t] == (dist[v], v);
        assert t != i;
        assert rest[if t < i then t else t - 1] == heap[t];
        assert r.1[if t < i then t else t - 1] == heap[t];
      }
    }
    forall t | 0 <= t < |r.1|
      ensures 0 <= r.1[t].1 < |g| && r.1[t].0.Fin? && Le(r.0[r.1[t].1], r.1[t].0)
    {
      if t < |rest| {
        LeTrans(r.0[rest[t].1], dist[rest[t].1], rest[t].0);
      }
    }
    LeTrans(r.0[0], dist[0], Fin(0));
  }

  /** Without negative weights, expanding the least entry moves no
      expanded distance, and every expanded vertex is no farther than the
      popped key. */
  lemma ExpandedStay(g: Matrix, dist: seq<Dist>, visited: set<nat>, heap: seq<Cand>, i: nat)
    requires Inv(g, dist, visited, heap) && NonNegMatrix(g) && i < |heap| && heap[i].1 !in visited
    requires forall j :: 0 <= j < |heap| ==> !CandLess(heap[j], heap[i])
    requires dist[heap[i].1] == heap[i].0
    ensures var u: nat := heap[i].1;
            var r := Expand(g, dist, heap[..i] + heap[i + 1..], u, 0);
            forall x :: x in visited + {u} && x < |g| ==> r.0[x] == dist[x] && Le(dist[x], heap[i].0)
  {
    var u: nat := heap[i].1;
    var cur := heap[i].0;
    var rest := heap[..i] + heap[i + 1..];
    var r := Expand(g, dist, rest, u, 0);
    ExpandNonNeg(g, dist, rest, u, 0);
    forall x | x in visited + {u} && x < |g|
      ensures r.0[x] == dist[x] && Le(dist[x], cur)
    {
      if x != u {
        assert Le(dist[x], cur);
        AddNonNeg(dist[u], g[u][x]);
        if r.0[x] != dist[x] {
          LeTrans(dist[x], dist[u], Add(dist[u], g[u][x]));
        }
      }
    }
  }

  /** Without negative weights, every key left after expanding the least
      entry is at least the popped key. */
  lemma ExpandKeysAbove(g: Matrix, dist: seq<Dist>, heap: seq<Cand>, i: nat)
    requires IsSquare(g) && |dist| == |g| && NonNegMatrix(g) && i < |heap| && 0 <= heap[i].1 < |g|
    requires forall j :: 0 <= j < |heap| ==> !CandLess(heap[j], heap[i])
    requires dist[heap[i].1] == heap[i].0
    ensures var u: nat := heap[i].1;
            var r := Expand(g, dist, heap[..i] + heap[i + 1..], u, 0);
            forall t :: 0 <= t < |r.1| ==> Le(heap[i].0, r.1[t].0)
  {
    var u: nat := heap[i].1;
    var cur := heap[i].0;
    var rest := heap[..i] + heap[i + 1..];
    var r := Expand(g, dist, rest, u, 0);
    forall t | 0 <= t < |rest|
      ensures Le(cur, rest[t].0)
    {
      assert rest[t] == heap[if t < i then t else t + 1];
      assert !CandLess(heap[if t < i then t else t + 1], heap[i]);
    }
    ExpandProps(g, dist, rest, u, 0);
    ExpandNonNeg(g, dist, rest, u, 0);
    forall t | 0 <= t < |r.1|
      ensures Le(cur, r.1[t].0)
    {
      if t < |rest| {
        assert r.1[t] == rest[t];
      }
    }
  }

  /** Without negative weights, expanding the least entry keeps the order
      part: the expanded vertices are no farther than anything left, and
      edges out of expanded vertices stay relaxed. */
  lemma ExpandKeepsOrder(g: Matrix, dist: seq<Dist>, visited: set<nat>, heap: seq<Cand>, i: nat)
    requires Inv(g, dist, visited, heap) && NonNegMatrix(g) && i < |heap| && heap[i].1 !in visited
    requires forall j :: 0 <= j < |heap| ==> !CandLess(heap[j], heap[i])
    requires dist[heap[i].1] == heap[i].0
    ensures var u: nat := heap[i].1;
            var r := Expand(g, dist, heap[..i] + heap[i + 1..], u, 0);
            |r.0| == |g| && Ordered(g, r.0, visited + {u}, r.1)
  {
    var u: nat := heap[i].1;
    var cur := heap[i].0;
    var rest := heap[..i] + heap[i + 1..];
    var r := Expand(g, dist, rest, u, 0);
    var vis := visited + {u};
    ExpandedStay(g, dist, visited, heap, i);
    ExpandKeysAbove(g, dist, heap, i);
    forall x, t | x in vis && x < |g| && 0 <= t < |r.1|
      ensures Le(r.0[x], r.1[t].0)
    {
      LeTrans(dist[x], cur, r.1[t].0);
    }
    ExpandNonNeg(g, dist, rest, u, 0);
    ExpandProps(g, dist, rest, u, 0);
    forall x, v | x in vis && x < |g| && 0 <= v < |g|
      ensures Le(r.0[v], Add(r.0[x], g[x][v]))
    {
      if x != u {
        assert Le(dist[v], Add(dist[x], g[x][v]));
        LeTrans(r.0[v], dist[v], Add(dist[x], g[x][v]));
      }
    }
  }

  /** Expanding the popped vertex keeps the invariant. */
  lemma ExpandKeepsInv(g: Matrix, dist: seq<Dist>, visited: set<nat>, heap: seq<Cand>, i: nat)
    requires Inv(g, dist, visited, heap) && i < |heap| && heap[i].1 !in visited
    requires forall j :: 0 <= j < |heap| ==> !CandLess(heap[j], heap[i])
    ensures var u: nat := heap[i].1;
            var r := Expand(g, dist, heap[..i] + heap[i + 1..], u, 0);
            Inv(g, r.0, visited + {u}, r.1)
  {
    PoppedIsDist(g, dist, visited, heap, i);
    ExpandKeepsCore(g, dist, visited, heap, i);
    if NonNegMatrix(g) {
      ExpandKeepsOrder(g, dist, visited, heap, i);
    }
  }

  /** When the heap is empty, every expanded vertex is finite and every
      finite vertex has been expanded; with non-negative weights the
      distances are the shortest-walk distances, the ones the MPI engine
      returns. */
  lemma InvAtExit(g: Matrix, dist: seq<Dist>, visited: set<nat>)
    requires Inv(g, dist, visited, [])
    ensures forall v :: 0 <= v < |g| ==> (v in visited <==> dist[v].Fin?)
    ensures NonNegMatrix(g) ==> BelowWalks(g, 0, dist) && dist[0] == Fin(0)
    ensures NonNegMatrix(g) ==> dist == Dijkstra.DijkstraMpi(g, 0, 1)
  {
    if NonNegMatrix(g) {
      assert NoRelaxable(g, dist);
      FixpointBelowWalks(g, 0, dist);
      SourceAtZero(g, 0, dist);
      DijkstraPaths.DijkstraMpiCorrect(g, 0, 1);
      ShortestUnique(g, 0, dist, Dijkstra.DijkstraMpi(g, 0, 1));
    }
  }

  /** `order` lists the expanded vertices, each once. */
  ghost predicate Tracks(visited: set<nat>, order: seq<nat>, n: nat)
  {
    && (forall s, t :: 0 <= s < t < |order| ==> order[s] != order[t])
    && (forall x :: x in visited <==> x in order)
    && (forall t :: 0 <= t < |order| ==> order[t] < n)
  }

  /** Expanding a new vertex below `n` extends the record by one and the
      expanded set stays within `n` vertices. */
  lemma TracksAppend(visited: set<nat>, order: seq<nat>, n: nat, u: nat)
    requires Tracks(visited, order, n) && u !in visited && u < n
    requires forall x :: x in visited ==> x < n
    ensures Tracks(visited + {u}, order + [u], n)
    ensures |visited + {u}| == |visited| + 1 <= n
  {
    CardBound(visited + {u}, n);
  }

  /** What the loop leaves behind once the heap is empty. */
  lemma TracksAtExit(g: Matrix, dist: seq<Dist>, visited: set<nat>, order: seq<nat>)
    requires Inv(g, dist, visited, []) && Tracks(visited, order, |g|)
    ensures |dist| == |g|
    ensures forall s, t :: 0 <= s < t < |order| ==> order[s] != order[t]
    ensures forall v :: 0 <= v < |g| ==> (v in order <==> dist[v].Fin?)
    ensures forall t :: 0 <= t < |order| ==> order[t] < |g|
    ensures Witnessed(g, 0, dist)
    ensures NonNegMatrix(g) ==> BelowWalks(g, 0, dist) && dist[0] == Fin(0)
    ensures NonNegMatrix(g) ==> dist == Dijkstra.DijkstraMpi(g, 0, 1)
  {
    InvAtExit(g, dist, visited);
  }

  /** One round of the heap loop: pop the least entry, then either skip it
      (its vertex was expanded before) or expand its vertex. Either the
      expanded set grows by one vertex or it stays and the heap shrinks. */
  method PopStep(g: Matrix, dist: seq<Dist>, visited: set<nat>, heap: seq<Cand>, order: seq<nat>)
    returns (dist': seq<Dist>, visited': set<nat>, heap': seq<Cand>, order': seq<nat>)
    requires heap != [] && Inv(g, dist, visited, heap) && Tracks(visited, order, |g|)
    ensures Inv(g, dist', visited', heap') && Tracks(visited', order', |g|)
    ensures || (|visited| < |visited'| <= |g|)
            || (visited' == visited && |heap'| < |heap|)
  {
    var i := MinIndex(heap);
    MinIndexSpec(heap);
    var u := heap[i].1;
    var rest := heap[..i] + heap[i + 1..];
    if u in visited {
      SkipKeepsInv(g, dist, visited, heap, i);
      dist', visited', heap', order' := dist, visited, rest, order;
    } else {
      ExpandKeepsInv(g, dist, visited, heap, i);
      TracksAppend(visited, order, |g|, u);
      var r := Expand(g, dist, rest, u, 0);
      dist', visited', heap', order' := r.0, visited + {u}, r.1, order + [u];
    }
  }

  /** The sequential view's Dijkstra from vertex 0. Returns the distances
      and the vertices in the order they were expanded. */
  method DijkstraCpu(g: Matrix) returns (dist: seq<Dist>, order: seq<nat>)
    requires IsSquare(g) && |g| >= 1
    ensures |dist| == |g|
    ensures forall s, t :: 0 <= s < t < |order| ==> order[s] != order[t]
    ensures forall v :: 0 <= v < |g| ==> (v in order <==> dist[v].Fin?)
    ensures forall t :: 0 <= t < |order| ==> order[t] < |g|
    ensures Witnessed(g, 0, dist)
    ensures NonNegMatrix(g) ==> BelowWalks(g, 0, dist) && dist[0] == Fin(0)
    ensures NonNegMatrix(g) ==> dist == Dijkstra.DijkstraMpi(g, 0, 1)
  {
    dist := InitDist(|g|, 0);
    var visited: set<nat> := {};
    var heap: seq<Cand> := [(Fin(0), 0)];
    order := [];
    InitInv(g);
    while heap != []
      invariant Inv(g, dist, visited, heap)
      invariant Tracks(visited, order, |g|)
      invariant |visited| <= |g|
      decreases |g| - |visited|, |heap|
    {
      dist, visited, heap, order := PopStep(g, dist, visited, heap, order);
    }
    TracksAtExit(g, dist, visited, order);
  }
}
