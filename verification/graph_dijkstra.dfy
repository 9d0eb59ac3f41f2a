/** `dijkstra_trace` of Q4_GraphAlgorithms.cpp without its printing: the
    quadratic Dijkstra over the adjacency matrix, stopping once the target is
    processed, and the walk back along `prev`. */
module GraphDijkstra {
  import opened Common
  import opened GraphMatrix
  import opened Marks

  /** Every edge weighs at least zero. */
  ghost predicate NonNegative(g: Graph)
    requires Wf(g)
  {
    forall u, v | 0 <= u < |g.names| && 0 <= v < |g.names| && IsEdge(g, u, v) :: g.adj[u][v] >= 0
  }

  // ---------------------------------------------------------------------
  // Paths
  // ---------------------------------------------------------------------

  /** A non-empty vertex sequence whose consecutive vertices are joined by
      edges, stated one edge at a time from the end. */
  ghost predicate IsPath(g: Graph, p: seq<int>)
    requires Wf(g)
  {
    && |p| >= 1
    && 0 <= p[|p| - 1] < |g.names|
    && (|p| == 1 || (IsPath(g, p[..|p| - 1]) && IsEdge(g, p[|p| - 2], p[|p| - 1])))
  }

  /** The summed weight of the edges along `p`. */
  ghost function PathCost(g: Graph, p: seq<int>): int
    requires Wf(g) && IsPath(g, p)
  {
    if |p| == 1 then 0 else PathCost(g, p[..|p| - 1]) + g.adj[p[|p| - 2]][p[|p| - 1]]
  }

  /** Every vertex of a path is a vertex of the graph. */
  lemma {:induction false} PathVertices(g: Graph, p: seq<int>)
    requires Wf(g) && IsPath(g, p)
    ensures forall i | 0 <= i < |p| :: 0 <= p[i] < |g.names|
    decreases |p|
  {
    if |p| > 1 {
      PathVertices(g, p[..|p| - 1]);
      assert forall i | 0 <= i < |p| - 1 :: p[..|p| - 1][i] == p[i];
    }
  }

  /** Extending a path by one edge adds that edge's weight. */
  lemma PathExtend(g: Graph, p: seq<int>, v: int)
    requires Wf(g) && IsPath(g, p) && 0 <= v < |g.names| && IsEdge(g, p[|p| - 1], v)
    ensures IsPath(g, p + [v]) && (p + [v])[0] == p[0]
    ensures PathCost(g, p + [v]) == PathCost(g, p) + g.adj[p[|p| - 1]][v]
  {
    var q := p + [v];
    assert q[..|q| - 1] == p && q[|q| - 2] == p[|p| - 1] && q[|q| - 1] == v;
    assert IsPath(g, q);
  }

  // ---------------------------------------------------------------------
  // One iteration: selection and relaxation
  // ---------------------------------------------------------------------

  /** The selection scan: among the unvisited vertices, the one with the
      smallest tentative distance strictly below INF; the strict comparison
      keeps the lowest index among ties. -1 when there is none. */
  method SelectMin(dist: seq<int>, visited: seq<bool>) returns (u: int)
    requires |dist| == |visited|
    ensures -1 <= u < |dist|
    ensures u == -1 <==> forall i | 0 <= i < |dist| && !visited[i] :: dist[i] >= INF
    ensures u != -1 ==>
      && !visited[u] && dist[u] < INF
      && (forall i | 0 <= i < |dist| && !visited[i] :: dist[u] <= dist[i])
      && (forall i | 0 <= i < u && !visited[i] :: dist[u] < dist[i])
  {
    u := -1;
    var best := INF;
    var i := 0;
    while i < |dist|
      invariant 0 <= i <= |dist| && -1 <= u < i
      invariant u == -1 ==> best == INF && forall j | 0 <= j < i && !visited[j] :: dist[j] >= INF
      invariant u != -1 ==>
        && !visited[u] && best == dist[u] < INF
        && (forall j | 0 <= j < i && !visited[j] :: dist[u] <= dist[j])
        && (forall j | 0 <= j < u && !visited[j] :: dist[u] < dist[j])
    {
      if !visited[i] && dist[i] < best {
        best := dist[i];
        u := i;
      }
      i := i + 1;
    }
  }

  /** What relaxing the row of `u` does to column `v`. The loop reads
      `dist[u]` afresh for every column, so the columns after `u` see the
      value a negative self-loop may have lowered. */
  ghost predicate RelaxedAt(g: Graph, dist: seq<int>, prev: seq<int>, u: int, dist': seq<int>, prev': seq<int>, v: int)
    requires Wf(g) && |dist| == |prev| == |dist'| == |prev'| == |g.names| && 0 <= u < |g.names| && 0 <= v < |g.names|
  {
    var base := if v <= u then dist[u] else dist'[u];
    if IsEdge(g, u, v) && base + g.adj[u][v] < dist[v] then dist'[v] == base + g.adj[u][v] && prev'[v] == u
    else dist'[v] == dist[v] && prev'[v] == prev[v]
  }

  ghost predicate Relaxed(g: Graph, dist: seq<int>, prev: seq<int>, u: int, dist': seq<int>, prev': seq<int>)
    requires Wf(g) && |dist| == |prev| == |g.names| && 0 <= u < |g.names|
  {
    && |dist'| == |prev'| == |g.names|
    && forall v | 0 <= v < |g.names| :: RelaxedAt(g, dist, prev, u, dist', prev', v)
  }

  /** The relaxation loop over the row of `u`: a strictly shorter route
      through `u` overwrites `dist[v]` and `prev[v]`; nothing else changes. */
  method Relax(g: Graph, dist: seq<int>, prev: seq<int>, u: int) returns (dist': seq<int>, prev': seq<int>)
    requires Wf(g) && |dist| == |prev| == |g.names| && 0 <= u < |g.names|
    ensures Relaxed(g, dist, prev, u, dist', prev')
    ensures forall v | 0 <= v < |g.names| :: dist'[v] <= dist[v]
    ensures forall v | 0 <= v < |g.names| && prev'[v] != prev[v] :: prev'[v] == u && dist'[v] < dist[v]
  {
    dist', prev' := dist, prev;
    var v := 0;
    while v < |g.names|
      invariant 0 <= v <= |g.names| && |dist'| == |prev'| == |g.names|
      invariant forall x | v <= x < |g.names| :: dist'[x] == dist[x] && prev'[x] == prev[x]
      invariant forall x | 0 <= x < v :: RelaxedAt(g, dist, prev, u, dist', prev', x)
      invariant forall x | 0 <= x < v :: dist'[x] <= dist[x] && (prev'[x] != prev[x] ==> prev'[x] == u && dist'[x] < dist[x])
    {
      ghost var d0, p0 := dist', prev';
      if g.adj[u][v] < INF / 2 {
        var nd := dist'[u] + g.adj[u][v];
        if nd < dist'[v] {
          dist' := dist'[v := nd];
          prev' := prev'[v := u];
        }
      }
      assert v > u ==> dist'[u] == d0[u];
      forall x | 0 <= x < v
        ensures RelaxedAt(g, dist, prev, u, dist', prev', x)
      {
        assert RelaxedAt(g, dist, prev, u, d0, p0, x);
        assert dist'[x] == d0[x] && prev'[x] == p0[x];
        assert x > u ==> dist'[u] == d0[u];
      }
      v := v + 1;
    }
  }

  // ---------------------------------------------------------------------
  // The main loop
  // ---------------------------------------------------------------------

  /** Each processed vertex has its own iteration number below `iters`. */
  ghost predicate Steps(step: seq<int>, iters: int) {
    && (forall v | 0 <= v < |step| :: -1 <= step[v] < iters)
    && (forall a, b | 0 <= a < |step| && 0 <= b < |step| && step[a] != -1 && step[a] == step[b] :: a == b)
  }

  /** Every predecessor link is an edge out of a processed vertex into a
      vertex with a finite distance. */
  ghost predicate Links(g: Graph, dist: seq<int>, prev: seq<int>, step: seq<int>)
    requires Wf(g) && |dist| == |prev| == |step| == |g.names|
  {
    forall v | 0 <= v < |g.names| && prev[v] != -1 ::
      0 <= prev[v] < |g.names| && IsEdge(g, prev[v], v) && step[prev[v]] != -1 && dist[v] < INF
  }

  /** Every vertex with a finite distance other than the source has a
      predecessor. */
  ghost predicate Reached(g: Graph, s: int, dist: seq<int>, prev: seq<int>)
    requires |dist| == |prev| == |g.names|
  {
    forall v | 0 <= v < |g.names| && v != s && dist[v] < INF :: prev[v] != -1
  }

  /** What the loop keeps for any weights: distances never rise above their
      start, predecessor links are edges out of processed vertices, every
      vertex with a finite distance other than the source has one, and only
      vertices below INF/2 were processed. */
  ghost predicate Shape(g: Graph, s: int, dist: seq<int>, prev: seq<int>, step: seq<int>, iters: int)
    requires Wf(g) && 0 <= s < |g.names|
  {
    var n := |g.names|;
    && |dist| == |prev| == |step| == n
    && 0 <= iters <= n
    && Steps(step, iters)
    && (forall v | 0 <= v < n :: dist[v] <= INF)
    && dist[s] <= 0
    && Links(g, dist, prev, step)
    && Reached(g, s, dist, prev)
    && (forall v | 0 <= v < n && step[v] != -1 :: dist[v] < INF / 2)
  }

  /** Each distance is exactly its predecessor's plus the joining edge, and
      the predecessor was processed earlier. */
  ghost predicate Exact(g: Graph, dist: seq<int>, prev: seq<int>, step: seq<int>)
    requires Wf(g) && |dist| == |prev| == |step| == |g.names|
  {
    forall v | 0 <= v < |g.names| && 0 <= prev[v] < |g.names| ::
      dist[v] == dist[prev[v]] + g.adj[prev[v]][v] && (step[v] == -1 || step[prev[v]] < step[v])
  }

  /** Processed vertices are no farther than unprocessed ones. */
  ghost predicate Frontier(dist: seq<int>, step: seq<int>)
    requires |dist| == |step|
  {
    forall a, b | 0 <= a < |dist| && 0 <= b < |dist| && step[a] != -1 && step[b] == -1 :: dist[a] <= dist[b]
  }

  /** Every processed row has been relaxed: no edge out of a processed
      vertex offers a shorter route. */
  ghost predicate RowsRelaxed(g: Graph, dist: seq<int>, step: seq<int>)
    requires Wf(g) && |dist| == |step| == |g.names|
  {
    forall a, v | 0 <= a < |g.names| && 0 <= v < |g.names| && step[a] != -1 && IsEdge(g, a, v) ::
      dist[v] <= dist[a] + g.adj[a][v]
  }

  /** No path from the source to a processed vertex is shorter than its distance. */
  ghost predicate Shortest(g: Graph, s: int, dist: seq<int>, step: seq<int>)
    requires Wf(g) && |dist| == |step| == |g.names|
  {
    forall p | IsPath(g, p) && p[0] == s && step[p[|p| - 1]] != -1 :: dist[p[|p| - 1]] <= PathCost(g, p)
  }

  /** What the loop keeps when no weight is negative: the source stays at 0
      without a predecessor, distances are exact along predecessor links that
      point to earlier iterations, the processed vertices form the near side
      of a frontier, their rows are relaxed and their distances are shortest. */
  ghost predicate Settled(g: Graph, s: int, dist: seq<int>, prev: seq<int>, step: seq<int>)
    requires Wf(g) && 0 <= s < |g.names| && |dist| == |prev| == |step| == |g.names|
  {
    && dist[s] == 0 && prev[s] == -1
    && (forall v | 0 <= v < |g.names| :: dist[v] >= 0)
    && Exact(g, dist, prev, step)
    && Frontier(dist, step)
    && RowsRelaxed(g, dist, step)
    && Shortest(g, s, dist, step)
  }

  // ---------------------------------------------------------------------
  // One processed vertex keeps the invariants
  // ---------------------------------------------------------------------

  lemma StepLinks(g: Graph, dist: seq<int>, prev: seq<int>, step: seq<int>, iters: int,
                  u: int, dist': seq<int>, prev': seq<int>)
    requires Wf(g) && |dist| == |prev| == |step| == |g.names| && 0 <= u < |g.names| && iters >= 0
    requires Links(g, dist, prev, step) && forall v | 0 <= v < |g.names| :: dist[v] <= INF
    requires Relaxed(g, dist, prev, u, dist', prev')
    requires forall v | 0 <= v < |g.names| :: dist'[v] <= dist[v]
    ensures Links(g, dist', prev', step[u := iters])
  {
    forall v | 0 <= v < |g.names| && prev'[v] != -1
      ensures 0 <= prev'[v] < |g.names| && IsEdge(g, prev'[v], v) && step[u := iters][prev'[v]] != -1 && dist'[v] < INF
    {
      assert RelaxedAt(g, dist, prev, u, dist', prev', v);
    }
  }

  lemma StepReached(g: Graph, s: int, dist: seq<int>, prev: seq<int>, u: int, dist': seq<int>, prev': seq<int>)
    requires Wf(g) && |dist| == |prev| == |g.names| && 0 <= u < |g.names|
    requires Reached(g, s, dist, prev)
    requires Relaxed(g, dist, prev, u, dist', prev')
    ensures Reached(g, s, dist', prev')
  {
    forall v | 0 <= v < |g.names| && v != s && dist'[v] < INF
      ensures prev'[v] != -1
    {
      assert RelaxedAt(g, dist, prev, u, dist', prev', v);
    }
  }

  /** One processed vertex keeps the loop's shape for any weights. */
  lemma StepShape(g: Graph, s: int, dist: seq<int>, prev: seq<int>, step: seq<int>, iters: int,
                  u: int, dist': seq<int>, prev': seq<int>)
    requires Wf(g) && 0 <= s < |g.names| && Shape(g, s, dist, prev, step, iters) && iters < |g.names|
    requires 0 <= u < |g.names| && step[u] == -1 && dist[u] < INF / 2
    requires Relaxed(g, dist, prev, u, dist', prev')
    requires forall v | 0 <= v < |g.names| :: dist'[v] <= dist[v]
    ensures Shape(g, s, dist', prev', step[u := iters], iters + 1)
  {
    StepLinks(g, dist, prev, step, iters, u, dist', prev');
    StepReached(g, s, dist, prev, u, dist', prev');
  }

  /** With non-negative weights the selected vertex is no closer than any
      processed one, so relaxing its row changes neither a processed vertex,
      nor the source, nor the selected vertex itself. */
  lemma RelaxSparesProcessed(g: Graph, s: int, dist: seq<int>, prev: seq<int>, step: seq<int>,
                             u: int, dist': seq<int>, prev': seq<int>, v: int)
    requires Wf(g) && NonNegative(g) && 0 <= s < |g.names| && |dist| == |prev| == |step| == |g.names|
    requires Settled(g, s, dist, prev, step)
    requires 0 <= u < |g.names| && step[u] == -1
    requires Relaxed(g, dist, prev, u, dist', prev')
    requires 0 <= v < |g.names| && (step[v] != -1 || v == u || v == s)
    ensures dist'[u] == dist[u]
    ensures dist'[v] == dist[v] && prev'[v] == prev[v]
  {
    assert RelaxedAt(g, dist, prev, u, dist', prev', u);
    assert RelaxedAt(g, dist, prev, u, dist', prev', v);
    if step[v] != -1 {
      assert dist[v] <= dist[u];
    }
  }

  /** Under the same conditions a relaxed distance is the selected vertex's
      distance plus the edge, so no smaller than it. */
  lemma RelaxedFromSelected(g: Graph, s: int, dist: seq<int>, prev: seq<int>, step: seq<int>,
                            u: int, dist': seq<int>, prev': seq<int>, v: int)
    requires Wf(g) && NonNegative(g) && 0 <= s < |g.names| && |dist| == |prev| == |step| == |g.names|
    requires Settled(g, s, dist, prev, step)
    requires 0 <= u < |g.names| && step[u] == -1
    requires Relaxed(g, dist, prev, u, dist', prev')
    requires 0 <= v < |g.names|
    ensures (dist'[v] == dist[v] && prev'[v] == prev[v]) ||
      (IsEdge(g, u, v) && dist'[v] == dist'[u] + g.adj[u][v] && dist'[v] >= dist[u] && prev'[v] == u)
  {
    RelaxSparesProcessed(g, s, dist, prev, step, u, dist', prev', u);
    assert RelaxedAt(g, dist, prev, u, dist', prev', v);
  }

  lemma StepExact(g: Graph, s: int, dist: seq<int>, prev: seq<int>, step: seq<int>, iters: int,
                  u: int, dist': seq<int>, prev': seq<int>)
    requires Wf(g) && NonNegative(g) && 0 <= s < |g.names| && |dist| == |prev| == |step| == |g.names|
    requires Steps(step, iters) && Links(g, dist, prev, step)
    requires Settled(g, s, dist, prev, step)
    requires 0 <= u < |g.names| && step[u] == -1
    requires Relaxed(g, dist, prev, u, dist', prev')
    ensures Exact(g, dist', prev', step[u := iters])
  {
    var step' := step[u := iters];
    forall v | 0 <= v < |g.names| && 0 <= prev'[v] < |g.names|
      ensures dist'[v] == dist'[prev'[v]] + g.adj[prev'[v]][v] && (step'[v] == -1 || step'[prev'[v]] < step'[v])
    {
      RelaxedFromSelected(g, s, dist, prev, step, u, dist', prev', v);
      if step[v] != -1 || v == u {
        RelaxSparesProcessed(g, s, dist, prev, step, u, dist', prev', v);
      }
      if prev'[v] == prev[v] {
        RelaxSparesProcessed(g, s, dist, prev, step, u, dist', prev', prev[v]);
      }
    }
  }

  lemma StepFrontier(g: Graph, s: int, dist: seq<int>, prev: seq<int>, step: seq<int>, iters: int,
                     u: int, dist': seq<int>, prev': seq<int>)
    requires Wf(g) && NonNegative(g) && 0 <= s < |g.names| && |dist| == |prev| == |step| == |g.names|
    requires Settled(g, s, dist, prev, step)
    requires 0 <= u < |g.names| && step[u] == -1 && iters >= 0
    requires forall i | 0 <= i < |g.names| && step[i] == -1 :: dist[u] <= dist[i]
    requires Relaxed(g, dist, prev, u, dist', prev')
    ensures Frontier(dist', step[u := iters])
  {
    var step' := step[u := iters];
    forall a, b | 0 <= a < |g.names| && 0 <= b < |g.names| && step'[a] != -1 && step'[b] == -1
      ensures dist'[a] <= dist'[b]
    {
      RelaxSparesProcessed(g, s, dist, prev, step, u, dist', prev', a);
      RelaxedFromSelected(g, s, dist, prev, step, u, dist', prev', b);
    }
  }

  /** With non-negative weights, any path from the source to an unprocessed
      vertex costs at least the smallest distance among unprocessed vertices:
      it leaves the processed set along a relaxed edge. */
  lemma {:induction false} LowerBound(g: Graph, s: int, dist: seq<int>, step: seq<int>, m: int, p: seq<int>)
    requires Wf(g) && NonNegative(g) && 0 <= s < |g.names| && |dist| == |step| == |g.names|
    requires dist[s] == 0 && RowsRelaxed(g, dist, step) && Shortest(g, s, dist, step)
    requires forall x | 0 <= x < |g.names| && step[x] == -1 :: m <= dist[x]
    requires IsPath(g, p) && p[0] == s && step[p[|p| - 1]] == -1
    ensures m <= PathCost(g, p)
    decreases |p|
  {
    if |p| > 1 {
      var q := p[..|p| - 1];
      var y, x := p[|p| - 2], p[|p| - 1];
      assert IsPath(g, q) && q[0] == s && q[|q| - 1] == y;
      assert PathCost(g, p) == PathCost(g, q) + g.adj[y][x];
      assert IsEdge(g, y, x);
      if step[y] == -1 {
        LowerBound(g, s, dist, step, m, q);
      } else {
        assert dist[y] <= PathCost(g, q);
      }
    }
  }

  lemma StepRows(g: Graph, s: int, dist: seq<int>, prev: seq<int>, step: seq<int>, iters: int,
                 u: int, dist': seq<int>, prev': seq<int>)
    requires Wf(g) && NonNegative(g) && 0 <= s < |g.names| && |dist| == |prev| == |step| == |g.names|
    requires Settled(g, s, dist, prev, step)
    requires 0 <= u < |g.names| && step[u] == -1 && iters >= 0
    requires Relaxed(g, dist, prev, u, dist', prev')
    requires forall v | 0 <= v < |g.names| :: dist'[v] <= dist[v]
    ensures RowsRelaxed(g, dist', step[u := iters])
  {
    forall a, v | 0 <= a < |g.names| && 0 <= v < |g.names| && step[u := iters][a] != -1 && IsEdge(g, a, v)
      ensures dist'[v] <= dist'[a] + g.adj[a][v]
    {
      RelaxSparesProcessed(g, s, dist, prev, step, u, dist', prev', a);
      assert RelaxedAt(g, dist, prev, u, dist', prev', v);
    }
  }

  lemma StepShortest(g: Graph, s: int, dist: seq<int>, prev: seq<int>, step: seq<int>, iters: int,
                     u: int, dist': seq<int>, prev': seq<int>)
    requires Wf(g) && NonNegative(g) && 0 <= s < |g.names| && |dist| == |prev| == |step| == |g.names|
    requires Settled(g, s, dist, prev, step)
    requires 0 <= u < |g.names| && step[u] == -1 && iters >= 0
    requires forall i | 0 <= i < |g.names| && step[i] == -1 :: dist[u] <= dist[i]
    requires Relaxed(g, dist, prev, u, dist', prev')
    ensures Shortest(g, s, dist', step[u := iters])
  {
    forall p | IsPath(g, p) && p[0] == s && step[u := iters][p[|p| - 1]] != -1
      ensures dist'[p[|p| - 1]] <= PathCost(g, p)
    {
      RelaxSparesProcessed(g, s, dist, prev, step, u, dist', prev', p[|p| - 1]);
      if p[|p| - 1] == u {
        LowerBound(g, s, dist, step, dist[u], p);
      }
    }
  }

  /** One processed vertex keeps the non-negative-weight facts. */
  lemma StepSettled(g: Graph, s: int, dist: seq<int>, prev: seq<int>, step: seq<int>, iters: int,
                    u: int, dist': seq<int>, prev': seq<int>)
    requires Wf(g) && NonNegative(g) && 0 <= s < |g.names| && Shape(g, s, dist, prev, step, iters)
    requires Settled(g, s, dist, prev, step)
    requires 0 <= u < |g.names| && step[u] == -1
    requires forall i | 0 <= i < |g.names| && step[i] == -1 :: dist[u] <= dist[i]
    requires Relaxed(g, dist, prev, u, dist', prev')
    requires forall v | 0 <= v < |g.names| :: dist'[v] <= dist[v]
    ensures Settled(g, s, dist', prev', step[u := iters])
  {
    RelaxSparesProcessed(g, s, dist, prev, step, u, dist', prev', s);
    forall v | 0 <= v < |g.names|
      ensures dist'[v] >= 0
    {
      RelaxedFromSelected(g, s, dist, prev, step, u, dist', prev', v);
    }
    StepExact(g, s, dist, prev, step, iters, u, dist', prev');
    StepFrontier(g, s, dist, prev, step, iters, u, dist', prev');
    StepRows(g, s, dist, prev, step, iters, u, dist', prev');
    StepShortest(g, s, dist, prev, step, iters, u, dist', prev');
  }

  // ---------------------------------------------------------------------
  // The main loop
  // ---------------------------------------------------------------------

  /** The loop invariant, with the local `visited` flags and the `stop`
      flag standing for the two `break`s. */
  ghost predicate LoopInv(g: Graph, s: int, t: int, dist: seq<int>, prev: seq<int>, step: seq<int>,
                          iters: int, visited: seq<bool>, stop: bool)
    requires Wf(g) && 0 <= s < |g.names| && 0 <= t < |g.names|
  {
    && Shape(g, s, dist, prev, step, iters)
    && |visited| == |g.names| && (forall v | 0 <= v < |g.names| :: visited[v] <==> step[v] != -1)
    && SetCount(step) == iters
    && (step[t] != -1 ==> stop && step[t] == iters - 1)
    && (stop && step[t] == -1 ==> forall v | 0 <= v < |g.names| && step[v] == -1 :: dist[v] >= INF / 2)
    && (NonNegative(g) ==> Settled(g, s, dist, prev, step))
  }

  /** Processing the selected vertex keeps the loop invariant. */
  lemma LoopStep(g: Graph, s: int, t: int, dist: seq<int>, prev: seq<int>, step: seq<int>,
                 iters: int, visited: seq<bool>, u: int, dist': seq<int>, prev': seq<int>)
    requires Wf(g) && 0 <= s < |g.names| && 0 <= t < |g.names| && iters < |g.names|
    requires LoopInv(g, s, t, dist, prev, step, iters, visited, false)
    requires 0 <= u < |g.names| && !visited[u] && dist[u] < INF / 2
    requires forall i | 0 <= i < |g.names| && !visited[i] :: dist[u] <= dist[i]
    requires Relaxed(g, dist, prev, u, dist', prev')
    requires forall v | 0 <= v < |g.names| :: dist'[v] <= dist[v]
    ensures LoopInv(g, s, t, dist', prev', step[u := iters], iters + 1, visited[u := true], u == t)
  {
    StepShape(g, s, dist, prev, step, iters, u, dist', prev');
    SetCountUpdate(step, u, iters);
    if NonNegative(g) {
      StepSettled(g, s, dist, prev, step, iters, u, dist', prev');
    }
  }

  /** A selection that finds nothing below INF/2 leaves only far vertices. */
  lemma LoopBreak(g: Graph, s: int, t: int, dist: seq<int>, prev: seq<int>, step: seq<int>,
                  iters: int, visited: seq<bool>, u: int)
    requires Wf(g) && 0 <= s < |g.names| && 0 <= t < |g.names|
    requires LoopInv(g, s, t, dist, prev, step, iters, visited, false)
    requires -1 <= u < |g.names|
    requires u == -1 ==> forall i | 0 <= i < |g.names| && !visited[i] :: dist[i] >= INF
    requires u != -1 ==> dist[u] >= INF / 2 && forall i | 0 <= i < |g.names| && !visited[i] :: dist[u] <= dist[i]
    ensures LoopInv(g, s, t, dist, prev, step, iters, visited, true)
  {
  }

  /** The main loop of `dijkstra_trace`: at most n iterations, each
      processing the selected vertex and relaxing its row; it stops when the
      selection finds nothing below INF/2 or right after processing `t`.
      `step[v]` is the iteration that processed `v`, or -1. */
  method Dijkstra(g: Graph, s: int, t: int) returns (dist: seq<int>, prev: seq<int>, step: seq<int>, iters: int)
    requires Wf(g) && 0 <= s < |g.names| && 0 <= t < |g.names|
    ensures Shape(g, s, dist, prev, step, iters)
    ensures step[t] != -1 ==> step[t] == iters - 1
    ensures step[t] == -1 ==> forall v | 0 <= v < |g.names| && step[v] == -1 :: dist[v] >= INF / 2
    ensures NonNegative(g) ==> Settled(g, s, dist, prev, step)
  {
    var n := |g.names|;
    dist := seq(n, i => if i == s then 0 else INF);
    prev := Unset(n);
    step := Unset(n);
    SetCountNone(step);
    var visited := seq(n, i => false);
    iters := 0;
    var stop := false;
    while iters < n && !stop
      invariant LoopInv(g, s, t, dist, prev, step, iters, visited, stop)
      decreases n - iters, if stop then 0 else 1
    {
      var u := SelectMin(dist, visited);
      if u == -1 || dist[u] >= INF / 2 {
        LoopBreak(g, s, t, dist, prev, step, iters, visited, u);
        stop := true;
      } else {
        var dist', prev' := Relax(g, dist, prev, u);
        LoopStep(g, s, t, dist, prev, step, iters, visited, u, dist', prev');
        visited := visited[u := true];
        step := step[u := iters];
        dist, prev := dist', prev';
        iters := iters + 1;
        stop := u == t;
      }
    }
    SetCountBound(step);
  }

  // ---------------------------------------------------------------------
  // Path reconstruction and the whole routine
  // ---------------------------------------------------------------------

  /** Every entry is -1 or an index. */
  predicate Links0(prev: seq<int>) {
    forall v | 0 <= v < |prev| :: -1 <= prev[v] < |prev|
  }

  /** `for (cur = t; cur != -1; cur = prev[cur]) path.push_back(cur)` followed
      by the reversal, so the result runs from the root of the walk to `cur`.
      The walk never ends on a cycle of links; `fuel` bounds it and None
      stands for that endless loop. */
  function Chain(prev: seq<int>, cur: int, fuel: nat): Option<seq<int>>
    requires Links0(prev) && -1 <= cur < |prev|
    decreases fuel
  {
    if cur == -1 then Some([])
    else if fuel == 0 then None
    else match Chain(prev, prev[cur], fuel - 1)
      case None => None
      case Some(rest) => Some(rest + [cur])
  }

  /** How far a vertex is from the end of the walk: its iteration number,
      or n when it was never processed. */
  function Rank(step: seq<int>, v: int): int
    requires 0 <= v < |step|
  {
    if step[v] == -1 then |step| else step[v]
  }

  /** A vertex without a predecessor is a walk of its own. */
  lemma ChainRoot(g: Graph, prev: seq<int>, v: int, fuel: nat)
    requires Wf(g) && |prev| == |g.names| && Links0(prev) && 0 <= v < |g.names| && fuel > 0 && prev[v] == -1
    ensures Chain(prev, v, fuel) == Some([v]) && IsPath(g, [v]) && PathCost(g, [v]) == 0
  {
    assert Chain(prev, -1, fuel - 1) == Some([]);
    assert [] + [v] == [v];
  }

  /** One more step of the walk extends the path by one edge. */
  lemma ChainStep(g: Graph, prev: seq<int>, v: int, fuel: nat, rest: seq<int>) returns (p: seq<int>)
    requires Wf(g) && |prev| == |g.names| && Links0(prev) && 0 <= v < |g.names| && fuel > 0
    requires 0 <= prev[v] && Chain(prev, prev[v], fuel - 1) == Some(rest)
    requires IsPath(g, rest) && rest[|rest| - 1] == prev[v] && IsEdge(g, prev[v], v)
    ensures Chain(prev, v, fuel) == Some(p) && p == rest + [v]
    ensures IsPath(g, p) && p[0] == rest[0] && p[|p| - 1] == v
    ensures PathCost(g, p) == PathCost(g, rest) + g.adj[prev[v]][v]
  {
    p := rest + [v];
    PathExtend(g, rest, v);
  }

  /** Whatever the weights, a finished walk from a vertex with a finite
      distance is a path from the source to that vertex. */
  lemma {:induction false} ChainShape(g: Graph, s: int, dist: seq<int>, prev: seq<int>, step: seq<int>, v: int, fuel: nat)
    requires Wf(g) && 0 <= s < |g.names| && |dist| == |prev| == |step| == |g.names|
    requires Links(g, dist, prev, step) && Reached(g, s, dist, prev)
    requires forall x | 0 <= x < |g.names| && step[x] != -1 :: dist[x] < INF / 2
    requires 0 <= v < |g.names| && dist[v] < INF
    ensures Links0(prev)
    ensures Chain(prev, v, fuel).Some? ==>
      var p := Chain(prev, v, fuel).value;
      IsPath(g, p) && p[0] == s && p[|p| - 1] == v
    decreases fuel
  {
    if fuel > 0 {
      if prev[v] == -1 {
        ChainRoot(g, prev, v, fuel);
      } else {
        var q := prev[v];
        ChainShape(g, s, dist, prev, step, q, fuel - 1);
        match Chain(prev, q, fuel - 1)
        case None =>
        case Some(rest) =>
          var p := ChainStep(g, prev, v, fuel, rest);
      }
    }
  }

  /** With non-negative weights the walk from a vertex with a finite
      distance ends within `Rank + 1` steps, and the path it yields costs
      exactly that distance. */
  lemma {:induction false} ChainFound(g: Graph, s: int, dist: seq<int>, prev: seq<int>, step: seq<int>, iters: int, v: int, fuel: nat)
    returns (p: seq<int>)
    requires Wf(g) && NonNegative(g) && 0 <= s < |g.names| && |dist| == |prev| == |step| == |g.names|
    requires 0 <= iters <= |g.names| && forall x | 0 <= x < |g.names| :: -1 <= step[x] < iters
    requires Links(g, dist, prev, step) && Reached(g, s, dist, prev)
    requires dist[s] == 0 && prev[s] == -1 && Exact(g, dist, prev, step)
    requires 0 <= v < |g.names| && dist[v] < INF && fuel > Rank(step, v)
    ensures Links0(prev)
    ensures Chain(prev, v, fuel) == Some(p)
    ensures IsPath(g, p) && p[0] == s && p[|p| - 1] == v && PathCost(g, p) == dist[v]
    decreases fuel
  {
    if v == s {
      ChainRoot(g, prev, v, fuel);
      p := [v];
    } else {
      var q := prev[v];
      assert 0 <= q < |g.names| && step[q] != -1 && IsEdge(g, q, v);
      assert dist[v] == dist[q] + g.adj[q][v];
      var rest := ChainFound(g, s, dist, prev, step, iters, q, fuel - 1);
      p := ChainStep(g, prev, v, fuel, rest);
    }
  }

  /** What `dijkstra_trace` reports: no route, a route (as vertex indices)
      with its cost, or a walk back along `prev` that would never end. */
  datatype Outcome = Unreachable | Found(route: seq<int>, cost: int) | Endless

  /** Predecessor links stay inside the vertex range. */
  lemma LinksBounded(g: Graph, dist: seq<int>, prev: seq<int>, step: seq<int>)
    requires Wf(g) && |dist| == |prev| == |step| == |g.names|
    requires Links(g, dist, prev, step)
    ensures Links0(prev)
  {
  }

  /** The report of `dijkstra_trace` once the loop is done: unreachable
      when the target's distance is INF/2 or more, otherwise the walk back
      from the target with the target's distance as its cost. */
  function Report(dist: seq<int>, prev: seq<int>, t: int): Outcome
    requires |dist| == |prev| && 0 <= t < |prev| && Links0(prev)
  {
    if dist[t] >= INF / 2 then Unreachable
    else match Chain(prev, t, |prev| + 1)
      case None => Endless
      case Some(route) => Found(route, dist[t])
  }

  /** Whatever the weights, a reported route is a path from the source to
      the target costing less than INF/2. */
  lemma ReportShape(g: Graph, s: int, t: int, dist: seq<int>, prev: seq<int>, step: seq<int>, iters: int)
    requires Wf(g) && 0 <= s < |g.names| && 0 <= t < |g.names|
    requires Shape(g, s, dist, prev, step, iters)
    ensures Links0(prev)
    ensures var out := Report(dist, prev, t);
      out.Found? ==> IsPath(g, out.route) && out.route[0] == s && out.route[|out.route| - 1] == t && out.cost < INF / 2
  {
    LinksBounded(g, dist, prev, step);
    if dist[t] < INF / 2 {
      var fuel := |prev| + 1;
      ChainShape(g, s, dist, prev, step, t, fuel);
    }
  }

  /** A walk that ends reports its route. */
  lemma ReportRoute(dist: seq<int>, prev: seq<int>, t: int, route: seq<int>)
    requires |dist| == |prev| && 0 <= t < |prev| && Links0(prev)
    requires dist[t] < INF / 2 && Chain(prev, t, |prev| + 1) == Some(route)
    ensures Report(dist, prev, t) == Found(route, dist[t])
  {
  }

  /** With non-negative weights a processed target yields a route that
      costs exactly the reported cost, and no path is cheaper. */
  lemma ReportFound(g: Graph, s: int, t: int, dist: seq<int>, prev: seq<int>, step: seq<int>, iters: int)
    requires Wf(g) && NonNegative(g) && 0 <= s < |g.names| && |dist| == |prev| == |step| == |g.names|
    requires 0 <= iters <= |g.names| && forall x | 0 <= x < |g.names| :: -1 <= step[x] < iters
    requires Links(g, dist, prev, step) && Reached(g, s, dist, prev)
    requires dist[s] == 0 && prev[s] == -1 && Exact(g, dist, prev, step) && Shortest(g, s, dist, step)
    requires 0 <= t < |g.names| && step[t] != -1 && dist[t] < INF / 2
    ensures Links0(prev)
    ensures var out := Report(dist, prev, t);
      && out.Found?
      && IsPath(g, out.route) && PathCost(g, out.route) == out.cost
      && forall p | IsPath(g, p) && p[0] == s && p[|p| - 1] == t :: out.cost <= PathCost(g, p)
  {
    var fuel := |prev| + 1;
    var route := ChainFound(g, s, dist, prev, step, iters, t, fuel);
    ReportRoute(dist, prev, t, route);
  }

  /** With non-negative weights the walk always ends, a reported route costs
      exactly the reported cost and no path is cheaper, and an unreachable
      target has no path below INF/2. */
  lemma ReportSettled(g: Graph, s: int, t: int, dist: seq<int>, prev: seq<int>, step: seq<int>, iters: int)
    requires Wf(g) && NonNegative(g) && 0 <= s < |g.names| && 0 <= t < |g.names|
    requires Shape(g, s, dist, prev, step, iters) && Settled(g, s, dist, prev, step)
    requires step[t] == -1 ==> forall v | 0 <= v < |g.names| && step[v] == -1 :: dist[v] >= INF / 2
    ensures Links0(prev)
    ensures var out := Report(dist, prev, t);
      && !out.Endless?
      && (out.Found? ==>
            && IsPath(g, out.route) && PathCost(g, out.route) == out.cost
            && forall p | IsPath(g, p) && p[0] == s && p[|p| - 1] == t :: out.cost <= PathCost(g, p))
      && (out.Unreachable? ==> forall p | IsPath(g, p) && p[0] == s && p[|p| - 1] == t :: INF / 2 <= PathCost(g, p))
  {
    LinksBounded(g, dist, prev, step);
    if dist[t] >= INF / 2 {
      TraceUnreachable(g, s, t, dist, prev, step, iters);
    } else {
      assert step[t] != -1;
      ReportFound(g, s, t, dist, prev, step, iters);
    }
  }

  /** `dijkstra_trace(source, dest)` without the printing: look both names
      up, run the loop and report. */
  method DijkstraTrace(g: Graph, source: char, dest: char) returns (out: Outcome)
    requires Wf(g) && |g.names| > 0
    ensures out.Found? ==>
      IsPath(g, out.route) && out.route[0] == Lookup(g, source) && out.route[|out.route| - 1] == Lookup(g, dest)
      && out.cost < INF / 2
    ensures NonNegative(g) ==> !out.Endless?
    ensures NonNegative(g) && out.Found? ==>
      && PathCost(g, out.route) == out.cost
      && forall p | IsPath(g, p) && p[0] == Lookup(g, source) && p[|p| - 1] == Lookup(g, dest) :: out.cost <= PathCost(g, p)
    ensures NonNegative(g) && out.Unreachable? ==>
      forall p | IsPath(g, p) && p[0] == Lookup(g, source) && p[|p| - 1] == Lookup(g, dest) :: INF / 2 <= PathCost(g, p)
  {
    var s, t := Lookup(g, source), Lookup(g, dest);
    var dist, prev, step, iters := Dijkstra(g, s, t);
    ReportShape(g, s, t, dist, prev, step, iters);
    if NonNegative(g) {
      ReportSettled(g, s, t, dist, prev, step, iters);
    }
    out := Report(dist, prev, t);
  }

  /** An unreached target: every path to it costs INF/2 or more. */
  lemma TraceUnreachable(g: Graph, s: int, t: int, dist: seq<int>, prev: seq<int>, step: seq<int>, iters: int)
    requires Wf(g) && NonNegative(g) && 0 <= s < |g.names| && 0 <= t < |g.names|
    requires Shape(g, s, dist, prev, step, iters) && Settled(g, s, dist, prev, step)
    requires step[t] == -1 ==> forall v | 0 <= v < |g.names| && step[v] == -1 :: dist[v] >= INF / 2
    requires dist[t] >= INF / 2
    ensures forall p | IsPath(g, p) && p[0] == s && p[|p| - 1] == t :: INF / 2 <= PathCost(g, p)
  {
    forall p | IsPath(g, p) && p[0] == s && p[|p| - 1] == t
      ensures INF / 2 <= PathCost(g, p)
    {
      LowerBound(g, s, dist, step, INF / 2, p);
    }
  }

  /** A reached target was processed, so its distance is the shortest. */
  lemma TraceFound(g: Graph, s: int, t: int, dist: seq<int>, prev: seq<int>, step: seq<int>, iters: int)
    requires Wf(g) && NonNegative(g) && 0 <= s < |g.names| && 0 <= t < |g.names|
    requires Shape(g, s, dist, prev, step, iters) && Settled(g, s, dist, prev, step)
    requires step[t] == -1 ==> forall v | 0 <= v < |g.names| && step[v] == -1 :: dist[v] >= INF / 2
    requires dist[t] < INF / 2
    ensures forall p | IsPath(g, p) && p[0] == s && p[|p| - 1] == t :: dist[t] <= PathCost(g, p)
  {
  }
}
