/** The depth-first search with timestamps, parents and edge classification
    of Q4_GraphAlgorithms.cpp (`dfs2` and the classification loop). */
module GraphDfs {
  import opened GraphMatrix
  import opened Marks

  // ---------------------------------------------------------------------
  // Neighbour order
  // ---------------------------------------------------------------------

  /** The order of the sorted (name, index) pairs: by name, then by index. */
  predicate Before(names: seq<char>, v: int, w: int)
    requires 0 <= v < |names| && 0 <= w < |names|
  {
    names[v] < names[w] || (names[v] == names[w] && v < w)
  }

  predicate InRange(xs: seq<int>, n: int) {
    forall i | 0 <= i < |xs| :: 0 <= xs[i] < n
  }

  predicate Sorted(names: seq<char>, xs: seq<int>)
    requires InRange(xs, |names|)
  {
    forall i, j | 0 <= i < j < |xs| :: Before(names, xs[i], xs[j])
  }

  function InsertSorted(names: seq<char>, xs: seq<int>, v: int): (r: seq<int>)
    requires InRange(xs, |names|) && Sorted(names, xs) && 0 <= v < |names| && v !in xs
    ensures InRange(r, |names|) && Sorted(names, r)
    ensures forall x :: x in r <==> x in xs || x == v
  {
    if xs == [] then [v]
    else if Before(names, v, xs[0]) then [v] + xs
    else
      var rest := InsertSorted(names, xs[1..], v);
      assert forall x :: x in xs <==> x == xs[0] || x in xs[1..];
      forall k | 0 <= k < |rest|
        ensures Before(names, xs[0], rest[k])
      {
        assert rest[k] in rest;
        if rest[k] != v {
          var j :| 0 <= j < |xs[1..]| && xs[1..][j] == rest[k];
          assert xs[j + 1] == rest[k];
        }
      }
      var r := [xs[0]] + rest;
      assert forall k | 0 < k < |r| :: r[k] == rest[k - 1];
      r
  }

  /** The targets of the edges from u into vertices below k, sorted. */
  function NeighboursBelow(g: Graph, u: int, k: int): (r: seq<int>)
    requires Wf(g) && 0 <= u < |g.names| && 0 <= k <= |g.names|
    ensures InRange(r, |g.names|) && Sorted(g.names, r)
    ensures forall v :: v in r <==> 0 <= v < k && IsEdge(g, u, v)
  {
    if k == 0 then []
    else
      var r := NeighboursBelow(g, u, k - 1);
      if IsEdge(g, u, k - 1) then InsertSorted(g.names, r, k - 1) else r
  }

  /** The neighbours of u in the order `dfs2` visits them: every v with an
      edge u -> v, sorted by name and then by index. */
  function Neighbours(g: Graph, u: int): (r: seq<int>)
    requires Wf(g) && 0 <= u < |g.names|
    ensures InRange(r, |g.names|) && Sorted(g.names, r)
    ensures forall v :: v in r <==> 0 <= v < |g.names| && IsEdge(g, u, v)
  {
    NeighboursBelow(g, u, |g.names|)
  }

  // ---------------------------------------------------------------------
  // Search state
  // ---------------------------------------------------------------------

  /** The arrays `disc`, `finish` and `parent` (-1 for "unset"), the clock
      `time`, and the finishing order `order`. */
  datatype DfsState = DfsState(disc: seq<int>, finish: seq<int>, parent: seq<int>, time: int, order: seq<int>)

  predicate Sized(g: Graph, st: DfsState) {
    |st.disc| == |g.names| && |st.finish| == |g.names| && |st.parent| == |g.names|
  }

  /** Some vertex was discovered or finished at tick t. */
  ghost predicate Stamped(st: DfsState, t: int) {
    exists v | 0 <= v < |st.disc| :: st.disc[v] == t || (v < |st.finish| && st.finish[v] == t)
  }

  /** Stamps lie in 1..time, and a vertex finishes after it is discovered. */
  ghost predicate StampRange(g: Graph, st: DfsState)
    requires Sized(g, st)
  {
    var n := |g.names|;
    && st.time >= 0
    && (forall v | 0 <= v < n && st.disc[v] != -1 :: 1 <= st.disc[v] <= st.time)
    && (forall v | 0 <= v < n && st.finish[v] != -1 :: st.disc[v] != -1 && st.disc[v] < st.finish[v] <= st.time)
    && (forall v | 0 <= v < n && st.disc[v] == -1 :: st.finish[v] == -1)
  }

  /** No tick was handed out twice. */
  ghost predicate StampDistinct(g: Graph, st: DfsState)
    requires Sized(g, st)
  {
    var n := |g.names|;
    && (forall u, v | 0 <= u < n && 0 <= v < n && st.disc[u] != -1 && st.disc[u] == st.disc[v] :: u == v)
    && (forall u, v | 0 <= u < n && 0 <= v < n && st.finish[u] != -1 && st.finish[u] == st.finish[v] :: u == v)
    && (forall u, v | 0 <= u < n && 0 <= v < n && st.disc[u] != -1 :: st.disc[u] != st.finish[v])
  }

  /** Every tick 1..time was handed out once, to one discovery or one
      finish, and a vertex finishes after it is discovered. */
  ghost predicate Stamps(g: Graph, st: DfsState)
    requires Sized(g, st)
  {
    && StampRange(g, st)
    && StampDistinct(g, st)
    && (forall t | 1 <= t <= st.time :: Stamped(st, t))
    && st.time == SetCount(st.disc) + SetCount(st.finish)
  }

  /** Discovery intervals are nested or disjoint; an open interval contains
      every later discovery. */
  ghost predicate Nested(g: Graph, st: DfsState)
    requires Sized(g, st)
  {
    forall u, v | 0 <= u < |g.names| && 0 <= v < |g.names| && st.disc[u] != -1 && st.disc[u] < st.disc[v] ::
      st.finish[u] == -1 || (st.finish[v] != -1 && st.finish[v] < st.finish[u]) || st.finish[u] < st.disc[v]
  }

  /** Exactly the discovered vertices other than the start have a parent. */
  ghost predicate ParentSet(g: Graph, st: DfsState, start: int)
    requires Sized(g, st) && 0 <= start < |g.names|
  {
    && st.parent[start] == -1
    && (forall v {:trigger st.parent[v]} | 0 <= v < |g.names| && st.disc[v] == -1 :: st.parent[v] == -1)
    && (forall v {:trigger st.parent[v]} | 0 <= v < |g.names| && st.disc[v] != -1 && v != start :: st.parent[v] != -1)
  }

  /** A parent was discovered earlier, has an edge into its child, and was
      still open when the child was discovered. */
  ghost predicate ParentLinks(g: Graph, st: DfsState)
    requires Wf(g) && Sized(g, st)
  {
    forall v {:trigger st.parent[v]} | 0 <= v < |g.names| && st.parent[v] != -1 ::
      && 0 <= st.parent[v] < |g.names|
      && st.disc[st.parent[v]] != -1
      && st.disc[st.parent[v]] < st.disc[v]
      && IsEdge(g, st.parent[v], v)
      && (st.finish[st.parent[v]] == -1 || st.disc[v] < st.finish[st.parent[v]])
  }

  /** Every vertex discovered between a parent and its child had finished
      before the child was discovered: the parent was the innermost open one. */
  ghost predicate ParentInnermost(g: Graph, st: DfsState)
    requires Sized(g, st)
  {
    forall v, w {:trigger st.parent[v], st.disc[w]} | 0 <= v < |g.names| && 0 <= w < |g.names| && 0 <= st.parent[v] < |g.names|
      && st.disc[st.parent[v]] < st.disc[w] < st.disc[v] ::
      st.finish[w] != -1 && st.finish[w] < st.disc[v]
  }

  /** parent[v] is the vertex v was discovered from: an edge into v from a
      vertex that was open at v's discovery and is the latest such. */
  ghost predicate Parents(g: Graph, st: DfsState, start: int)
    requires Wf(g) && Sized(g, st) && 0 <= start < |g.names|
  {
    ParentSet(g, st, start) && ParentLinks(g, st) && ParentInnermost(g, st)
  }

  /** A finished vertex has discovered every neighbour before finishing. */
  ghost predicate Closed(g: Graph, st: DfsState)
    requires Wf(g) && Sized(g, st)
  {
    forall u, v | 0 <= u < |g.names| && 0 <= v < |g.names| && st.finish[u] != -1 && IsEdge(g, u, v) ::
      st.disc[v] != -1 && st.disc[v] < st.finish[u]
  }

  /** `order` lists the finished vertices by increasing finish time. */
  ghost predicate Ordered(g: Graph, st: DfsState)
    requires Sized(g, st)
  {
    && |st.order| == SetCount(st.finish)
    && (forall i | 0 <= i < |st.order| :: 0 <= st.order[i] < |g.names| && st.finish[st.order[i]] != -1)
    && (forall i, j | 0 <= i < j < |st.order| ::
          0 <= st.order[i] < |g.names| && 0 <= st.order[j] < |g.names| &&
          st.finish[st.order[i]] < st.finish[st.order[j]])
    && (forall v {:trigger v in st.order} | 0 <= v < |g.names| && st.finish[v] != -1 :: v in st.order)
  }

  ghost predicate Inv(g: Graph, st: DfsState, start: int) {
    && Wf(g) && Sized(g, st) && 0 <= start < |g.names|
    && Stamps(g, st) && Nested(g, st) && Parents(g, st, start) && Closed(g, st) && Ordered(g, st)
  }

  // ---------------------------------------------------------------------
  // The two steps of `dfs2`
  // ---------------------------------------------------------------------

  /** `parent[u] = from` (done by the caller in the source) and `disc[u] = ++time`. */
  function Discover(st: DfsState, u: int, from: int): (r: DfsState)
    requires 0 <= u < |st.disc| && 0 <= u < |st.parent|
    ensures |r.disc| == |st.disc| && |r.finish| == |st.finish| && |r.parent| == |st.parent|
    ensures r.disc[u] == r.time == st.time + 1 && r.parent[u] == from
    ensures forall v | 0 <= v < |st.disc| && v != u :: r.disc[v] == st.disc[v]
    ensures forall v | 0 <= v < |st.parent| && v != u :: r.parent[v] == st.parent[v]
    ensures r.finish == st.finish && r.order == st.order
  {
    st.(disc := st.disc[u := st.time + 1], parent := st.parent[u := from], time := st.time + 1)
  }

  /** `finish[u] = ++time`, and u joins the finishing order. */
  function Finish(st: DfsState, u: int): (r: DfsState)
    requires 0 <= u < |st.finish|
    ensures |r.finish| == |st.finish| && r.finish[u] == r.time == st.time + 1
    ensures forall v | 0 <= v < |st.finish| && v != u :: r.finish[v] == st.finish[v]
    ensures r.disc == st.disc && r.parent == st.parent && r.order == st.order + [u]
  {
    st.(finish := st.finish[u := st.time + 1], time := st.time + 1, order := st.order + [u])
  }

  /** Every vertex discovered after u has finished: u is the innermost open vertex. */
  ghost predicate Innermost(g: Graph, st: DfsState, u: int)
    requires Sized(g, st) && 0 <= u < |g.names|
  {
    forall w | 0 <= w < |g.names| && st.disc[u] < st.disc[w] :: st.finish[w] != -1
  }

  /** How `dfs2(u)` may be entered: the start from outside, any other vertex
      through an edge from the innermost open vertex. */
  ghost predicate Entry(g: Graph, st: DfsState, start: int, u: int, from: int)
    requires Wf(g) && Sized(g, st) && 0 <= start < |g.names| && 0 <= u < |g.names|
  {
    && st.disc[u] == -1
    && (from == -1 ==> u == start)
    && (from != -1 ==>
          && 0 <= from < |g.names| && st.disc[start] != -1
          && st.disc[from] != -1 && st.finish[from] == -1
          && IsEdge(g, from, u) && Innermost(g, st, from))
  }

  lemma DiscoverRange(g: Graph, st: DfsState, u: int, from: int)
    requires Sized(g, st) && StampRange(g, st) && 0 <= u < |g.names| && st.disc[u] == -1
    ensures Sized(g, Discover(st, u, from)) && StampRange(g, Discover(st, u, from))
  {
    var s := Discover(st, u, from);
    assert st.finish[u] == -1;
    forall v | 0 <= v < |g.names| && s.disc[v] != -1
      ensures 1 <= s.disc[v] <= s.time
    {
      if v != u {
        assert s.disc[v] == st.disc[v];
      }
    }
    forall v | 0 <= v < |g.names| && s.finish[v] != -1
      ensures s.disc[v] != -1 && s.disc[v] < s.finish[v] <= s.time
    {
      assert v != u;
    }
    forall v | 0 <= v < |g.names| && s.disc[v] == -1
      ensures s.finish[v] == -1
    {
      assert v != u;
    }
  }

  lemma DiscoverDistinct(g: Graph, st: DfsState, u: int, from: int)
    requires Sized(g, st) && StampRange(g, st) && StampDistinct(g, st) && 0 <= u < |g.names| && st.disc[u] == -1
    ensures Sized(g, Discover(st, u, from)) && StampDistinct(g, Discover(st, u, from))
  {
  }

  lemma DiscoverStamps(g: Graph, st: DfsState, u: int, from: int)
    requires Sized(g, st) && Stamps(g, st) && 0 <= u < |g.names| && st.disc[u] == -1
    ensures Sized(g, Discover(st, u, from)) && Stamps(g, Discover(st, u, from))
  {
    var s := Discover(st, u, from);
    DiscoverRange(g, st, u, from);
    DiscoverDistinct(g, st, u, from);
    SetCountUpdate(st.disc, u, st.time + 1);
    assert s.disc == st.disc[u := st.time + 1];
    forall t | 1 <= t <= s.time
      ensures Stamped(s, t)
    {
      if t <= st.time {
        assert Stamped(st, t);
        var v :| 0 <= v < |st.disc| && (st.disc[v] == t || (v < |st.finish| && st.finish[v] == t));
        assert v != u;
        assert s.disc[v] == t || s.finish[v] == t;
      } else {
        assert s.disc[u] == t;
      }
    }
  }

  lemma DiscoverNested(g: Graph, st: DfsState, u: int, from: int)
    requires Sized(g, st) && StampRange(g, st) && Nested(g, st) && 0 <= u < |g.names| && st.disc[u] == -1
    ensures Sized(g, Discover(st, u, from)) && Nested(g, Discover(st, u, from))
  {
  }

  lemma DiscoverParentSet(g: Graph, st: DfsState, start: int, u: int, from: int)
    requires Wf(g) && Sized(g, st) && 0 <= start < |g.names| && StampRange(g, st) && ParentSet(g, st, start)
    requires 0 <= u < |g.names| && Entry(g, st, start, u, from)
    ensures Sized(g, Discover(st, u, from)) && ParentSet(g, Discover(st, u, from), start)
  {
    var s := Discover(st, u, from);
    assert u != start ==> from != -1;
    forall v | 0 <= v < |g.names| && s.disc[v] == -1
      ensures s.parent[v] == -1
    {
      assert v != u;
    }
  }

  lemma DiscoverParentLinks(g: Graph, st: DfsState, start: int, u: int, from: int)
    requires Wf(g) && Sized(g, st) && 0 <= start < |g.names| && StampRange(g, st) && ParentLinks(g, st)
    requires 0 <= u < |g.names| && Entry(g, st, start, u, from)
    ensures Sized(g, Discover(st, u, from)) && ParentLinks(g, Discover(st, u, from))
  {
    var s := Discover(st, u, from);
    forall v | 0 <= v < |g.names| && s.parent[v] != -1
      ensures var p := s.parent[v];
        && 0 <= p < |g.names| && s.disc[p] != -1 && s.disc[p] < s.disc[v]
        && IsEdge(g, p, v) && (s.finish[p] == -1 || s.disc[v] < s.finish[p])
    {
      if v == u {
        assert from != u && s.disc[from] == st.disc[from];
      } else {
        var p := st.parent[v];
        assert p != u && s.disc[p] == st.disc[p];
      }
    }
  }

  lemma DiscoverParentInnermost(g: Graph, st: DfsState, start: int, u: int, from: int)
    requires Wf(g) && Sized(g, st) && 0 <= start < |g.names| && StampRange(g, st)
    requires ParentSet(g, st, start) && ParentInnermost(g, st)
    requires 0 <= u < |g.names| && Entry(g, st, start, u, from)
    ensures Sized(g, Discover(st, u, from)) && ParentInnermost(g, Discover(st, u, from))
  {
    var s := Discover(st, u, from);
    forall v, w | 0 <= v < |g.names| && 0 <= w < |g.names| && 0 <= s.parent[v] < |g.names|
      && s.disc[s.parent[v]] < s.disc[w] < s.disc[v]
      ensures s.finish[w] != -1 && s.finish[w] < s.disc[v]
    {
      if v == u {
        assert from != u && s.disc[from] == st.disc[from];
        assert w != u && s.disc[w] == st.disc[w];
        assert st.finish[w] != -1;
      } else {
        var p := st.parent[v];
        assert p != u && s.disc[p] == st.disc[p];
        assert st.disc[v] != -1;
        assert w != u;
      }
    }
  }

  lemma DiscoverParents(g: Graph, st: DfsState, start: int, u: int, from: int)
    requires Wf(g) && Sized(g, st) && 0 <= start < |g.names| && StampRange(g, st) && Parents(g, st, start)
    requires 0 <= u < |g.names| && Entry(g, st, start, u, from)
    ensures Sized(g, Discover(st, u, from)) && Parents(g, Discover(st, u, from), start)
  {
    DiscoverParentSet(g, st, start, u, from);
    DiscoverParentLinks(g, st, start, u, from);
    DiscoverParentInnermost(g, st, start, u, from);
  }

  lemma DiscoverClosed(g: Graph, st: DfsState, u: int, from: int)
    requires Wf(g) && Sized(g, st) && StampRange(g, st) && Closed(g, st) && 0 <= u < |g.names| && st.disc[u] == -1
    ensures Sized(g, Discover(st, u, from)) && Closed(g, Discover(st, u, from))
  {
  }

  lemma FinishRange(g: Graph, st: DfsState, u: int)
    requires Sized(g, st) && StampRange(g, st) && 0 <= u < |g.names|
    requires st.disc[u] != -1 && st.finish[u] == -1
    ensures Sized(g, Finish(st, u)) && StampRange(g, Finish(st, u))
  {
  }

  lemma FinishDistinct(g: Graph, st: DfsState, u: int)
    requires Sized(g, st) && StampRange(g, st) && StampDistinct(g, st) && 0 <= u < |g.names|
    requires st.disc[u] != -1 && st.finish[u] == -1
    ensures Sized(g, Finish(st, u)) && StampDistinct(g, Finish(st, u))
  {
  }

  lemma FinishCover(g: Graph, st: DfsState, u: int)
    requires Sized(g, st) && 0 <= u < |g.names| && st.finish[u] == -1
    requires forall t | 1 <= t <= st.time :: Stamped(st, t)
    ensures forall t | 1 <= t <= Finish(st, u).time :: Stamped(Finish(st, u), t)
  {
    var s := Finish(st, u);
    forall t | 1 <= t <= s.time
      ensures Stamped(s, t)
    {
      if t <= st.time {
        assert Stamped(st, t);
        var v :| 0 <= v < |st.disc| && (st.disc[v] == t || (v < |st.finish| && st.finish[v] == t));
        assert s.disc[v] == t || s.finish[v] == t;
      } else {
        assert s.finish[u] == t;
      }
    }
  }

  lemma FinishStamps(g: Graph, st: DfsState, u: int)
    requires Sized(g, st) && Stamps(g, st) && 0 <= u < |g.names|
    requires st.disc[u] != -1 && st.finish[u] == -1
    ensures Sized(g, Finish(st, u)) && Stamps(g, Finish(st, u))
  {
    var s := Finish(st, u);
    FinishRange(g, st, u);
    FinishDistinct(g, st, u);
    FinishCover(g, st, u);
    SetCountUpdate(st.finish, u, st.time + 1);
    assert s.finish == st.finish[u := st.time + 1];
  }

  lemma FinishNested(g: Graph, st: DfsState, u: int)
    requires Sized(g, st) && StampRange(g, st) && Nested(g, st) && 0 <= u < |g.names|
    requires st.disc[u] != -1 && st.finish[u] == -1 && Innermost(g, st, u)
    ensures Sized(g, Finish(st, u)) && Nested(g, Finish(st, u))
  {
  }

  lemma FinishParents(g: Graph, st: DfsState, start: int, u: int)
    requires Wf(g) && Sized(g, st) && 0 <= start < |g.names| && StampRange(g, st) && Parents(g, st, start)
    requires 0 <= u < |g.names| && st.disc[u] != -1 && st.finish[u] == -1
    ensures Sized(g, Finish(st, u)) && Parents(g, Finish(st, u), start)
  {
  }

  lemma FinishClosed(g: Graph, st: DfsState, u: int)
    requires Wf(g) && Sized(g, st) && StampRange(g, st) && Closed(g, st) && 0 <= u < |g.names|
    requires st.disc[u] != -1 && st.finish[u] == -1
    requires forall v | 0 <= v < |g.names| && IsEdge(g, u, v) :: st.disc[v] != -1
    ensures Sized(g, Finish(st, u)) && Closed(g, Finish(st, u))
  {
  }

  lemma FinishOrdered(g: Graph, st: DfsState, u: int)
    requires Sized(g, st) && StampRange(g, st) && Ordered(g, st) && 0 <= u < |g.names|
    requires st.disc[u] != -1 && st.finish[u] == -1
    ensures Sized(g, Finish(st, u)) && Ordered(g, Finish(st, u))
  {
    SetCountUpdate(st.finish, u, st.time + 1);
  }

  // ---------------------------------------------------------------------
  // The traversal
  // ---------------------------------------------------------------------

  /** The number of vertices not yet discovered: the search's measure. */
  function Undiscovered(st: DfsState): nat {
    SetCountBound(st.disc);
    |st.disc| - SetCount(st.disc)
  }

  /** Vertices already discovered keep their stamps and parent; open ones
      stay open and finished ones stay finished. */
  ghost predicate Extends(st0: DfsState, st: DfsState)
    requires |st0.disc| == |st.disc| == |st0.finish| == |st.finish| == |st0.parent| == |st.parent|
  {
    && (forall v | 0 <= v < |st0.disc| && st0.disc[v] != -1 :: st.disc[v] == st0.disc[v])
    && (forall v {:trigger st.parent[v]} | 0 <= v < |st0.disc| && st0.disc[v] != -1 :: st.parent[v] == st0.parent[v])
    && (forall v | 0 <= v < |st0.disc| && st0.disc[v] != -1 ::
          && (st0.finish[v] == -1 <==> st.finish[v] == -1)
          && (st0.finish[v] != -1 ==> st.finish[v] == st0.finish[v]))
  }

  /** Every vertex discovered between st0 and st has also finished. */
  ghost predicate Fresh(st0: DfsState, st: DfsState)
    requires |st0.disc| == |st.disc| == |st.finish|
  {
    forall v | 0 <= v < |st0.disc| && st0.disc[v] == -1 && st.disc[v] != -1 :: st.finish[v] != -1
  }

  /** `dfs2(u)`, entered from `from` (-1 for the start): discover u, visit
      each still undiscovered neighbour in order, finish u. */
  function Visit(g: Graph, st: DfsState, u: int, from: int): (r: DfsState)
    requires Wf(g) && Sized(g, st) && st.time >= 0 && 0 <= u < |g.names| && st.disc[u] == -1
    ensures Sized(g, r) && r.time > st.time && Undiscovered(r) < Undiscovered(st)
    decreases Undiscovered(st), 0
  {
    SetCountUpdate(st.disc, u, st.time + 1);
    var st1 := Discover(st, u, from);
    assert st1.disc == st.disc[u := st.time + 1];
    Finish(VisitAll(g, st1, u, Neighbours(g, u)), u)
  }

  /** The loop of `dfs2(u)` over the remaining neighbours vs. */
  function VisitAll(g: Graph, st: DfsState, u: int, vs: seq<int>): (r: DfsState)
    requires Wf(g) && Sized(g, st) && st.time >= 0 && InRange(vs, |g.names|)
    ensures Sized(g, r) && r.time >= st.time && Undiscovered(r) <= Undiscovered(st)
    decreases Undiscovered(st), 1, |vs|
  {
    if vs == [] then st
    else
      var st1 := if st.disc[vs[0]] == -1 then Visit(g, st, vs[0], u) else st;
      VisitAll(g, st1, u, vs[1..])
  }

  lemma DiscoverExtends(st: DfsState, u: int, from: int)
    requires |st.disc| == |st.finish| == |st.parent| && 0 <= u < |st.disc| && st.disc[u] == -1
    ensures Extends(st, Discover(st, u, from))
  {
  }

  lemma ExtendsTrans(a: DfsState, b: DfsState, c: DfsState)
    requires |a.disc| == |b.disc| == |c.disc| == |a.finish| == |b.finish| == |c.finish| == |a.parent| == |b.parent| == |c.parent|
    requires Extends(a, b) && Extends(b, c)
    ensures Extends(a, c)
  {
  }

  lemma FreshTrans(a: DfsState, b: DfsState, c: DfsState)
    requires |a.disc| == |b.disc| == |c.disc| == |a.finish| == |b.finish| == |c.finish| == |a.parent| == |b.parent| == |c.parent|
    requires Extends(b, c) && Fresh(a, b) && Fresh(b, c)
    ensures Fresh(a, c)
  {
    forall v | 0 <= v < |a.disc| && a.disc[v] == -1 && c.disc[v] != -1
      ensures c.finish[v] != -1
    {
      if b.disc[v] != -1 {
        assert b.finish[v] != -1;
      }
    }
  }

  /** u stays innermost while the vertices it discovers finish. */
  lemma InnermostKeep(g: Graph, st: DfsState, st1: DfsState, u: int)
    requires Sized(g, st) && Sized(g, st1) && StampRange(g, st) && 0 <= u < |g.names| && st.disc[u] != -1
    requires Innermost(g, st, u) && Extends(st, st1) && Fresh(st, st1)
    ensures Innermost(g, st1, u)
  {
    forall w | 0 <= w < |g.names| && st1.disc[u] < st1.disc[w]
      ensures st1.finish[w] != -1
    {
      assert st1.disc[u] == st.disc[u];
      if st.disc[w] != -1 {
        assert st1.disc[w] == st.disc[w];
        assert st.finish[w] != -1;
      }
    }
  }

  /** A vertex just discovered is innermost. */
  lemma InnermostNew(g: Graph, st: DfsState, u: int, from: int)
    requires Sized(g, st) && StampRange(g, st) && 0 <= u < |g.names| && st.disc[u] == -1
    ensures Sized(g, Discover(st, u, from)) && Innermost(g, Discover(st, u, from), u)
  {
    var s := Discover(st, u, from);
    assert forall w | 0 <= w < |g.names| && w != u :: s.disc[w] == st.disc[w];
  }

  /** A neighbour still undiscovered may be entered from the innermost open u. */
  lemma ChildEntry(g: Graph, st: DfsState, start: int, u: int, v: int)
    requires Wf(g) && Sized(g, st) && 0 <= start < |g.names| && 0 <= u < |g.names| && 0 <= v < |g.names|
    requires st.disc[v] == -1 && st.disc[start] != -1 && st.disc[u] != -1 && st.finish[u] == -1
    requires IsEdge(g, u, v) && Innermost(g, st, u)
    ensures Entry(g, st, start, v, u)
  {
  }

  /** The shape of one visit: u gets the next tick, the loop over its
      neighbours leaves u open and innermost with every neighbour
      discovered, and finishing u closes the visit. Vertices discovered
      before keep their stamps, and those discovered during it finish. */
  lemma {:induction false} VisitCore(g: Graph, st: DfsState, u: int, from: int)
    requires Wf(g) && Sized(g, st) && StampRange(g, st) && 0 <= u < |g.names| && st.disc[u] == -1
    ensures var st1 := Discover(st, u, from);
      var st2 := VisitAll(g, st1, u, Neighbours(g, u));
      && Sized(g, st1) && StampRange(g, st1) && Innermost(g, st1, u)
      && StampRange(g, st2) && st2.disc[u] != -1 && st2.finish[u] == -1 && Innermost(g, st2, u)
      && (forall v | 0 <= v < |g.names| && IsEdge(g, u, v) :: st2.disc[v] != -1)
    ensures var r := Visit(g, st, u, from);
      && StampRange(g, r) && Extends(st, r) && Fresh(st, r)
      && r.disc[u] == st.time + 1 && r.finish[u] != -1 && r.parent[u] == from
    decreases Undiscovered(st), 0
  {
    SetCountUpdate(st.disc, u, st.time + 1);
    var st1 := Discover(st, u, from);
    assert st1.disc == st.disc[u := st.time + 1];
    DiscoverRange(g, st, u, from);
    DiscoverExtends(st, u, from);
    InnermostNew(g, st, u, from);
    var nbrs := Neighbours(g, u);
    VisitAllCore(g, st1, u, nbrs);
    var st2 := VisitAll(g, st1, u, nbrs);
    forall v | 0 <= v < |g.names| && IsEdge(g, u, v)
      ensures st2.disc[v] != -1
    {
      var i :| 0 <= i < |nbrs| && nbrs[i] == v;
    }
    FinishRange(g, st2, u);
    var r := Finish(st2, u);
    forall v | 0 <= v < |g.names| && st.disc[v] == -1 && r.disc[v] != -1
      ensures r.finish[v] != -1
    {
      if v != u {
        assert st1.disc[v] == -1;
      }
    }
  }

  /** The loop over vs keeps the shape of the visit of u. */
  lemma {:induction false} VisitAllCore(g: Graph, st: DfsState, u: int, vs: seq<int>)
    requires Wf(g) && Sized(g, st) && StampRange(g, st) && InRange(vs, |g.names|) && 0 <= u < |g.names|
    requires st.disc[u] != -1 && st.finish[u] == -1 && Innermost(g, st, u)
    ensures var r := VisitAll(g, st, u, vs);
      && StampRange(g, r) && Extends(st, r) && Fresh(st, r) && Innermost(g, r, u)
      && (forall i | 0 <= i < |vs| :: r.disc[vs[i]] != -1)
    decreases Undiscovered(st), 1, |vs|
  {
    if vs != [] {
      var st1 := st;
      if st.disc[vs[0]] == -1 {
        VisitCore(g, st, vs[0], u);
        st1 := Visit(g, st, vs[0], u);
        InnermostKeep(g, st, st1, u);
      }
      VisitAllCore(g, st1, u, vs[1..]);
      StepOn(st, st1, VisitAll(g, st1, u, vs[1..]), vs);
    }
  }

  /** Chaining one neighbour's visit with the rest of the loop. */
  lemma StepOn(a: DfsState, b: DfsState, c: DfsState, vs: seq<int>)
    requires |a.disc| == |b.disc| == |c.disc| == |a.finish| == |b.finish| == |c.finish| == |a.parent| == |b.parent| == |c.parent|
    requires Extends(a, b) && Fresh(a, b) && Extends(b, c) && Fresh(b, c)
    requires |vs| > 0 && 0 <= vs[0] < |b.disc| && b.disc[vs[0]] != -1
    requires forall i | 0 <= i < |vs[1..]| :: 0 <= vs[1..][i] < |c.disc| && c.disc[vs[1..][i]] != -1
    ensures Extends(a, c) && Fresh(a, c)
    ensures forall i | 0 <= i < |vs| :: 0 <= vs[i] < |c.disc| && c.disc[vs[i]] != -1
  {
    ExtendsTrans(a, b, c);
    FreshTrans(a, b, c);
    forall i | 0 <= i < |vs|
      ensures 0 <= vs[i] < |c.disc| && c.disc[vs[i]] != -1
    {
      if i > 0 {
        assert vs[i] == vs[1..][i - 1];
      }
    }
  }

  // ---------------------------------------------------------------------
  // What a visit preserves, one property at a time
  // ---------------------------------------------------------------------

  lemma {:induction false} VisitStamps(g: Graph, st: DfsState, u: int, from: int)
    requires Wf(g) && Sized(g, st) && Stamps(g, st) && 0 <= u < |g.names| && st.disc[u] == -1
    ensures Stamps(g, Visit(g, st, u, from))
    decreases Undiscovered(st), 0
  {
    SetCountUpdate(st.disc, u, st.time + 1);
    var st1 := Discover(st, u, from);
    assert st1.disc == st.disc[u := st.time + 1];
    DiscoverStamps(g, st, u, from);
    VisitCore(g, st, u, from);
    var nbrs := Neighbours(g, u);
    VisitAllStamps(g, st1, u, nbrs);
    FinishStamps(g, VisitAll(g, st1, u, nbrs), u);
  }

  lemma {:induction false} VisitAllStamps(g: Graph, st: DfsState, u: int, vs: seq<int>)
    requires Wf(g) && Sized(g, st) && Stamps(g, st) && InRange(vs, |g.names|)
    ensures Stamps(g, VisitAll(g, st, u, vs))
    decreases Undiscovered(st), 1, |vs|
  {
    if vs != [] {
      var st1 := st;
      if st.disc[vs[0]] == -1 {
        VisitStamps(g, st, vs[0], u);
        st1 := Visit(g, st, vs[0], u);
      }
      VisitAllStamps(g, st1, u, vs[1..]);
    }
  }

  lemma {:induction false} VisitNested(g: Graph, st: DfsState, u: int, from: int)
    requires Wf(g) && Sized(g, st) && StampRange(g, st) && Nested(g, st) && 0 <= u < |g.names| && st.disc[u] == -1
    ensures Nested(g, Visit(g, st, u, from))
    decreases Undiscovered(st), 0
  {
    SetCountUpdate(st.disc, u, st.time + 1);
    var st1 := Discover(st, u, from);
    assert st1.disc == st.disc[u := st.time + 1];
    DiscoverNested(g, st, u, from);
    VisitCore(g, st, u, from);
    var nbrs := Neighbours(g, u);
    VisitAllNested(g, st1, u, nbrs);
    FinishNested(g, VisitAll(g, st1, u, nbrs), u);
  }

  lemma {:induction false} VisitAllNested(g: Graph, st: DfsState, u: int, vs: seq<int>)
    requires Wf(g) && Sized(g, st) && StampRange(g, st) && Nested(g, st) && InRange(vs, |g.names|)
    ensures Nested(g, VisitAll(g, st, u, vs))
    decreases Undiscovered(st), 1, |vs|
  {
    if vs != [] {
      var st1 := st;
      if st.disc[vs[0]] == -1 {
        VisitNested(g, st, vs[0], u);
        VisitCore(g, st, vs[0], u);
        st1 := Visit(g, st, vs[0], u);
      }
      VisitAllNested(g, st1, u, vs[1..]);
    }
  }

  lemma {:induction false} VisitParents(g: Graph, st: DfsState, start: int, u: int, from: int)
    requires Wf(g) && Sized(g, st) && 0 <= start < |g.names| && StampRange(g, st) && Parents(g, st, start)
    requires 0 <= u < |g.names| && Entry(g, st, start, u, from)
    ensures Parents(g, Visit(g, st, u, from), start)
    decreases Undiscovered(st), 0, 0
  {
    SetCountUpdate(st.disc, u, st.time + 1);
    var st1 := Discover(st, u, from);
    assert st1.disc == st.disc[u := st.time + 1];
    DiscoverParents(g, st, start, u, from);
    VisitCore(g, st, u, from);
    assert st1.disc[start] != -1 by {
      if u != start {
        assert st1.disc[start] == st.disc[start];
      }
    }
    var nbrs := Neighbours(g, u);
    forall i | 0 <= i < |nbrs|
      ensures IsEdge(g, u, nbrs[i])
    {
      assert nbrs[i] in nbrs;
    }
    VisitAllParents(g, st1, start, u, nbrs);
    FinishParents(g, VisitAll(g, st1, u, nbrs), start, u);
  }

  lemma {:induction false} VisitAllParents(g: Graph, st: DfsState, start: int, u: int, vs: seq<int>)
    requires Wf(g) && Sized(g, st) && 0 <= start < |g.names| && StampRange(g, st) && Parents(g, st, start)
    requires InRange(vs, |g.names|) && 0 <= u < |g.names| && forall i | 0 <= i < |vs| :: IsEdge(g, u, vs[i])
    requires st.disc[u] != -1 && st.finish[u] == -1 && Innermost(g, st, u) && st.disc[start] != -1
    ensures Parents(g, VisitAll(g, st, u, vs), start)
    decreases Undiscovered(st), 1, |vs|
  {
    if vs != [] {
      var st1 := st;
      if st.disc[vs[0]] == -1 {
        ChildParents(g, st, start, u, vs[0]);
        st1 := Visit(g, st, vs[0], u);
      }
      assert forall i | 0 <= i < |vs[1..]| :: vs[1..][i] == vs[i + 1];
      VisitAllParents(g, st1, start, u, vs[1..]);
    }
  }

  /** Visiting one undiscovered neighbour v of the open vertex u keeps the
      parent invariant and leaves u open and innermost. */
  lemma {:induction false} ChildParents(g: Graph, st: DfsState, start: int, u: int, v: int)
    requires Wf(g) && Sized(g, st) && 0 <= start < |g.names| && StampRange(g, st) && Parents(g, st, start)
    requires 0 <= u < |g.names| && 0 <= v < |g.names| && IsEdge(g, u, v) && st.disc[v] == -1
    requires st.disc[u] != -1 && st.finish[u] == -1 && Innermost(g, st, u) && st.disc[start] != -1
    ensures var r := Visit(g, st, v, u);
      && StampRange(g, r) && Parents(g, r, start) && r.disc[start] != -1
      && r.disc[u] != -1 && r.finish[u] == -1 && Innermost(g, r, u)
    decreases Undiscovered(st), 0, 1
  {
    ChildEntry(g, st, start, u, v);
    VisitParents(g, st, start, v, u);
    VisitCore(g, st, v, u);
    InnermostKeep(g, st, Visit(g, st, v, u), u);
  }

  lemma {:induction false} VisitClosed(g: Graph, st: DfsState, u: int, from: int)
    requires Wf(g) && Sized(g, st) && StampRange(g, st) && Closed(g, st) && 0 <= u < |g.names| && st.disc[u] == -1
    ensures Closed(g, Visit(g, st, u, from))
    decreases Undiscovered(st), 0
  {
    SetCountUpdate(st.disc, u, st.time + 1);
    var st1 := Discover(st, u, from);
    assert st1.disc == st.disc[u := st.time + 1];
    DiscoverClosed(g, st, u, from);
    VisitCore(g, st, u, from);
    var nbrs := Neighbours(g, u);
    VisitAllClosed(g, st1, u, nbrs);
    FinishClosed(g, VisitAll(g, st1, u, nbrs), u);
  }

  lemma {:induction false} VisitAllClosed(g: Graph, st: DfsState, u: int, vs: seq<int>)
    requires Wf(g) && Sized(g, st) && StampRange(g, st) && Closed(g, st) && InRange(vs, |g.names|)
    ensures Closed(g, VisitAll(g, st, u, vs))
    decreases Undiscovered(st), 1, |vs|
  {
    if vs != [] {
      var st1 := st;
      if st.disc[vs[0]] == -1 {
        VisitClosed(g, st, vs[0], u);
        VisitCore(g, st, vs[0], u);
        st1 := Visit(g, st, vs[0], u);
      }
      VisitAllClosed(g, st1, u, vs[1..]);
    }
  }

  lemma {:induction false} VisitOrdered(g: Graph, st: DfsState, u: int, from: int)
    requires Wf(g) && Sized(g, st) && StampRange(g, st) && Ordered(g, st) && 0 <= u < |g.names| && st.disc[u] == -1
    ensures Ordered(g, Visit(g, st, u, from))
    decreases Undiscovered(st), 0
  {
    SetCountUpdate(st.disc, u, st.time + 1);
    var st1 := Discover(st, u, from);
    assert st1.disc == st.disc[u := st.time + 1];
    VisitCore(g, st, u, from);
    var nbrs := Neighbours(g, u);
    VisitAllOrdered(g, st1, u, nbrs);
    FinishOrdered(g, VisitAll(g, st1, u, nbrs), u);
  }

  lemma {:induction false} VisitAllOrdered(g: Graph, st: DfsState, u: int, vs: seq<int>)
    requires Wf(g) && Sized(g, st) && StampRange(g, st) && Ordered(g, st) && InRange(vs, |g.names|)
    ensures Ordered(g, VisitAll(g, st, u, vs))
    decreases Undiscovered(st), 1, |vs|
  {
    if vs != [] {
      var st1 := st;
      if st.disc[vs[0]] == -1 {
        VisitOrdered(g, st, vs[0], u);
        VisitCore(g, st, vs[0], u);
        st1 := Visit(g, st, vs[0], u);
      }
      VisitAllOrdered(g, st1, u, vs[1..]);
    }
  }

  // ---------------------------------------------------------------------
  // The whole search
  // ---------------------------------------------------------------------

  function InitState(n: nat): (st: DfsState)
  {
    DfsState(Unset(n), Unset(n), Unset(n), 0, [])
  }

  /** Fresh arrays: nothing stamped, no parent, nothing listed. */
  ghost predicate Blank(g: Graph, st: DfsState) {
    && Sized(g, st) && st.time == 0 && st.order == []
    && (forall v | 0 <= v < |g.names| :: st.disc[v] == -1)
    && (forall v | 0 <= v < |g.names| :: st.finish[v] == -1)
    && (forall v | 0 <= v < |g.names| :: st.parent[v] == -1)
  }

  lemma InitBlank(g: Graph)
    ensures Blank(g, InitState(|g.names|))
  {
  }

  lemma InitRange(g: Graph, st: DfsState)
    requires Blank(g, st)
    ensures StampRange(g, st)
  {
  }

  lemma InitStamps(g: Graph, st: DfsState)
    requires Blank(g, st)
    ensures Stamps(g, st)
  {
    SetCountNone(st.disc);
    SetCountNone(st.finish);
  }

  lemma InitNested(g: Graph, st: DfsState)
    requires Blank(g, st)
    ensures Nested(g, st)
  {
  }

  lemma InitParents(g: Graph, st: DfsState, start: int)
    requires Wf(g) && Blank(g, st) && 0 <= start < |g.names|
    ensures Parents(g, st, start) && Entry(g, st, start, start, -1)
  {
  }

  lemma InitClosed(g: Graph, st: DfsState)
    requires Wf(g) && Blank(g, st)
    ensures Closed(g, st)
  {
  }

  lemma InitOrdered(g: Graph, st: DfsState)
    requires Blank(g, st)
    ensures Ordered(g, st)
  {
    SetCountNone(st.finish);
  }

  /** `dfs2(indexOf[start])` from fresh arrays. */
  function Dfs(g: Graph, start: int): (st: DfsState)
    requires Wf(g) && 0 <= start < |g.names|
    ensures Sized(g, st) && st.disc[start] == 1
  {
    InitBlank(g);
    InitRange(g, InitState(|g.names|));
    VisitCore(g, InitState(|g.names|), start, -1);
    Visit(g, InitState(|g.names|), start, -1)
  }

  /** The state after the whole search from `start`. */
  ghost predicate Final(g: Graph, st: DfsState, start: int) {
    && Inv(g, st, start) && st.disc[start] == 1
    && forall v | 0 <= v < |g.names| && st.disc[v] != -1 :: st.finish[v] != -1
  }

  lemma DfsStamps(g: Graph, start: int)
    requires Wf(g) && 0 <= start < |g.names|
    ensures Stamps(g, Dfs(g, start))
  {
    var st0 := InitState(|g.names|);
    InitBlank(g);
    InitStamps(g, st0);
    VisitStamps(g, st0, start, -1);
  }

  lemma DfsNested(g: Graph, start: int)
    requires Wf(g) && 0 <= start < |g.names|
    ensures Nested(g, Dfs(g, start))
  {
    var st0 := InitState(|g.names|);
    InitBlank(g);
    InitRange(g, st0);
    InitNested(g, st0);
    VisitNested(g, st0, start, -1);
  }

  lemma DfsClosed(g: Graph, start: int)
    requires Wf(g) && 0 <= start < |g.names|
    ensures Closed(g, Dfs(g, start))
  {
    var st0 := InitState(|g.names|);
    InitBlank(g);
    InitRange(g, st0);
    InitClosed(g, st0);
    VisitClosed(g, st0, start, -1);
  }

  lemma DfsFinished(g: Graph, start: int)
    requires Wf(g) && 0 <= start < |g.names|
    ensures forall v | 0 <= v < |g.names| && Dfs(g, start).disc[v] != -1 :: Dfs(g, start).finish[v] != -1
  {
    var st0 := InitState(|g.names|);
    InitBlank(g);
    InitRange(g, st0);
    VisitCore(g, st0, start, -1);
  }

  lemma DfsParents(g: Graph, start: int)
    requires Wf(g) && 0 <= start < |g.names|
    ensures Parents(g, Dfs(g, start), start)
  {
    var st0 := InitState(|g.names|);
    InitBlank(g);
    InitRange(g, st0);
    InitParents(g, st0, start);
    VisitParents(g, st0, start, start, -1);
  }

  lemma DfsOrdered(g: Graph, start: int)
    requires Wf(g) && 0 <= start < |g.names|
    ensures Ordered(g, Dfs(g, start))
  {
    var st0 := InitState(|g.names|);
    InitBlank(g);
    InitRange(g, st0);
    InitOrdered(g, st0);
    VisitOrdered(g, st0, start, -1);
  }

  /** The search from `start` keeps every invariant above, stamps the start
      first and leaves no vertex open. */
  lemma DfsCorrect(g: Graph, start: int)
    requires Wf(g) && 0 <= start < |g.names|
    ensures Final(g, Dfs(g, start), start)
  {
    DfsStamps(g, start);
    DfsNested(g, start);
    DfsClosed(g, start);
    DfsFinished(g, start);
    DfsParents(g, start);
    DfsOrdered(g, start);
  }
}
