/** Edge classification after the second traversal of Q4_GraphAlgorithms.cpp,
    and `DFS_with_classification` as a whole: every matrix cell that is an
    edge goes to the tree, back, forward or cross list, scanned row by row. */
module GraphClassify {
  import opened GraphMatrix
  import opened GraphDfs

  datatype EdgeKind = TreeEdge | BackEdge | ForwardEdge | CrossEdge

  /** The test of one edge cell, in the order the source applies it: the
      recorded parent first, then the two interval containments. */
  function Kind(g: Graph, st: DfsState, u: int, v: int): EdgeKind
    requires Sized(g, st) && 0 <= u < |g.names| && 0 <= v < |g.names|
  {
    if st.parent[v] == u then TreeEdge
    else if st.disc[v] < st.disc[u] && st.finish[v] > st.finish[u] then BackEdge
    else if st.disc[u] < st.disc[v] && st.finish[u] > st.finish[v] then ForwardEdge
    else CrossEdge
  }

  /** The four lists, as `(u, v)` index pairs. */
  datatype Edges = Edges(tree: seq<(int, int)>, back: seq<(int, int)>, forward: seq<(int, int)>, cross: seq<(int, int)>)

  function Group(e: Edges, k: EdgeKind): seq<(int, int)>
  {
    match k
    case TreeEdge => e.tree
    case BackEdge => e.back
    case ForwardEdge => e.forward
    case CrossEdge => e.cross
  }

  /** `push_back` onto the list of kind `k`. */
  function Append(e: Edges, k: EdgeKind, p: (int, int)): (r: Edges)
    ensures Group(r, k) == Group(e, k) + [p]
    ensures forall k' | k' != k :: Group(r, k') == Group(e, k')
  {
    match k
    case TreeEdge => e.(tree := e.tree + [p])
    case BackEdge => e.(back := e.back + [p])
    case ForwardEdge => e.(forward := e.forward + [p])
    case CrossEdge => e.(cross := e.cross + [p])
  }

  /** The inner loop of the classification, from column `v` of row `u` on. */
  function ClassifyRow(g: Graph, st: DfsState, u: int, v: int, e: Edges): Edges
    requires Wf(g) && Sized(g, st) && 0 <= u < |g.names| && 0 <= v <= |g.names|
    decreases |g.names| - v
  {
    if v == |g.names| then e
    else if g.adj[u][v] >= INF / 2 then ClassifyRow(g, st, u, v + 1, e)
    else ClassifyRow(g, st, u, v + 1, Append(e, Kind(g, st, u, v), (u, v)))
  }

  /** The outer loop, from row `u` on. */
  function ClassifyRows(g: Graph, st: DfsState, u: int, e: Edges): Edges
    requires Wf(g) && Sized(g, st) && 0 <= u <= |g.names|
    decreases |g.names| - u
  {
    if u == |g.names| then e else ClassifyRows(g, st, u + 1, ClassifyRow(g, st, u, 0, e))
  }

  /** The classification loop over the whole matrix, from four empty lists. */
  function Classify(g: Graph, st: DfsState): Edges
    requires Wf(g) && Sized(g, st)
  {
    ClassifyRows(g, st, 0, Edges([], [], [], []))
  }

  // ---------------------------------------------------------------------
  // What the loop computes
  // ---------------------------------------------------------------------

  /** Row-major order: cell `p` comes before cell `(u, v)`. */
  predicate CellBefore(p: (int, int), u: int, v: int) {
    p.0 < u || (p.0 == u && p.1 < v)
  }

  /** Strictly increasing in row-major order, hence without repeats. */
  predicate RowMajor(s: seq<(int, int)>) {
    forall i, j | 0 <= i < j < |s| :: CellBefore(s[i], s[j].0, s[j].1)
  }

  /** `s` lists, in row-major order, exactly the edge cells of kind `k`
      that come before cell `(u, v)`. */
  ghost predicate GroupUpto(g: Graph, st: DfsState, s: seq<(int, int)>, k: EdgeKind, u: int, v: int)
    requires Wf(g) && Sized(g, st)
  {
    var n := |g.names|;
    && (forall i | 0 <= i < |s| ::
          && 0 <= s[i].0 < n && 0 <= s[i].1 < n && CellBefore(s[i], u, v)
          && IsEdge(g, s[i].0, s[i].1) && Kind(g, st, s[i].0, s[i].1) == k)
    && (forall a, b | 0 <= a < n && 0 <= b < n && CellBefore((a, b), u, v) && IsEdge(g, a, b) && Kind(g, st, a, b) == k ::
          (a, b) in s)
    && RowMajor(s)
  }

  ghost predicate Upto(g: Graph, st: DfsState, e: Edges, u: int, v: int)
    requires Wf(g) && Sized(g, st)
  {
    && GroupUpto(g, st, e.tree, TreeEdge, u, v)
    && GroupUpto(g, st, e.back, BackEdge, u, v)
    && GroupUpto(g, st, e.forward, ForwardEdge, u, v)
    && GroupUpto(g, st, e.cross, CrossEdge, u, v)
  }

  /** One cell of the scan: the cell joins list `k` exactly when it is an
      edge of kind `k`. */
  lemma GroupStep(g: Graph, st: DfsState, s: seq<(int, int)>, k: EdgeKind, u: int, v: int)
    requires Wf(g) && Sized(g, st) && 0 <= u < |g.names| && 0 <= v < |g.names|
    requires GroupUpto(g, st, s, k, u, v)
    ensures var s' := if IsEdge(g, u, v) && Kind(g, st, u, v) == k then s + [(u, v)] else s;
      GroupUpto(g, st, s', k, u, v + 1)
  {
    var n := |g.names|;
    var s' := if IsEdge(g, u, v) && Kind(g, st, u, v) == k then s + [(u, v)] else s;
    forall a, b | 0 <= a < n && 0 <= b < n && CellBefore((a, b), u, v + 1) && IsEdge(g, a, b) && Kind(g, st, a, b) == k
      ensures (a, b) in s'
    {
      if !CellBefore((a, b), u, v) {
        assert (a, b) == (u, v);
        assert s'[|s'| - 1] == (u, v);
      }
    }
  }

  lemma CellStep(g: Graph, st: DfsState, e: Edges, u: int, v: int)
    requires Wf(g) && Sized(g, st) && 0 <= u < |g.names| && 0 <= v < |g.names|
    requires Upto(g, st, e, u, v)
    ensures Upto(g, st, if g.adj[u][v] >= INF / 2 then e else Append(e, Kind(g, st, u, v), (u, v)), u, v + 1)
  {
    GroupStep(g, st, e.tree, TreeEdge, u, v);
    GroupStep(g, st, e.back, BackEdge, u, v);
    GroupStep(g, st, e.forward, ForwardEdge, u, v);
    GroupStep(g, st, e.cross, CrossEdge, u, v);
    if g.adj[u][v] < INF / 2 {
      var e' := Append(e, Kind(g, st, u, v), (u, v));
      assert Group(e', TreeEdge) == e'.tree && Group(e, TreeEdge) == e.tree;
      assert Group(e', BackEdge) == e'.back && Group(e, BackEdge) == e.back;
      assert Group(e', ForwardEdge) == e'.forward && Group(e, ForwardEdge) == e.forward;
      assert Group(e', CrossEdge) == e'.cross && Group(e, CrossEdge) == e.cross;
    }
  }

  /** Past the last column, the next row starts. */
  lemma GroupRowEnd(g: Graph, st: DfsState, s: seq<(int, int)>, k: EdgeKind, u: int)
    requires Wf(g) && Sized(g, st) && 0 <= u < |g.names|
    requires GroupUpto(g, st, s, k, u, |g.names|)
    ensures GroupUpto(g, st, s, k, u + 1, 0)
  {
  }

  lemma {:induction false} ClassifyRowCorrect(g: Graph, st: DfsState, u: int, v: int, e: Edges)
    requires Wf(g) && Sized(g, st) && 0 <= u < |g.names| && 0 <= v <= |g.names|
    requires Upto(g, st, e, u, v)
    ensures Upto(g, st, ClassifyRow(g, st, u, v, e), u + 1, 0)
    decreases |g.names| - v
  {
    if v == |g.names| {
      GroupRowEnd(g, st, e.tree, TreeEdge, u);
      GroupRowEnd(g, st, e.back, BackEdge, u);
      GroupRowEnd(g, st, e.forward, ForwardEdge, u);
      GroupRowEnd(g, st, e.cross, CrossEdge, u);
    } else {
      CellStep(g, st, e, u, v);
      var e' := if g.adj[u][v] >= INF / 2 then e else Append(e, Kind(g, st, u, v), (u, v));
      ClassifyRowCorrect(g, st, u, v + 1, e');
    }
  }

  lemma {:induction false} ClassifyRowsCorrect(g: Graph, st: DfsState, u: int, e: Edges)
    requires Wf(g) && Sized(g, st) && 0 <= u <= |g.names|
    requires Upto(g, st, e, u, 0)
    ensures Upto(g, st, ClassifyRows(g, st, u, e), |g.names|, 0)
    decreases |g.names| - u
  {
    if u < |g.names| {
      var e1 := ClassifyRow(g, st, u, 0, e);
      ClassifyRowCorrect(g, st, u, 0, e);
      ClassifyRowsCorrect(g, st, u + 1, e1);
      assert ClassifyRows(g, st, u, e) == ClassifyRows(g, st, u + 1, e1);
    }
  }

  /** Every edge cell lands in exactly one list, the list of its kind; no
      other cell is listed; each list is in row-major order without repeats. */
  lemma ClassifyCorrect(g: Graph, st: DfsState)
    requires Wf(g) && Sized(g, st)
    ensures var e := Classify(g, st); var n := |g.names|;
      && (forall k, a, b | 0 <= a < n && 0 <= b < n ::
            (a, b) in Group(e, k) <==> IsEdge(g, a, b) && Kind(g, st, a, b) == k)
      && (forall k, p | p in Group(e, k) :: 0 <= p.0 < n && 0 <= p.1 < n)
      && (forall k :: RowMajor(Group(e, k)))
  {
    var e := Classify(g, st);
    ClassifyRowsCorrect(g, st, 0, Edges([], [], [], []));
    assert Upto(g, st, e, |g.names|, 0);
    forall k
      ensures GroupUpto(g, st, Group(e, k), k, |g.names|, 0)
    {
    }
    forall k, p | p in Group(e, k)
      ensures 0 <= p.0 < |g.names| && 0 <= p.1 < |g.names|
    {
      var i :| 0 <= i < |Group(e, k)| && Group(e, k)[i] == p;
    }
    forall k, a, b | 0 <= a < |g.names| && 0 <= b < |g.names| && (a, b) in Group(e, k)
      ensures IsEdge(g, a, b) && Kind(g, st, a, b) == k
    {
      var i :| 0 <= i < |Group(e, k)| && Group(e, k)[i] == (a, b);
    }
  }

  // ---------------------------------------------------------------------
  // What the classes mean after the search
  // ---------------------------------------------------------------------

  /** One cell of the finished classification. */
  lemma ClassifyCell(g: Graph, st: DfsState, u: int, v: int, k: EdgeKind)
    requires Wf(g) && Sized(g, st) && 0 <= u < |g.names| && 0 <= v < |g.names|
    ensures (u, v) in Group(Classify(g, st), k) <==> IsEdge(g, u, v) && Kind(g, st, u, v) == k
  {
    ClassifyCorrect(g, st);
  }

  /** The stamps of one vertex after the search: none, or an interval. */
  lemma VertexStamps(g: Graph, start: int, u: int)
    requires Wf(g) && 0 <= start < |g.names| && 0 <= u < |g.names|
    ensures var st := Dfs(g, start);
      (st.disc[u] == -1 && st.finish[u] == -1) || 1 <= st.disc[u] < st.finish[u]
  {
    DfsStamps(g, start);
    DfsFinished(g, start);
  }

  /** The recorded parent of one vertex. */
  lemma ParentOf(g: Graph, start: int, v: int)
    requires Wf(g) && 0 <= start < |g.names| && 0 <= v < |g.names|
    ensures var st := Dfs(g, start);
      st.parent[v] != -1 ==>
        0 <= st.parent[v] < |g.names| && st.disc[st.parent[v]] != -1 &&
        st.disc[st.parent[v]] < st.disc[v] && IsEdge(g, st.parent[v], v)
  {
    DfsParents(g, start);
  }

  /** A vertex is never its own parent, so a self-loop (every diagonal cell
      of a fresh matrix) is classified as a cross edge. */
  lemma DiagonalCross(g: Graph, start: int, u: int)
    requires Wf(g) && 0 <= start < |g.names| && 0 <= u < |g.names| && IsEdge(g, u, u)
    ensures (u, u) in Classify(g, Dfs(g, start)).cross
  {
    ParentOf(g, start, u);
    ClassifyCell(g, Dfs(g, start), u, u, CrossEdge);
  }

  /** Tree edges are exactly the recorded parent links. */
  lemma TreeEdgesAreParents(g: Graph, start: int, u: int, v: int)
    requires Wf(g) && 0 <= start < |g.names| && 0 <= u < |g.names| && 0 <= v < |g.names|
    ensures (u, v) in Classify(g, Dfs(g, start)).tree <==> Dfs(g, start).parent[v] == u
  {
    ParentOf(g, start, v);
    ClassifyCell(g, Dfs(g, start), u, v, TreeEdge);
  }

  /** A row of a vertex the search never reached holds only cross edges:
      its stamps are -1, which no interval test accepts. */
  lemma UnreachedRowCross(g: Graph, start: int, u: int, v: int)
    requires Wf(g) && 0 <= start < |g.names| && 0 <= u < |g.names| && 0 <= v < |g.names|
    requires Dfs(g, start).disc[u] == -1 && IsEdge(g, u, v)
    ensures (u, v) in Classify(g, Dfs(g, start)).cross
  {
    ParentOf(g, start, v);
    VertexStamps(g, start, u);
    VertexStamps(g, start, v);
    ClassifyCell(g, Dfs(g, start), u, v, CrossEdge);
  }

  /** Back and forward edges join two reached vertices, and their intervals
      nest the way the names say. */
  lemma BackForwardReached(g: Graph, start: int, u: int, v: int)
    requires Wf(g) && 0 <= start < |g.names| && 0 <= u < |g.names| && 0 <= v < |g.names|
    requires (u, v) in Classify(g, Dfs(g, start)).back || (u, v) in Classify(g, Dfs(g, start)).forward
    ensures Dfs(g, start).disc[u] != -1 && Dfs(g, start).disc[v] != -1
    ensures (u, v) in Classify(g, Dfs(g, start)).back ==>
      Dfs(g, start).disc[v] < Dfs(g, start).disc[u] < Dfs(g, start).finish[u] < Dfs(g, start).finish[v]
    ensures (u, v) in Classify(g, Dfs(g, start)).forward ==>
      Dfs(g, start).disc[u] < Dfs(g, start).disc[v] < Dfs(g, start).finish[v] < Dfs(g, start).finish[u]
  {
    VertexStamps(g, start, u);
    VertexStamps(g, start, v);
    ClassifyCell(g, Dfs(g, start), u, v, BackEdge);
    ClassifyCell(g, Dfs(g, start), u, v, ForwardEdge);
  }

  /** What the invariants of the search say about one edge out of a
      finished vertex. */
  lemma EdgeStamps(g: Graph, start: int, u: int, v: int)
    requires Wf(g) && 0 <= start < |g.names| && 0 <= u < |g.names| && 0 <= v < |g.names| && u != v
    requires Dfs(g, start).finish[u] != -1 && IsEdge(g, u, v)
    ensures var st := Dfs(g, start);
      && st.disc[v] != -1 && st.disc[v] < st.finish[u]
      && st.disc[u] != st.disc[v] && st.finish[u] != st.finish[v]
      && (st.disc[u] < st.disc[v] ==> (st.finish[v] != -1 && st.finish[v] < st.finish[u]) || st.finish[u] < st.disc[v])
      && (st.disc[v] < st.disc[u] ==> st.finish[v] == -1 || st.finish[u] < st.finish[v] || st.finish[v] < st.disc[u])
  {
    DfsStamps(g, start);
    DfsNested(g, start);
    DfsClosed(g, start);
  }

  /** The classical cross-edge fact: a cross edge out of a reached vertex
      (other than a self-loop) leads to a vertex already finished before the
      edge's source was discovered. In particular its target was reached. */
  lemma CrossEdgesPointBack(g: Graph, start: int, u: int, v: int)
    requires Wf(g) && 0 <= start < |g.names| && 0 <= u < |g.names| && 0 <= v < |g.names| && u != v
    requires Dfs(g, start).disc[u] != -1 && (u, v) in Classify(g, Dfs(g, start)).cross
    ensures Dfs(g, start).disc[v] != -1 && Dfs(g, start).finish[v] < Dfs(g, start).disc[u]
  {
    var st := Dfs(g, start);
    ClassifyCell(g, st, u, v, CrossEdge);
    VertexStamps(g, start, u);
    VertexStamps(g, start, v);
    EdgeStamps(g, start, u, v);
    if st.disc[u] < st.disc[v] {
      assert false;
    }
    assert st.disc[v] < st.disc[u];
    if st.finish[v] > st.finish[u] {
      assert false;
    }
  }

  // ---------------------------------------------------------------------
  // DFS_with_classification
  // ---------------------------------------------------------------------

  /** What the routine prints: the post-order and the four edge lists, as
      name pairs. */
  datatype Report = Report(order: seq<char>, tree: seq<(char, char)>, back: seq<(char, char)>,
                           forward: seq<(char, char)>, cross: seq<(char, char)>)

  function NamePairs(g: Graph, ps: seq<(int, int)>): (r: seq<(char, char)>)
    requires forall i | 0 <= i < |ps| :: 0 <= ps[i].0 < |g.names| && 0 <= ps[i].1 < |g.names|
    ensures |r| == |ps|
    ensures forall i | 0 <= i < |ps| :: r[i] == (g.names[ps[i].0], g.names[ps[i].1])
  {
    seq(|ps|, i requires 0 <= i < |ps| => (g.names[ps[i].0], g.names[ps[i].1]))
  }

  /** `ps` lists a name pair exactly when some edge cell of kind `k` joins
      vertices with those names. */
  ghost predicate NamesOfKind(g: Graph, st: DfsState, ps: seq<(char, char)>, k: EdgeKind)
    requires Wf(g) && Sized(g, st)
  {
    forall a, b :: (a, b) in ps <==>
      exists x, y | 0 <= x < |g.names| && 0 <= y < |g.names| ::
        g.names[x] == a && g.names[y] == b && IsEdge(g, x, y) && Kind(g, st, x, y) == k
  }

  /** Translating index pairs to names: a name pair is listed exactly when
      some listed cell joins vertices with those names. */
  lemma NamePairsCells(g: Graph, s: seq<(int, int)>, a: char, b: char)
    requires forall i | 0 <= i < |s| :: 0 <= s[i].0 < |g.names| && 0 <= s[i].1 < |g.names|
    ensures (a, b) in NamePairs(g, s) <==>
      exists x, y | 0 <= x < |g.names| && 0 <= y < |g.names| :: g.names[x] == a && g.names[y] == b && (x, y) in s
  {
    var r := NamePairs(g, s);
    if (a, b) in r {
      var i :| 0 <= i < |r| && r[i] == (a, b);
      assert s[i] in s;
    }
    if exists x, y | 0 <= x < |g.names| && 0 <= y < |g.names| :: g.names[x] == a && g.names[y] == b && (x, y) in s {
      var x, y :| 0 <= x < |g.names| && 0 <= y < |g.names| && g.names[x] == a && g.names[y] == b && (x, y) in s;
      var i :| 0 <= i < |s| && s[i] == (x, y);
      assert r[i] == (a, b);
    }
  }

  /** Each list of the classification, in names. */
  lemma ClassifyNames(g: Graph, st: DfsState, k: EdgeKind)
    requires Wf(g) && Sized(g, st)
    ensures var s := Group(Classify(g, st), k);
      && (forall i | 0 <= i < |s| :: 0 <= s[i].0 < |g.names| && 0 <= s[i].1 < |g.names|)
      && NamesOfKind(g, st, NamePairs(g, s), k)
  {
    var s := Group(Classify(g, st), k);
    ClassifyCorrect(g, st);
    assert forall i | 0 <= i < |s| :: s[i] in s;
    forall a, b
      ensures (a, b) in NamePairs(g, s) <==>
        exists x, y | 0 <= x < |g.names| && 0 <= y < |g.names| ::
          g.names[x] == a && g.names[y] == b && IsEdge(g, x, y) && Kind(g, st, x, y) == k
    {
      NamePairsCells(g, s, a, b);
    }
  }

  /** The post-order in names: the finished vertices by increasing finish time. */
  function OrderNames(g: Graph, start: int): (r: seq<char>)
    requires Wf(g) && 0 <= start < |g.names|
    ensures var st := Dfs(g, start);
      && |r| == |st.order|
      && (forall i | 0 <= i < |r| :: 0 <= st.order[i] < |g.names| && st.finish[st.order[i]] != -1 && r[i] == g.names[st.order[i]])
      && (forall i, j | 0 <= i < j < |r| :: st.finish[st.order[i]] < st.finish[st.order[j]])
  {
    var st := Dfs(g, start);
    DfsOrdered(g, start);
    seq(|st.order|, i requires 0 <= i < |st.order| => g.names[st.order[i]])
  }

  function ReportGroup(r: Report, k: EdgeKind): seq<(char, char)>
  {
    match k
    case TreeEdge => r.tree
    case BackEdge => r.back
    case ForwardEdge => r.forward
    case CrossEdge => r.cross
  }

  /** Every listed cell is a cell of the matrix. */
  lemma ClassifyRanges(g: Graph, st: DfsState)
    requires Wf(g) && Sized(g, st)
    ensures forall k, i | 0 <= i < |Group(Classify(g, st), k)| ::
      0 <= Group(Classify(g, st), k)[i].0 < |g.names| && 0 <= Group(Classify(g, st), k)[i].1 < |g.names|
  {
    forall k, i | 0 <= i < |Group(Classify(g, st), k)|
      ensures 0 <= Group(Classify(g, st), k)[i].0 < |g.names| && 0 <= Group(Classify(g, st), k)[i].1 < |g.names|
    {
      ClassifyNames(g, st, k);
    }
  }

  /** `DFS_with_classification(start)`: look the start name up, run the
      traversal, classify every cell and translate indices to names. The
      printed post-order is that of the first traversal, which visits in the
      same order as the second one modelled here. */
  function DfsWithClassification(g: Graph, start: char): Report
    requires Wf(g) && |g.names| > 0
  {
    var s := Lookup(g, start);
    var st := Dfs(g, s);
    var e := Classify(g, st);
    ClassifyRanges(g, st);
    assert Group(e, TreeEdge) == e.tree && Group(e, BackEdge) == e.back;
    assert Group(e, ForwardEdge) == e.forward && Group(e, CrossEdge) == e.cross;
    Report(OrderNames(g, s), NamePairs(g, e.tree), NamePairs(g, e.back), NamePairs(g, e.forward), NamePairs(g, e.cross))
  }

  /** The report lists the post-order of the search from the looked-up start
      and, for each kind, exactly the name pairs of the edges of that kind. */
  lemma ReportCorrect(g: Graph, start: char, k: EdgeKind)
    requires Wf(g) && |g.names| > 0
    ensures var r := DfsWithClassification(g, start); var st := Dfs(g, Lookup(g, start));
      && |r.order| == |st.order|
      && (forall i | 0 <= i < |r.order| :: 0 <= st.order[i] < |g.names| && st.finish[st.order[i]] != -1 && r.order[i] == g.names[st.order[i]])
      && NamesOfKind(g, st, ReportGroup(r, k), k)
  {
    var st := Dfs(g, Lookup(g, start));
    ClassifyNames(g, st, k);
    var e := Classify(g, st);
    assert ReportGroup(DfsWithClassification(g, start), k) == NamePairs(g, Group(e, k));
  }
}
