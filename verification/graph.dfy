/** The adjacency-matrix graph of Q4_GraphAlgorithms.cpp: vertex names, an
    n-by-n weight matrix in which INF stands for "no edge", and a map from
    names to indices. */
module GraphMatrix {
  /** The "no edge" weight, 2^60. */
  const INF: int := 0x1000_0000_0000_0000

  datatype Graph = Graph(names: seq<char>, adj: seq<seq<int>>, indexOf: map<char, int>)

  /** The matrix is n by n and every recorded index names a vertex. */
  predicate Wf(g: Graph) {
    && |g.adj| == |g.names|
    && (forall i | 0 <= i < |g.adj| :: |g.adj[i]| == |g.names|)
    && (forall c | c in g.indexOf :: 0 <= g.indexOf[c] < |g.names|)
  }

  /** A cell below INF/2 is an edge, as every algorithm of the source tests it. */
  predicate IsEdge(g: Graph, u: int, v: int)
    requires Wf(g) && 0 <= u < |g.names| && 0 <= v < |g.names|
  {
    g.adj[u][v] < INF / 2
  }

  /** The index `indexOf[c]` yields: the map's operator[] answers 0 for a
      name it does not hold. */
  function Lookup(g: Graph, c: char): int {
    if c in g.indexOf then g.indexOf[c] else 0
  }

  /** The name map after recording names[0..k) in order, later indices
      overwriting earlier ones. */
  function IndexMap(names: seq<char>, k: nat): (m: map<char, int>)
    requires k <= |names|
    ensures forall c :: c in m <==> c in names[..k]
    ensures forall c | c in m :: 0 <= m[c] < k && names[m[c]] == c
    ensures forall c, j | c in m && m[c] < j < k :: names[j] != c
  {
    if k == 0 then map[]
    else
      var m := IndexMap(names, k - 1);
      assert names[..k] == names[..k - 1] + [names[k - 1]];
      m[names[k - 1] := k - 1]
  }

  function NewGraph(names: seq<char>): (g: Graph)
    ensures Wf(g) && g.names == names
    ensures forall i, j | 0 <= i < |names| && 0 <= j < |names| ::
      g.adj[i][j] == if i == j then 0 else INF
    ensures forall c :: c in g.indexOf <==> c in names
    ensures forall c | c in g.indexOf :: names[g.indexOf[c]] == c
    ensures forall c, j | c in g.indexOf && g.indexOf[c] < j < |names| :: names[j] != c
  {
    assert names[..|names|] == names;
    Graph(names, seq(|names|, i => seq(|names|, j => if i == j then 0 else INF)), IndexMap(names, |names|))
  }

  /** A new graph has exactly the self-loops as edges, and a name listed
      once is looked up at its own position. */
  lemma NewGraphCorrect(names: seq<char>)
    ensures var g := NewGraph(names);
      forall u, v | 0 <= u < |names| && 0 <= v < |names| :: IsEdge(g, u, v) <==> u == v
    ensures forall i | 0 <= i < |names| && (forall j | 0 <= j < |names| && j != i :: names[j] != names[i]) ::
      Lookup(NewGraph(names), names[i]) == i
  {
    var g := NewGraph(names);
    forall i | 0 <= i < |names| && (forall j | 0 <= j < |names| && j != i :: names[j] != names[i])
      ensures Lookup(g, names[i]) == i
    {
      assert names[i] in names;
    }
  }

  /** `addDirectedEdge(u, v, w)`: look both names up (recording an unknown
      one at index 0) and overwrite that one cell. */
  function AddDirectedEdge(g: Graph, u: char, v: char, w: int): (r: Graph)
    requires Wf(g) && |g.names| > 0
    ensures Wf(r) && r.names == g.names
    ensures forall c :: Lookup(r, c) == Lookup(g, c)
    ensures r.indexOf.Keys == g.indexOf.Keys + {u, v}
    ensures forall i, j | 0 <= i < |g.names| && 0 <= j < |g.names| ::
      r.adj[i][j] == if i == Lookup(g, u) && j == Lookup(g, v) then w else g.adj[i][j]
  {
    var m1 := if u in g.indexOf then g.indexOf else g.indexOf[u := 0];
    var m2 := if v in m1 then m1 else m1[v := 0];
    var iu := m1[u];
    var iv := m2[v];
    g.(adj := g.adj[iu := g.adj[iu][iv := w]], indexOf := m2)
  }
}
