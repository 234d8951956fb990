/** Graphs as the network library represents them: a directedness flag fixed
    at construction, the nodes in insertion order (the library's iteration
    order), and an edge relation. */
module Graphs {
  import opened Seqs

  /** An undirected graph stores every edge in both orientations, so that
      `(u, v) in edges` reads "u and v are adjacent" whichever graph it is. */
  datatype Graph<N(==)> = Graph(directed: bool, order: seq<N>, edges: set<(N, N)>)

  /** Every node listed once; every edge between listed nodes; undirected
      edges symmetric. */
  predicate Valid<N(==)>(g: Graph<N>) {
    && Distinct(g.order)
    && (forall e :: e in g.edges ==> e.0 in g.order && e.1 in g.order)
    && (!g.directed ==> forall e :: e in g.edges ==> (e.1, e.0) in g.edges)
  }

  function Nodes<N(==)>(g: Graph<N>): set<N> {
    Elements(g.order)
  }

  /** The empty graph with the given directedness. */
  function Empty<N(==)>(directed: bool): Graph<N> {
    Graph(directed, [], {})
  }

  /** Nodes reached from `n` by an edge leaving it (its neighbours when the
      graph is undirected). */
  function Succ<N(==)>(g: Graph<N>, n: N): set<N> {
    set m | m in g.order && (n, m) in g.edges
  }

  /** Nodes with an edge into `n`. */
  function Pred<N(==)>(g: Graph<N>, n: N): set<N> {
    set m | m in g.order && (m, n) in g.edges
  }

  /** The library's degree: out- plus in-degree in a directed graph, where a
      self-loop counts once each way; the neighbour count in an undirected
      graph, where a self-loop counts twice. */
  function Degree<N(==)>(g: Graph<N>, n: N): nat {
    if g.directed then |Succ(g, n)| + |Pred(g, n)|
    else |Succ(g, n)| + (if (n, n) in g.edges then 1 else 0)
  }

  /** The library's in-degree, which only directed graphs provide. */
  function InDegree<N(==)>(g: Graph<N>, n: N): nat {
    |Pred(g, n)|
  }

  /** A node's degree is 0 exactly when no edge touches it; in a directed
      graph it is the out-degree plus the in-degree, and in an undirected
      graph each neighbour counts once and a self-loop twice. The in-degree
      never exceeds the node count. */
  lemma {:induction false} DegreeCounts<N>(g: Graph<N>, n: N)
    requires Valid(g)
    ensures Degree(g, n) == 0 <==> Succ(g, n) == {} && Pred(g, n) == {}
    ensures g.directed ==> Degree(g, n) == |Succ(g, n)| + InDegree(g, n)
    ensures !g.directed ==>
      Degree(g, n) == |Neighbours(g, n)| + (if n in Neighbours(g, n) then 1 else 0)
    ensures InDegree(g, n) <= |g.order|
  {
    if !g.directed {
      assert Pred(g, n) == Succ(g, n);
      assert (n, n) in g.edges <==> n in Succ(g, n);
      DistinctCard(Neighbours(g, n));
    }
    SubsetCard(Pred(g, n), Nodes(g));
    ElementsCard(g.order);
  }

  /** Neighbours of `n` in an undirected graph, in node order. */
  function Neighbours<N(==)>(g: Graph<N>, n: N): (r: seq<N>)
    requires Valid(g)
    ensures Distinct(r)
    ensures Elements(r) == Succ(g, n)
  {
    FilterDistinct(g.order, m => (n, m) in g.edges);
    Filter(g.order, m => (n, m) in g.edges)
  }

  /** `h` is obtained from `g` by deleting nodes and edges. */
  ghost predicate Subgraph<N>(h: Graph<N>, g: Graph<N>) {
    Nodes(h) <= Nodes(g) && h.edges <= g.edges
  }

  /** The library's `remove_nodes_from`: every listed node that is present
      goes, with all its edges; absent nodes are ignored. */
  function RemoveNodes<N(==)>(g: Graph<N>, batch: seq<N>): (h: Graph<N>)
    ensures Nodes(h) == Nodes(g) - Elements(batch)
    ensures Subgraph(h, g)
    ensures forall e :: e in h.edges ==> e.0 !in batch && e.1 !in batch
    ensures forall e :: e in g.edges && e.0 !in batch && e.1 !in batch ==> e in h.edges
    ensures Valid(g) ==> Valid(h)
    ensures h.directed == g.directed
  {
    var gone := Elements(batch);
    var h := Graph(g.directed,
                   Filter(g.order, v => v !in gone),
                   set e | e in g.edges && e.0 !in gone && e.1 !in gone);
    if Valid(g) then FilterDistinct(g.order, v => v !in gone); h else h
  }

  /** Removing no node changes nothing. */
  lemma {:induction false} RemoveNothing<N>(g: Graph<N>)
    ensures RemoveNodes(g, []) == g
  {
    var none: set<N> := {};
    assert Elements<N>([]) == none;
    FilterAll(g.order, v => v !in none);
  }

  /** Removing one batch after another is removing both at once. */
  lemma {:induction false} RemoveNodesTwice<N>(g: Graph<N>, a: seq<N>, b: seq<N>)
    ensures RemoveNodes(RemoveNodes(g, a), b) == RemoveNodes(g, a + b)
  {
    var A, B := Elements(a), Elements(b);
    assert Elements(a + b) == A + B;
    FilterTwice(g.order, v => v !in A, v => v !in B, v => v !in A + B);
  }

  /** The library's `add_edge`: adds the missing endpoints at the end of the
      node order, `u` before `v`, then the edge. */
  function AddEdge<N(==)>(g: Graph<N>, u: N, v: N): (h: Graph<N>)
    requires Valid(g)
    ensures Valid(h) && h.directed == g.directed
    ensures Nodes(h) == Nodes(g) + {u, v}
    ensures g.order <= h.order
    ensures h.edges == g.edges + (if g.directed then {(u, v)} else {(u, v), (v, u)})
  {
    var o1 := if u in g.order then g.order else g.order + [u];
    var o2 := if v in o1 then o1 else o1 + [v];
    assert Elements(o2) == Nodes(g) + {u, v};
    Graph(g.directed, o2, g.edges + (if g.directed then {(u, v)} else {(u, v), (v, u)}))
  }

  /** `AddEdge` appends exactly the endpoints that are new, `u` first. */
  lemma {:induction false} AddEdgeAppends<N>(g: Graph<N>, u: N, v: N)
    requires Valid(g)
    ensures |AddEdge(g, u, v).order| == |g.order| + |{u, v} - Nodes(g)|
    ensures u !in Nodes(g) ==> AddEdge(g, u, v).order[|g.order|] == u
  {
    var h, extra := AddEdge(g, u, v), {u, v} - Nodes(g);
    DistinctCard(g.order);
    DistinctCard(h.order);
    assert Nodes(h) == Nodes(g) + extra && Nodes(g) !! extra;
    assert |Nodes(g) + extra| == |Nodes(g)| + |extra|;
  }
}
