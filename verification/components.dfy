/** Weakly connected components: edge direction is ignored, as the source
    does for directed graphs (and as an undirected graph has it anyway).
    Provides the giant-component size and the component count that the
    attack loop records after every batch. */
module Components {
  import opened Wrappers
  import opened Seqs
  import opened Graphs

  /** `u` and `v` are joined by an edge in one direction or the other. */
  predicate Adjacent<N(==)>(g: Graph<N>, u: N, v: N) {
    (u, v) in g.edges || (v, u) in g.edges
  }

  /** No edge, in either direction, leads from `c` to a node of `g` outside `c`. */
  predicate Closed<N(==)>(g: Graph<N>, c: set<N>) {
    forall u, v {:trigger Adjacent(g, u, v)} :: u in c && v in g.order && Adjacent(g, u, v) ==> v in c
  }

  /** `s` together with every node adjacent to a member of `s`. */
  function Step<N(==)>(g: Graph<N>, s: set<N>): set<N> {
    s + set v | v in g.order && exists u {:trigger Adjacent(g, u, v)} :: u in s && Adjacent(g, u, v)
  }

  /** Everything reachable from `s` along edges taken in either direction,
      computed breadth-first until nothing new is reached. */
  function Closure<N(==)>(g: Graph<N>, s: set<N>): (c: set<N>)
    requires s <= Nodes(g)
    ensures s <= c <= Nodes(g)
    ensures Closed(g, c)
    decreases |Nodes(g) - s|
  {
    var next := Step(g, s);
    if next == s then s
    else
      ProperSubsetCard(Nodes(g) - next, Nodes(g) - s);
      Closure(g, next)
  }

  /** The closure of `s` lies inside every closed set that contains `s`. */
  lemma {:induction false} ClosureLeast<N>(g: Graph<N>, s: set<N>, t: set<N>)
    requires s <= Nodes(g) && s <= t && Closed(g, t)
    ensures Closure(g, s) <= t
    decreases |Nodes(g) - s|
  {
    var next := Step(g, s);
    forall v | v in next ensures v in t {
      if v !in s {
        var u :| u in s && Adjacent(g, u, v);
      }
    }
    if next != s {
      ProperSubsetCard(Nodes(g) - next, Nodes(g) - s);
      ClosureLeast(g, next, t);
    }
  }

  /** The weakly connected component of `v`; empty when `v` is not a node. */
  function Component<N(==)>(g: Graph<N>, v: N): (c: set<N>)
    ensures c <= Nodes(g)
  {
    if v in g.order then Closure(g, {v}) else {}
  }

  /** A node's component is the least set of nodes that contains it and that
      no edge leaves. */
  lemma {:induction false} ComponentIsLeastClosed<N>(g: Graph<N>, v: N, t: set<N>)
    requires v in Nodes(g)
    ensures v in Component(g, v) && Closed(g, Component(g, v))
    ensures v in t && Closed(g, t) ==> Component(g, v) <= t
  {
    if v in t && Closed(g, t) {
      ClosureLeast(g, {v}, t);
    }
  }

  /** Components partition the nodes: a member of `v`'s component has
      exactly the same component. */
  lemma {:induction false} SameComponent<N>(g: Graph<N>, v: N, w: N)
    requires v in Nodes(g) && w in Component(g, v)
    ensures Component(g, w) == Component(g, v)
  {
    var c := Component(g, v);
    var d := Component(g, w);
    ClosureLeast(g, {w}, c);
    assert d <= c;
    assert v in d by {
      if v !in d {
        var rest := c - d;
        forall x, y | x in rest && y in g.order && Adjacent(g, x, y) ensures y in rest {
          if y in d {
            assert Adjacent(g, y, x);
          }
        }
        ClosureLeast(g, {v}, rest);
        assert false;
      }
    }
    ClosureLeast(g, {v}, d);
  }

  /** Deleting nodes or edges never enlarges a surviving node's component. */
  lemma {:induction false} ComponentShrinks<N>(h: Graph<N>, g: Graph<N>, v: N)
    requires Subgraph(h, g) && v in Nodes(h)
    ensures Component(h, v) <= Component(g, v)
  {
    var c := Component(g, v);
    forall x, y | x in c && y in h.order && Adjacent(h, x, y) ensures y in c {
      assert y in Nodes(h);
      assert Adjacent(g, x, y);
    }
    ClosureLeast(h, {v}, c);
  }

  /** Components as a function value. The scan below reasons about it only
      through the partition property, never through its definition. */
  function ComponentMap<N(==)>(g: Graph<N>): N -> set<N> {
    v => Component(g, v)
  }

  /** `block` partitions `nodes`: every node lies in its own block, blocks
      hold only nodes, and all members of a block name that same block. */
  ghost predicate Partition<N>(nodes: set<N>, block: N -> set<N>) {
    && (forall v :: v in nodes ==> v in block(v) && block(v) <= nodes)
    && (forall v, w :: v in nodes && w in block(v) ==> block(w) == block(v))
  }

  /** The weakly connected components partition the nodes. */
  lemma {:induction false} ComponentsPartition<N>(g: Graph<N>)
    ensures Partition(Nodes(g), ComponentMap(g))
  {
    forall v | v in Nodes(g) ensures v in Component(g, v) {
      ComponentIsLeastClosed(g, v, {});
    }
    forall v, w | v in Nodes(g) && w in Component(g, v) ensures Component(g, w) == Component(g, v) {
      SameComponent(g, v, w);
    }
  }

  /** Size of the largest block among those of `vs`. */
  function LargestBlock<N>(block: N -> set<N>, vs: seq<N>): nat
    decreases |vs|
  {
    if |vs| == 0 then 0
    else Max(LargestBlock(block, vs[..|vs| - 1]), |block(vs[|vs| - 1])|)
  }

  lemma {:induction false} LargestBlockIsMax<N>(block: N -> set<N>, vs: seq<N>)
    ensures forall v :: v in vs ==> |block(v)| <= LargestBlock(block, vs)
    ensures |vs| > 0 ==> exists v :: v in vs && |block(v)| == LargestBlock(block, vs)
    decreases |vs|
  {
    if |vs| > 0 {
      var init := vs[..|vs| - 1];
      LargestBlockIsMax(block, init);
      assert vs == init + [vs[|vs| - 1]];
    }
  }

  /** The distinct blocks of the members of `s`. */
  function Blocks<N(==)>(block: N -> set<N>, s: set<N>): set<set<N>> {
    set v | v in s :: block(v)
  }

  lemma {:induction false} BlocksCard<N>(block: N -> set<N>, s: set<N>)
    ensures |Blocks(block, s)| <= |s|
    decreases s
  {
    if s != {} {
      var x :| x in s;
      BlocksCard(block, s - {x});
      assert Blocks(block, s) == Blocks(block, s - {x}) + {block(x)};
    }
  }

  /** The source's giant-component size: 0 for a graph without nodes,
      otherwise the size of its largest weakly connected component. */
  function GiantSize<N(==)>(g: Graph<N>): (r: nat)
    ensures r == 0 <==> |g.order| == 0
    ensures forall v :: v in g.order ==> |Component(g, v)| <= r
  {
    if |g.order| == 0 then 0
    else
      LargestBlockIsMax(ComponentMap(g), g.order);
      ComponentIsLeastClosed(g, g.order[0], {});
      LargestBlock(ComponentMap(g), g.order)
  }

  /** The number of distinct weakly connected components: none exactly
      when there are no nodes. */
  function ComponentCount<N(==)>(g: Graph<N>): (r: nat)
    ensures r == 0 <==> |g.order| == 0
  {
    if |g.order| > 0 then
      assert Component(g, g.order[0]) in Blocks(ComponentMap(g), Nodes(g));
      |Blocks(ComponentMap(g), Nodes(g))|
    else
      |Blocks(ComponentMap(g), Nodes(g))|
  }

  /** The giant-component size is 0 exactly for the empty graph; otherwise it
      is the size of some component, no component is larger, and it lies
      between 1 and the node count. */
  lemma {:induction false} GiantSizeIsLargest<N>(g: Graph<N>)
    ensures GiantSize(g) == 0 <==> |g.order| == 0
    ensures |g.order| > 0 ==> 1 <= GiantSize(g) <= |g.order|
    ensures forall v :: v in g.order ==> |Component(g, v)| <= GiantSize(g)
    ensures |g.order| > 0 ==> exists v :: v in g.order && |Component(g, v)| == GiantSize(g)
  {
    LargestBlockIsMax(ComponentMap(g), g.order);
    if |g.order| > 0 {
      var v :| v in g.order && |Component(g, v)| == GiantSize(g);
      ComponentIsLeastClosed(g, v, {});
      ElementsCard(g.order);
      SubsetCard(Component(g, v), Nodes(g));
    }
  }

  /** Deleting nodes or edges never enlarges the giant component. */
  lemma {:induction false} GiantSizeShrinks<N>(h: Graph<N>, g: Graph<N>)
    requires Subgraph(h, g)
    ensures GiantSize(h) <= GiantSize(g)
  {
    GiantSizeIsLargest(h);
    GiantSizeIsLargest(g);
    if |h.order| > 0 {
      var v :| v in h.order && |Component(h, v)| == GiantSize(h);
      ComponentShrinks(h, g, v);
      SubsetCard(Component(h, v), Component(g, v));
      assert v in Nodes(g);
    }
  }

  /** There are no components exactly when there are no nodes, and never
      more components than nodes. */
  lemma {:induction false} ComponentCountBounds<N>(g: Graph<N>)
    ensures ComponentCount(g) == 0 <==> |g.order| == 0
    ensures ComponentCount(g) <= |g.order|
  {
    BlocksCard(ComponentMap(g), Nodes(g));
    ElementsCard(g.order);
    if |g.order| > 0 {
      assert Component(g, g.order[0]) in Blocks(ComponentMap(g), Nodes(g));
    }
  }

  /** Visiting a node not seen before adds its block to the scan. */
  lemma {:induction false} ScanUnseen<N>(nodes: set<N>, block: N -> set<N>, order: seq<N>, i: nat,
                      seen: set<N>, giant: nat, count: nat)
    requires Partition(nodes, block) && Elements(order) <= nodes
    requires i < |order| && order[i] !in seen
    requires forall u :: u in order[..i] ==> block(u) <= seen
    requires forall w :: w in seen ==> w in nodes && block(w) in Blocks(block, Elements(order[..i]))
    requires giant == LargestBlock(block, order[..i])
    requires count == |Blocks(block, Elements(order[..i]))|
    ensures forall u :: u in order[..i + 1] ==> block(u) <= seen + block(order[i])
    ensures forall w :: w in seen + block(order[i]) ==> w in nodes && block(w) in Blocks(block, Elements(order[..i + 1]))
    ensures Max(giant, |block(order[i])|) == LargestBlock(block, order[..i + 1])
    ensures count + 1 == |Blocks(block, Elements(order[..i + 1]))|
  {
    var v := order[i];
    var done := order[..i];
    var next := order[..i + 1];
    assert next == done + [v];
    assert next[..i] == done;
    assert v in nodes;
    assert Blocks(block, Elements(next)) == Blocks(block, Elements(done)) + {block(v)} by {
      assert Elements(next) == Elements(done) + {v};
    }
    assert block(v) !in Blocks(block, Elements(done));
  }

  /** Visiting a node already seen changes nothing. */
  lemma {:induction false} ScanSeen<N>(nodes: set<N>, block: N -> set<N>, order: seq<N>, i: nat,
                    seen: set<N>, giant: nat, count: nat)
    requires Partition(nodes, block) && Elements(order) <= nodes
    requires i < |order| && order[i] in seen
    requires forall u :: u in order[..i] ==> block(u) <= seen
    requires forall w :: w in seen ==> w in nodes && block(w) in Blocks(block, Elements(order[..i]))
    requires giant == LargestBlock(block, order[..i])
    requires count == |Blocks(block, Elements(order[..i]))|
    ensures forall u :: u in order[..i + 1] ==> block(u) <= seen
    ensures forall w :: w in seen ==> w in nodes && block(w) in Blocks(block, Elements(order[..i + 1]))
    ensures giant == LargestBlock(block, order[..i + 1])
    ensures count == |Blocks(block, Elements(order[..i + 1]))|
  {
    var v := order[i];
    var done := order[..i];
    var next := order[..i + 1];
    var known := Blocks(block, Elements(done));
    assert next == done + [v];
    assert next[..i] == done;
    assert Blocks(block, Elements(next)) == known + {block(v)} by {
      assert Elements(next) == Elements(done) + {v};
    }
    var u :| u in done && block(u) == block(v);
    LargestBlockIsMax(block, done);
    assert known + {block(v)} == known;
  }

  /** One pass over `order`, as the library enumerates weak components:
      each node not yet seen starts a new block, whose members are then
      marked seen. Returns the largest block size and the number of blocks. */
  method Scan<N(==)>(ghost nodes: set<N>, block: N -> set<N>, order: seq<N>) returns (giant: nat, count: nat)
    requires Partition(nodes, block) && Elements(order) <= nodes
    ensures giant == LargestBlock(block, order)
    ensures count == |Blocks(block, Elements(order))|
  {
    var seen: set<N> := {};
    giant, count := 0, 0;
    var i := 0;
    assert Blocks(block, Elements(order[..0])) == {} by {
      assert Elements(order[..0]) == {};
    }
    while i < |order|
      invariant 0 <= i <= |order|
      invariant forall u :: u in order[..i] ==> block(u) <= seen
      invariant forall w :: w in seen ==> w in nodes && block(w) in Blocks(block, Elements(order[..i]))
      invariant giant == LargestBlock(block, order[..i])
      invariant count == |Blocks(block, Elements(order[..i]))|
    {
      var v := order[i];
      if v !in seen {
        ScanUnseen(nodes, block, order, i, seen, giant, count);
        var c := block(v);
        seen := seen + c;
        count := count + 1;
        giant := Max(giant, |c|);
      } else {
        ScanSeen(nodes, block, order, i, seen, giant, count);
      }
      i := i + 1;
    }
    assert order[..i] == order;
  }

  /** The giant-component size and component count of `g`, by one scan. */
  method Metrics<N(==)>(g: Graph<N>) returns (giant: nat, count: nat)
    ensures giant == GiantSize(g)
    ensures count == ComponentCount(g)
  {
    ComponentsPartition(g);
    giant, count := Scan(Nodes(g), ComponentMap(g), g.order);
  }
}
