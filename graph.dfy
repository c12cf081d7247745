/** The part of an undirected networkx graph the builders use: its nodes,
    the `numPapers` attribute of author nodes, and the `weight` attribute of
    each edge, keyed by the edge's two end points. The builders mutate one
    graph object each; here the graph is a value that their loops reassign. */
module Graphs {
  import opened SeqUtil
  import opened Adjacency

  datatype Graph<N> = Graph(nodes: set<N>, papers: map<N, int>, weight: map<set<N>, int>)

  function EmptyGraph<N>(): Graph<N> {
    Graph({}, map[], map[])
  }

  /** `G[u][v]['weight']`, 0 when there is no edge. */
  function EdgeW<N>(g: Graph<N>, u: N, v: N): int {
    ValueOr0(g.weight, {u, v})
  }

  /** `w` more on the edge between `u` and `v`, created (with its end
      points) when missing. */
  function AddWeight<N>(g: Graph<N>, u: N, v: N, w: int): (r: Graph<N>)
    ensures r.nodes == g.nodes + {u, v} && r.papers == g.papers
  {
    Graph(g.nodes + {u, v}, g.papers, g.weight[{u, v} := ValueOr0(g.weight, {u, v}) + w])
  }

  /** `if G.has_edge(u, v): G[u][v]['weight'] += 1`
      `else: G.add_edge(u, v, weight=1)` */
  function Link<N>(g: Graph<N>, u: N, v: N): (r: Graph<N>)
    ensures r.nodes == g.nodes + {u, v} && r.papers == g.papers
  {
    AddWeight(g, u, v, 1)
  }

  /** Every edge joins nodes of the graph and weighs at least 1. */
  predicate EdgesOk<N(!new)>(g: Graph<N>) {
    forall e :: e in g.weight ==> e <= g.nodes && g.weight[e] >= 1
  }

  /** Two end points name the same edge in either order, and only then. */
  lemma PairEq<N>(x: N, y: N, u: N, v: N)
    requires u != v
    ensures {x, y} == {u, v} <==> (x == u && y == v) || (x == v && y == u)
  {
    if {x, y} == {u, v} {
      assert u in {x, y} && v in {x, y};
      assert x in {u, v} && y in {u, v};
    }
  }

  /** `AddWeight` changes exactly the edge it names. */
  lemma AddWeightAt<N>(g: Graph<N>, x: N, y: N, w: int, u: N, v: N)
    requires u != v
    ensures EdgeW(AddWeight(g, x, y, w), u, v) == EdgeW(g, u, v) + (if (x == u && y == v) || (x == v && y == u) then w else 0)
  {
    PairEq(x, y, u, v);
  }

  /** `Link` adds one to exactly the edge it names. */
  lemma LinkAt<N>(g: Graph<N>, x: N, y: N, u: N, v: N)
    requires u != v
    ensures EdgeW(Link(g, x, y), u, v) == EdgeW(g, u, v) + (if (x == u && y == v) || (x == v && y == u) then 1 else 0)
  {
    AddWeightAt(g, x, y, 1, u, v);
  }

  /** Linking two nodes of the graph keeps its edges well formed and adds
      no node. */
  lemma LinkEdgesOk<N(!new)>(g: Graph<N>, u: N, v: N)
    requires EdgesOk(g) && u in g.nodes && v in g.nodes
    ensures EdgesOk(Link(g, u, v)) && Link(g, u, v).nodes == g.nodes
  {
  }

  /** `for y in ys: Link(px, y)`, with no test that the two differ. */
  function LinkAll<N>(g: Graph<N>, px: N, ys: seq<N>): Graph<N> {
    if ys == [] then g else Link(LinkAll(g, px, ys[..|ys| - 1]), px, ys[|ys| - 1])
  }

  /** `LinkAll` adds to the edges at `px` the number of times the other end
      is listed. */
  lemma {:induction false} LinkAllAt<N>(g: Graph<N>, px: N, ys: seq<N>, u: N, v: N)
    requires u != v
    ensures EdgeW(LinkAll(g, px, ys), u, v)
         == EdgeW(g, u, v) + (if px == u then Count(ys, v) else 0) + (if px == v then Count(ys, u) else 0)
  {
    if ys != [] {
      var init := ys[..|ys| - 1];
      var y := ys[|ys| - 1];
      assert ys == init + [y];
      LinkAllAt(g, px, init, u, v);
      LinkAt(LinkAll(g, px, init), px, y, u, v);
      CountSnoc(init, y, u);
      CountSnoc(init, y, v);
    }
  }

  /** `LinkAll` adds `px` and the listed nodes, and nothing when the list
      is empty. */
  lemma {:induction false} LinkAllNodes<N>(g: Graph<N>, px: N, ys: seq<N>)
    ensures LinkAll(g, px, ys).nodes == g.nodes + (if ys == [] then {} else {px} + set y | y in ys)
    ensures LinkAll(g, px, ys).papers == g.papers
  {
    if ys != [] {
      var init := ys[..|ys| - 1];
      assert ys == init + [ys[|ys| - 1]];
      LinkAllNodes(g, px, init);
    }
  }

  /** The double loop `for a in xs: for b in ys: Link(a, b)`. */
  function LinkGrid<N>(g: Graph<N>, xs: seq<N>, ys: seq<N>): Graph<N> {
    if xs == [] then g else LinkAll(LinkGrid(g, xs[..|xs| - 1], ys), xs[|xs| - 1], ys)
  }

  /** The grid links every listing of `u` in `xs` with every listing of
      `v` in `ys`, and the other way round. */
  lemma {:induction false} LinkGridAt<N>(g: Graph<N>, xs: seq<N>, ys: seq<N>, u: N, v: N)
    requires u != v
    ensures EdgeW(LinkGrid(g, xs, ys), u, v)
         == EdgeW(g, u, v) + Count(xs, u) * Count(ys, v) + Count(xs, v) * Count(ys, u)
  {
    if xs != [] {
      var init := xs[..|xs| - 1];
      var x := xs[|xs| - 1];
      assert xs == init + [x];
      LinkGridAt(g, init, ys, u, v);
      LinkAllAt(LinkGrid(g, init, ys), x, ys, u, v);
      CountSnoc(init, x, u);
      CountSnoc(init, x, v);
      MulStep(Count(init, u), if x == u then 1 else 0, Count(ys, v));
      MulStep(Count(init, v), if x == v then 1 else 0, Count(ys, u));
    }
  }

  /** The grid keeps the paper counts. */
  lemma {:induction false} LinkGridPapers<N>(g: Graph<N>, xs: seq<N>, ys: seq<N>)
    ensures LinkGrid(g, xs, ys).papers == g.papers
  {
    if xs != [] {
      LinkGridPapers(g, xs[..|xs| - 1], ys);
      LinkAllNodes(LinkGrid(g, xs[..|xs| - 1], ys), xs[|xs| - 1], ys);
    }
  }

  /** `G.add_edge(u, v, weight=w)`: the edge's weight becomes `w`. */
  function Assign<N>(g: Graph<N>, u: N, v: N, w: int): (r: Graph<N>)
    ensures r.nodes == g.nodes + {u, v} && r.papers == g.papers
    ensures r.weight.Keys == g.weight.Keys + {{u, v}}
  {
    Graph(g.nodes + {u, v}, g.papers, g.weight[{u, v} := w])
  }

  /** The networkx graph object a builder creates and updates in place. */
  class NxGraph<N(==)> {
    var nodes: set<N>
    var papers: map<N, int>
    var weight: map<set<N>, int>

    /** The graph's current state as a value. */
    function Value(): Graph<N>
      reads this
    {
      Graph(nodes, papers, weight)
    }

    /** `nx.Graph()` */
    constructor ()
      ensures Value() == EmptyGraph()
    {
      nodes := {};
      papers := map[];
      weight := map[];
    }

    /** `G.add_node(n)` */
    method AddNode(n: N)
      modifies this
      ensures Value() == Graph(old(nodes) + {n}, old(papers), old(weight))
    {
      nodes := nodes + {n};
    }

    /** `G.add_node(au, {'numPapers': 0})` */
    method AddAuthorNode(n: N)
      modifies this
      ensures Value() == Graph(old(nodes) + {n}, old(papers)[n := 0], old(weight))
    {
      nodes := nodes + {n};
      papers := papers[n := 0];
    }

    /** `G.node[au]['numPapers'] += 1` */
    method CountPaper(n: N)
      requires n in papers  // otherwise `G.node[au]` raises `KeyError`
      modifies this
      ensures Value() == Graph(old(nodes), Increment(old(papers), [n]), old(weight))
    {
      assert [n][..0] == [];
      papers := papers[n := papers[n] + 1];
    }

    /** `if G.has_edge(u, v): G[u][v]['weight'] += 1`
        `else: G.add_edge(u, v, weight=1)` */
    method LinkNodes(u: N, v: N)
      modifies this
      ensures Value() == Link(old(Value()), u, v)
    {
      weight := weight[{u, v} := ValueOr0(weight, {u, v}) + 1];
      nodes := nodes + {u, v};
    }

    /** `w` more on an edge, created when missing. */
    method AddEdgeWeight(u: N, v: N, w: int)
      modifies this
      ensures Value() == AddWeight(old(Value()), u, v, w)
    {
      weight := weight[{u, v} := ValueOr0(weight, {u, v}) + w];
      nodes := nodes + {u, v};
    }

    /** `G.add_edge(u, v, weight=w)` */
    method AddEdge(u: N, v: N, w: int)
      modifies this
      ensures Value() == Assign(old(Value()), u, v, w)
    {
      weight := weight[{u, v} := w];
      nodes := nodes + {u, v};
    }
  }

  /** The loop `for y in ys: Link(px, y)`. */
  method LinkAllLoop<N(==)>(g: NxGraph<N>, px: N, ys: seq<N>)
    modifies g
    ensures g.Value() == LinkAll(old(g.Value()), px, ys)
  {
    ghost var start := g.Value();
    for k := 0 to |ys|
      invariant g.Value() == LinkAll(start, px, ys[..k])
    {
      assert ys[..k + 1][..k] == ys[..k];
      g.LinkNodes(px, ys[k]);
    }
    assert ys[..|ys|] == ys;
  }

  /** The loop `for a in xs: for b in ys: Link(a, b)`. */
  method LinkGridLoop<N(==)>(g: NxGraph<N>, xs: seq<N>, ys: seq<N>)
    modifies g
    ensures g.Value() == LinkGrid(old(g.Value()), xs, ys)
  {
    ghost var start := g.Value();
    for k := 0 to |xs|
      invariant g.Value() == LinkGrid(start, xs[..k], ys)
    {
      assert xs[..k + 1][..k] == xs[..k];
      LinkAllLoop(g, xs[k], ys);
    }
    assert xs[..|xs|] == xs;
  }
}
