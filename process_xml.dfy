/** The co-author network of the top-level processAPSXML.py: `processXML`
    links the authors of every paper whose codes match one code group. An
    author met for the first time gets its edges to the paper's other
    authors set to 1; an author already in the graph adds 1 to them. */
module ProcessXml {
  import opened Wrappers
  import opened XmlValue
  import opened SeqUtil
  import opened AuthorTree
  import opened Pacs
  import opened ParseAps
  import opened Adjacency
  import opened Graphs
  import opened CoAuthors

  /** The loop of a new author: `for a in authorInfo: if a != au:
      G.add_edge(au, a, weight=1)`. */
  function SetFrom<N>(g: Graph<N>, au: N, coauthors: seq<N>): Graph<N> {
    if coauthors == [] then g
    else
      var h := SetFrom(g, au, coauthors[..|coauthors| - 1]);
      var a := coauthors[|coauthors| - 1];
      if a != au then Assign(h, au, a, 1) else h
  }

  /** The loop `for au in authorInfo` of one paper, over the prefix `aus`. */
  function RootPaper<N>(g: Graph<N>, aus: seq<N>, authors: seq<N>): Graph<N> {
    if aus == [] then g
    else
      var h := RootPaper(g, aus[..|aus| - 1], authors);
      var au := aus[|aus| - 1];
      if au in h.nodes then LinkFrom(h, au, authors)
      else SetFrom(Graph(h.nodes + {au}, h.papers, h.weight), au, authors)
  }

  function RootStep<N>(g: Graph<N>, authors: seq<N>): Graph<N> {
    RootPaper(g, authors, authors)
  }

  /** What one row gives `processXML`: an exception, `None` for a row whose
      codes do not match, or the paper's authors. An author that cannot be
      hashed is never among the nodes, so the loop reaches `G.add_node` (or,
      from an earlier author, `G.add_edge`) with it and raises `TypeError`. */
  function RowAccept(row: Row, pacsCode: int): (r: Result<Option<seq<Author>>>)
    ensures r.Ok? && r.value.Some? ==> ProcessAuthors(row.authgrp, RootXml) == Ok(r.value.value)
    ensures r.Ok? && r.value.Some? ==> HashableAuthors(r.value.value)
    ensures pacsCode == -1 && Get(row.pacs, "pacscode").Ok? ==>
      r == (match ProcessAuthors(row.authgrp, RootXml)
            case Ok(a) => if HashableAuthors(a) then Ok(Some(a)) else Err(TypeError)
            case Err(e) => Err(e))
  {
    match Get(row.pacs, "pacscode")
    case Err(e) => Err(e)
    case Ok(pacs) =>
      if pacsCode == -1 || SomeCodeIn(pacs, PacsList(pacsCode)) then
        match ProcessAuthors(row.authgrp, RootXml)
        case Err(e) => Err(e)
        case Ok(authors) => if HashableAuthors(authors) then Ok(Some(authors)) else Err(TypeError)
      else Ok(None)
  }

  function RootScan(g: Graph<Author>, rows: seq<Row>, pacsCode: int): Result<Graph<Author>>
    decreases |rows|
  {
    if rows == [] then Ok(g)
    else
      match RowAccept(rows[0], pacsCode)
      case Err(e) => Err(e)
      case Ok(None) => RootScan(g, rows[1..], pacsCode)
      case Ok(Some(authors)) => RootScan(RootStep(g, authors), rows[1..], pacsCode)
  }

  // ---- the loops ------------------------------------------------------------

  method SetFromLoop<N(==)>(G: NxGraph<N>, au: N, coauthors: seq<N>)
    modifies G
    ensures G.Value() == SetFrom(old(G.Value()), au, coauthors)
  {
    ghost var start := G.Value();
    for j := 0 to |coauthors|
      invariant G.Value() == SetFrom(start, au, coauthors[..j])
    {
      assert coauthors[..j + 1][..j] == coauthors[..j];
      if coauthors[j] != au {
        G.AddEdge(au, coauthors[j], 1);
      }
    }
    assert coauthors[..|coauthors|] == coauthors;
  }

  /** The loop over the authors of one accepted paper. */
  method RootStepLoop<N(==)>(G: NxGraph<N>, authors: seq<N>)
    modifies G
    ensures G.Value() == RootStep(old(G.Value()), authors)
  {
    ghost var start := G.Value();
    for i := 0 to |authors|
      invariant G.Value() == RootPaper(start, authors[..i], authors)
    {
      assert authors[..i + 1][..i] == authors[..i];
      var au := authors[i];
      if au in G.nodes {
        LinkFromLoop(G, au, authors);
      } else {
        G.AddNode(au);
        SetFromLoop(G, au, authors);
      }
    }
    assert authors[..|authors|] == authors;
  }

  /** The scan of the rows from `i` on: the row's exception, or the scan
      of the rest, after the row's step when the row is accepted. */
  lemma RootScanStep(g: Graph<Author>, rows: seq<Row>, i: nat, pacsCode: int)
    requires i < |rows|
    ensures RowAccept(rows[i], pacsCode).Err? ==>
      RootScan(g, rows[i..], pacsCode) == Err(RowAccept(rows[i], pacsCode).error)
    ensures RowAccept(rows[i], pacsCode) == Ok(None) ==>
      RootScan(g, rows[i..], pacsCode) == RootScan(g, rows[i + 1..], pacsCode)
    ensures RowAccept(rows[i], pacsCode).Ok? && RowAccept(rows[i], pacsCode).value.Some? ==>
      RootScan(g, rows[i..], pacsCode)
      == RootScan(RootStep(g, RowAccept(rows[i], pacsCode).value.value), rows[i + 1..], pacsCode)
  {
    assert rows[i..][0] == rows[i];
    assert rows[i..][1..] == rows[i + 1..];
  }

  /** `processXML(infile, pacsCode)` */
  method ProcessXmlGraph(rows: seq<Row>, pacsCode: int) returns (r: Result<NxGraph<Author>>)
    ensures r.Ok? ==> fresh(r.value) && RootScan(EmptyGraph(), rows, pacsCode) == Ok(r.value.Value())
    ensures r.Err? ==> RootScan(EmptyGraph(), rows, pacsCode) == Err(r.error)
  {
    var G := new NxGraph();
    var pacsList := PacsList(pacsCode);
    var i := 0;
    while i < |rows|
      invariant 0 <= i <= |rows|
      invariant RootScan(EmptyGraph(), rows, pacsCode) == RootScan(G.Value(), rows[i..], pacsCode)
    {
      ghost var g0 := G.Value();
      RootScanStep(g0, rows, i, pacsCode);
      var pacs := Get(rows[i].pacs, "pacscode");
      if pacs.Err? {
        return Err(pacs.error);
      }
      var accept := pacsCode == -1;
      if !accept {
        var m := PacsMatch(pacs.value, pacsList);
        accept := m != 0;
      }
      if accept {
        var authors := ProcessAuthors(rows[i].authgrp, RootXml);
        if authors.Err? {
          return Err(authors.error);
        }
        if !HashableAuthors(authors.value) {
          // `G.add_node(au)` or `G.add_edge(au, a, ...)` hashes the author
          return Err(TypeError);
        }
        RootStepLoop(G, authors.value);
      }
      i := i + 1;
    }
    return Ok(G);
  }

  // ---- what a paper adds ----------------------------------------------------

  lemma {:induction false} LinkFromOk<N(!new)>(g: Graph<N>, au: N, coauthors: seq<N>)
    requires EdgesOk(g)
    ensures EdgesOk(LinkFrom(g, au, coauthors)) && g.nodes <= LinkFrom(g, au, coauthors).nodes
  {
    if coauthors != [] {
      LinkFromOk(g, au, coauthors[..|coauthors| - 1]);
    }
  }

  lemma {:induction false} SetFromOk<N(!new)>(g: Graph<N>, au: N, coauthors: seq<N>)
    requires EdgesOk(g)
    ensures EdgesOk(SetFrom(g, au, coauthors)) && g.nodes <= SetFrom(g, au, coauthors).nodes
  {
    if coauthors != [] {
      SetFromOk(g, au, coauthors[..|coauthors| - 1]);
    }
  }

  /** For a new author `au` (no edge of the graph touches it) and a list
      without repeats, setting the weights to 1 adds one to each edge from
      `au`, as the branch of a known author does. */
  lemma {:induction false} SetFromAt<N>(g: Graph<N>, au: N, coauthors: seq<N>, u: N, v: N)
    requires NoDup(coauthors) && u != v
    requires au == u ==> EdgeW(g, u, v) == 0
    requires au == v ==> EdgeW(g, u, v) == 0
    ensures EdgeW(SetFrom(g, au, coauthors), u, v)
         == EdgeW(g, u, v) + (if au == u && v in coauthors then 1 else 0) + (if au == v && u in coauthors then 1 else 0)
  {
    if coauthors != [] {
      var init := coauthors[..|coauthors| - 1];
      var a := coauthors[|coauthors| - 1];
      assert coauthors == init + [a];
      assert NoDup(init);
      assert forall i :: 0 <= i < |init| ==> init[i] == coauthors[i] && coauthors[i] != a;
      SetFromAt(g, au, init, u, v);
      if a != au {
        PairEq(au, a, u, v);
      }
    }
  }

  /** An author outside the graph has no edge in a graph whose edges join
      its nodes. */
  lemma NoEdgeAtNewNode<N(!new)>(g: Graph<N>, au: N, x: N)
    requires EdgesOk(g) && au !in g.nodes
    ensures EdgeW(g, au, x) == 0 && EdgeW(g, x, au) == 0
  {
    assert {x, au} == {au, x};
    assert au in {au, x};
  }

  /** Each author of the paper, new or known, adds one to its edge with
      each other author (for a paper that lists nobody twice). */
  lemma {:induction false} RootPaperAt<N(!new)>(g: Graph<N>, aus: seq<N>, authors: seq<N>, u: N, v: N)
    requires EdgesOk(g) && NoDup(authors) && u != v
    ensures EdgesOk(RootPaper(g, aus, authors))
    ensures EdgeW(RootPaper(g, aus, authors), u, v)
         == EdgeW(g, u, v) + Count(aus, u) * (if v in authors then 1 else 0) + Count(aus, v) * (if u in authors then 1 else 0)
  {
    if aus != [] {
      var init := aus[..|aus| - 1];
      var au := aus[|aus| - 1];
      assert aus == init + [au];
      RootPaperAt(g, init, authors, u, v);
      var h := RootPaper(g, init, authors);
      CountSnoc(init, au, u);
      CountSnoc(init, au, v);
      MulStep(Count(init, u), if au == u then 1 else 0, if v in authors then 1 else 0);
      MulStep(Count(init, v), if au == v then 1 else 0, if u in authors then 1 else 0);
      if au in h.nodes {
        LinkFromAt(h, au, authors, u, v);
        LinkFromOk(h, au, authors);
        NoDupCount(authors, u);
        NoDupCount(authors, v);
      } else {
        var h' := Graph(h.nodes + {au}, h.papers, h.weight);
        NoEdgeAtNewNode(h, au, v);
        NoEdgeAtNewNode(h, au, u);
        SetFromAt(h', au, authors, u, v);
        SetFromOk(h', au, authors);
      }
    }
  }

  /** A paper listing its authors once adds 2 to the edge of every pair
      of them, as in `coAuthorsXML`. */
  lemma RootStepAt<N(!new)>(g: Graph<N>, authors: seq<N>, u: N, v: N)
    requires EdgesOk(g) && NoDup(authors) && u != v
    ensures EdgesOk(RootStep(g, authors))
    ensures EdgeW(RootStep(g, authors), u, v) == EdgeW(g, u, v) + (if u in authors && v in authors then 2 else 0)
  {
    RootPaperAt(g, authors, authors, u, v);
    NoDupCount(authors, u);
    NoDupCount(authors, v);
  }

  /** A row that lists none of its authors twice (or adds no paper). */
  predicate NoRepeats(row: Row, pacsCode: int) {
    match RowAccept(row, pacsCode)
    case Ok(Some(authors)) => NoDup(authors)
    case _ => true
  }

  /** Twice the number of accepted papers listing both `u` and `v`. */
  function RootPairs(rows: seq<Row>, pacsCode: int, u: Author, v: Author): nat
    decreases |rows|
  {
    if rows == [] then 0
    else
      (match RowAccept(rows[0], pacsCode)
       case Ok(Some(authors)) => if u in authors && v in authors then 2 else 0
       case _ => 0)
      + RootPairs(rows[1..], pacsCode, u, v)
  }

  /** When no paper repeats an author, the finished graph weighs each pair
      of authors twice the number of accepted papers they share. */
  lemma {:induction false} RootScanAt(g: Graph<Author>, rows: seq<Row>, pacsCode: int, u: Author, v: Author)
    requires EdgesOk(g) && u != v
    requires forall i :: 0 <= i < |rows| ==> NoRepeats(rows[i], pacsCode)
    requires RootScan(g, rows, pacsCode).Ok?
    ensures EdgesOk(RootScan(g, rows, pacsCode).value)
    ensures EdgeW(RootScan(g, rows, pacsCode).value, u, v) == EdgeW(g, u, v) + RootPairs(rows, pacsCode, u, v)
    decreases |rows|
  {
    if rows != [] {
      assert NoRepeats(rows[0], pacsCode);
      assert forall i :: 0 <= i < |rows[1..]| ==> rows[1..][i] == rows[i + 1];
      match RowAccept(rows[0], pacsCode)
      case Ok(None) =>
        RootScanAt(g, rows[1..], pacsCode, u, v);
      case Ok(Some(authors)) =>
        RootStepAt(g, authors, u, v);
        RootScanAt(RootStep(g, authors), rows[1..], pacsCode, u, v);
    }
  }

  /** `processXML` raises exactly when some row lacks `pacscode`, or some
      row it accepts holds an author tree `processAuthors` rejects. */
  lemma {:induction false} RootScanOk(g: Graph<Author>, rows: seq<Row>, pacsCode: int)
    ensures RootScan(g, rows, pacsCode).Ok? <==> forall i :: 0 <= i < |rows| ==> RowAccept(rows[i], pacsCode).Ok?
    decreases |rows|
  {
    if rows != [] && RowAccept(rows[0], pacsCode).Ok? {
      assert forall i :: 1 <= i < |rows| ==> rows[i] == rows[1..][i - 1];
      match RowAccept(rows[0], pacsCode)
      case Ok(None) => RootScanOk(g, rows[1..], pacsCode);
      case Ok(Some(authors)) => RootScanOk(RootStep(g, authors), rows[1..], pacsCode);
    }
  }
}
