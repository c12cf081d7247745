/** The co-author networks of aps/processAPSXML.py: `coAuthorsXML` builds
    one graph per requested PACS code group, and `addCoAuthorGraphs` merges
    several graphs into one. */
module CoAuthors {
  import opened Wrappers
  import opened PyStr
  import opened XmlValue
  import opened SeqUtil
  import opened AuthorTree
  import opened Pacs
  import opened ParseAps
  import opened Adjacency
  import opened Graphs

  /** The invariant of a co-author graph: the nodes are exactly the authors
      with a paper count, each has at least one paper, and every edge joins
      two of them with a positive weight. */
  predicate CoValid<N(!new)>(g: Graph<N>) {
    g.nodes == g.papers.Keys && EdgesOk(g) && forall n :: n in g.papers ==> g.papers[n] >= 1
  }

  // ---- one paper (lines 50-65) ----------------------------------------------

  /** `for au in authorInfo: if au not in G.nodes(): G.add_node(au, {'numPapers': 0})` */
  function AddAuthors<N>(g: Graph<N>, authors: seq<N>): Graph<N> {
    if authors == [] then g
    else
      var h := AddAuthors(g, authors[..|authors| - 1]);
      var au := authors[|authors| - 1];
      if au in h.nodes then h else Graph(h.nodes + {au}, h.papers[au := 0], h.weight)
  }

  /** The inner loop: author `au` is linked once to every other entry of
      `coauthors`. */
  function LinkFrom<N>(g: Graph<N>, au: N, coauthors: seq<N>): Graph<N> {
    if coauthors == [] then g
    else
      var h := LinkFrom(g, au, coauthors[..|coauthors| - 1]);
      var a := coauthors[|coauthors| - 1];
      if a != au then Link(h, au, a) else h
  }

  /** The double loop over `authorInfo`. */
  function LinkPairs<N>(g: Graph<N>, authors: seq<N>, coauthors: seq<N>): Graph<N> {
    if authors == [] then g
    else LinkFrom(LinkPairs(g, authors[..|authors| - 1], coauthors), authors[|authors| - 1], coauthors)
  }

  /** One accepted paper: add its authors, link every ordered pair of
      distinct entries, then count the paper for each entry. */
  function CoStep<N>(g: Graph<N>, authors: seq<N>): Graph<N> {
    var h := LinkPairs(AddAuthors(g, authors), authors, authors);
    Graph(h.nodes, Increment(h.papers, authors), h.weight)
  }

  lemma {:induction false} AddAuthorsAt<N>(g: Graph<N>, authors: seq<N>, x: N)
    requires g.nodes == g.papers.Keys
    ensures x in AddAuthors(g, authors).nodes <==> x in g.nodes || x in authors
    ensures ValueOr0(AddAuthors(g, authors).papers, x) == ValueOr0(g.papers, x)
  {
    if authors != [] {
      var init := authors[..|authors| - 1];
      assert authors == init + [authors[|authors| - 1]];
      AddAuthorsAt(g, init, x);
      AddAuthorsFrame(g, init);
    }
  }

  /** Adding authors keeps the nodes equal to the counted authors, keeps
      every old node and leaves the edges alone. */
  lemma {:induction false} AddAuthorsFrame<N>(g: Graph<N>, authors: seq<N>)
    requires g.nodes == g.papers.Keys
    ensures AddAuthors(g, authors).nodes == AddAuthors(g, authors).papers.Keys
    ensures g.nodes <= AddAuthors(g, authors).nodes
    ensures AddAuthors(g, authors).weight == g.weight
  {
    if authors != [] {
      AddAuthorsFrame(g, authors[..|authors| - 1]);
    }
  }

  lemma {:induction false} LinkFromAt<N>(g: Graph<N>, au: N, coauthors: seq<N>, u: N, v: N)
    requires u != v
    ensures EdgeW(LinkFrom(g, au, coauthors), u, v)
         == EdgeW(g, u, v) + (if au == u then Count(coauthors, v) else 0) + (if au == v then Count(coauthors, u) else 0)
  {
    if coauthors != [] {
      var init := coauthors[..|coauthors| - 1];
      var a := coauthors[|coauthors| - 1];
      assert coauthors == init + [a];
      LinkFromAt(g, au, init, u, v);
      CountSnoc(init, a, u);
      CountSnoc(init, a, v);
      if a != au {
        LinkAt(LinkFrom(g, au, init), au, a, u, v);
      }
    }
  }

  lemma {:induction false} LinkFromKeeps<N(!new)>(g: Graph<N>, au: N, coauthors: seq<N>)
    requires EdgesOk(g) && au in g.nodes && forall x :: x in coauthors ==> x in g.nodes
    ensures EdgesOk(LinkFrom(g, au, coauthors))
    ensures LinkFrom(g, au, coauthors).nodes == g.nodes && LinkFrom(g, au, coauthors).papers == g.papers
  {
    if coauthors != [] {
      var init := coauthors[..|coauthors| - 1];
      var a := coauthors[|coauthors| - 1];
      assert coauthors == init + [a];
      LinkFromKeeps(g, au, init);
      if a != au {
        LinkEdgesOk(LinkFrom(g, au, init), au, a);
      }
    }
  }

  lemma {:induction false} LinkPairsAt<N>(g: Graph<N>, authors: seq<N>, coauthors: seq<N>, u: N, v: N)
    requires u != v
    ensures EdgeW(LinkPairs(g, authors, coauthors), u, v)
         == EdgeW(g, u, v) + Count(authors, u) * Count(coauthors, v) + Count(authors, v) * Count(coauthors, u)
  {
    if authors != [] {
      var init := authors[..|authors| - 1];
      var au := authors[|authors| - 1];
      assert authors == init + [au];
      LinkPairsAt(g, init, coauthors, u, v);
      LinkFromAt(LinkPairs(g, init, coauthors), au, coauthors, u, v);
      CountSnoc(init, au, u);
      CountSnoc(init, au, v);
      MulStep(Count(init, u), if au == u then 1 else 0, Count(coauthors, v));
      MulStep(Count(init, v), if au == v then 1 else 0, Count(coauthors, u));
    }
  }

  lemma {:induction false} LinkPairsKeeps<N(!new)>(g: Graph<N>, authors: seq<N>, coauthors: seq<N>)
    requires EdgesOk(g)
    requires forall x :: x in authors ==> x in g.nodes
    requires forall x :: x in coauthors ==> x in g.nodes
    ensures EdgesOk(LinkPairs(g, authors, coauthors))
    ensures LinkPairs(g, authors, coauthors).nodes == g.nodes && LinkPairs(g, authors, coauthors).papers == g.papers
  {
    if authors != [] {
      var init := authors[..|authors| - 1];
      var au := authors[|authors| - 1];
      assert authors == init + [au];
      LinkPairsKeeps(g, init, coauthors);
      LinkFromKeeps(LinkPairs(g, init, coauthors), au, coauthors);
    }
  }

  /** What one paper adds: weight `2 * c(u) * c(v)` between two distinct
      authors listed `c(u)` and `c(v)` times (the double loop visits each
      pair in both orders), one paper per listing, and the authors as
      nodes. */
  lemma CoStepAt<N>(g: Graph<N>, authors: seq<N>, u: N, v: N, x: N)
    requires g.nodes == g.papers.Keys
    ensures u != v ==> EdgeW(CoStep(g, authors), u, v) == EdgeW(g, u, v) + 2 * Count(authors, u) * Count(authors, v)
    ensures ValueOr0(CoStep(g, authors).papers, x) == ValueOr0(g.papers, x) + Count(authors, x)
    ensures x in CoStep(g, authors).nodes <==> x in g.nodes || x in authors
  {
    if u != v {
      CoStepWeight(g, authors, u, v);
    }
    CoStepPapers(g, authors, x);
  }

  lemma CoStepWeight<N>(g: Graph<N>, authors: seq<N>, u: N, v: N)
    requires g.nodes == g.papers.Keys && u != v
    ensures EdgeW(CoStep(g, authors), u, v) == EdgeW(g, u, v) + 2 * Count(authors, u) * Count(authors, v)
  {
    var h0 := AddAuthors(g, authors);
    AddAuthorsFrame(g, authors);
    LinkPairsAt(h0, authors, authors, u, v);
    assert EdgeW(h0, u, v) == EdgeW(g, u, v);
    BothOrders(Count(authors, u), Count(authors, v));
  }

  lemma BothOrders(a: int, b: int)
    ensures a * b + b * a == 2 * a * b
  {
  }

  lemma CoStepPapers<N>(g: Graph<N>, authors: seq<N>, x: N)
    requires g.nodes == g.papers.Keys
    ensures ValueOr0(CoStep(g, authors).papers, x) == ValueOr0(g.papers, x) + Count(authors, x)
    ensures x in CoStep(g, authors).nodes <==> x in g.nodes || x in authors
  {
    var h0 := AddAuthors(g, authors);
    AddAuthorsFrame(g, authors);
    AddAuthorsAt(g, authors, x);
    var h1 := LinkPairs(h0, authors, authors);
    forall y | y in authors ensures y in h0.nodes {
      AddAuthorsAt(g, authors, y);
    }
    LinkPairsKeepsNodes(h0, authors, authors);
    IncrementAt(h1.papers, authors, x);
  }

  lemma {:induction false} LinkFromKeepsNodes<N>(g: Graph<N>, au: N, coauthors: seq<N>)
    requires au in g.nodes && forall y :: y in coauthors ==> y in g.nodes
    ensures LinkFrom(g, au, coauthors).nodes == g.nodes && LinkFrom(g, au, coauthors).papers == g.papers
  {
    if coauthors != [] {
      var init := coauthors[..|coauthors| - 1];
      assert coauthors == init + [coauthors[|coauthors| - 1]];
      LinkFromKeepsNodes(g, au, init);
    }
  }

  lemma {:induction false} LinkPairsKeepsNodes<N>(g: Graph<N>, authors: seq<N>, coauthors: seq<N>)
    requires forall y :: y in authors ==> y in g.nodes
    requires forall y :: y in coauthors ==> y in g.nodes
    ensures LinkPairs(g, authors, coauthors).nodes == g.nodes && LinkPairs(g, authors, coauthors).papers == g.papers
  {
    if authors != [] {
      var init := authors[..|authors| - 1];
      assert authors == init + [authors[|authors| - 1]];
      LinkPairsKeepsNodes(g, init, coauthors);
      LinkFromKeepsNodes(LinkPairs(g, init, coauthors), authors[|authors| - 1], coauthors);
    }
  }

  /** A paper keeps the nodes equal to the authors with a paper count. */
  lemma CoStepKeys<N(!new)>(g: Graph<N>, authors: seq<N>)
    requires g.nodes == g.papers.Keys
    ensures CoStep(g, authors).nodes == CoStep(g, authors).papers.Keys
  {
    var h := CoStep(g, authors);
    forall n ensures n in h.papers.Keys <==> n in h.nodes {
      CoStepPapers(g, authors, n);
      AddAuthorsFrame(g, authors);
      var h1 := LinkPairs(AddAuthors(g, authors), authors, authors);
      IncrementAt(h1.papers, authors, n);
      forall y | y in authors ensures y in AddAuthors(g, authors).nodes {
        AddAuthorsAt(g, authors, y);
      }
      LinkPairsKeepsNodes(AddAuthors(g, authors), authors, authors);
      AddAuthorsAt(g, authors, n);
    }
    assert h.nodes == h.papers.Keys;
  }

  /** A paper keeps the co-author graph well formed. */
  lemma CoStepValid<N(!new)>(g: Graph<N>, authors: seq<N>)
    requires CoValid(g)
    ensures CoValid(CoStep(g, authors))
  {
    var h0 := AddAuthors(g, authors);
    AddAuthorsFrame(g, authors);
    forall y | y in authors ensures y in h0.nodes {
      AddAuthorsAt(g, authors, y);
    }
    assert EdgesOk(h0);
    LinkPairsKeeps(h0, authors, authors);
    var h1 := LinkPairs(h0, authors, authors);
    var h := CoStep(g, authors);
    forall n ensures n in h.papers <==> n in h.nodes {
      IncrementAt(h1.papers, authors, n);
      AddAuthorsAt(g, authors, n);
    }
    forall n | n in h.papers ensures h.papers[n] >= 1 {
      IncrementAt(h1.papers, authors, n);
      AddAuthorsAt(g, authors, n);
      CountPositive(authors, n);
    }
  }

  // ---- the scan of one code group (lines 37-65) ----------------------------

  /** The year filter of `coAuthorsXML`: with `years` given, a history whose
      `received` entry parses to a year outside `years` gives `Ok(false)`,
      which is the `break`. `hist.keys()` on a missing (NaN) history and
      `.split` on an entry that is not a string raise `AttributeError`. */
  function ReceivedYearCheck(row: Row, years: seq<int>): (r: Result<bool>)
    ensures years == [] ==> r == Ok(true)
    ensures r == Ok(false) ==> row.history.Dict? && HasKey(row.history.entries, "received")
  {
    if years == [] then Ok(true)
    else
      match row.history
      case Dict(h) =>
        if !HasKey(h, "received") then Ok(true)
        else
          var received := Lookup(h, "received");
          if !received.Str? then Err(AttributeError)
          else
            (match ParseInt(BeforeFirst(received.s, '-'))
             case Some(y) => Ok(y in years)
             case None => Err(ValueError))
      case List(_) => Err(AttributeError)
      case Str(_) => Err(AttributeError)
  }

  /** A row received on a date written "<y>-..." passes the filter exactly
      when no years are given or `y` is among them; a row without a
      `received` entry always passes. */
  lemma ReceivedYearGate(row: Row, h: seq<(string, XValue)>, y: nat, rest: string, years: seq<int>)
    requires row.history == Dict(h)
    requires HasKey(h, "received") ==> Lookup(h, "received") == Str(IntToString(y) + "-" + rest)
    ensures ReceivedYearCheck(row, years) == Ok(years == [] || !HasKey(h, "received") || y in years)
  {
    var s := IntToString(y);
    assert ParseInt(s) == Some(y);
    assert forall i :: 0 <= i < |s| ==> IsDigit(s[i]);
    BeforeFirstOf(s, '-', rest);
    assert s + ['-'] + rest == s + "-" + rest;
  }

  /** The rows of one code group scanned into `g`: a missing `pacscode`
      raises, a received year outside `years` stops the scan (later rows
      are never read), and a row whose codes match the group (or any row
      for the wildcard group [-1]) adds its paper; an author that cannot
      be hashed makes `G.add_node` raise `TypeError`. */
  function CoAuthorScan(g: Graph<Author>, rows: seq<Row>, group: seq<int>, years: seq<int>): Result<Graph<Author>>
    decreases |rows|
  {
    if rows == [] then Ok(g)
    else
      match Get(rows[0].pacs, "pacscode")
      case Err(e) => Err(e)
      case Ok(pacs) =>
        match ReceivedYearCheck(rows[0], years)
        case Err(e) => Err(e)
        case Ok(inYears) =>
          if !inYears then Ok(g)
          else if group == [-1] || SomeCodeIn(pacs, group) then
            match ProcessAuthors(rows[0].authgrp, ApsXml)
            case Err(e) => Err(e)
            case Ok(authors) =>
              if !HashableAuthors(authors) then Err(TypeError)
              else CoAuthorScan(CoStep(g, authors), rows[1..], group, years)
          else CoAuthorScan(g, rows[1..], group, years)
  }

  /** The three loops over the authors of one accepted paper. */
  method CoAuthorStep<N(==,!new)>(g: NxGraph<N>, authors: seq<N>)
    requires g.nodes == g.papers.Keys
    modifies g
    ensures g.Value() == CoStep(old(g.Value()), authors)
    ensures g.nodes == g.papers.Keys
  {
    ghost var start := g.Value();
    AddAuthorsLoop(g, authors);
    AddAuthorsFrame(start, authors);
    forall y | y in authors ensures y in g.nodes {
      AddAuthorsAt(start, authors, y);
    }
    ghost var h0 := g.Value();
    LinkPairsLoop(g, authors);
    LinkPairsKeepsNodes(h0, authors, authors);
    CountPapersLoop(g, authors);
    CoStepKeys(start, authors);
  }

  /** `for au in authorInfo: if au not in G.nodes(): G.add_node(au, ...)` */
  method AddAuthorsLoop<N(==)>(g: NxGraph<N>, authors: seq<N>)
    modifies g
    ensures g.Value() == AddAuthors(old(g.Value()), authors)
  {
    ghost var start := g.Value();
    for i := 0 to |authors|
      invariant g.Value() == AddAuthors(start, authors[..i])
    {
      assert authors[..i + 1][..i] == authors[..i];
      var au := authors[i];
      if au !in g.nodes {
        g.AddAuthorNode(au);
      }
    }
    assert authors[..|authors|] == authors;
  }

  /** `for au in authorInfo: for a in authorInfo: if a != au: ...` */
  method LinkPairsLoop<N(==)>(g: NxGraph<N>, authors: seq<N>)
    modifies g
    ensures g.Value() == LinkPairs(old(g.Value()), authors, authors)
  {
    ghost var start := g.Value();
    for i := 0 to |authors|
      invariant g.Value() == LinkPairs(start, authors[..i], authors)
    {
      assert authors[..i + 1][..i] == authors[..i];
      LinkFromLoop(g, authors[i], authors);
    }
    assert authors[..|authors|] == authors;
  }

  /** `for au in authorInfo: G.node[au]['numPapers'] += 1` */
  method CountPapersLoop<N(==)>(g: NxGraph<N>, authors: seq<N>)
    requires forall k :: 0 <= k < |authors| ==> authors[k] in g.papers
    modifies g
    ensures g.Value() == Graph(old(g.nodes), Increment(old(g.papers), authors), old(g.weight))
  {
    ghost var h := g.Value();
    for i := 0 to |authors|
      invariant g.Value() == Graph(h.nodes, Increment(h.papers, authors[..i]), h.weight)
    {
      assert authors[..i + 1][..i] == authors[..i];
      IncrementAt(h.papers, authors[..i], authors[i]);
      g.CountPaper(authors[i]);
    }
    assert authors[..|authors|] == authors;
  }

  /** `for a in authorInfo: if a != au: ...` */
  method LinkFromLoop<N(==)>(g: NxGraph<N>, au: N, coauthors: seq<N>)
    modifies g
    ensures g.Value() == LinkFrom(old(g.Value()), au, coauthors)
  {
    ghost var start := g.Value();
    for j := 0 to |coauthors|
      invariant g.Value() == LinkFrom(start, au, coauthors[..j])
    {
      assert coauthors[..j + 1][..j] == coauthors[..j];
      var a := coauthors[j];
      if a != au {
        g.LinkNodes(au, a);
      }
    }
    assert coauthors[..|coauthors|] == coauthors;
  }

  /** The scan of the rows into the graph `G` of one code group; `raised`
      is the exception that ends it, if any. */
  method CoAuthorGraph(G: NxGraph<Author>, rows: seq<Row>, group: seq<int>, years: seq<int>) returns (raised: Option<PyError>)
    requires G.nodes == G.papers.Keys
    modifies G
    ensures CoAuthorScan(old(G.Value()), rows, group, years)
         == (if raised.None? then Ok(G.Value()) else Err(raised.value))
  {
    ghost var start := G.Value();
    var i := 0;
    while i < |rows|
      invariant 0 <= i <= |rows|
      invariant CoAuthorScan(start, rows, group, years) == CoAuthorScan(G.Value(), rows[i..], group, years)
      invariant G.nodes == G.papers.Keys
    {
      assert rows[i..][1..] == rows[i + 1..];
      var row := rows[i];
      var pacs := Get(row.pacs, "pacscode");
      if pacs.Err? {
        return Some(pacs.error);
      }
      var inYears := ReceivedYearCheck(row, years);
      if inYears.Err? {
        return Some(inYears.error);
      }
      if !inYears.value {
        return None;
      }
      var accept := group == [-1];
      if !accept {
        var m := PacsMatch(pacs.value, group);
        accept := m != 0;
      }
      if accept {
        var authors := ProcessAuthors(row.authgrp, ApsXml);
        if authors.Err? {
          return Some(authors.error);
        }
        if !HashableAuthors(authors.value) {
          // `G.add_node(au, ...)` hashes the author
          return Some(TypeError);
        }
        CoAuthorStep(G, authors.value);
      }
      i := i + 1;
    }
    return None;
  }

  /** `coAuthorsXML(infile, pacsCodes, years)`: one new graph per entry of
      `pacsCodes`, each scanned with that entry's code group; the exception
      of the first scan that raises is the function's. */
  method CoAuthorsXml(rows: seq<Row>, pacsCodes: seq<int>, years: seq<int>) returns (r: Result<seq<NxGraph<Author>>>)
    ensures r.Ok? ==> |r.value| == |pacsCodes|
    ensures r.Ok? ==> forall x :: 0 <= x < |pacsCodes| ==> fresh(r.value[x])
    ensures r.Ok? ==> forall x :: 0 <= x < |pacsCodes| ==> Built(r.value[x], rows, pacsCodes[x], years)
    ensures r.Err? ==>
      exists x :: 0 <= x < |pacsCodes| && CoAuthorScan(EmptyGraph(), rows, CodeGroup(pacsCodes[x]), years) == Err(r.error)
        && forall y :: 0 <= y < x ==> CoAuthorScan(EmptyGraph(), rows, CodeGroup(pacsCodes[y]), years).Ok?
  {
    var myPacsCodes := CodeGroups(pacsCodes);
    var graphs: seq<NxGraph<Author>> := [];
    for x := 0 to |myPacsCodes|
      invariant |graphs| == x
      invariant forall y :: 0 <= y < x ==> fresh(graphs[y])
      invariant forall y :: 0 <= y < x ==> Built(graphs[y], rows, pacsCodes[y], years)
    {
      var G, raised := NewCoAuthorGraph(rows, myPacsCodes[x], years);
      if raised.Some? {
        assert CoAuthorScan(EmptyGraph(), rows, CodeGroup(pacsCodes[x]), years) == Err(raised.value);
        return Err(raised.value);
      }
      assert Built(G, rows, pacsCodes[x], years);
      graphs := graphs + [G];
    }
    return Ok(graphs);
  }

  /** The loop that fills `myPacsCodes`, one code group per entry. */
  method CodeGroups(pacsCodes: seq<int>) returns (myPacsCodes: seq<seq<int>>)
    ensures |myPacsCodes| == |pacsCodes|
    ensures forall x :: 0 <= x < |pacsCodes| ==> myPacsCodes[x] == CodeGroup(pacsCodes[x])
  {
    myPacsCodes := [];
    for k := 0 to |pacsCodes|
      invariant |myPacsCodes| == k
      invariant forall x :: 0 <= x < k ==> myPacsCodes[x] == CodeGroup(pacsCodes[x])
    {
      myPacsCodes := myPacsCodes + [CodeGroup(pacsCodes[k])];
    }
  }

  /** `G` holds the scan of the rows for the code group of `p`. */
  ghost predicate Built(G: NxGraph<Author>, rows: seq<Row>, p: int, years: seq<int>)
    reads G
  {
    CoAuthorScan(EmptyGraph(), rows, CodeGroup(p), years) == Ok(G.Value())
  }

  /** `Graphs[x]`, a new graph, filled by the scan for one code group. */
  method NewCoAuthorGraph(rows: seq<Row>, group: seq<int>, years: seq<int>)
    returns (G: NxGraph<Author>, raised: Option<PyError>)
    ensures fresh(G)
    ensures CoAuthorScan(EmptyGraph(), rows, group, years) == (if raised.None? then Ok(G.Value()) else Err(raised.value))
  {
    G := new NxGraph();
    raised := CoAuthorGraph(G, rows, group, years);
  }

  /** Every graph the scan builds from a well-formed graph is well formed:
      each author node counts at least one paper and each edge weighs at
      least one. */
  lemma {:induction false} ScanValid(g: Graph<Author>, rows: seq<Row>, group: seq<int>, years: seq<int>)
    requires CoValid(g)
    ensures CoAuthorScan(g, rows, group, years).Ok? ==> CoValid(CoAuthorScan(g, rows, group, years).value)
    decreases |rows|
  {
    if rows != [] && Get(rows[0].pacs, "pacscode").Ok? && ReceivedYearCheck(rows[0], years) == Ok(true) {
      var pacs := Get(rows[0].pacs, "pacscode").value;
      if group == [-1] || SomeCodeIn(pacs, group) {
        var authors := ProcessAuthors(rows[0].authgrp, ApsXml);
        if authors.Ok? {
          CoStepValid(g, authors.value);
          ScanValid(CoStep(g, authors.value), rows[1..], group, years);
        }
      } else {
        ScanValid(g, rows[1..], group, years);
      }
    }
  }

  /** networkx keys its nodes in a dictionary, so every node of a graph the
      scan completes can be hashed: an author that cannot ends the scan. */
  lemma {:induction false} ScanNodesHashable(g: Graph<Author>, rows: seq<Row>, group: seq<int>, years: seq<int>)
    requires CoValid(g)
    requires forall n :: n in g.nodes ==> HashableAuthor(n)
    ensures CoAuthorScan(g, rows, group, years).Ok? ==>
      forall n :: n in CoAuthorScan(g, rows, group, years).value.nodes ==> HashableAuthor(n)
    decreases |rows|
  {
    if rows != [] && Get(rows[0].pacs, "pacscode").Ok? && ReceivedYearCheck(rows[0], years) == Ok(true) {
      var pacs := Get(rows[0].pacs, "pacscode").value;
      if group == [-1] || SomeCodeIn(pacs, group) {
        var authors := ProcessAuthors(rows[0].authgrp, ApsXml);
        if authors.Ok? && HashableAuthors(authors.value) {
          var h := CoStep(g, authors.value);
          forall n | n in h.nodes
            ensures HashableAuthor(n)
          {
            CoStepAt(g, authors.value, n, n, n);
            if n !in g.nodes {
              var i :| 0 <= i < |authors.value| && authors.value[i] == n;
            }
          }
          CoStepValid(g, authors.value);
          ScanNodesHashable(h, rows[1..], group, years);
        }
      } else {
        ScanNodesHashable(g, rows[1..], group, years);
      }
    }
  }

  /** The `break`: once a row's received year is outside `years`, no later
      row of the table reaches the graph, whatever it holds. */
  lemma YearBreak(g: Graph<Author>, row: Row, rest: seq<Row>, group: seq<int>, years: seq<int>)
    requires Get(row.pacs, "pacscode").Ok? && ReceivedYearCheck(row, years) == Ok(false)
    ensures CoAuthorScan(g, [row] + rest, group, years) == Ok(g)
  {
  }

  /** The wildcard group accepts every row the year filter lets through,
      whatever its codes; the row's authors are then added, or raise
      `TypeError` when one cannot be hashed. */
  lemma WildcardAcceptsAll(g: Graph<Author>, row: Row, rest: seq<Row>, years: seq<int>, authors: seq<Author>)
    requires Get(row.pacs, "pacscode").Ok? && ReceivedYearCheck(row, years) == Ok(true)
    requires ProcessAuthors(row.authgrp, ApsXml) == Ok(authors)
    ensures CoAuthorScan(g, [row] + rest, [-1], years)
         == if HashableAuthors(authors) then CoAuthorScan(CoStep(g, authors), rest, [-1], years) else Err(TypeError)
  {
    assert ([row] + rest)[1..] == rest;
  }

  /** The `received` entry in the layout `getYear` reads (a dictionary with
      an `@date` attribute) is not a string, so `coAuthorsXML` with a year
      list raises `AttributeError` on it, where `getYear` finds the year. */
  lemma ReceivedDateIsDict(y: nat, rest: string, years: seq<int>)
    requires years != []
    ensures ReceivedYearCheck(Row(Dict([]), Dict([]), Dict([("received", DatedEntry(y, rest))])), years) == Err(AttributeError)
    ensures GetYear(Row(Dict([]), Dict([]), Dict([("received", DatedEntry(y, rest))]))) == Ok(y)
  {
    var h := [("received", DatedEntry(y, rest))];
    assert h[0].0 == "received";
    DateRoundTrip(y, rest);
  }

  // ---- addCoAuthorGraphs (lines 135-147) ------------------------------------

  /** `G.edges()` of one graph with the weight of each edge: `(n1, n2, w)`. */
  type Listing<N> = seq<(N, N, int)>

  /** The orientation `resG.edges()` reports an edge in: the end point
      its node dictionary iterates first, then the other. It is the same
      whichever way round the pair is asked for. */
  ghost predicate Orientation<N(!new)>(orient: (N, N) -> (N, N)) {
    forall a, b :: orient(a, b) == orient(b, a) && (orient(a, b) == (a, b) || orient(a, b) == (b, a))
  }

  /** `resG` as written, each edge keyed in the orientation `orient` of
      `resG.edges()`: `e in resG.edges()` finds an edge only when `e` has
      that orientation; otherwise `add_edge` sets the weight to `w`, even
      when the edge is already there. */
  function MergeEdgeAsWritten<N(==)>(res: map<(N, N), int>, orient: (N, N) -> (N, N), e: (N, N, int))
    : map<(N, N), int>
  {
    var (n1, n2, w) := e;
    var key := orient(n1, n2);
    if key in res && key == (n1, n2) then res[key := res[key] + w] else res[key := w]
  }

  function MergeListingAsWritten<N(==)>(res: map<(N, N), int>, orient: (N, N) -> (N, N), edges: Listing<N>)
    : map<(N, N), int>
  {
    if edges == [] then res
    else MergeEdgeAsWritten(MergeListingAsWritten(res, orient, edges[..|edges| - 1]), orient, edges[|edges| - 1])
  }

  /** `addCoAuthorGraphs(Graphs)` as written. */
  function AddGraphsAsWritten<N(==)>(listings: seq<Listing<N>>, orient: (N, N) -> (N, N)): map<(N, N), int> {
    if listings == [] then map[]
    else MergeListingAsWritten(AddGraphsAsWritten(listings[..|listings| - 1], orient), orient, listings[|listings| - 1])
  }

  /** Every edge of the listings is reported in `orient`'s orientation. */
  ghost predicate ListedAs<N(!new)>(listings: seq<Listing<N>>, orient: (N, N) -> (N, N)) {
    forall i, k :: 0 <= i < |listings| && 0 <= k < |listings[i]| ==>
      orient(listings[i][k].0, listings[i][k].1) == (listings[i][k].0, listings[i][k].1)
  }

  /** The total weight a listing gives the edge between `u` and `v`, in
      either orientation. */
  function ListedWeight<N(==)>(edges: Listing<N>, u: N, v: N): int {
    if edges == [] then 0
    else
      var (n1, n2, w) := edges[|edges| - 1];
      ListedWeight(edges[..|edges| - 1], u, v) + (if (n1 == u && n2 == v) || (n1 == v && n2 == u) then w else 0)
  }

  /** The sum over all graphs of the weight of the edge between `u` and `v`. */
  function TotalWeight<N(==)>(listings: seq<Listing<N>>, u: N, v: N): int {
    if listings == [] then 0
    else TotalWeight(listings[..|listings| - 1], u, v) + ListedWeight(listings[|listings| - 1], u, v)
  }

  /** The end points a listing names. */
  function EndPoints<N>(edges: Listing<N>): set<N> {
    if edges == [] then {}
    else EndPoints(edges[..|edges| - 1]) + {edges[|edges| - 1].0, edges[|edges| - 1].1}
  }

  function AllEndPoints<N>(listings: seq<Listing<N>>): set<N> {
    if listings == [] then {}
    else AllEndPoints(listings[..|listings| - 1]) + EndPoints(listings[|listings| - 1])
  }

  /** The edges of one listing added into `g`. */
  function AddListing<N>(g: Graph<N>, edges: Listing<N>): Graph<N> {
    if edges == [] then g
    else
      var (n1, n2, w) := edges[|edges| - 1];
      AddWeight(AddListing(g, edges[..|edges| - 1]), n1, n2, w)
  }

  /** The edges of all listings added into `g`. */
  function AddListings<N>(g: Graph<N>, listings: seq<Listing<N>>): Graph<N> {
    if listings == [] then g
    else AddListing(AddListings(g, listings[..|listings| - 1]), listings[|listings| - 1])
  }

  lemma {:induction false} AddListingAt<N>(g: Graph<N>, edges: Listing<N>, u: N, v: N)
    requires u != v
    ensures EdgeW(AddListing(g, edges), u, v) == EdgeW(g, u, v) + ListedWeight(edges, u, v)
    ensures AddListing(g, edges).nodes == g.nodes + EndPoints(edges)
  {
    if edges != [] {
      var (n1, n2, w) := edges[|edges| - 1];
      AddListingAt(g, edges[..|edges| - 1], u, v);
      AddWeightAt(AddListing(g, edges[..|edges| - 1]), n1, n2, w, u, v);
    }
  }

  lemma {:induction false} AddListingsAt<N>(g: Graph<N>, listings: seq<Listing<N>>, u: N, v: N)
    requires u != v
    ensures EdgeW(AddListings(g, listings), u, v) == EdgeW(g, u, v) + TotalWeight(listings, u, v)
    ensures AddListings(g, listings).nodes == g.nodes + AllEndPoints(listings)
  {
    if listings != [] {
      AddListingsAt(g, listings[..|listings| - 1], u, v);
      AddListingAt(AddListings(g, listings[..|listings| - 1]), listings[|listings| - 1], u, v);
    }
  }

  /** `addCoAuthorGraphs(Graphs)` as its name promises: every edge weighs
      the sum of its weights in the graphs, whichever way round each graph
      lists it, and the nodes are the end points of all edges. */
  method AddCoAuthorGraphs<N(==)>(listings: seq<Listing<N>>) returns (resG: NxGraph<N>)
    ensures fresh(resG)
    ensures resG.Value() == AddListings(EmptyGraph(), listings)
  {
    resG := new NxGraph();
    for x := 0 to |listings|
      invariant resG.Value() == AddListings(EmptyGraph(), listings[..x])
    {
      assert listings[..x + 1][..x] == listings[..x];
      var edges := listings[x];
      ghost var start := resG.Value();
      for k := 0 to |edges|
        invariant resG.Value() == AddListing(start, edges[..k])
      {
        assert edges[..k + 1][..k] == edges[..k];
        var (n1, n2, w) := edges[k];
        resG.AddEdgeWeight(n1, n2, w);
      }
      assert edges[..|edges|] == edges;
    }
    assert listings[..|listings|] == listings;
  }

  /** The merged graph: each edge weighs the sum of its listed weights, and
      the nodes are the end points of the listed edges. */
  lemma MergedWeights<N>(listings: seq<Listing<N>>, u: N, v: N)
    requires u != v
    ensures EdgeW(AddListings(EmptyGraph(), listings), u, v) == TotalWeight(listings, u, v)
    ensures AddListings(EmptyGraph(), listings).nodes == AllEndPoints(listings)
  {
    AddListingsAt(EmptyGraph(), listings, u, v);
  }

  /** One edge in `orient`'s orientation adds its weight to the pair it
      joins, as the intended merge does. */
  lemma MergeEdgeOriented<N(!new)>(res: map<(N, N), int>, orient: (N, N) -> (N, N), e: (N, N, int), u: N, v: N)
    requires Orientation(orient) && u != v
    requires orient(e.0, e.1) == (e.0, e.1)
    ensures ValueOr0(MergeEdgeAsWritten(res, orient, e), orient(u, v))
         == ValueOr0(res, orient(u, v)) + (if (e.0 == u && e.1 == v) || (e.0 == v && e.1 == u) then e.2 else 0)
  {
    var (n1, n2, w) := e;
    assert orient(u, v) == (u, v) || orient(u, v) == (v, u);
    if (n1 == u && n2 == v) || (n1 == v && n2 == u) {
      assert orient(u, v) == orient(n1, n2);
    }
  }

  lemma {:induction false} MergeListingOriented<N(!new)>(res: map<(N, N), int>, orient: (N, N) -> (N, N), edges: Listing<N>, u: N, v: N)
    requires Orientation(orient) && u != v
    requires forall k :: 0 <= k < |edges| ==> orient(edges[k].0, edges[k].1) == (edges[k].0, edges[k].1)
    ensures ValueOr0(MergeListingAsWritten(res, orient, edges), orient(u, v))
         == ValueOr0(res, orient(u, v)) + ListedWeight(edges, u, v)
  {
    if edges != [] {
      MergeListingOriented(res, orient, edges[..|edges| - 1], u, v);
      MergeEdgeOriented(MergeListingAsWritten(res, orient, edges[..|edges| - 1]), orient, edges[|edges| - 1], u, v);
    }
  }

  /** When every graph reports each edge the way `resG` does, the merge as
      written does sum the weights; the loss needs two graphs whose node
      dictionaries iterate the end points of an edge in different orders. */
  lemma {:induction false} AsWrittenSumsWhenOriented<N(!new)>(listings: seq<Listing<N>>, orient: (N, N) -> (N, N), u: N, v: N)
    requires Orientation(orient) && u != v
    requires ListedAs(listings, orient)
    ensures ValueOr0(AddGraphsAsWritten(listings, orient), orient(u, v)) == TotalWeight(listings, u, v)
  {
    if listings != [] {
      var init := listings[..|listings| - 1];
      var last := listings[|listings| - 1];
      assert ListedAs(init, orient) by {
        forall i, k | 0 <= i < |init| && 0 <= k < |init[i]|
          ensures orient(init[i][k].0, init[i][k].1) == (init[i][k].0, init[i][k].1)
        {
          assert init[i] == listings[i];
        }
      }
      AsWrittenSumsWhenOriented(init, orient, u, v);
      forall k | 0 <= k < |last|
        ensures orient(last[k].0, last[k].1) == (last[k].0, last[k].1)
      {
        assert last == listings[|listings| - 1];
      }
      MergeListingOriented(AddGraphsAsWritten(init, orient), orient, last, u, v);
    }
  }

  /** The orientation of a `resG` that iterates the smaller end point of
      each edge first. */
  function SmallerFirst(x: int, y: int): (int, int) {
    if x <= y then (x, y) else (y, x)
  }

  lemma SmallerFirstIsOrientation()
    ensures Orientation(SmallerFirst)
  {
    forall a: int, b: int
      ensures SmallerFirst(a, b) == SmallerFirst(b, a)
           && (SmallerFirst(a, b) == (a, b) || SmallerFirst(a, b) == (b, a))
    {
      if a < b {
        assert SmallerFirst(a, b) == (a, b) == SmallerFirst(b, a);
      } else if b < a {
        assert SmallerFirst(a, b) == (b, a) == SmallerFirst(b, a);
      }
    }
  }

  /** Nodes 1 and 9 share a slot of an 8-slot Python 2 dictionary, so a
      graph iterates them in the order they were added: a paper listing 1
      before 9 gives the edge (1, 9), one listing 9 before 1 gives (9, 1),
      and `resG`, which adds 1 first, reports (1, 9). The merge as written
      then keeps only the second weight (2), where the sum is 3. */
  lemma MergeOrientationExample()
    ensures AddGraphsAsWritten([[(1, 9, 1)], [(9, 1, 2)]], SmallerFirst) == map[(1, 9) := 2]
    ensures TotalWeight([[(1, 9, 1)], [(9, 1, 2)]], 1, 9) == 3
  {
    var l1: Listing<int> := [(1, 9, 1)];
    var l2: Listing<int> := [(9, 1, 2)];
    var m1 := MergeEdgeAsWritten(map[], SmallerFirst, (1, 9, 1));
    assert m1 == map[(1, 9) := 1];
    assert MergeListingAsWritten(map[], SmallerFirst, l1) == m1 by {
      assert l1[..0] == [];
    }
    var ls: seq<Listing<int>> := [l1, l2];
    assert AddGraphsAsWritten(ls[..1], SmallerFirst) == m1 by {
      assert ls[..1] == [l1];
      assert ls[..1][..0] == [];
    }
    assert MergeListingAsWritten(m1, SmallerFirst, l2) == MergeEdgeAsWritten(m1, SmallerFirst, (9, 1, 2)) by {
      assert l2[..0] == [];
    }
    assert ListedWeight(l1, 1, 9) == 1 && ListedWeight(l2, 1, 9) == 2 by {
      assert l1[..0] == [] && l2[..0] == [];
    }
    assert TotalWeight(ls[..1], 1, 9) == 1 by {
      assert ls[..1] == [l1];
      assert ls[..1][..0] == [];
    }
  }
}
