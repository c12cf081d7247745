/** The subject networks of aps/processAPSXML.py: `pacsXML` links the PACS
    codes that appear on the same paper, `authors2Subjects` links authors
    with the codes of their papers. */
module SubjectGraphs {
  import opened Wrappers
  import opened XmlValue
  import opened SeqUtil
  import opened AuthorTree
  import opened Pacs
  import opened ParseAps
  import opened Adjacency
  import opened Graphs

  // ---- pacsXML (lines 150-198) ----------------------------------------------

  /** The `try` loop that fills `pacsSet` for one paper. */
  method PaperCodeSet(properPacs: XValue, level: int) returns (codes: set<Code>)
    ensures codes == PaperCodes(properPacs, level)
  {
    var ps := Iterate(properPacs);
    codes := {};
    for k := 0 to |ps|
      invariant codes == set j | 0 <= j < k && LevelCode(ps[j], level).Some? :: LevelCode(ps[j], level).value
    {
      var c := LevelCode(ps[k], level);
      if c.Some? {
        codes := codes + {c.value};
      }
    }
  }

  /** The pair loop over `pacsList`: each code linked with every code
      before it. */
  function PairFold<N>(g: Graph<N>, cs: seq<N>): Graph<N> {
    if cs == [] then g
    else LinkAll(PairFold(g, cs[..|cs| - 1]), cs[|cs| - 1], cs[..|cs| - 1])
  }

  /** On a list without duplicates, the pair loop adds one to the edge
      between two codes exactly when both are listed. */
  lemma {:induction false} PairFoldAt<N>(g: Graph<N>, cs: seq<N>, u: N, v: N)
    requires NoDup(cs) && u != v
    ensures EdgeW(PairFold(g, cs), u, v) == EdgeW(g, u, v) + (if u in cs && v in cs then 1 else 0)
  {
    if cs != [] {
      var init := cs[..|cs| - 1];
      var last := cs[|cs| - 1];
      assert cs == init + [last];
      assert NoDup(init);
      assert forall i :: 0 <= i < |init| ==> init[i] == cs[i] && cs[i] != last;
      PairFoldAt(g, init, u, v);
      LinkAllAt(PairFold(g, init), last, init, u, v);
      NoDupCount(init, u);
      NoDupCount(init, v);
    }
  }

  /** The pair loop adds the listed codes as nodes when there are at least
      two of them, and nothing otherwise (a lone code never becomes a
      node). */
  lemma {:induction false} PairFoldNodes<N>(g: Graph<N>, cs: seq<N>)
    ensures PairFold(g, cs).nodes == g.nodes + (if |cs| >= 2 then set c | c in cs else {})
    ensures PairFold(g, cs).papers == g.papers
  {
    if cs != [] {
      var init := cs[..|cs| - 1];
      assert cs == init + [cs[|cs| - 1]];
      PairFoldNodes(g, init);
      LinkAllNodes(PairFold(g, init), cs[|cs| - 1], init);
      if |cs| == 2 {
        assert init == [cs[0]];
      }
    }
  }

  /** `for x in range(len(pacsList)): for y in range(x): ...` */
  method PairUp<N(==)>(G: NxGraph<N>, cs: seq<N>)
    modifies G
    ensures G.Value() == PairFold(old(G.Value()), cs)
  {
    ghost var start := G.Value();
    for x := 0 to |cs|
      invariant G.Value() == PairFold(start, cs[..x])
    {
      assert cs[..x + 1][..x] == cs[..x];
      LinkAllLoop(G, cs[x], cs[..x]);
    }
    assert cs[..|cs|] == cs;
  }

  /** One paper of `pacsXML`: its codes, made unique through a set, are
      paired in the order `list(pacsSet)` gives them, returned as `cs`. */
  method PaperPairs(G: NxGraph<Code>, properPacs: XValue, level: int) returns (ghost cs: seq<Code>)
    modifies G
    ensures NoDup(cs) && |cs| == |PaperCodes(properPacs, level)|
    ensures forall x :: x in cs <==> x in PaperCodes(properPacs, level)
    ensures G.Value() == PairFold(old(G.Value()), cs)
  {
    var pacsSet := PaperCodeSet(properPacs, level);
    var pacsList := SetToList(pacsSet);
    PairUp(G, pacsList);
    cs := pacsList;
  }

  /** The row has a `pacs` dictionary with a `pacscode` entry. */
  predicate HasPacsCode(row: Row) {
    Get(row.pacs, "pacscode").Ok?
  }

  /** Every row has a `pacscode` entry. */
  predicate AllCoded(rows: seq<Row>) {
    rows == [] || (AllCoded(rows[..|rows| - 1]) && HasPacsCode(rows[|rows| - 1]))
  }

  /** `AllCoded` read at one row, and extended by one row. */
  lemma {:induction false} AllCodedAt(rows: seq<Row>, i: nat)
    requires i < |rows|
    ensures AllCoded(rows) ==> HasPacsCode(rows[i])
    ensures AllCoded(rows[..i]) && HasPacsCode(rows[i]) ==> AllCoded(rows[..i + 1])
  {
    assert rows[..i + 1][..i] == rows[..i];
    if i < |rows| - 1 && AllCoded(rows) {
      AllCodedAt(rows[..|rows| - 1], i);
    }
  }

  /** `AllCoded` says that every row has a `pacscode` entry. */
  lemma {:induction false} AllCodedIff(rows: seq<Row>)
    ensures AllCoded(rows) <==> forall i :: 0 <= i < |rows| ==> HasPacsCode(rows[i])
  {
    if forall i :: 0 <= i < |rows| ==> HasPacsCode(rows[i]) {
      if rows != [] {
        var init := rows[..|rows| - 1];
        assert forall i :: 0 <= i < |init| ==> init[i] == rows[i];
        AllCodedIff(init);
      }
    } else {
      var i :| 0 <= i < |rows| && !HasPacsCode(rows[i]);
      AllCodedAt(rows, i);
    }
  }

  /** The codes one row contributes; a row without `pacscode` makes
      `pacsXML` raise before any code is read. */
  function RowCodes(row: Row, level: int): set<Code> {
    match Get(row.pacs, "pacscode")
    case Ok(pc) => PaperCodes(pc, level)
    case Err(_) => {}
  }

  /** The number of rows whose codes include both `u` and `v`. */
  function PapersWithBoth(rows: seq<Row>, level: int, u: Code, v: Code): nat {
    if rows == [] then 0
    else
      var cs := RowCodes(rows[|rows| - 1], level);
      PapersWithBoth(rows[..|rows| - 1], level, u, v) + (if u in cs && v in cs then 1 else 0)
  }

  /** The codes of the rows that hold at least two codes. */
  function PairedCodes(rows: seq<Row>, level: int): set<Code> {
    if rows == [] then {}
    else
      var cs := RowCodes(rows[|rows| - 1], level);
      PairedCodes(rows[..|rows| - 1], level) + (if |cs| >= 2 then cs else {})
  }

  /** The weights of `g` count, for each pair of codes, the papers that
      carry both. */
  ghost predicate WeighsPapers(g: Graph<Code>, rows: seq<Row>, level: int) {
    forall u, v :: u != v ==> EdgeW(g, u, v) == PapersWithBoth(rows, level, u, v)
  }

  /** One paper of `pacsXML`: pairing its codes, listed once each, keeps
      the weights and the nodes in step with the papers read so far. */
  lemma PacsRowStep(g: Graph<Code>, rows: seq<Row>, i: nat, level: int, cs: seq<Code>)
    requires i < |rows| && NoDup(cs) && |cs| == |RowCodes(rows[i], level)|
    requires forall x :: x in cs <==> x in RowCodes(rows[i], level)
    requires WeighsPapers(g, rows[..i], level)
    requires g.nodes == PairedCodes(rows[..i], level)
    ensures WeighsPapers(PairFold(g, cs), rows[..i + 1], level)
    ensures PairFold(g, cs).nodes == PairedCodes(rows[..i + 1], level)
  {
    assert rows[..i + 1][..i] == rows[..i];
    forall u, v | u != v
      ensures EdgeW(PairFold(g, cs), u, v) == PapersWithBoth(rows[..i + 1], level, u, v)
    {
      PairFoldAt(g, cs, u, v);
    }
    PairFoldNodes(g, cs);
    assert (set c | c in cs) == RowCodes(rows[i], level);
  }

  /** `pacsXML(infile, pacsLevel)`: `KeyError` or `TypeError` when a row has
      no `pacscode`; otherwise the edge between two codes weighs the number
      of papers carrying both, and the nodes are the codes of the papers
      with at least two codes. */
  method PacsXml(rows: seq<Row>, level: int) returns (r: Result<NxGraph<Code>>)
    ensures r.Ok? <==> AllCoded(rows)
    ensures r.Ok? ==> fresh(r.value)
    ensures r.Ok? ==> WeighsPapers(r.value.Value(), rows, level)
    ensures r.Ok? ==> r.value.nodes == PairedCodes(rows, level)
  {
    var G := new NxGraph();
    ghost var g := G.Value();
    for i := 0 to |rows|
      invariant G.Value() == g
      invariant AllCoded(rows[..i])
      invariant WeighsPapers(g, rows[..i], level)
      invariant g.nodes == PairedCodes(rows[..i], level)
    {
      var properPacs := Get(rows[i].pacs, "pacscode");
      if properPacs.Err? {
        AllCodedAt(rows, i);
        return Err(properPacs.error);
      }
      assert rows[..i + 1][..i] == rows[..i];
      ghost var pacsList := PaperPairs(G, properPacs.value, level);
      PacsRowStep(g, rows, i, level, pacsList);
      g := PairFold(g, pacsList);
    }
    assert rows[..|rows|] == rows;
    return Ok(G);
  }

  // ---- authors2Subjects (lines 201-241) -------------------------------------

  /** A node of the author-subject graph: an author key or a code value. */
  datatype Node = AuthorNode(author: Author) | CodeNode(code: XValue)

  function AuthorNodes(authors: seq<Author>): (r: seq<Node>)
    ensures |r| == |authors|
    ensures forall i :: 0 <= i < |r| ==> r[i] == AuthorNode(authors[i])
  {
    if authors == [] then [] else AuthorNodes(authors[..|authors| - 1]) + [AuthorNode(authors[|authors| - 1])]
  }

  function CodeNodes(codes: seq<XValue>): (r: seq<Node>)
    ensures |r| == |codes|
    ensures forall i :: 0 <= i < |r| ==> r[i] == CodeNode(codes[i])
  {
    if codes == [] then [] else CodeNodes(codes[..|codes| - 1]) + [CodeNode(codes[|codes| - 1])]
  }

  lemma {:induction false} AuthorNodesCount(authors: seq<Author>, a: Author)
    ensures Count(AuthorNodes(authors), AuthorNode(a)) == Count(authors, a)
  {
    if authors != [] {
      var init := authors[..|authors| - 1];
      var last := authors[|authors| - 1];
      assert authors == init + [last];
      AuthorNodesCount(init, a);
      CountSnoc(AuthorNodes(init), AuthorNode(last), AuthorNode(a));
      CountSnoc(init, last, a);
    }
  }

  lemma {:induction false} CodeNodesCount(codes: seq<XValue>, p: XValue)
    ensures Count(CodeNodes(codes), CodeNode(p)) == Count(codes, p)
  {
    if codes != [] {
      var init := codes[..|codes| - 1];
      var last := codes[|codes| - 1];
      assert codes == init + [last];
      CodeNodesCount(init, p);
      CountSnoc(CodeNodes(init), CodeNode(last), CodeNode(p));
      CountSnoc(init, last, p);
    }
  }

  /** `for n in ns: if n not in G.nodes(): G.add_node(n)` as a value. */
  function AddNodes<N>(g: Graph<N>, ns: seq<N>): (r: Graph<N>)
    ensures r.weight == g.weight && r.papers == g.papers
    ensures forall n :: n in ns ==> n in r.nodes
  {
    Graph(g.nodes + (set n | n in ns), g.papers, g.weight)
  }

  /** The node loop. */
  method AddNodesLoop<N(==)>(G: NxGraph<N>, ns: seq<N>)
    modifies G
    ensures G.Value() == AddNodes(old(G.Value()), ns)
  {
    ghost var g := G.Value();
    for i := 0 to |ns|
      invariant G.Value() == Graph(g.nodes + (set n | n in ns[..i]), g.papers, g.weight)
    {
      assert ns[..i + 1] == ns[..i] + [ns[i]];
      if ns[i] !in G.nodes {
        G.AddNode(ns[i]);
      }
    }
    assert ns[..|ns|] == ns;
  }

  /** The codes and the authors of one row, in the order Python reads them:
      `r['pacs']['pacscode']` first, then `G.add_node(p)` for each code,
      then `processAuthorLine(r)`, then `G.add_node(au)` for each author.
      `add_node` hashes the node, so a code or an author that cannot be
      hashed raises `TypeError`. */
  function RowParts(row: Row): (r: Result<(seq<XValue>, seq<Author>)>)
    ensures r.Ok? <==> Get(row.pacs, "pacscode").Ok? && AllHashable(Iterate(Get(row.pacs, "pacscode").value))
                       && ProcessAuthors(row.authgrp, ApsXml).Ok? && HashableAuthors(ProcessAuthors(row.authgrp, ApsXml).value)
    ensures r.Ok? ==> (r.value.0 == Iterate(Get(row.pacs, "pacscode").value)
                       && r.value.1 == ProcessAuthors(row.authgrp, ApsXml).value)
    ensures Get(row.pacs, "pacscode").Ok? && !AllHashable(Iterate(Get(row.pacs, "pacscode").value)) ==> r == Err(TypeError)
  {
    match Get(row.pacs, "pacscode")
    case Err(e) => Err(e)
    case Ok(pacs) =>
      if !AllHashable(Iterate(pacs)) then Err(TypeError)
      else
        match ProcessAuthors(row.authgrp, ApsXml)
        case Err(e) => Err(e)
        case Ok(authors) => if !HashableAuthors(authors) then Err(TypeError) else Ok((Iterate(pacs), authors))
  }

  /** One row: its codes and authors become nodes, and each author is
      linked with each code. */
  function SubjectStep(g: Graph<Node>, codes: seq<XValue>, authors: seq<Author>): Graph<Node> {
    var h := AddNodes(AddNodes(g, CodeNodes(codes)), AuthorNodes(authors));
    LinkGrid(h, AuthorNodes(authors), CodeNodes(codes))
  }

  /** The rows scanned into `g`, the first exception ending the scan. */
  function SubjectScan(g: Graph<Node>, rows: seq<Row>): Result<Graph<Node>>
    decreases |rows|
  {
    if rows == [] then Ok(g)
    else
      match RowParts(rows[0])
      case Err(e) => Err(e)
      case Ok(parts) => SubjectScan(SubjectStep(g, parts.0, parts.1), rows[1..])
  }

  /** The scan of the rows from `i` on: the row's exception, or the row's
      step followed by the scan of the rest. */
  lemma SubjectScanStep(g: Graph<Node>, rows: seq<Row>, i: nat)
    requires i < |rows|
    ensures RowParts(rows[i]).Err? ==> SubjectScan(g, rows[i..]) == Err(RowParts(rows[i]).error)
    ensures RowParts(rows[i]).Ok? ==>
      SubjectScan(g, rows[i..]) == SubjectScan(SubjectStep(g, RowParts(rows[i]).value.0, RowParts(rows[i]).value.1), rows[i + 1..])
  {
    assert rows[i..][0] == rows[i];
    assert rows[i..][1..] == rows[i + 1..];
  }

  /** `authors2Subjects(infile)` */
  method Authors2Subjects(rows: seq<Row>) returns (r: Result<NxGraph<Node>>)
    ensures r.Ok? ==> fresh(r.value) && SubjectScan(EmptyGraph(), rows) == Ok(r.value.Value())
    ensures r.Err? ==> SubjectScan(EmptyGraph(), rows) == Err(r.error)
  {
    var G := new NxGraph();
    var i := 0;
    while i < |rows|
      invariant 0 <= i <= |rows|
      invariant SubjectScan(EmptyGraph(), rows) == SubjectScan(G.Value(), rows[i..])
    {
      ghost var g0 := G.Value();
      var pacs := Get(rows[i].pacs, "pacscode");
      if pacs.Err? {
        SubjectScanStep(g0, rows, i);
        return Err(pacs.error);
      }
      if !AllHashable(Iterate(pacs.value)) {
        // `G.add_node(p)` hashes the code
        SubjectScanStep(g0, rows, i);
        return Err(TypeError);
      }
      var codes := CodeNodes(Iterate(pacs.value));
      AddNodesLoop(G, codes);
      var authors := ProcessAuthors(rows[i].authgrp, ApsXml);
      if authors.Err? {
        SubjectScanStep(g0, rows, i);
        return Err(authors.error);
      }
      if !HashableAuthors(authors.value) {
        // `G.add_node(au)` hashes the author
        SubjectScanStep(g0, rows, i);
        return Err(TypeError);
      }
      var auNodes := AuthorNodes(authors.value);
      AddNodesLoop(G, auNodes);
      LinkGridLoop(G, auNodes, codes);
      assert G.Value() == SubjectStep(g0, Iterate(pacs.value), authors.value);
      SubjectScanStep(g0, rows, i);
      i := i + 1;
    }
    return Ok(G);
  }

  /** Over the rows, the number of pairings of a listing of author `a` with
      a listing of code `p` on the same paper. */
  function Pairings(rows: seq<Row>, a: Author, p: XValue): nat
    decreases |rows|
  {
    if rows == [] then 0 else RowPairings(rows[0], a, p) + Pairings(rows[1..], a, p)
  }

  /** The pairings on one paper. */
  function RowPairings(row: Row, a: Author, p: XValue): nat {
    match RowParts(row)
    case Ok(parts) => Count(parts.1, a) * Count(parts.0, p)
    case Err(_) => 0
  }

  lemma NoCodeAmongAuthors(authors: seq<Author>, x: Node)
    requires x.CodeNode?
    ensures Count(AuthorNodes(authors), x) == 0
  {
    CountPositive(AuthorNodes(authors), x);
  }

  lemma NoAuthorAmongCodes(codes: seq<XValue>, x: Node)
    requires x.AuthorNode?
    ensures Count(CodeNodes(codes), x) == 0
  {
    CountPositive(CodeNodes(codes), x);
  }

  /** One row adds to the edge between an author and a code the product of
      their listings. */
  lemma SubjectStepAt(g: Graph<Node>, codes: seq<XValue>, authors: seq<Author>, a: Author, p: XValue)
    ensures EdgeW(SubjectStep(g, codes, authors), AuthorNode(a), CodeNode(p))
         == EdgeW(g, AuthorNode(a), CodeNode(p)) + Count(authors, a) * Count(codes, p)
  {
    var an := AuthorNodes(authors);
    var cn := CodeNodes(codes);
    var h := AddNodes(AddNodes(g, cn), an);
    assert EdgeW(h, AuthorNode(a), CodeNode(p)) == EdgeW(g, AuthorNode(a), CodeNode(p));
    LinkGridAt(h, an, cn, AuthorNode(a), CodeNode(p));
    AuthorNodesCount(authors, a);
    CodeNodesCount(codes, p);
    NoCodeAmongAuthors(authors, CodeNode(p));
    ZeroProduct(Count(an, CodeNode(p)), Count(cn, AuthorNode(a)));
    SameProduct(Count(an, AuthorNode(a)), Count(cn, CodeNode(p)), Count(authors, a), Count(codes, p));
  }

  lemma ZeroProduct(x: int, y: int)
    requires x == 0 || y == 0
    ensures x * y == 0
  {
  }

  lemma SameProduct(x: int, y: int, x': int, y': int)
    requires x == x' && y == y'
    ensures x * y == x' * y'
  {
  }

  /** A row never links two authors. */
  lemma SubjectStepAuthors(g: Graph<Node>, codes: seq<XValue>, authors: seq<Author>, a: Author, b: Author)
    requires a != b
    ensures EdgeW(SubjectStep(g, codes, authors), AuthorNode(a), AuthorNode(b)) == EdgeW(g, AuthorNode(a), AuthorNode(b))
  {
    var an := AuthorNodes(authors);
    var cn := CodeNodes(codes);
    var h := AddNodes(AddNodes(g, cn), an);
    assert h.weight == g.weight;
    LinkGridAt(h, an, cn, AuthorNode(a), AuthorNode(b));
    NoAuthorAmongCodes(codes, AuthorNode(a));
    NoAuthorAmongCodes(codes, AuthorNode(b));
    ZeroProduct(Count(an, AuthorNode(a)), Count(cn, AuthorNode(b)));
    ZeroProduct(Count(an, AuthorNode(b)), Count(cn, AuthorNode(a)));
  }

  /** A row never links two codes. */
  lemma SubjectStepCodes(g: Graph<Node>, codes: seq<XValue>, authors: seq<Author>, p: XValue, q: XValue)
    requires p != q
    ensures EdgeW(SubjectStep(g, codes, authors), CodeNode(p), CodeNode(q)) == EdgeW(g, CodeNode(p), CodeNode(q))
  {
    var an := AuthorNodes(authors);
    var cn := CodeNodes(codes);
    var h := AddNodes(AddNodes(g, cn), an);
    assert h.weight == g.weight;
    LinkGridAt(h, an, cn, CodeNode(p), CodeNode(q));
    NoCodeAmongAuthors(authors, CodeNode(p));
    NoCodeAmongAuthors(authors, CodeNode(q));
    ZeroProduct(Count(an, CodeNode(p)), Count(cn, CodeNode(q)));
    ZeroProduct(Count(an, CodeNode(q)), Count(cn, CodeNode(p)));
  }

  /** Every row has its `pacscode` entry and an author tree
      `processAuthors` accepts, and its codes and authors can be hashed. */
  predicate AllParse(rows: seq<Row>) {
    rows == [] || (RowParts(rows[0]).Ok? && AllParse(rows[1..]))
  }

  /** `authors2Subjects` fails exactly when some row lacks `pacscode`,
      holds an author tree `processAuthors` rejects, or has a code or an
      author that cannot be hashed. */
  lemma {:induction false} SubjectScanOk(g: Graph<Node>, rows: seq<Row>)
    ensures SubjectScan(g, rows).Ok? <==> AllParse(rows)
    decreases |rows|
  {
    if rows != [] && RowParts(rows[0]).Ok? {
      var parts := RowParts(rows[0]).value;
      SubjectScanOk(SubjectStep(g, parts.0, parts.1), rows[1..]);
    }
  }

  /** `AllParse` checks each row. */
  lemma {:induction false} AllParseIff(rows: seq<Row>)
    ensures AllParse(rows) <==> forall i :: 0 <= i < |rows| ==> RowParts(rows[i]).Ok?
    decreases |rows|
  {
    if rows != [] {
      var tail := rows[1..];
      AllParseIff(tail);
      assert forall i :: 0 <= i < |tail| ==> tail[i] == rows[i + 1];
    }
  }

  /** The finished graph: an author and a code are linked as many times as
      they are listed together on a paper, and no two authors and no two
      codes are linked. */
  lemma {:induction false} SubjectScanAt(g: Graph<Node>, rows: seq<Row>, a: Author, p: XValue, x: Node, y: Node)
    requires SubjectScan(g, rows).Ok?
    ensures EdgeW(SubjectScan(g, rows).value, AuthorNode(a), CodeNode(p))
         == EdgeW(g, AuthorNode(a), CodeNode(p)) + Pairings(rows, a, p)
    ensures x.AuthorNode? == y.AuthorNode? && x != y ==> EdgeW(SubjectScan(g, rows).value, x, y) == EdgeW(g, x, y)
    decreases |rows|
  {
    if rows != [] {
      var parts := RowParts(rows[0]).value;
      SubjectStepAt(g, parts.0, parts.1, a, p);
      if x.AuthorNode? && y.AuthorNode? && x != y {
        SubjectStepAuthors(g, parts.0, parts.1, x.author, y.author);
      } else if x.CodeNode? && y.CodeNode? && x != y {
        SubjectStepCodes(g, parts.0, parts.1, x.code, y.code);
      }
      SubjectScanAt(SubjectStep(g, parts.0, parts.1), rows[1..], a, p, x, y);
    }
  }
}
