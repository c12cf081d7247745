/** Author names in the arXiv metadata (arxiv/arxiv.py): the name
    normaliser `unified_name`, the pairing of surnames with forenames in
    `get_authors`, and the two tallies over a table of papers,
    `get_author_series` and `get_all_authors`. */
module ArxivNames {
  import opened Wrappers
  import opened SeqUtil
  import opened PyStr
  import opened Adjacency

  // ---- unified_name ---------------------------------------------------

  /** `name.rstrip(' .').split(' ')` */
  function Tokens(name: string): (r: seq<string>)
    ensures |r| >= 1
  {
    Split(RStrip(name, {' ', '.'}), " ")
  }

  /** Some token is empty, so `i[0]` raises `IndexError`. */
  predicate HasEmptyToken(ts: seq<string>) {
    exists i :: 0 <= i < |ts| && ts[i] == []
  }

  /** `[i[0] for i in ts]`, each first character as a one-character
      string. */
  function Initials(ts: seq<string>): (r: seq<string>)
    requires !HasEmptyToken(ts)
    ensures |r| == |ts|
  {
    seq(|ts|, i requires 0 <= i < |ts| => [ts[i][0]])
  }

  /** `i.strip('-').strip('.')` */
  function CleanToken(t: string): (r: string)
    ensures |r| <= |t|
    ensures forall c :: c in r ==> c in t
  {
    Strip(Strip(t, {'-'}), {'.'})
  }

  /** `unified_name(name, initials_only)`: a name of at most one character
      is returned as it is; so is the name when initials are asked for and
      a token is empty. Otherwise the tokens (or their first characters)
      are cleaned of '-' and '.' at both ends and concatenated. */
  function UnifiedName(name: string, initialsOnly: bool): (r: string)
    ensures |name| <= 1 ==> r == name
    ensures initialsOnly && HasEmptyToken(Tokens(name)) ==> r == name
  {
    if |name| <= 1 then name
    else
      var ts := Tokens(name);
      if initialsOnly && HasEmptyToken(ts) then name
      else
        var l := if initialsOnly then Initials(ts) else ts;
        Join(seq(|l|, i requires 0 <= i < |l| => CleanToken(l[i])), "")
  }

  /** No token holds a space. */
  lemma TokensHaveNoSpace(name: string)
    ensures forall i :: 0 <= i < |Tokens(name)| ==> ' ' !in Tokens(name)[i]
  {
    var ts := Tokens(name);
    SplitPiecesFree(RStrip(name, {' ', '.'}), " ");
    forall i | 0 <= i < |ts| ensures ' ' !in ts[i] {
      SingleCharOccurs(ts[i], ' ');
    }
  }

  /** Unless the name is returned as it is, the unified name holds no
      space. */
  lemma UnifiedNameHasNoSpace(name: string, initialsOnly: bool)
    requires |name| > 1 && !(initialsOnly && HasEmptyToken(Tokens(name)))
    ensures ' ' !in UnifiedName(name, initialsOnly)
  {
    var ts := Tokens(name);
    TokensHaveNoSpace(name);
    var l := if initialsOnly then Initials(ts) else ts;
    assert forall i :: 0 <= i < |l| ==> ' ' !in l[i] by {
      forall i | 0 <= i < |l| ensures ' ' !in l[i] {
        if initialsOnly {
          assert ts[i][0] in ts[i];
        }
      }
    }
    var parts := seq(|l|, i requires 0 <= i < |l| => CleanToken(l[i]));
    JoinEmptyGlueExcludes(parts, ' ');
  }

  /** Joining one-character pieces gives at most one character each. */
  lemma {:induction false} JoinShortPieces(parts: seq<string>)
    requires forall i :: 0 <= i < |parts| ==> |parts[i]| <= 1
    ensures |Join(parts, "")| <= |parts|
  {
    if |parts| > 1 {
      JoinShortPieces(parts[1..]);
    }
  }

  /** In initials mode the result has at most one character per token. */
  lemma InitialsAreShort(name: string)
    requires |name| > 1 && !HasEmptyToken(Tokens(name))
    ensures |UnifiedName(name, true)| <= |Tokens(name)|
  {
    var l := Initials(Tokens(name));
    var parts := seq(|l|, i requires 0 <= i < |l| => CleanToken(l[i]));
    JoinShortPieces(parts);
  }

  /** A name without spaces that neither starts nor ends with '-' or '.'
      is already unified. */
  lemma CleanNameUnchanged(name: string)
    requires name != [] && ' ' !in name
    requires name[0] !in {'-', '.'} && name[|name| - 1] !in {'-', '.'}
    ensures UnifiedName(name, false) == name
  {
    if |name| > 1 {
      assert RStrip(name, {' ', '.'}) == name;
      SplitWithout(name, ' ');
      assert Tokens(name) == [name];
      assert Strip(name, {'-'}) == name;
      assert Strip(name, {'.'}) == name;
      var parts := seq(1, i requires 0 <= i < 1 => CleanToken(Tokens(name)[i]));
      assert parts == [name];
    }
  }

  // ---- get_authors ----------------------------------------------------

  /** The two name columns of a paper; `None` stands for a cell that is not
      a string (a missing value). */
  datatype Record = Record(forenames: Option<string>, keyname: Option<string>)

  function Min(a: int, b: int): int {
    if a <= b then a else b
  }

  /** `get_authors(row)`: `None` when either column is not a string;
      otherwise the i-th surname paired with the i-th unified forename as
      "surname, forename", as far as the shorter list goes. */
  function GetAuthors(row: Record): (r: Option<seq<string>>)
    ensures r.Some? <==> row.forenames.Some? && row.keyname.Some?
    ensures r.Some? ==> |r.value| == Min(|Split(row.keyname.value, "|")|, |Split(row.forenames.value, "|")|)
  {
    if row.forenames.None? || row.keyname.None? then None
    else
      var forenames := Split(row.forenames.value, "|");
      var lastnames := Split(row.keyname.value, "|");
      var n := Min(|lastnames|, |forenames|);
      Some(seq(n, i requires 0 <= i < n => lastnames[i] + ", " + UnifiedName(forenames[i], false)))
  }

  /** The text before the first ',' of the i-th author is the i-th
      surname, when that surname holds no ','. */
  lemma SurnameOfAuthor(row: Record, i: nat)
    requires GetAuthors(row).Some? && i < |GetAuthors(row).value|
    requires ',' !in Split(row.keyname.value, "|")[i]
    ensures BeforeFirst(GetAuthors(row).value[i], ',') == Split(row.keyname.value, "|")[i]
  {
    var last := Split(row.keyname.value, "|")[i];
    var fore := UnifiedName(Split(row.forenames.value, "|")[i], false);
    assert GetAuthors(row).value[i] == last + [','] + (" " + fore);
    BeforeFirstOf(last, ',', " " + fore);
  }

  // ---- get_author_series and get_all_authors -------------------------

  /** The authors a row contributes; a row without authors contributes
      none. */
  function AuthorsOf(row: Record): seq<string> {
    match GetAuthors(row)
    case None => []
    case Some(l) => l
  }

  /** The author counter after the rows, in table order. */
  function AuthorCounts(rows: seq<Record>): map<string, int> {
    if rows == [] then map[]
    else Increment(AuthorCounts(rows[..|rows| - 1]), AuthorsOf(rows[|rows| - 1]))
  }

  /** How often `a` is listed over all rows. */
  function Occurrences(rows: seq<Record>, a: string): nat {
    if rows == [] then 0
    else Occurrences(rows[..|rows| - 1], a) + Count(AuthorsOf(rows[|rows| - 1]), a)
  }

  /** Every author listed in some row. */
  function AllAuthors(rows: seq<Record>): set<string> {
    if rows == [] then {}
    else AllAuthors(rows[..|rows| - 1]) + Elems(AuthorsOf(rows[|rows| - 1]))
  }

  /** The elements of a list, as a set. */
  function Elems(l: seq<string>): (r: set<string>)
    ensures forall x :: x in r <==> x in l
  {
    set x | x in l
  }

  /** `get_author_series(df)`: each author mapped to its number of
      listings. */
  method GetAuthorSeries(rows: seq<Record>) returns (counter: map<string, int>)
    ensures counter == AuthorCounts(rows)
  {
    counter := map[];
    for i := 0 to |rows|
      invariant counter == AuthorCounts(rows[..i])
    {
      assert rows[..i + 1][..i] == rows[..i];
      var authors := GetAuthors(rows[i]);
      if authors.Some? && authors.value != [] {
        counter := IncrementLoop(counter, authors.value);
      }
    }
    assert rows[..|rows|] == rows;
  }

  /** `for i in l: authors.add(i)` */
  method AddAll(before: set<string>, l: seq<string>) returns (authors: set<string>)
    ensures authors == before + Elems(l)
  {
    authors := before;
    for j := 0 to |l|
      invariant authors == before + Elems(l[..j])
    {
      assert Elems(l[..j + 1]) == Elems(l[..j]) + {l[j]} by {
        assert l[..j + 1] == l[..j] + [l[j]];
      }
      authors := authors + {l[j]};
    }
    assert l[..|l|] == l;
  }

  /** `get_all_authors(df)`: the set of all listed authors. */
  method GetAllAuthors(rows: seq<Record>) returns (authors: set<string>)
    ensures authors == AllAuthors(rows)
  {
    authors := {};
    for i := 0 to |rows|
      invariant authors == AllAuthors(rows[..i])
    {
      assert rows[..i + 1][..i] == rows[..i];
      var a := GetAuthors(rows[i]);
      if a.Some? && a.value != [] {
        assert AuthorsOf(rows[i]) == a.value;
        authors := AddAll(authors, a.value);
      } else {
        assert Elems(AuthorsOf(rows[i])) == {};
      }
    }
    assert rows[..|rows|] == rows;
  }

  /** The counter holds exactly the listed authors, each with its number
      of listings. */
  lemma {:induction false} AuthorCountsAt(rows: seq<Record>, a: string)
    ensures a in AuthorCounts(rows) <==> Occurrences(rows, a) > 0
    ensures ValueOr0(AuthorCounts(rows), a) == Occurrences(rows, a)
  {
    if rows != [] {
      var init := rows[..|rows| - 1];
      var l := AuthorsOf(rows[|rows| - 1]);
      AuthorCountsAt(init, a);
      IncrementAt(AuthorCounts(init), l, a);
      CountPositive(l, a);
    }
  }

  /** An author is in the set exactly when it is listed at least once. */
  lemma {:induction false} AllAuthorsAt(rows: seq<Record>, a: string)
    ensures a in AllAuthors(rows) <==> Occurrences(rows, a) > 0
  {
    if rows != [] {
      AllAuthorsAt(rows[..|rows| - 1], a);
      CountPositive(AuthorsOf(rows[|rows| - 1]), a);
    }
  }

  /** The counter's index is the set of all authors. */
  lemma SeriesIndexIsAllAuthors(rows: seq<Record>)
    ensures AuthorCounts(rows).Keys == AllAuthors(rows)
  {
    forall a | a in AuthorCounts(rows) ensures a in AllAuthors(rows) {
      AuthorCountsAt(rows, a);
      AllAuthorsAt(rows, a);
    }
    forall a | a in AllAuthors(rows) ensures a in AuthorCounts(rows) {
      AuthorCountsAt(rows, a);
      AllAuthorsAt(rows, a);
    }
  }

  /** A paper whose name columns are missing contributes nothing. */
  lemma MissingRowSkipped(rows: seq<Record>, row: Record)
    requires row.forenames.None? || row.keyname.None?
    ensures AuthorCounts(rows + [row]) == AuthorCounts(rows)
    ensures AllAuthors(rows + [row]) == AllAuthors(rows)
  {
    assert (rows + [row])[..|rows|] == rows;
  }
}
