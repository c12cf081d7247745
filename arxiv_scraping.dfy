/** The string rules of the arXiv scraper (scraping/arxiv.py): the cell
    cleaner `list_cleaner`, the rewrite of the OAI resumption token, and the
    per-year file names and row selection of `clean_arxiv_data`. */
module ArxivScraping {
  import opened Wrappers
  import opened PyStr

  // ---- list_cleaner ---------------------------------------------------

  /** `s.strip("['").strip("']")` */
  function StripBrackets(s: string): (r: string)
    ensures forall c :: c in r ==> c in s
  {
    Strip(Strip(s, {'[', '\''}), {'\'', ']'})
  }

  /** `'|'.join(cleaned.split(listify))` */
  function Listify(cleaned: string, sep: string): string
    requires |sep| > 0
  {
    Join(Split(cleaned, sep), "|")
  }

  /** `cleaned.replace("'", '').replace('"', '')` */
  function RemoveQuotes(cleaned: string): string {
    Replace(Replace(cleaned, "'", ""), "\"", "")
  }

  /** `list_cleaner(listify, remove_quotes)(s)`. A cell that is not a
      string (`None` here; a float NaN in the table) is returned as it is.
      `listify` is the separator; the empty string stands for the default
      `False`, which the source treats alike since both are falsy. */
  function ListCleaner(s: Option<string>, listify: string, removeQuotes: bool): (r: Option<string>)
    ensures s.None? <==> r.None?
    ensures r.Some? ==> forall c :: c in r.value ==> c in s.value || (c == '|' && |listify| > 0)
  {
    if s.None? then None
    else
      var cleaned := StripBrackets(s.value);
      var listed := if |listify| > 0 then Listify(cleaned, listify) else cleaned;
      ListifyChars(cleaned, listify);
      var unquoted := if removeQuotes then RemoveQuotes(listed) else listed;
      RemoveQuotesChars(listed, removeQuotes);
      Some(unquoted)
  }

  lemma ListifyChars(cleaned: string, sep: string)
    ensures |sep| > 0 ==> forall c :: c in Listify(cleaned, sep) ==> c in cleaned || c == '|'
  {
    if |sep| > 0 {
      var parts := Split(cleaned, sep);
      SplitPiecesChars(cleaned, sep);
      forall c | c in Listify(cleaned, sep) ensures c in cleaned || c == '|' {
        JoinCharsFrom(parts, '|', c);
      }
    }
  }

  lemma RemoveQuotesChars(listed: string, removeQuotes: bool)
    ensures removeQuotes ==> forall c :: c in RemoveQuotes(listed) ==> c in listed
  {
    if removeQuotes {
      forall c | c in RemoveQuotes(listed) ensures c in listed {
        ReplaceKeepsChars(Replace(listed, "'", ""), '"', c);
        ReplaceKeepsChars(listed, '\'', c);
      }
    }
  }

  /** A character of a join with a one-character glue is the glue or comes
      from a piece. */
  lemma {:induction false} JoinCharsFrom(parts: seq<string>, g: char, c: char)
    requires c in Join(parts, [g])
    ensures c == g || exists i :: 0 <= i < |parts| && c in parts[i]
  {
    if |parts| > 1 {
      assert Join(parts, [g]) == parts[0] + [g] + Join(parts[1..], [g]);
      if c != g && c !in parts[0] {
        JoinCharsFrom(parts[1..], g, c);
        var i :| 0 <= i < |parts[1..]| && c in parts[1..][i];
        assert c in parts[i + 1];
      }
    }
  }

  /** With no options the cleaned cell neither starts nor ends with a quote
      or a closing bracket. */
  lemma PlainCleanerEnds(s: string)
    ensures var r := ListCleaner(Some(s), "", false).value;
      r == [] || (r[0] != '\'' && r[0] != ']' && r[|r| - 1] != '\'' && r[|r| - 1] != ']')
  {
    var t := Strip(s, {'[', '\''});
    var r := Strip(t, {'\'', ']'});
    assert ListCleaner(Some(s), "", false).value == r;
  }

  /** With a separator free of '|', no separator is left, and splitting the
      result on '|' gives the pieces between the separators; when the
      stripped cell held no '|', joining those pieces again with the
      separator restores it. */
  lemma ListifyReplacesSeparator(s: string, sep: string)
    requires |sep| > 0 && '|' !in sep
    ensures !Occurs(ListCleaner(Some(s), sep, false).value, sep)
    ensures '|' !in StripBrackets(s) ==>
      Split(ListCleaner(Some(s), sep, false).value, "|") == Split(StripBrackets(s), sep)
      && Join(Split(ListCleaner(Some(s), sep, false).value, "|"), sep) == StripBrackets(s)
  {
    var cleaned := StripBrackets(s);
    var parts := Split(cleaned, sep);
    SplitPiecesFree(cleaned, sep);
    JoinCreatesNoOccurrence(parts, sep, '|');
    if '|' !in cleaned {
      SplitPiecesChars(cleaned, sep);
      SplitJoinSingle(parts, '|');
      SplitJoinRoundTrip(cleaned, sep);
    }
  }

  /** With `remove_quotes` no quote of either kind is left. */
  lemma RemoveQuotesRemovesAll(s: string, sep: string)
    ensures var r := ListCleaner(Some(s), sep, true).value;
      '\'' !in r && '"' !in r
  {
    var cleaned := StripBrackets(s);
    var listed := if |sep| > 0 then Listify(cleaned, sep) else cleaned;
    ReplaceRemoves(listed, '\'');
    ReplaceRemoves(Replace(listed, "'", ""), '"');
    if '\'' in RemoveQuotes(listed) {
      ReplaceKeepsChars(Replace(listed, "'", ""), '"', '\'');
    }
  }

  // ---- the resumption token -------------------------------------------

  /** `old_token.split('|')[0] + '|' + token` */
  function NewToken(oldToken: string, token: string): (r: string)
    ensures BeforeFirst(r, '|') == BeforeFirst(oldToken, '|')
    ensures |r| >= |token| && r[|r| - |token|..] == token
  {
    var head := BeforeFirst(oldToken, '|');
    HeadHasNoBar(oldToken);
    BeforeFirstOf(head, '|', token);
    head + "|" + token
  }

  lemma HeadHasNoBar(s: string)
    ensures '|' !in BeforeFirst(s, '|')
  {
    SplitPiecesFree(s, "|");
    SingleCharOccurs(BeforeFirst(s, '|'), '|');
  }

  /** Rewriting twice is rewriting once with the second token: the part
      before the first '|' survives every rewrite. */
  lemma NewTokenTwice(oldToken: string, t1: string, t2: string)
    ensures NewToken(NewToken(oldToken, t1), t2) == NewToken(oldToken, t2)
  {
  }

  /** The record iterator of the OAI client, reduced to the token it
      resumes from. */
  class Records {
    var resumptionToken: string

    constructor (token: string)
      ensures resumptionToken == token
    {
      resumptionToken := token;
    }
  }

  /** The scraper, reduced to its record iterator; the OAI client that
      fills it is not part of this model. */
  class ArxivScraper {
    const records: Records

    constructor (records: Records)
      ensures this.records == records
    {
      this.records := records;
    }

    /** `set_resumption_token(token)`: keeps the part of the old token
        before the first '|' and puts `token` after it. */
    method SetResumptionToken(token: string)
      modifies records
      ensures records.resumptionToken == NewToken(old(records.resumptionToken), token)
    {
      var oldToken := records.resumptionToken;
      records.resumptionToken := BeforeFirst(oldToken, '|') + "|" + token;
    }
  }

  // ---- clean_arxiv_data: years, file names and row selection ----------

  /** `1900 if y > 80 else 2000` */
  function BaseYear(y: int): int {
    if y > 80 then 1900 else 2000
  }

  /** The four-digit year of a two-digit year. */
  function FullYear(y: int): (r: int)
    ensures 0 <= y < 100 ==> 1981 <= r <= 2080 && r % 100 == y
  {
    y + BaseYear(y)
  }

  /** Distinct two-digit years give distinct four-digit years. */
  lemma FullYearInjective(y1: int, y2: int)
    requires 0 <= y1 < 100 && 0 <= y2 < 100 && FullYear(y1) == FullYear(y2)
    ensures y1 == y2
  {
  }

  /** `range(90, 100) + range(0, 14)` */
  const DefaultYears: seq<int> := [90, 91, 92, 93, 94, 95, 96, 97, 98, 99, 0, 1, 2, 3, 4, 5, 6, 7, 8, 9, 10, 11, 12, 13]

  /** The default years are 1990 to 2013. */
  lemma DefaultYearsSpan()
    ensures forall i :: 0 <= i < |DefaultYears| ==> FullYear(DefaultYears[i]) == 1990 + i
  {
  }

  /** `'arxiv-{:0>2d}.csv'.format(y + baseyear)` */
  function FileName(y: int): (r: string)
    ensures |r| >= 12 && r[..6] == "arxiv-" && r[|r| - 4..] == ".csv"
  {
    "arxiv-" + Pad2(FullYear(y)) + ".csv"
  }

  /** The file name carries the four-digit year. */
  lemma FileNameYear(y: int)
    requires 0 <= y < 100
    ensures var r := FileName(y); ParseInt(r[6..|r| - 4]) == Some(FullYear(y))
  {
    var r := FileName(y);
    assert r[6..|r| - 4] == Pad2(FullYear(y));
  }

  /** `x.split('/')[-1]`: an old-style id "physics/0401059" loses its
      archive prefix; a new-style id "0710.3056" stays as it is. */
  function IdString(id: string): (r: string)
    ensures '/' !in r
    ensures |r| <= |id| && id[|id| - |r|..] == r
  {
    var parts := Split(id, "/");
    SplitPiecesFree(id, "/");
    SingleCharOccurs(parts[|parts| - 1], '/');
    SplitJoinRoundTrip(id, "/");
    JoinEndsWithLast(parts, "/");
    parts[|parts| - 1]
  }

  lemma {:induction false} JoinEndsWithLast(parts: seq<string>, glue: string)
    requires |parts| >= 1
    ensures var j := Join(parts, glue); var l := parts[|parts| - 1];
      |l| <= |j| && j[|j| - |l|..] == l
  {
    if |parts| > 1 {
      JoinEndsWithLast(parts[1..], glue);
      assert Join(parts, glue) == parts[0] + glue + Join(parts[1..], glue);
    }
  }

  /** An id without '/' is its own idstring. */
  lemma NewStyleId(id: string)
    requires '/' !in id
    ensures IdString(id) == id
  {
    SplitWithout(id, '/');
  }

  /** `idstring.startswith('{:0>2d}'.format(y))` */
  predicate Selected(id: string, y: int) {
    StartsWith(IdString(id), Pad2(y))
  }

  /** A selected id's idstring starts with the digits of its year. */
  lemma SelectedStartsWithYear(id: string, y: int)
    requires 0 <= y < 100 && Selected(id, y)
    ensures ParseInt(IdString(id)[..2]) == Some(y)
  {
  }

  /** No id is written to the files of two different years. */
  lemma SelectionDisjoint(id: string, y1: int, y2: int)
    requires 0 <= y1 < 100 && 0 <= y2 < 100 && y1 != y2
    ensures !(Selected(id, y1) && Selected(id, y2))
  {
    if Selected(id, y1) && Selected(id, y2) {
      SelectedStartsWithYear(id, y1);
      SelectedStartsWithYear(id, y2);
    }
  }

  /** The ids written for year `y`, in table order. */
  function YearRows(ids: seq<string>, y: int): (r: seq<string>)
    ensures forall x :: x in r <==> x in ids && Selected(x, y)
    ensures |r| <= |ids|
  {
    if ids == [] then []
    else
      var init := YearRows(ids[..|ids| - 1], y);
      var last := ids[|ids| - 1];
      assert ids == ids[..|ids| - 1] + [last];
      if Selected(last, y) then init + [last] else init
  }
}
