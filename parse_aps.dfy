/** The row-level helpers of aps/parseAPS.py: the publication year of an
    article, the year and PACS filters of `getAuthors`, `getAuthorsYears`,
    `getPACS` and `getPACSYears`, and the small dictionary utilities
    `dois2ilocs`, `getCommonPACS` and `isPACSpresent`. */
module ParseAps {
  import opened Wrappers
  import opened PyStr
  import opened XmlValue
  import opened SeqUtil
  import opened AuthorTree
  import opened Pacs

  /** One row of the article table: its `authgrp`, `pacs` and `history`
      columns. A missing history (NaN) is any value that is not a
      dictionary. */
  datatype Row = Row(authgrp: XValue, pacs: XValue, history: XValue)

  // ---- getYear ----------------------------------------------------------

  /** `int(e['@date'].split("-")[0])` for one history entry. */
  function DateYear(e: XValue): (r: Result<int>)
    ensures r.Ok? ==> r.value >= 0
    ensures r.Err? ==> r.error == KeyError || r.error == TypeError || r.error == AttributeError || r.error == ValueError
  {
    match Get(e, "@date")
    case Err(err) => Err(err)
    case Ok(d) =>
      if !d.Str? then Err(AttributeError)
      else
        match ParseInt(BeforeFirst(d.s, '-'))
        case Some(y) => Ok(y)
        case None => Err(ValueError)
  }

  /** `getYear(row)`: the year of the received date, else of the published
      date, else of the revised date; 0 when there is no history. */
  function GetYear(row: Row): (r: Result<int>)
    ensures !row.history.Dict? ==> r == Ok(0)
    ensures r.Ok? ==> r.value >= 0
  {
    match row.history
    case Dict(h) =>
      if HasKey(h, "received") then DateYear(Lookup(h, "received"))
      else if HasKey(h, "published") then DateYear(Lookup(h, "published"))
      else if HasKey(h, "revised") then DateYear(Lookup(h, "revised"))
      else Err(KeyError)
    case List(_) => Ok(0)
    case Str(_) => Ok(0)
  }

  /** The history entry `{'@date': "<year>-<rest>"}` written for year `y`. */
  function DatedEntry(y: nat, rest: string): XValue {
    Dict([("@date", Str(IntToString(y) + "-" + rest))])
  }

  /** Reading the year back from a date written as "<year>-..." gives the
      year. */
  lemma DateRoundTrip(y: nat, rest: string)
    ensures DateYear(DatedEntry(y, rest)) == Ok(y)
  {
    var s := IntToString(y);
    assert ParseInt(s) == Some(y);
    assert forall i :: 0 <= i < |s| ==> IsDigit(s[i]);
    BeforeFirstOf(s, '-', rest);
    assert s + ['-'] + rest == s + "-" + rest;
    var es := [("@date", Str(s + "-" + rest))];
    assert es[0].0 == "@date";
  }

  /** The received date wins over the others, then the published date. */
  lemma YearPriority(h: seq<(string, XValue)>, y: nat, rest: string)
    requires HasKey(h, "received") ==> Lookup(h, "received") == DatedEntry(y, rest)
    requires !HasKey(h, "received") && HasKey(h, "published") ==> Lookup(h, "published") == DatedEntry(y, rest)
    requires !HasKey(h, "received") && !HasKey(h, "published") ==>
      HasKey(h, "revised") && Lookup(h, "revised") == DatedEntry(y, rest)
    ensures GetYear(Row(Str(""), Str(""), Dict(h))) == Ok(y)
  {
    DateRoundTrip(y, rest);
  }

  // ---- the membership test `pp in container` ------------------------------

  /** Python `x in v`: list membership, substring test on a string (a
      non-string operand raises `TypeError`), key test on a dictionary (an
      unhashable operand raises `TypeError`). */
  function PyIn(v: XValue, x: XValue): (r: Result<bool>)
    ensures r.Err? ==> r.error == TypeError && !v.List? && !x.Str?
  {
    match v
    case List(xs) => Ok(x in xs)
    case Str(s) => if x.Str? then Ok(Occurs(s, x.s)) else Err(TypeError)
    case Dict(es) => if x.Str? then Ok(HasKey(es, x.s)) else Err(TypeError)
  }

  /** Whatever `for x in v` yields is `in v`. */
  lemma IteratedItemIsIn(v: XValue, k: int)
    requires 0 <= k < |Iterate(v)|
    ensures PyIn(v, Iterate(v)[k]) == Ok(true)
  {
    match v
    case List(_) =>
    case Str(s) =>
      SingleCharOccurs(s, s[k]);
    case Dict(es) =>
      assert es[k].0 == Iterate(v)[k].s;
  }

  // ---- filtering loops ----------------------------------------------------

  /** `[x for x in xs if x in ys]`, the list the loops of `getPACS` build. */
  function Keep(xs: seq<int>, ys: seq<int>): seq<int> {
    if xs == [] then []
    else Keep(xs[..|xs| - 1], ys) + (if xs[|xs| - 1] in ys then [xs[|xs| - 1]] else [])
  }

  lemma {:induction false} KeepMembers(xs: seq<int>, ys: seq<int>)
    ensures forall x :: x in Keep(xs, ys) <==> x in xs && x in ys
  {
    if xs != [] {
      var init := xs[..|xs| - 1];
      KeepMembers(init, ys);
      assert xs == init + [xs[|xs| - 1]];
    }
  }

  lemma {:induction false} KeepNoDup(xs: seq<int>, ys: seq<int>)
    requires NoDup(xs)
    ensures NoDup(Keep(xs, ys))
  {
    if xs != [] {
      var init := xs[..|xs| - 1];
      var last := xs[|xs| - 1];
      assert NoDup(init);
      KeepNoDup(init, ys);
      KeepMembers(init, ys);
      assert forall i :: 0 <= i < |init| ==> init[i] == xs[i] && xs[i] != last;
    }
  }

  /** The loop `for pp in xs: if pp in ys: goodList.append(pp)`. */
  method FilterIn(xs: seq<int>, ys: seq<int>) returns (r: seq<int>)
    ensures r == Keep(xs, ys)
  {
    r := [];
    for i := 0 to |xs|
      invariant r == Keep(xs[..i], ys)
    {
      assert xs[..i + 1][..i] == xs[..i];
      if xs[i] in ys {
        r := r + [xs[i]];
      }
    }
    assert xs[..|xs|] == xs;
  }

  /** The loop `for pp in xs: if pp in ys: numGood += 1`. */
  method CountIn(xs: seq<int>, ys: seq<int>) returns (n: nat)
    ensures n == |Keep(xs, ys)|
    ensures n > 0 <==> exists x :: x in xs && x in ys
  {
    n := 0;
    for i := 0 to |xs|
      invariant n == |Keep(xs[..i], ys)|
    {
      assert xs[..i + 1][..i] == xs[..i];
      if xs[i] in ys {
        n := n + 1;
      }
    }
    assert xs[..|xs|] == xs;
    KeepMembers(xs, ys);
    if n > 0 {
      var x := Keep(xs, ys)[0];
      assert x in Keep(xs, ys);
      assert x in xs && x in ys;
    }
    forall x | x in xs && x in ys ensures n > 0 {
      assert x in Keep(xs, ys);
    }
  }

  // ---- row filters ------------------------------------------------------

  /** The year gate: `goodY`, with `getYear`'s exception when a year list
      is given. An empty list is Python's falsy `subsetYears`. */
  function YearGate(row: Row, subsetYears: seq<int>): (r: Result<bool>)
    ensures subsetYears == [] ==> r == Ok(true)
  {
    if subsetYears == [] then Ok(true)
    else
      match GetYear(row)
      case Err(e) => Err(e)
      case Ok(y) => Ok(y in subsetYears)
  }

  /** A row whose history dates it to year `y` (by the received, published
      or revised priority) passes the year gate exactly when no year list
      is given or `y` is in it. */
  lemma YearGateKeepsListedYears(row: Row, h: seq<(string, XValue)>, y: nat, rest: string, subsetYears: seq<int>)
    requires row.history == Dict(h)
    requires HasKey(h, "received") ==> Lookup(h, "received") == DatedEntry(y, rest)
    requires !HasKey(h, "received") && HasKey(h, "published") ==> Lookup(h, "published") == DatedEntry(y, rest)
    requires !HasKey(h, "received") && !HasKey(h, "published") ==>
      HasKey(h, "revised") && Lookup(h, "revised") == DatedEntry(y, rest)
    ensures YearGate(row, subsetYears) == Ok(subsetYears == [] || y in subsetYears)
  {
    YearPriority(h, y, rest);
    assert GetYear(row) == GetYear(Row(Str(""), Str(""), Dict(h)));
  }

  /** The PACS gate of `getAuthorsYears`: some level-2 code of the row is
      in `subsetPACS`. */
  function CodesGate(row: Row, subsetPACS: seq<int>): (r: Result<bool>)
    ensures subsetPACS == [] ==> r == Ok(true)
  {
    if subsetPACS == [] then Ok(true)
    else
      match Get(row.pacs, "pacscode")
      case Err(e) => Err(e)
      case Ok(pc) => Ok(exists c :: c in ConvertedSet(pc, 2) && c in subsetPACS)
  }

  /** The authors of a row that passed (`Ok(true)`) or failed its gates. */
  function AuthorsIf(good: Result<bool>, authgrp: XValue, initials: bool): Result<seq<Author>> {
    match good
    case Err(e) => Err(e)
    case Ok(b) => if b then ProcessAuthors(authgrp, ParseAps(initials)) else Ok([])
  }

  /** Whether `getAuthors` as written keeps a row: line 38 rebinds
      `subsetPACS` to the row's own codes, so the test `pp in subsetPACS`
      always holds and the PACS gate only asks for a non-empty code list. */
  function SelectedAsWritten(row: Row, subsetPACS: seq<int>, subsetYears: seq<int>): Result<bool> {
    match YearGate(row, subsetYears)
    case Err(e) => Err(e)
    case Ok(goodY) =>
      if subsetPACS != [] && goodY then
        match Get(row.pacs, "pacscode")
        case Err(e) => Err(e)
        case Ok(pc) => Ok(Len(pc) > 0)
      else Ok(goodY)
  }

  /** What the docstring of `getAuthors` promises: the row is kept only when
      one of its codes is among those asked for, checked the way
      `getAuthorsYears` checks it. */
  function SelectedIntended(row: Row, subsetPACS: seq<int>, subsetYears: seq<int>): Result<bool> {
    match YearGate(row, subsetYears)
    case Err(e) => Err(e)
    case Ok(goodY) => if goodY then CodesGate(row, subsetPACS) else Ok(false)
  }

  /** `getAuthors(row, authorInitialsOnly, subsetPACS, subsetYears)` as
      written. */
  method GetAuthors(row: Row, initials: bool, subsetPACS: seq<int>, subsetYears: seq<int>)
    returns (r: Result<seq<Author>>)
    ensures r == AuthorsIf(SelectedAsWritten(row, subsetPACS, subsetYears), row.authgrp, initials)
  {
    var goodY := true;
    if subsetYears != [] {
      var year := GetYear(row);
      if year.Err? {
        return Err(year.error);
      }
      goodY := year.value in subsetYears;
    }
    var goodP := true;
    if subsetPACS != [] && goodY {
      var pacscode := Get(row.pacs, "pacscode");
      if pacscode.Err? {
        return Err(pacscode.error);
      }
      var codes := Iterate(pacscode.value);
      var numGood := 0;
      for i := 0 to |codes|
        invariant numGood == i
      {
        IteratedItemIsIn(pacscode.value, i);
        var found := PyIn(pacscode.value, codes[i]);
        if found.Ok? && found.value {
          numGood := numGood + 1;
        }
      }
      goodP := numGood > 0;
    }
    if goodP && goodY {
      r := ProcessAuthors(row.authgrp, ParseAps(initials));
    } else {
      r := Ok([]);
    }
  }

  /** `getAuthors` with the PACS test it documents. */
  method GetAuthorsIntended(row: Row, initials: bool, subsetPACS: seq<int>, subsetYears: seq<int>)
    returns (r: Result<seq<Author>>)
    ensures r == AuthorsIf(SelectedIntended(row, subsetPACS, subsetYears), row.authgrp, initials)
  {
    var goodY := true;
    if subsetYears != [] {
      var year := GetYear(row);
      if year.Err? {
        return Err(year.error);
      }
      goodY := year.value in subsetYears;
    }
    var goodP := true;
    if subsetPACS != [] && goodY {
      var pacscode := Get(row.pacs, "pacscode");
      if pacscode.Err? {
        return Err(pacscode.error);
      }
      var converted := ConvertPacs(pacscode.value, 2);
      var numGood := CountIn(converted.codes, subsetPACS);
      goodP := numGood > 0;
    }
    if goodP && goodY {
      r := ProcessAuthors(row.authgrp, ParseAps(initials));
    } else {
      r := Ok([]);
    }
  }

  /** As written, which codes are asked for makes no difference, only
      whether some are. */
  lemma AsWrittenIgnoresSubset(row: Row, s1: seq<int>, s2: seq<int>, subsetYears: seq<int>)
    requires s1 != [] && s2 != []
    ensures SelectedAsWritten(row, s1, subsetYears) == SelectedAsWritten(row, s2, subsetYears)
  {
  }

  /** A row whose only code is 45.10.Db, with no history. */
  function Example45(): Row {
    Row(List([]), Dict([("pacscode", List([Str("45.10.Db")]))]), Str(""))
  }

  lemma Example45Codes()
    ensures ConvertedSet(List([Str("45.10.Db")]), 2) == {45}
  {
    Level1AsWritten();
    var v := List([Str("45.10.Db")]);
    assert Wrap(v)[0] == Str("45.10.Db");
    assert 45 in ConvertedSet(v, 2);
  }

  /** Asking for code 10 only: `getAuthors` as written keeps the row with
      code 45; the intended filter drops it. */
  lemma SubsetPacsIgnored()
    ensures SelectedAsWritten(Example45(), [10], []) == Ok(true)
    ensures SelectedIntended(Example45(), [10], []) == Ok(false)
  {
    Example45Codes();
    var pacs := Example45().pacs;
    assert pacs.entries[0].0 == "pacscode";
    assert HasKey(pacs.entries, "pacscode");
  }

  /** The intended filter keeps a row, when codes are asked for, exactly
      when one of its level-2 codes is asked for. */
  lemma IntendedKeepsMatchingRows(row: Row, subsetPACS: seq<int>, pc: XValue)
    requires subsetPACS != [] && Get(row.pacs, "pacscode") == Ok(pc)
    ensures SelectedIntended(row, subsetPACS, []) == Ok(exists c :: c in ConvertedSet(pc, 2) && c in subsetPACS)
  {
  }

  /** `getAuthorsYears(row, authorInitialsOnly, subsetPACS)`: the year
      first (its exception first), then the authors if some level-2 code of
      the row is asked for. */
  method GetAuthorsYears(row: Row, initials: bool, subsetPACS: seq<int>)
    returns (r: Result<(int, seq<Author>)>)
    ensures GetYear(row).Err? ==> r == Err(GetYear(row).error)
    ensures GetYear(row).Ok? ==>
      match AuthorsIf(CodesGate(row, subsetPACS), row.authgrp, initials)
      case Err(e) => r == Err(e)
      case Ok(authors) => r == Ok((GetYear(row).value, authors))
  {
    var year := GetYear(row);
    if year.Err? {
      return Err(year.error);
    }
    var goodP := true;
    if subsetPACS != [] {
      var pacscode := Get(row.pacs, "pacscode");
      if pacscode.Err? {
        return Err(pacscode.error);
      }
      var myPacs := ConvertPacs(pacscode.value, 2);
      var numGood := CountIn(myPacs.codes, subsetPACS);
      goodP := numGood > 0;
    }
    var authors := if goodP then ProcessAuthors(row.authgrp, ParseAps(initials)) else Ok([]);
    match authors
    case Err(e) => r := Err(e);
    case Ok(a) => r := Ok((year.value, a));
  }

  // ---- getPACS ------------------------------------------------------------

  /** The level-2 codes of a row, or the exception of `row['pacs']['pacscode']`. */
  function RowCodes(row: Row): Result<set<int>> {
    match Get(row.pacs, "pacscode")
    case Err(e) => Err(e)
    case Ok(pc) => Ok(ConvertedSet(pc, 2))
  }

  /** `getPACS(row, subsetPACS, subsetYears)`: the row's level-2 codes that
      are asked for (all of them when none are named), none when the year
      is not asked for. */
  method GetPacs(row: Row, subsetPACS: seq<int>, subsetYears: seq<int>) returns (r: Result<seq<int>>)
    ensures RowCodes(row).Err? ==> r == Err(RowCodes(row).error)
    ensures RowCodes(row).Ok? && YearGate(row, subsetYears).Err? ==> r == Err(YearGate(row, subsetYears).error)
    ensures RowCodes(row).Ok? && YearGate(row, subsetYears).Ok? ==>
      r.Ok? && NoDup(r.value) &&
      forall c :: c in r.value <==>
        YearGate(row, subsetYears).value && c in RowCodes(row).value && (subsetPACS == [] || c in subsetPACS)
  {
    var pacscode := Get(row.pacs, "pacscode");
    if pacscode.Err? {
      return Err(pacscode.error);
    }
    var converted := ConvertPacs(pacscode.value, 2);
    var paperPacs := converted.codes;
    var goodY := true;
    if subsetYears != [] {
      var year := GetYear(row);
      if year.Err? {
        return Err(year.error);
      }
      goodY := year.value in subsetYears;
    }
    var goodList: seq<int>;
    if subsetPACS != [] && goodY {
      goodList := FilterIn(paperPacs, subsetPACS);
      KeepMembers(paperPacs, subsetPACS);
      KeepNoDup(paperPacs, subsetPACS);
    } else if goodY {
      goodList := paperPacs;
    } else {
      goodList := [];
    }
    r := Ok(goodList);
  }

  /** `getPACSYears(row, subsetPACS)`: the year and the row's level-2 codes
      that are asked for. */
  method GetPacsYears(row: Row, subsetPACS: seq<int>) returns (r: Result<(int, seq<int>)>)
    ensures RowCodes(row).Err? ==> r == Err(RowCodes(row).error)
    ensures RowCodes(row).Ok? && GetYear(row).Err? ==> r == Err(GetYear(row).error)
    ensures RowCodes(row).Ok? && GetYear(row).Ok? ==>
      r.Ok? && r.value.0 == GetYear(row).value && NoDup(r.value.1) &&
      forall c :: c in r.value.1 <==> c in RowCodes(row).value && (subsetPACS == [] || c in subsetPACS)
  {
    var pacscode := Get(row.pacs, "pacscode");
    if pacscode.Err? {
      return Err(pacscode.error);
    }
    var converted := ConvertPacs(pacscode.value, 2);
    var paperPacs := converted.codes;
    var year := GetYear(row);
    if year.Err? {
      return Err(year.error);
    }
    var goodList: seq<int>;
    if subsetPACS != [] {
      goodList := FilterIn(paperPacs, subsetPACS);
      KeepMembers(paperPacs, subsetPACS);
      KeepNoDup(paperPacs, subsetPACS);
    } else {
      goodList := paperPacs;
    }
    r := Ok((year.value, goodList));
  }

  // ---- dictionary utilities -------------------------------------------------

  /** `dois2ilocs(df)`: each DOI mapped to the index of its last row. The
      rows are given as (index, doi) pairs in table order. */
  method Dois2Ilocs<I, D(==)>(rows: seq<(I, D)>) returns (result: map<D, I>)
    ensures result.Keys == set k | 0 <= k < |rows| :: rows[k].1
    ensures forall k :: 0 <= k < |rows| && (forall j :: k < j < |rows| ==> rows[j].1 != rows[k].1) ==>
      result[rows[k].1] == rows[k].0
  {
    result := map[];
    for i := 0 to |rows|
      invariant result.Keys == set k | 0 <= k < i :: rows[k].1
      invariant forall k :: 0 <= k < i && (forall j :: k < j < i ==> rows[j].1 != rows[k].1) ==>
        result[rows[k].1] == rows[k].0
    {
      result := result[rows[i].1 := rows[i].0];
    }
  }

  /** `getCommonPACS(pacsFreqDict)`: the first key, in iteration order,
      with the largest positive count; `None` stands for the initial `''`
      when no count is positive. */
  method GetCommonPacs<K>(freq: seq<(K, int)>) returns (best: Option<K>)
    ensures best.None? <==> forall i :: 0 <= i < |freq| ==> freq[i].1 <= 0
    ensures best.Some? ==>
      exists i :: 0 <= i < |freq| && freq[i].0 == best.value && freq[i].1 > 0 &&
        (forall j :: 0 <= j < |freq| ==> freq[j].1 <= freq[i].1) &&
        (forall j :: 0 <= j < i ==> freq[j].1 < freq[i].1)
  {
    best := None;
    var num := 0;
    ghost var at := -1;
    for i := 0 to |freq|
      invariant best.None? <==> at == -1
      invariant best.None? ==> num == 0 && forall j :: 0 <= j < i ==> freq[j].1 <= 0
      invariant best.Some? ==> 0 <= at < i && freq[at].0 == best.value && freq[at].1 == num && num > 0
      invariant best.Some? ==> forall j :: 0 <= j < at ==> freq[j].1 < num
      invariant forall j :: 0 <= j < i ==> freq[j].1 <= num
    {
      if freq[i].1 > num {
        num := freq[i].1;
        best := Some(freq[i].0);
        at := i;
      }
    }
  }

  /** `isPACSpresent(pacsFreqDict, pacsList)`: whether some code of the list
      is a key of the dictionary. */
  method IsPacsPresent<K(==)>(freqKeys: set<K>, pacsList: seq<K>) returns (presence: bool)
    ensures presence <==> exists p :: p in pacsList && p in freqKeys
  {
    presence := false;
    for i := 0 to |pacsList|
      invariant !presence
      invariant forall k :: 0 <= k < i ==> pacsList[k] !in freqKeys
    {
      if pacsList[i] in freqKeys {
        presence := true;
        return;
      }
    }
  }
}
