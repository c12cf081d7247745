/** `process_date` (scraping/doi.py): the issue date of a Crossref work,
    either as the date-parts list found there or padded to a
    (year, month, day) triple. */
module DoiDates {
  import opened Wrappers

  /** The `message` entry a DOI lookup returns, reduced to what
      `process_date` reads: the `issued` entry (absent when `None`), a
      dictionary whose `date-parts` entry is a list of date-part lists. */
  datatype Message = Message(issued: Option<map<string, seq<seq<int>>>>)

  /** What `process_date` returns: the date-parts list as found, or the
      `datetime` built from the padded parts, kept as its
      (year, month, day) triple. */
  datatype Found = Parts(parts: seq<int>) | Date(ymd: seq<int>)

  /** `df.at['issued', 'message']['date-parts'][0]`: `Ok(None)` for the
      `KeyError` paths, `IndexError` for an empty date-parts list (which
      the source does not catch). */
  function FirstDateParts(m: Message): (r: Result<Option<seq<int>>>)
    ensures r.Err? ==> r.error == IndexError
    ensures r == Ok(None) <==> m.issued.None? || "date-parts" !in m.issued.value
  {
    if m.issued.None? || "date-parts" !in m.issued.value then Ok(None)
    else if m.issued.value["date-parts"] == [] then Err(IndexError)
    else Ok(Some(m.issued.value["date-parts"][0]))
  }

  /** `process_date(df, create_datetime_object)`. With the flag, the found
      parts overwrite the defaults `[1, 1, 1]` one index at a time; a
      fourth part raises `IndexError`. */
  method ProcessDate(m: Message, createDatetime: bool) returns (r: Result<Option<Found>>)
    ensures FirstDateParts(m).Err? ==> r == Err(IndexError)
    ensures FirstDateParts(m) == Ok(None) ==> r == Ok(None)
    ensures FirstDateParts(m).Ok? && FirstDateParts(m).value.Some? ==>
      var found := FirstDateParts(m).value.value;
      && (!createDatetime ==> r == Ok(Some(Parts(found))))
      && (createDatetime && |found| > 3 ==> r == Err(IndexError))
      && (createDatetime && |found| <= 3 ==>
            r.Ok? && r.value.Some? && r.value.value.Date?
            && |r.value.value.ymd| == 3
            && r.value.value.ymd[..|found|] == found
            && forall i :: |found| <= i < 3 ==> r.value.value.ymd[i] == 1)
  {
    var first := FirstDateParts(m);
    if first.Err? {
      return Err(IndexError);
    }
    if first.value.None? {
      return Ok(None);
    }
    var found := first.value.value;
    if !createDatetime {
      return Ok(Some(Parts(found)));
    }
    var dates := new int[3];
    dates[0], dates[1], dates[2] := 1, 1, 1;
    for i := 0 to |found|
      invariant i <= 3
      invariant dates[..i] == found[..i]
      invariant forall k :: i <= k < 3 ==> dates[k] == 1
    {
      if i >= 3 {
        return Err(IndexError);
      }
      dates[i] := found[i];
    }
    assert found[..|found|] == found;
    return Ok(Some(Date(dates[..])));
  }
}
