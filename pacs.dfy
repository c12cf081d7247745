/** PACS subject codes: parsing of a code's leading number, the code groups
    the graph builders accept, `pacsMatch`, and the level conversion of
    `convertPACS` (aps/parseAPS.py) and `pacsXML` (aps/processAPSXML.py). */
module Pacs {
  import opened Wrappers
  import opened PyStr
  import opened XmlValue
  import opened SeqUtil

  /** A graph node of the subject network: a number for levels 1 and 2,
      the code text itself at any other level. */
  datatype Code = Num(n: int) | Text(s: string)

  /** `int(p.split(".")[0])`; `None` where Python raises (a value that is
      not a string, or a prefix that is not a decimal number). */
  function CodePrefix(p: XValue): (r: Option<int>)
    ensures r.Some? ==> p.Str? && r.value >= 0
  {
    if p.Str? then ParseInt(BeforeFirst(p.s, '.')) else None
  }

  /** One code of `paperPacs` matches when its prefix parses to a number in
      `list`. */
  predicate CodeMatches(p: XValue, list: seq<int>) {
    CodePrefix(p).Some? && CodePrefix(p).value in list
  }

  /** The specification of `pacsMatch`: some code of the paper matches. */
  predicate SomeCodeIn(paperPacs: XValue, list: seq<int>) {
    exists k :: 0 <= k < |Iterate(paperPacs)| && CodeMatches(Iterate(paperPacs)[k], list)
  }

  /** `pacsMatch(paperPacs, pacsList)`: 1 as soon as one code's prefix is in
      the list, codes that fail to parse skipped, 0 when none matches. The
      same function appears in aps/processAPSXML.py and processAPSXML.py. */
  method PacsMatch(paperPacs: XValue, list: seq<int>) returns (r: int)
    ensures r == 1 <==> SomeCodeIn(paperPacs, list)
    ensures r == 0 <==> !SomeCodeIn(paperPacs, list)
  {
    var codes := Iterate(paperPacs);
    var i := 0;
    while i < |codes|
      invariant 0 <= i <= |codes|
      invariant forall k :: 0 <= k < i ==> !CodeMatches(codes[k], list)
    {
      var p := CodePrefix(codes[i]);
      if p.Some? && p.value in list {
        return 1;
      }
      i := i + 1;
    }
    return 0;
  }

  /** The `n` consecutive numbers from `lo`. */
  function Range(lo: int, n: nat): (r: seq<int>)
    ensures |r| == n
    ensures forall i :: 0 <= i < n ==> r[i] == lo + i
  {
    if n == 0 then [] else Range(lo, n - 1) + [lo + n - 1]
  }

  lemma RangeMembers(lo: int, n: nat)
    ensures forall x :: x in Range(lo, n) <==> lo <= x < lo + n
  {
    var r := Range(lo, n);
    forall x | lo <= x < lo + n ensures x in r {
      assert r[x - lo] == x;
    }
  }

  /** One entry of `pacsCodes` in `coAuthorsXML` made into the list of
      acceptable codes: -1 stays the wildcard [-1], a multiple of ten
      stands for its ten codes, anything else for itself. */
  function CodeGroup(p: int): (r: seq<int>)
    ensures p == -1 ==> r == [-1]
    ensures p != -1 && p % 10 == 0 ==> |r| == 10 && forall x :: x in r <==> p <= x < p + 10
    ensures p != -1 && p % 10 != 0 ==> r == [p]
  {
    if p == -1 then [-1]
    else if p % 10 == 0 then RangeMembers(p, 10); Range(p, 10)
    else [p]
  }

  /** `pacsList` in `processXML`: -1 accepts the codes 0 to 99. */
  function PacsList(pacsCode: int): (r: seq<int>)
    ensures pacsCode == -1 ==> |r| == 100 && forall x :: x in r <==> 0 <= x < 100
    ensures pacsCode != -1 && pacsCode % 10 == 0 ==> |r| == 10 && forall x :: x in r <==> pacsCode <= x < pacsCode + 10
    ensures pacsCode != -1 && pacsCode % 10 != 0 ==> r == [pacsCode]
  {
    if pacsCode == -1 then RangeMembers(0, 100); Range(0, 100)
    else if pacsCode % 10 == 0 then RangeMembers(pacsCode, 10); Range(pacsCode, 10)
    else [pacsCode]
  }

  /** A group made from a multiple of ten holds exactly the codes whose
      level-1 form `(n / 10) * 10` (pacsXML) is that multiple. Python's `/`
      and `%` floor and Dafny's are Euclidean; for the divisor 10 they agree. */
  lemma GroupIsDecade(p: int, x: int)
    requires p != -1 && p % 10 == 0
    ensures x in CodeGroup(p) <==> (x / 10) * 10 == p
  {
    var q := x / 10;
    var m := x % 10;
    assert x == q * 10 + m && 0 <= m < 10;
    assert p == (p / 10) * 10;
  }

  // ---- convertPACS ------------------------------------------------------

  /** A Python slice bound normalised against a length `n`. */
  function Clamp(i: int, n: nat): (r: nat)
    ensures r <= n
  {
    if i < 0 then (if i + n < 0 then 0 else i + n) else if i > n then n else i
  }

  /** `s[i:j]` with Python's negative indices and clamping. */
  function PySlice(s: string, i: int, j: int): (r: string)
    ensures |r| <= |s|
  {
    var a := Clamp(i, |s|);
    var b := Clamp(j, |s|);
    if a < b then s[a..b] else ""
  }

  /** At most two digits make a number below 100. */
  lemma SmallDigits(s: string)
    requires AllDigits(s) && |s| <= 2
    ensures DigitsValue(s) < (if |s| <= 1 then 10 else 100)
  {
    if |s| == 2 {
      assert s[..1][..0] == [];
    }
  }

  /** One code converted by `convertPACS` at level 1 or 2:
      `int(p.split(".")[0][-2:level])`. */
  function ConvertCode(p: XValue, level: int): (r: Option<int>)
    requires level == 1 || level == 2
    ensures r.Some? ==> 0 <= r.value < (if level == 1 then 10 else 100)
  {
    if p.Str? then
      var digits := PySlice(BeforeFirst(p.s, '.'), -2, level);
      var r := ParseInt(digits);
      if r.Some? then SmallDigits(digits); r else r
    else None
  }

  /** `if type(pacsList) is not list: pacsList = [pacsList]` */
  function Wrap(v: XValue): seq<XValue> {
    if v.List? then v.items else [v]
  }

  /** The numbers `convertPACS` keeps at level 1 or 2. */
  function ConvertedSet(v: XValue, level: int): set<int>
    requires level == 1 || level == 2
  {
    set k | 0 <= k < |Wrap(v)| && ConvertCode(Wrap(v)[k], level).Some? :: ConvertCode(Wrap(v)[k], level).value
  }

  datatype Converted = Numbers(codes: seq<int>) | Unchanged(values: seq<XValue>)

  /** `convertPACS(pacsList, pacsLevel)`: at levels 1 and 2 the converted
      numbers without duplicates (order of `list(set(...))` unspecified),
      codes that fail to convert dropped; at any other level the (wrapped)
      input unchanged. */
  method ConvertPacs(pacsList: XValue, level: int) returns (r: Converted)
    ensures level == 1 || level == 2 ==>
      r.Numbers? && NoDup(r.codes) && forall c :: c in r.codes <==> c in ConvertedSet(pacsList, level)
    ensures level != 1 && level != 2 ==> r == Unchanged(Wrap(pacsList))
  {
    var xs := Wrap(pacsList);
    if level == 1 || level == 2 {
      var newList: seq<int> := [];
      for i := 0 to |xs|
        invariant forall c :: c in newList <==>
          exists k :: 0 <= k < i && ConvertCode(xs[k], level) == Some(c)
      {
        var c := ConvertCode(xs[i], level);
        if c.Some? {
          newList := newList + [c.value];
        }
      }
      var codes := SetToList(set c | c in newList);
      r := Numbers(codes);
      forall c | c in ConvertedSet(pacsList, level) ensures c in codes {
        var k :| 0 <= k < |xs| && ConvertCode(xs[k], level).Some? && ConvertCode(xs[k], level).value == c;
        assert ConvertCode(xs[k], level) == Some(c);
      }
    } else {
      r := Unchanged(xs);
    }
  }

  // ---- pacsXML levels ---------------------------------------------------

  /** The node one code becomes in `pacsXML`: level 1 the multiple of ten
      below its prefix, level 2 the prefix, otherwise the code text; `None`
      where the `try` swallows an error (no number, or an unhashable value). */
  function LevelCode(p: XValue, level: int): (r: Option<Code>)
    ensures level == 1 && r.Some? ==> r.value.Num? && r.value.n % 10 == 0
    ensures r.Some? <==> (if level == 1 || level == 2 then CodePrefix(p).Some? else p.Str?)
  {
    if level == 1 then
      (match CodePrefix(p)
       case Some(n) => Some(Num((n / 10) * 10))
       case None => None)
    else if level == 2 then
      (match CodePrefix(p)
       case Some(n) => Some(Num(n))
       case None => None)
    else if p.Str? then Some(Text(p.s))
    else None
  }

  /** `pacsSet` of one paper in `pacsXML`. */
  function PaperCodes(properPacs: XValue, level: int): set<Code> {
    set k | 0 <= k < |Iterate(properPacs)| && LevelCode(Iterate(properPacs)[k], level).Some?
      :: LevelCode(Iterate(properPacs)[k], level).value
  }

  // ---- level 1 of convertPACS -------------------------------------------

  /** What the docstring of `convertPACS` promises for level 1 ("45.10.Db"
      goes to 40): the level-2 number rounded down to its multiple of ten,
      as `pacsXML` computes it. */
  function Level1Intended(p: XValue): (r: Option<int>)
    ensures r.Some? <==> ConvertCode(p, 2).Some?
    ensures r.Some? ==> r.value % 10 == 0 && r.value <= ConvertCode(p, 2).value < r.value + 10
  {
    match ConvertCode(p, 2)
    case Some(n) => Some((n / 10) * 10)
    case None => None
  }

  lemma ExampleCodeSplit()
    ensures BeforeFirst("45.10.Db", '.') == "45"
  {
    BeforeFirstOf("45", '.', "10.Db");
    assert "45" + ['.'] + "10.Db" == "45.10.Db";
  }

  /** As written, level 1 slices `[-2:1]` and keeps only the first digit:
      "45.10.Db" becomes 4, not 40; level 2 gives 45. */
  lemma Level1AsWritten()
    ensures ConvertCode(Str("45.10.Db"), 1) == Some(4)
    ensures ConvertCode(Str("45.10.Db"), 2) == Some(45)
    ensures Level1Intended(Str("45.10.Db")) == Some(40)
  {
    ExampleCodeSplit();
    assert PySlice("45", -2, 1) == "4";
    assert PySlice("45", -2, 2) == "45";
    assert DigitsValue("4") == DigitsValue("") * 10 + 4;
    assert "45"[..1] == "4";
    assert DigitsValue("45") == DigitsValue("4") * 10 + 5;
  }

  /** For a two-digit prefix, level 1 as written is the tens digit, one
      tenth of the intended multiple of ten. */
  lemma Level1IsTensDigit(s: string, rest: string)
    requires |s| == 2 && AllDigits(s) && '.' !in s
    ensures ConvertCode(Str(s + ['.'] + rest), 1) == Some(DigitsValue(s) / 10)
    ensures Level1Intended(Str(s + ['.'] + rest)) == Some((DigitsValue(s) / 10) * 10)
  {
    BeforeFirstOf(s, '.', rest);
    assert PySlice(s, -2, 1) == s[..1];
    assert PySlice(s, -2, 2) == s;
    assert s[..1][..0] == [];
    assert DigitsValue(s[..1]) == (s[0] - '0') as nat;
    assert DigitsValue(s) == DigitsValue(s[..1]) * 10 + (s[1] - '0') as nat;
  }
}
