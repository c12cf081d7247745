/** Flattening of the nested `authgrp` tree of an APS article into author
    keys `(given, middle, surname, suffix)`. Three copies of this walk
    exist in the repository (aps/parseAPS.py, aps/processAPSXML.py and the
    top-level processAPSXML.py); they share the recursion and differ only
    in how one author dictionary becomes a key, so the walk is written once
    and the leaf rule is selected by `Variant`. */
module AuthorTree {
  import opened Wrappers
  import opened XmlValue

  /** A name part: an xmltodict value, or the tuple a list of middle names
      is turned into. */
  datatype NamePart = Plain(v: XValue) | Tupled(items: seq<XValue>)

  datatype Author = Author(given: NamePart, middle: NamePart, surname: XValue, suffix: XValue)

  /** Whether the author tuple can be hashed, as networkx needs of a node:
      a tuple can exactly when each of its items can. */
  predicate HashableName(n: NamePart) {
    match n
    case Plain(v) => Hashable(v)
    case Tupled(items) => AllHashable(items)
  }

  predicate HashableAuthor(a: Author) {
    HashableName(a.given) && HashableName(a.middle) && Hashable(a.surname) && Hashable(a.suffix)
  }

  predicate HashableAuthors(authors: seq<Author>) {
    forall i :: 0 <= i < |authors| ==> HashableAuthor(authors[i])
  }

  /** Which copy of `processAuthors` runs. */
  datatype Variant =
    | ParseAps(initials: bool)  // aps/parseAPS.py, with `authorInitialsOnly`
    | ApsXml                    // aps/processAPSXML.py
    | RootXml                   // processAPSXML.py (always first elements)

  /** The placeholder for a missing name part. */
  const Dash: XValue := Str("-")

  /** The variant the recursive calls run with: parseAPS.py calls
      `processAuthors(a)` without passing `authorInitialsOnly` on. */
  function Nested(variant: Variant): Variant {
    if variant.ParseAps? then ParseAps(false) else variant
  }

  /** The optional part `key` of an author dictionary under `variant`. */
  function NamePartOf(d: seq<(string, XValue)>, key: string, variant: Variant): (r: Result<NamePart>)
    ensures !HasKey(d, key) ==> r == Ok(Plain(Dash))
    ensures variant != ParseAps(true) ==> r.Ok?
  {
    if !HasKey(d, key) then Ok(Plain(Dash))
    else
      var x := Lookup(d, key);
      match variant
      case ParseAps(initials) =>
        if initials then
          (match FirstItem(x)
           case Ok(first) => Ok(Plain(first))
           case Err(e) => Err(e))
        else if key == "middlename" && x.List? then Ok(Tupled(x.items))
        else Ok(Plain(x))
      case ApsXml =>
        if key == "middlename" && x.List? then Ok(Tupled(x.items)) else Ok(Plain(x))
      case RootXml =>
        (match FirstItem(x)
         case Ok(first) => Ok(Plain(first))
         case Err(_) => Ok(Plain(Dash)))
  }

  /** The key of one author dictionary that has a surname. */
  function AuthorOf(d: seq<(string, XValue)>, variant: Variant): (r: Result<Author>)
    requires HasKey(d, "surname")
    ensures r.Ok? ==> r.value.surname == Lookup(d, "surname")
    ensures r.Ok? <==> NamePartOf(d, "givenname", variant).Ok? && NamePartOf(d, "middlename", variant).Ok?
  {
    var suffix := if HasKey(d, "suffix") then Lookup(d, "suffix") else Dash;
    match NamePartOf(d, "givenname", variant)
    case Err(e) => Err(e)
    case Ok(given) =>
      match NamePartOf(d, "middlename", variant)
      case Err(e) => Err(e)
      case Ok(middle) => Ok(Author(given, middle, Lookup(d, "surname"), suffix))
  }

  /** Iterating a non-empty string hands `processAuthors` one-character
      strings, which iterate to themselves: the recursion never ends and
      Python stops it with a `RuntimeError`. */
  function StringAuthors(s: string): (r: Result<seq<Author>>)
    ensures r.Ok? <==> s == []
  {
    if s == [] then Ok([]) else Err(RuntimeError)
  }

  /** `processAuthors(authgrp)` */
  function ProcessAuthors(v: XValue, variant: Variant): Result<seq<Author>>
    decreases v, 1
  {
    match v
    case Dict(es) =>
      if HasKey(es, "author") then AuthorValue(Lookup(es, "author"), variant)
      else if HasKey(es, "surname") then Single(AuthorOf(es, variant))
      else Ok([])
    case List(xs) => ProcessAll(xs, Nested(variant))
    case Str(s) => StringAuthors(s)
  }

  /** The handling of `author = authgrp['author']`. */
  function AuthorValue(a: XValue, variant: Variant): Result<seq<Author>>
    decreases a, 2
  {
    match a
    case Dict(es) => if HasKey(es, "surname") then Single(AuthorOf(es, variant)) else Ok([])
    case List(xs) => ProcessAll(xs, Nested(variant))
    case Str(s) => StringAuthors(s)
  }

  function Single(r: Result<Author>): Result<seq<Author>> {
    match r
    case Ok(a) => Ok([a])
    case Err(e) => Err(e)
  }

  /** The loop `for a in ...: authorList += processAuthors(a)`: results
      concatenated in order, the first exception ending the walk. */
  function ProcessAll(xs: seq<XValue>, variant: Variant): Result<seq<Author>>
    decreases xs, 0
  {
    if xs == [] then Ok([])
    else Then(ProcessAuthors(xs[0], variant), ProcessAll(xs[1..], variant))
  }

  /** Concatenation of two partial results, left to right. */
  function Then(a: Result<seq<Author>>, b: Result<seq<Author>>): Result<seq<Author>> {
    match a
    case Err(e) => Err(e)
    case Ok(x) =>
      match b
      case Err(e) => Err(e)
      case Ok(y) => Ok(x + y)
  }

  // ---- properties -------------------------------------------------------

  /** Flattening is order preserving: the authors of `xs + ys` are those of
      `xs` followed by those of `ys`, and an exception in `xs` wins. */
  lemma {:induction false} ProcessAllAppend(xs: seq<XValue>, ys: seq<XValue>, variant: Variant)
    ensures ProcessAll(xs + ys, variant) == Then(ProcessAll(xs, variant), ProcessAll(ys, variant))
  {
    if xs == [] {
      assert xs + ys == ys;
      match ProcessAll(ys, variant)
      case Ok(y) => assert [] + y == y;
      case Err(_) =>
    } else {
      assert (xs + ys)[1..] == xs[1..] + ys;
      ProcessAllAppend(xs[1..], ys, variant);
      assert (xs + ys)[0] == xs[0];
      ThenAssociative(ProcessAuthors(xs[0], variant), ProcessAll(xs[1..], variant), ProcessAll(ys, variant));
    }
  }

  lemma ThenAssociative(a: Result<seq<Author>>, b: Result<seq<Author>>, c: Result<seq<Author>>)
    ensures Then(a, Then(b, c)) == Then(Then(a, b), c)
  {
    if a.Ok? && b.Ok? && c.Ok? {
      assert a.value + (b.value + c.value) == (a.value + b.value) + c.value;
    }
  }

  /** An author dictionary with a surname and no nested `author` gives
      one author. */
  lemma DictAuthor(x: XValue, variant: Variant)
    requires variant != ParseAps(true)
    requires x.Dict? && !HasKey(x.entries, "author") && HasKey(x.entries, "surname")
    ensures AuthorOf(x.entries, variant).Ok?
    ensures ProcessAuthors(x, variant) == Ok([AuthorOf(x.entries, variant).value])
  {
  }

  /** A list of author dictionaries flattens to one key per dictionary that
      has a surname, in list order. */
  lemma {:induction false} ProcessAllOfDicts(xs: seq<XValue>, variant: Variant)
    requires variant != ParseAps(true)
    requires forall i :: 0 <= i < |xs| ==> xs[i].Dict? && !HasKey(xs[i].entries, "author") && HasKey(xs[i].entries, "surname")
    ensures ProcessAll(xs, variant).Ok?
    ensures |ProcessAll(xs, variant).value| == |xs|
    ensures forall i :: 0 <= i < |xs| ==>
      ProcessAll(xs, variant).value[i].surname == Lookup(xs[i].entries, "surname")
  {
    if xs != [] {
      var tail := xs[1..];
      assert forall i :: 0 <= i < |tail| ==> tail[i] == xs[i + 1];
      ProcessAllOfDicts(tail, variant);
      var head := AuthorOf(xs[0].entries, variant);
      DictAuthor(xs[0], variant);
      var rest := ProcessAll(tail, variant).value;
      var whole := [head.value] + rest;
      assert ProcessAll(xs, variant) == Ok(whole);
      forall i | 0 < i < |xs|
        ensures whole[i].surname == Lookup(xs[i].entries, "surname")
      {
        assert whole[i] == rest[i - 1];
      }
    }
  }

  /** A non-empty string anywhere the walk iterates ends it with
      `RuntimeError`; an empty one contributes nothing. */
  lemma StringGroup(s: string, variant: Variant)
    ensures ProcessAuthors(Str(s), variant) == (if s == [] then Ok([]) else Err(RuntimeError))
  {
  }

  /** A dictionary with neither an `author` entry nor a surname contributes
      no author. */
  lemma DictWithoutSurname(es: seq<(string, XValue)>, variant: Variant)
    requires !HasKey(es, "author") && !HasKey(es, "surname")
    ensures ProcessAuthors(Dict(es), variant) == Ok([])
  {
  }

  /** Missing given name, middle name and suffix become "-" in every copy. */
  lemma MissingPartsAreDashes(es: seq<(string, XValue)>, variant: Variant)
    requires HasKey(es, "surname") && !HasKey(es, "author")
    requires !HasKey(es, "givenname") && !HasKey(es, "middlename") && !HasKey(es, "suffix")
    ensures ProcessAuthors(Dict(es), variant)
         == Ok([Author(Plain(Dash), Plain(Dash), Lookup(es, "surname"), Dash)])
  {
  }

  /** A list of middle names becomes a tuple in aps/processAPSXML.py and in
      parseAPS.py without initials; with initials parseAPS.py takes its first
      item, and processAPSXML.py always takes the first item or "-". */
  lemma {:induction false} ListMiddleName(es: seq<(string, XValue)>, names: seq<XValue>, variant: Variant)
    requires HasKey(es, "middlename") && Lookup(es, "middlename") == List(names)
    ensures variant == ApsXml || variant == ParseAps(false) ==>
      NamePartOf(es, "middlename", variant) == Ok(Tupled(names))
    ensures variant == ParseAps(true) ==>
      NamePartOf(es, "middlename", variant) == (if names == [] then Err(IndexError) else Ok(Plain(names[0])))
    ensures variant == RootXml ==>
      NamePartOf(es, "middlename", variant) == Ok(Plain(if names == [] then Dash else names[0]))
  {
  }

  /** Only the initials copy of parseAPS.py can fail on an author
      dictionary: when a present given or middle name has no first item. */
  lemma LeafFailure(es: seq<(string, XValue)>, variant: Variant)
    requires HasKey(es, "surname")
    ensures AuthorOf(es, variant).Err? <==>
      variant == ParseAps(true) &&
      ((HasKey(es, "givenname") && FirstItem(Lookup(es, "givenname")).Err?) ||
       (HasKey(es, "middlename") && FirstItem(Lookup(es, "middlename")).Err?))
  {
  }

  /** `authorInitialsOnly` is not passed to the recursive calls, so for an
      author group holding a list of authors the flag changes nothing:
      initials are used only for a group with a single author dictionary. */
  lemma InitialsOnlyAtTopLevel(es: seq<(string, XValue)>, xs: seq<XValue>)
    requires HasKey(es, "author") && Lookup(es, "author") == List(xs)
    ensures ProcessAuthors(Dict(es), ParseAps(true)) == ProcessAuthors(Dict(es), ParseAps(false))
  {
  }
}
