/** The values `xmltodict` produces: an ordered dictionary (document order,
    like `OrderedDict`), a list of repeated elements, or a text string.
    Python operations on them (`v[k]`, `k in v.keys()`, `len(v)`,
    `for x in v`) are defined here once. */
module XmlValue {
  import opened Wrappers

  datatype XValue =
    | Dict(entries: seq<(string, XValue)>)
    | List(items: seq<XValue>)
    | Str(s: string)

  /** `k in d.keys()` */
  predicate HasKey(entries: seq<(string, XValue)>, k: string) {
    exists i :: 0 <= i < |entries| && entries[i].0 == k
  }

  /** The position of the first entry with key `k`. */
  function KeyIndex(entries: seq<(string, XValue)>, k: string): (i: nat)
    requires HasKey(entries, k)
    ensures i < |entries| && entries[i].0 == k
    ensures forall j :: 0 <= j < i ==> entries[j].0 != k
  {
    if entries[0].0 == k then 0 else 1 + KeyIndex(entries[1..], k)
  }

  /** `d[k]` for a key that is present: the first entry with that key. */
  function Lookup(entries: seq<(string, XValue)>, k: string): (r: XValue)
    requires HasKey(entries, k)
    ensures r == entries[KeyIndex(entries, k)].1
  {
    if entries[0].0 == k then entries[0].1 else Lookup(entries[1..], k)
  }

  /** `v[k]` with a string key: a missing key raises `KeyError`; indexing
      a string or a list with a string raises `TypeError`. */
  function Get(v: XValue, k: string): (r: Result<XValue>)
    ensures r.Ok? <==> v.Dict? && HasKey(v.entries, k)
    ensures r.Err? ==> r.error == (if v.Dict? then KeyError else TypeError)
  {
    match v
    case Dict(es) => if HasKey(es, k) then Ok(Lookup(es, k)) else Err(KeyError)
    case _ => Err(TypeError)
  }

  /** `for x in v`: the items of a list, the one-character strings of a
      string, the keys of a dictionary. */
  function Iterate(v: XValue): (r: seq<XValue>)
    ensures v.List? ==> r == v.items
    ensures v.Str? ==> |r| == |v.s| && forall i :: 0 <= i < |r| ==> r[i] == Str([v.s[i]])
    ensures v.Dict? ==> |r| == |v.entries| && forall i :: 0 <= i < |r| ==> r[i] == Str(v.entries[i].0)
  {
    match v
    case List(xs) => xs
    case Str(s) => seq(|s|, i requires 0 <= i < |s| => Str([s[i]]))
    case Dict(es) => seq(|es|, i requires 0 <= i < |es| => Str(es[i].0))
  }

  /** Whether Python can hash `v`, as a dictionary key or a set element
      must be: a string can; an `OrderedDict` or a list raises `TypeError`. */
  predicate Hashable(v: XValue) {
    v.Str?
  }

  predicate AllHashable(vs: seq<XValue>) {
    forall i :: 0 <= i < |vs| ==> Hashable(vs[i])
  }

  /** `len(v)` */
  function Len(v: XValue): nat {
    |Iterate(v)|
  }

  /** `v[0]`: the first character of a string, the first item of a list;
      `IndexError` when empty, `KeyError` on a dictionary (its keys are
      strings, never the integer 0). */
  function FirstItem(v: XValue): (r: Result<XValue>)
    ensures r.Ok? <==> (v.Str? && |v.s| > 0) || (v.List? && |v.items| > 0)
    ensures r.Ok? ==> r.value == Iterate(v)[0]
  {
    match v
    case Str(s) => if |s| > 0 then Ok(Str([s[0]])) else Err(IndexError)
    case List(xs) => if |xs| > 0 then Ok(xs[0]) else Err(IndexError)
    case Dict(_) => Err(KeyError)
  }
}
