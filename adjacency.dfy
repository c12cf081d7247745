/** The dict-of-dicts adjacency lists built before a networkx graph:
    `getAdjListSimple` (aps/graphsAPS.py, and its twin
    `get_adjacency_list` in arxiv/graph.py), `getAdjListBipartite` and
    `makeGraph`. A row is given by the items the row yields (its authors or
    its categories); an empty list stands for a row that yields nothing. */
module Adjacency {
  import opened Wrappers
  import opened SeqUtil

  /** `result[lead][follow]['weight']`, the attribute dictionary reduced to
      its one weight. */
  type AdjMap<E(==)> = map<E, map<E, int>>

  function ValueOr0<E(==)>(m: map<E, int>, k: E): int {
    if k in m then m[k] else 0
  }

  /** The weight of the edge `lead -> follow`, 0 when there is none. */
  function EdgeWeight<E(==)>(adj: AdjMap<E>, lead: E, follow: E): int {
    if lead in adj then ValueOr0(adj[lead], follow) else 0
  }

  lemma CountSnocAll<E>(s: seq<E>, y: E)
    ensures forall x :: Count(s + [y], x) == Count(s, x) + (if x == y then 1 else 0)
  {
    assert multiset(s + [y]) == multiset(s) + multiset{y};
  }

  /** `for follow in fs: inner[follow] = {'weight': 1}` */
  function AssignOnes<E(==)>(inner: map<E, int>, fs: seq<E>): (r: map<E, int>) {
    if fs == [] then inner
    else AssignOnes(inner, fs[..|fs| - 1])[fs[|fs| - 1] := 1]
  }

  /** `for follow in fs: weight 1 if new, else weight += 1` */
  function Increment<E(==)>(inner: map<E, int>, fs: seq<E>): (r: map<E, int>) {
    if fs == [] then inner
    else
      var m := Increment(inner, fs[..|fs| - 1]);
      var last := fs[|fs| - 1];
      m[last := if last in m then m[last] + 1 else 1]
  }

  /** After `AssignOnes` the followers have weight 1 and nothing else
      changed. */
  lemma {:induction false} AssignOnesAt<E>(inner: map<E, int>, fs: seq<E>, f: E)
    ensures f in AssignOnes(inner, fs) <==> f in inner || f in fs
    ensures f in AssignOnes(inner, fs) ==> AssignOnes(inner, fs)[f] == if f in fs then 1 else inner[f]
  {
    if fs != [] {
      var init := fs[..|fs| - 1];
      assert fs == init + [fs[|fs| - 1]];
      AssignOnesAt(inner, init, f);
    }
  }

  /** After `Increment` each weight has grown by the follower's number of
      occurrences, and the followers are keys. */
  lemma {:induction false} IncrementAt<E>(inner: map<E, int>, fs: seq<E>, f: E)
    ensures f in Increment(inner, fs) <==> f in inner || f in fs
    ensures ValueOr0(Increment(inner, fs), f) == ValueOr0(inner, f) + Count(fs, f)
  {
    if fs != [] {
      var init := fs[..|fs| - 1];
      var last := fs[|fs| - 1];
      assert fs == init + [last];
      IncrementAt(inner, init, f);
      CountSnoc(init, last, f);
    }
  }

  /** What one row does to `result`: nothing for an empty row; a new lead
      gets weight 1 for each follower; a known lead has its followers'
      weights increased. */
  function RowStep<E(==)>(result: AdjMap<E>, items: seq<E>): AdjMap<E> {
    if items == [] then result
    else if items[0] !in result then result[items[0] := AssignOnes(map[], items[1..])]
    else result[items[0] := Increment(result[items[0]], items[1..])]
  }

  /** The adjacency list after the rows, in table order. */
  function AdjSimple<E(==)>(rows: seq<seq<E>>): AdjMap<E> {
    if rows == [] then map[]
    else RowStep(AdjSimple(rows[..|rows| - 1]), rows[|rows| - 1])
  }

  /** The loop `for follow in fs: inner[follow] = {'weight': 1}`. */
  method AssignOnesLoop<E(==)>(inner: map<E, int>, fs: seq<E>) returns (r: map<E, int>)
    ensures r == AssignOnes(inner, fs)
  {
    r := inner;
    for j := 0 to |fs|
      invariant r == AssignOnes(inner, fs[..j])
    {
      assert fs[..j + 1][..j] == fs[..j];
      r := r[fs[j] := 1];
    }
    assert fs[..|fs|] == fs;
  }

  /** The loop that adds one to the weight of each follower, starting new
      followers at 1. */
  method IncrementLoop<E(==)>(inner: map<E, int>, fs: seq<E>) returns (r: map<E, int>)
    ensures r == Increment(inner, fs)
  {
    r := inner;
    for j := 0 to |fs|
      invariant r == Increment(inner, fs[..j])
    {
      assert fs[..j + 1][..j] == fs[..j];
      if fs[j] !in r {
        r := r[fs[j] := 1];
      } else {
        r := r[fs[j] := r[fs[j]] + 1];
      }
    }
    assert fs[..|fs|] == fs;
  }

  /** `getAdjListSimple(df, what, ...)` / `get_adjacency_list`: the first
      item of each row points at the others. */
  method AdjListSimple<E(==)>(rows: seq<seq<E>>) returns (result: AdjMap<E>)
    ensures result == AdjSimple(rows)
  {
    result := map[];
    for i := 0 to |rows|
      invariant result == AdjSimple(rows[..i])
    {
      assert rows[..i + 1][..i] == rows[..i];
      var items := rows[i];
      if items != [] {
        var lead := items[0];
        var follows := items[1..];
        if lead !in result {
          var inner := AssignOnesLoop(map[], follows);
          result := result[lead := inner];
        } else {
          var inner := IncrementLoop(result[lead], follows);
          result := result[lead := inner];
        }
      }
    }
    assert rows[..|rows|] == rows;
  }

  // ---- properties of the simple adjacency list ---------------------------------

  /** The leads of the adjacency list are the first items of the non-empty
      rows. */
  lemma {:induction false} LeadKeys<E>(rows: seq<seq<E>>)
    ensures AdjSimple(rows).Keys == set i | 0 <= i < |rows| && rows[i] != [] :: rows[i][0]
  {
    if rows != [] {
      var init := rows[..|rows| - 1];
      LeadKeys(init);
      forall x | x in AdjSimple(rows).Keys
        ensures exists i :: 0 <= i < |rows| && rows[i] != [] && rows[i][0] == x
      {
        if x in AdjSimple(init).Keys {
          var i :| 0 <= i < |init| && init[i] != [] && init[i][0] == x;
          assert rows[i] == init[i];
        } else {
          assert rows[|rows| - 1] != [] && rows[|rows| - 1][0] == x;
        }
      }
      forall i | 0 <= i < |rows| && rows[i] != [] ensures rows[i][0] in AdjSimple(rows) {
        if i < |rows| - 1 {
          assert init[i] == rows[i];
        }
      }
    }
  }

  /** Every stored weight is at least 1. */
  lemma {:induction false} PositiveWeights<E>(rows: seq<seq<E>>)
    ensures forall l, f :: l in AdjSimple(rows) && f in AdjSimple(rows)[l] ==> AdjSimple(rows)[l][f] >= 1
  {
    if rows != [] {
      var init := AdjSimple(rows[..|rows| - 1]);
      var items := rows[|rows| - 1];
      PositiveWeights(rows[..|rows| - 1]);
      forall l, f | l in AdjSimple(rows) && f in AdjSimple(rows)[l] ensures AdjSimple(rows)[l][f] >= 1 {
        if items != [] && l == items[0] {
          if l !in init {
            AssignOnesAt(map[], items[1..], f);
          } else {
            IncrementAt(init[l], items[1..], f);
            CountPositive(items[1..], f);
          }
        }
      }
    }
  }

  /** A sequence without duplicates holds each value at most once. */
  lemma {:induction false} NoDupCount<E>(s: seq<E>, x: E)
    requires NoDup(s)
    ensures Count(s, x) == if x in s then 1 else 0
  {
    if s != [] {
      var init := s[..|s| - 1];
      var last := s[|s| - 1];
      assert s == init + [last];
      assert NoDup(init);
      NoDupCount(init, x);
      CountSnocAll(init, last);
      assert forall i :: 0 <= i < |init| ==> init[i] == s[i] && s[i] != last;
    }
  }

  /** Rows with `lead` first and `follow` among the rest. */
  function CoRows<E(==)>(rows: seq<seq<E>>, lead: E, follow: E): nat {
    if rows == [] then 0
    else
      var row := rows[|rows| - 1];
      CoRows(rows[..|rows| - 1], lead, follow) + (if row != [] && row[0] == lead && follow in row[1..] then 1 else 0)
  }

  lemma RowStepWeight<E>(result: AdjMap<E>, items: seq<E>, lead: E, follow: E)
    requires items != [] ==> NoDup(items[1..])
    ensures EdgeWeight(RowStep(result, items), lead, follow)
         == EdgeWeight(result, lead, follow) + (if items != [] && items[0] == lead && follow in items[1..] then 1 else 0)
  {
    if items != [] && items[0] == lead {
      NoDupCount(items[1..], follow);
      if items[0] in result {
        IncrementAt(result[lead], items[1..], follow);
      } else {
        AssignOnesAt(map[], items[1..], follow);
      }
    }
  }

  /** When no row repeats a follower, the weight of `lead -> follow` is the
      number of rows led by `lead` that also list `follow`. */
  lemma {:induction false} WeightCountsRows<E>(rows: seq<seq<E>>, lead: E, follow: E)
    requires forall i :: 0 <= i < |rows| && rows[i] != [] ==> NoDup(rows[i][1..])
    ensures EdgeWeight(AdjSimple(rows), lead, follow) == CoRows(rows, lead, follow)
  {
    if rows != [] {
      var init := rows[..|rows| - 1];
      assert forall i :: 0 <= i < |init| ==> init[i] == rows[i];
      WeightCountsRows(init, lead, follow);
      RowStepWeight(AdjSimple(init), rows[|rows| - 1], lead, follow);
    }
  }

  /** A follower repeated in a row counts once when the lead is new and
      twice when the lead is already known. */
  lemma RepeatedFollower()
    ensures AdjSimple([[1, 2, 2]])[1][2] == 1
    ensures AdjSimple([[1, 3], [1, 2, 2]])[1][2] == 2
  {
    var a := [[1, 2, 2]];
    assert a[..0] == [];
    assert AdjSimple(a) == RowStep(map[], [1, 2, 2]);
    assert [1, 2, 2][1..] == [2, 2];
    var b := [[1, 3], [1, 2, 2]];
    assert b[..1] == [[1, 3]];
    assert [[1, 3]][..0] == [];
    assert [1, 3][1..] == [3];
    var m := AdjSimple([[1, 3]]);
    assert m == map[1 := AssignOnes(map[], [3])];
    assert AdjSimple(b) == m[1 := Increment(m[1], [2, 2])];
    assert Count([2, 2], 2) == 2 by {
      assert multiset([2, 2]) == multiset{2, 2};
    }
  }

  // ---- getAdjListBipartite ------------------------------------------------------

  /** One row as written: a new author is given an edge to `p` before the
      loop that binds `p` has run, which raises `UnboundLocalError` while
      `p` is unbound; a known author counts the row's codes and leaves `p`
      bound to the last code. */
  function BiAuthorsAsWritten<E(==)>(result: AdjMap<E>, p: Option<E>, auths: seq<E>, pacs: seq<E>)
    : Result<(AdjMap<E>, Option<E>)>
    decreases |auths|
  {
    if auths == [] then Ok((result, p))
    else if auths[0] !in result then
      (match p
       case None => Err(UnboundLocalError)
       case Some(q) => BiAuthorsAsWritten(result[auths[0] := map[q := 1]], p, auths[1..], pacs))
    else
      var bound := if pacs == [] then p else Some(pacs[|pacs| - 1]);
      BiAuthorsAsWritten(result[auths[0] := Increment(result[auths[0]], pacs)], bound, auths[1..], pacs)
  }

  /** The rows, in table order, as written; rows without authors or without
      codes are skipped. */
  function BiRowsAsWritten<E(==)>(result: AdjMap<E>, p: Option<E>, rows: seq<(seq<E>, seq<E>)>)
    : Result<AdjMap<E>>
    decreases |rows|
  {
    if rows == [] then Ok(result)
    else if rows[0].0 == [] || rows[0].1 == [] then BiRowsAsWritten(result, p, rows[1..])
    else
      match BiAuthorsAsWritten(result, p, rows[0].0, rows[0].1)
      case Err(e) => Err(e)
      case Ok(next) => BiRowsAsWritten(next.0, next.1, rows[1..])
  }

  /** `getAdjListBipartite(df, ...)` as written, over (authors, codes) rows. */
  function BipartiteAsWritten<E(==)>(rows: seq<(seq<E>, seq<E>)>): Result<AdjMap<E>> {
    BiRowsAsWritten(map[], None, rows)
  }

  predicate HasBothLists<E>(rows: seq<(seq<E>, seq<E>)>) {
    exists i :: 0 <= i < |rows| && rows[i].0 != [] && rows[i].1 != []
  }

  /** As written, the first row with authors and codes raises; without such
      a row the result is empty. */
  lemma {:induction false} BipartiteAsWrittenFails<E>(rows: seq<(seq<E>, seq<E>)>)
    ensures BipartiteAsWritten(rows) == if HasBothLists(rows) then Err(UnboundLocalError) else Ok(map[])
  {
    if rows != [] {
      BipartiteAsWrittenFails(rows[1..]);
      if rows[0].0 == [] || rows[0].1 == [] {
        assert HasBothLists(rows) == HasBothLists(rows[1..]) by {
          if HasBothLists(rows) {
            var i :| 0 <= i < |rows| && rows[i].0 != [] && rows[i].1 != [];
            assert rows[1..][i - 1] == rows[i];
          }
          if HasBothLists(rows[1..]) {
            var i :| 0 <= i < |rows[1..]| && rows[1..][i].0 != [] && rows[1..][i].1 != [];
            assert rows[i + 1] == rows[1..][i];
          }
        }
      } else {
        assert HasBothLists(rows) by {
          assert rows[0].0 != [] && rows[0].1 != [];
        }
      }
    }
  }

  /** The increment `getAdjListBipartite` evidently means: every author of
      the row gains weight 1 towards every code of the row, per occurrence. */
  function BiAuthors<E(==)>(result: AdjMap<E>, auths: seq<E>, pacs: seq<E>): AdjMap<E> {
    if auths == [] then result
    else
      var r := BiAuthors(result, auths[..|auths| - 1], pacs);
      var a := auths[|auths| - 1];
      r[a := Increment(if a in r then r[a] else map[], pacs)]
  }

  function BipartiteIntended<E(==)>(rows: seq<(seq<E>, seq<E>)>): AdjMap<E> {
    if rows == [] then map[]
    else
      var last := rows[|rows| - 1];
      var r := BipartiteIntended(rows[..|rows| - 1]);
      if last.0 == [] || last.1 == [] then r else BiAuthors(r, last.0, last.1)
  }

  /** `getAdjListBipartite` with the author-to-code loop in both branches. */
  method AdjListBipartite<E(==)>(rows: seq<(seq<E>, seq<E>)>) returns (result: AdjMap<E>)
    ensures result == BipartiteIntended(rows)
  {
    result := map[];
    for i := 0 to |rows|
      invariant result == BipartiteIntended(rows[..i])
    {
      assert rows[..i + 1][..i] == rows[..i];
      var auths := rows[i].0;
      var pacs := rows[i].1;
      if auths != [] && pacs != [] {
        ghost var before := result;
        for k := 0 to |auths|
          invariant result == BiAuthors(before, auths[..k], pacs)
        {
          assert auths[..k + 1][..k] == auths[..k];
          var a := auths[k];
          if a !in result {
            result := result[a := map[]];
          }
          var inner := IncrementLoop(result[a], pacs);
          result := result[a := inner];
        }
        assert auths[..|auths|] == auths;
      }
    }
    assert rows[..|rows|] == rows;
  }

  /** The weight of author `a` towards code `p`: the occurrences of `a`
      times those of `p`, summed over the rows. */
  function CoOccurrences<E(==)>(rows: seq<(seq<E>, seq<E>)>, a: E, p: E): nat {
    if rows == [] then 0
    else
      var last := rows[|rows| - 1];
      CoOccurrences(rows[..|rows| - 1], a, p) + Count(last.0, a) * Count(last.1, p)
  }

  /** One author handled by `BiAuthors` changes only that author's weights. */
  lemma BiStepWeight<E>(r: AdjMap<E>, x: E, pacs: seq<E>, a: E, p: E)
    ensures EdgeWeight(r[x := Increment(if x in r then r[x] else map[], pacs)], a, p)
         == EdgeWeight(r, a, p) + (if x == a then Count(pacs, p) else 0)
  {
    IncrementAt(if x in r then r[x] else map[], pacs, p);
  }

  lemma {:induction false} BiAuthorsWeight<E>(result: AdjMap<E>, auths: seq<E>, pacs: seq<E>, a: E, p: E)
    ensures EdgeWeight(BiAuthors(result, auths, pacs), a, p) == EdgeWeight(result, a, p) + Count(auths, a) * Count(pacs, p)
  {
    if auths != [] {
      var init := auths[..|auths| - 1];
      var last := auths[|auths| - 1];
      assert auths == init + [last];
      CountSnoc(init, last, a);
      BiAuthorsWeight(result, init, pacs, a, p);
      var r := BiAuthors(result, init, pacs);
      assert BiAuthors(result, auths, pacs) == r[last := Increment(if last in r then r[last] else map[], pacs)];
      BiStepWeight(r, last, pacs, a, p);
      MulStep(Count(init, a), if last == a then 1 else 0, Count(pacs, p));
    }
  }

  lemma {:induction false} BipartiteWeights<E>(rows: seq<(seq<E>, seq<E>)>, a: E, p: E)
    ensures EdgeWeight(BipartiteIntended(rows), a, p) == CoOccurrences(rows, a, p)
  {
    if rows != [] {
      var last := rows[|rows| - 1];
      BipartiteWeights(rows[..|rows| - 1], a, p);
      if last.0 == [] || last.1 == [] {
        assert Count(last.0, a) == 0 || Count(last.1, p) == 0;
        assert Count(last.0, a) * Count(last.1, p) == 0;
      } else {
        BiAuthorsWeight(BipartiteIntended(rows[..|rows| - 1]), last.0, last.1, a, p);
      }
    }
  }

  /** As written the builder never returns for a row with authors and
      codes; the intended one records each such pair. */
  lemma BipartiteExample()
    ensures BipartiteAsWritten([([1], [7])]) == Err(UnboundLocalError)
    ensures EdgeWeight(BipartiteIntended([([1], [7])]), 1, 7) == 1
  {
    var rows := [([1], [7])];
    BipartiteAsWrittenFails(rows);
    assert rows[0].0 != [] && rows[0].1 != [];
    BipartiteWeights(rows, 1, 7);
    assert rows[..0] == [];
    assert Count([1], 1) == 1 && Count([7], 7) == 1;
  }

  /** `getAdjListBipartite` as written, as the loop it is: `p` is the loop
      variable of the code loop, still bound from the last author that ran
      it, and unbound until one has. */
  method AdjListBipartiteAsWritten<E(==)>(rows: seq<(seq<E>, seq<E>)>) returns (r: Result<AdjMap<E>>)
    ensures r == BipartiteAsWritten(rows)
    ensures r == if HasBothLists(rows) then Err(UnboundLocalError) else Ok(map[])
  {
    BipartiteAsWrittenFails(rows);
    var result: AdjMap<E> := map[];
    var p: Option<E> := None;
    for i := 0 to |rows|
      invariant BiRowsAsWritten(result, p, rows[i..]) == BipartiteAsWritten(rows)
    {
      assert rows[i..][1..] == rows[i + 1..];
      var auths := rows[i].0;
      var pacs := rows[i].1;
      if auths != [] && pacs != [] {
        ghost var result0, p0 := result, p;
        for k := 0 to |auths|
          invariant BiAuthorsAsWritten(result, p, auths[k..], pacs) == BiAuthorsAsWritten(result0, p0, auths, pacs)
        {
          assert auths[k..][1..] == auths[k + 1..];
          var a := auths[k];
          if a !in result {
            if p.None? {
              return Err(UnboundLocalError);
            }
            result := result[a := map[p.value := 1]];
          } else {
            var inner := IncrementLoop(result[a], pacs);
            result := result[a := inner];
            p := Some(pacs[|pacs| - 1]);
          }
        }
      }
    }
    r := Ok(result);
  }

  // ---- makeGraph ------------------------------------------------------------

  /** `if adjList: ... else: return None` */
  function NoneIfEmpty<E>(adj: AdjMap<E>): (r: Option<AdjMap<E>>)
    ensures r.None? <==> adj == map[]
    ensures r.Some? ==> r.value == adj
  {
    if adj == map[] then None else Some(adj)
  }

  /** `makeGraph(df, ..., what)` up to the networkx call: one kind of node
      builds the simple list, two kinds the bipartite one as written, and an
      empty list gives `None`. An unknown kind, or a `what` of another
      length, leaves a variable unbound (`UnboundLocalError`). Rows are
      (authors, codes). */
  method MakeGraph<E(==)>(what: seq<string>, rows: seq<(seq<E>, seq<E>)>) returns (r: Result<Option<AdjMap<E>>>)
    ensures |what| == 1 && what[0] == "authors" ==> r == Ok(NoneIfEmpty(AdjSimple(Firsts(rows))))
    ensures |what| == 1 && what[0] == "categories" ==> r == Ok(NoneIfEmpty(AdjSimple(Seconds(rows))))
    ensures |what| == 1 && what[0] != "authors" && what[0] != "categories" ==>
      r == if rows == [] then Ok(None) else Err(UnboundLocalError)
    ensures |what| == 2 ==> r == if HasBothLists(rows) then Err(UnboundLocalError) else Ok(None)
    ensures |what| != 1 && |what| != 2 ==> r == Err(UnboundLocalError)
  {
    var adjList: AdjMap<E>;
    if |what| == 1 {
      if what[0] == "authors" {
        adjList := AdjListSimple(Firsts(rows));
      } else if what[0] == "categories" {
        adjList := AdjListSimple(Seconds(rows));
      } else if rows != [] {
        return Err(UnboundLocalError);
      } else {
        adjList := map[];
      }
    } else if |what| == 2 {
      var bi := AdjListBipartiteAsWritten(rows);
      if bi.Err? {
        return Err(bi.error);
      }
      adjList := bi.value;
    } else {
      return Err(UnboundLocalError);
    }
    r := Ok(NoneIfEmpty(adjList));
  }

  /** `makeGraph` over the corrected bipartite fold: two kinds of node give
      the author-to-code counts of every row with both lists. */
  method MakeGraphIntended<E(==)>(what: seq<string>, rows: seq<(seq<E>, seq<E>)>) returns (r: Result<Option<AdjMap<E>>>)
    ensures |what| == 1 && what[0] == "authors" ==> r == Ok(NoneIfEmpty(AdjSimple(Firsts(rows))))
    ensures |what| == 1 && what[0] == "categories" ==> r == Ok(NoneIfEmpty(AdjSimple(Seconds(rows))))
    ensures |what| == 1 && what[0] != "authors" && what[0] != "categories" ==>
      r == if rows == [] then Ok(None) else Err(UnboundLocalError)
    ensures |what| == 2 ==> r == Ok(NoneIfEmpty(BipartiteIntended(rows)))
    ensures |what| != 1 && |what| != 2 ==> r == Err(UnboundLocalError)
  {
    if |what| == 2 {
      var adjList := AdjListBipartite(rows);
      r := Ok(NoneIfEmpty(adjList));
    } else {
      r := MakeGraph(what, rows);
    }
  }

  function Firsts<E>(rows: seq<(seq<E>, seq<E>)>): (r: seq<seq<E>>)
    ensures |r| == |rows| && forall i :: 0 <= i < |rows| ==> r[i] == rows[i].0
  {
    seq(|rows|, i requires 0 <= i < |rows| => rows[i].0)
  }

  function Seconds<E>(rows: seq<(seq<E>, seq<E>)>): (r: seq<seq<E>>)
    ensures |r| == |rows| && forall i :: 0 <= i < |rows| ==> r[i] == rows[i].1
  {
    seq(|rows|, i requires 0 <= i < |rows| => rows[i].1)
  }
}
