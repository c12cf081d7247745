/** Python `str` operations used by the modelled code, written over
    `seq<char>`: strip, split, join, replace, startswith and the decimal
    conversions behind `int(...)` and `'{:0>2d}'.format(...)`. */
module PyStr {
  import opened Wrappers

  /** `sub` occurs in `s` starting at index `k`. */
  predicate At(s: string, k: nat, sub: string) {
    k + |sub| <= |s| && s[k..k + |sub|] == sub
  }

  /** Python `sub in s` for a non-empty `sub`. */
  predicate Occurs(s: string, sub: string) {
    exists k: nat :: k <= |s| && At(s, k, sub)
  }

  /** `s.rstrip(chars)`: drop trailing characters that belong to `cs`. */
  function RStrip(s: string, cs: set<char>): (r: string)
    ensures |r| <= |s| && r == s[..|r|]
    ensures r == [] || r[|r| - 1] !in cs
    ensures forall i :: |r| <= i < |s| ==> s[i] in cs
  {
    if s == [] || s[|s| - 1] !in cs then s else RStrip(s[..|s| - 1], cs)
  }

  /** `s.lstrip(chars)`: drop leading characters that belong to `cs`. */
  function LStrip(s: string, cs: set<char>): (r: string)
    ensures |r| <= |s| && r == s[|s| - |r|..]
    ensures r == [] || r[0] !in cs
    ensures forall i :: 0 <= i < |s| - |r| ==> s[i] in cs
  {
    if s == [] || s[0] !in cs then s else LStrip(s[1..], cs)
  }

  /** `s.strip(chars)`: both ends. */
  function Strip(s: string, cs: set<char>): (r: string)
    ensures |r| <= |s|
    ensures r == [] || (r[0] !in cs && r[|r| - 1] !in cs)
    ensures forall c :: c in r ==> c in s
  {
    StripChars(s, cs);
    LStrip(RStrip(s, cs), cs)
  }

  lemma StripChars(s: string, cs: set<char>)
    ensures forall c :: c in LStrip(RStrip(s, cs), cs) ==> c in s
  {
    var t := RStrip(s, cs);
    var r := LStrip(t, cs);
    SliceChars(t, |t| - |r|, |t|);
    SliceChars(s, 0, |t|);
  }

  /** A slice holds only characters of the whole. */
  lemma SliceChars(s: string, lo: nat, hi: nat)
    requires lo <= hi <= |s|
    ensures forall c :: c in s[lo..hi] ==> c in s
  {
    forall c | c in s[lo..hi] ensures c in s {
      var k :| 0 <= k < hi - lo && s[lo..hi][k] == c;
      assert s[lo + k] == c;
    }
  }

  /** Index of the leftmost occurrence of `sep` in `s` at or after `from`,
      or -1 when there is none. */
  function FindFrom(s: string, sep: string, from: nat): (r: int)
    requires |sep| > 0
    ensures r == -1 || (from <= r && At(s, r, sep))
    ensures r == -1 ==> forall k: nat :: from <= k ==> !At(s, k, sep)
    ensures r >= 0 ==> forall k: nat :: from <= k < r ==> !At(s, k, sep)
    decreases |s| - from
  {
    if from + |sep| > |s| then -1
    else if s[from..from + |sep|] == sep then from
    else FindFrom(s, sep, from + 1)
  }

  /** `s.find(sep)`. */
  function Find(s: string, sep: string): (r: int)
    requires |sep| > 0
    ensures r == -1 <==> !Occurs(s, sep)
    ensures r >= 0 ==> At(s, r, sep) && forall k: nat :: k < r ==> !At(s, k, sep)
  {
    FindFrom(s, sep, 0)
  }

  /** `s.split(sep)` for a non-empty separator: the pieces between the
      leftmost non-overlapping occurrences of `sep`. */
  function Split(s: string, sep: string): (r: seq<string>)
    requires |sep| > 0
    ensures |r| >= 1
    decreases |s|
  {
    var i := Find(s, sep);
    if i < 0 then [s] else [s[..i]] + Split(s[i + |sep|..], sep)
  }

  /** No piece of `s.split(sep)` contains `sep`. */
  lemma {:induction false} SplitPiecesFree(s: string, sep: string)
    requires |sep| > 0
    ensures forall i :: 0 <= i < |Split(s, sep)| ==> !Occurs(Split(s, sep)[i], sep)
    decreases |s|
  {
    var i := Find(s, sep);
    if i >= 0 {
      LeftOfFirstIsFree(s, sep, i);
      SplitPiecesFree(s[i + |sep|..], sep);
    }
  }

  lemma LeftOfFirstIsFree(s: string, sep: string, i: nat)
    requires |sep| > 0 && i <= |s|
    requires forall k: nat :: k < i ==> !At(s, k, sep)
    ensures !Occurs(s[..i], sep)
  {
    forall k: nat | At(s[..i], k, sep)
      ensures false
    {
      assert s[..i][k..k + |sep|] == s[k..k + |sep|];
      assert At(s, k, sep);
    }
  }

  /** `glue.join(parts)`. */
  function Join(parts: seq<string>, glue: string): (r: string)
  {
    if parts == [] then []
    else if |parts| == 1 then parts[0]
    else parts[0] + glue + Join(parts[1..], glue)
  }

  /** `s.replace(old, new)` for a non-empty `old`. */
  function Replace(s: string, target: string, glue: string): string
    requires |target| > 0
  {
    Join(Split(s, target), glue)
  }

  /** `s.startswith(prefix)`. */
  predicate StartsWith(s: string, prefix: string) {
    |prefix| <= |s| && s[..|prefix|] == prefix
  }

  /** `s.split(c)[0]`: the text before the first `c`. */
  function BeforeFirst(s: string, c: char): string {
    Split(s, [c])[0]
  }

  /** `s.split(c)[-1]`: the text after the last `c`. */
  function AfterLast(s: string, c: char): string {
    var parts := Split(s, [c]);
    parts[|parts| - 1]
  }

  lemma JoinCons(x: string, tail: seq<string>, glue: string)
    requires |tail| >= 1
    ensures Join([x] + tail, glue) == x + glue + Join(tail, glue)
  {
    assert ([x] + tail)[1..] == tail;
  }

  /** Joining the pieces of `s.split(sep)` with `sep` gives back `s`. */
  lemma {:induction false} SplitJoinRoundTrip(s: string, sep: string)
    requires |sep| > 0
    ensures Join(Split(s, sep), sep) == s
    decreases |s|
  {
    var i := Find(s, sep);
    if i >= 0 {
      var rest := s[i + |sep|..];
      SplitJoinRoundTrip(rest, sep);
      SplitUnfold(s, sep);
      JoinCons(s[..i], Split(rest, sep), sep);
      Reassemble(s, i, sep);
    }
  }

  lemma SplitUnfold(s: string, sep: string)
    requires |sep| > 0 && Find(s, sep) >= 0
    ensures Split(s, sep) == [s[..Find(s, sep)]] + Split(s[Find(s, sep) + |sep|..], sep)
  {
  }

  lemma Reassemble(s: string, i: nat, sep: string)
    requires At(s, i, sep)
    ensures s == s[..i] + sep + s[i + |sep|..]
  {
    assert s == s[..i] + s[i..i + |sep|] + s[i + |sep|..];
  }

  lemma SingleCharOccurs(s: string, c: char)
    ensures Occurs(s, [c]) <==> c in s
  {
    if c in s {
      var k :| 0 <= k < |s| && s[k] == c;
      assert s[k..k + 1] == [c];
      assert At(s, k, [c]);
    }
    if Occurs(s, [c]) {
      var k: nat :| k <= |s| && At(s, k, [c]);
      assert s[k] == s[k..k + 1][0];
    }
  }

  /** The text before the first `c` of `x + [c] + y`, when `x` holds no `c`,
      is `x`. */
  lemma BeforeFirstOf(x: string, c: char, y: string)
    requires c !in x
    ensures BeforeFirst(x + [c] + y, c) == x
  {
    var s := x + [c] + y;
    assert At(s, |x|, [c]);
    var i := Find(s, [c]);
    assert i >= 0;
    assert s[i] == s[i..i + 1][0];
    assert i == |x|;
    assert s[..i] == x;
  }

  lemma SplitWithout(s: string, c: char)
    requires c !in s
    ensures Split(s, [c]) == [s]
  {
    SingleCharOccurs(s, c);
  }

  /** Joining pieces free of `sep` with a one-character glue that does not
      occur in `sep` creates no occurrence of `sep`. */
  lemma {:induction false} JoinCreatesNoOccurrence(parts: seq<string>, sep: string, g: char)
    requires |sep| > 0 && g !in sep
    requires forall i :: 0 <= i < |parts| ==> !Occurs(parts[i], sep)
    ensures !Occurs(Join(parts, [g]), sep)
  {
    if |parts| > 1 {
      var p := parts[0];
      var rest := Join(parts[1..], [g]);
      JoinCreatesNoOccurrence(parts[1..], sep, g);
      var s := Join(parts, [g]);
      assert s == p + [g] + rest;
      forall k: nat | At(s, k, sep)
        ensures false
      {
        var n := |sep|;
        if k + n <= |p| {
          AtInHead(p, [g] + rest, k, sep);
        } else if k <= |p| {
          CharInSlice(s, k, n, |p|);
        } else {
          AtInTail(p + [g], rest, k, sep);
        }
      }
    }
  }

  lemma AtInHead(x: string, y: string, k: nat, sub: string)
    ensures k + |sub| <= |x| && At(x + y, k, sub) ==> At(x, k, sub)
  {
    if k + |sub| <= |x| && At(x + y, k, sub) {
      assert (x + y)[k..k + |sub|] == x[k..k + |sub|];
    }
  }

  lemma AtInTail(x: string, y: string, k: nat, sub: string)
    ensures |x| <= k && At(x + y, k, sub) ==> At(y, k - |x|, sub)
  {
    if |x| <= k && At(x + y, k, sub) {
      assert (x + y)[k..k + |sub|] == y[k - |x|..k - |x| + |sub|];
    }
  }

  lemma CharInSlice(s: string, k: nat, n: nat, i: nat)
    ensures k <= i < k + n <= |s| ==> s[i] in s[k..k + n]
  {
    if k <= i < k + n <= |s| {
      assert s[k..k + n][i - k] == s[i];
    }
  }

  /** Joining pieces that hold no `c` with the empty glue gives a string
      without `c`. */
  lemma {:induction false} JoinEmptyGlueExcludes(parts: seq<string>, c: char)
    requires forall i :: 0 <= i < |parts| ==> c !in parts[i]
    ensures c !in Join(parts, "")
  {
    if |parts| > 1 {
      JoinEmptyGlueExcludes(parts[1..], c);
      assert Join(parts, "") == parts[0] + Join(parts[1..], "");
    }
  }

  /** After `s.replace(c, '')` no `c` is left. */
  lemma ReplaceRemoves(s: string, c: char)
    ensures c !in Replace(s, [c], "")
  {
    var parts := Split(s, [c]);
    SplitPiecesFree(s, [c]);
    forall i | 0 <= i < |parts| ensures c !in parts[i] {
      SingleCharOccurs(parts[i], c);
    }
    JoinEmptyGlueExcludes(parts, c);
  }

  /** Every character of a piece of `s.split(sep)` is a character of `s`. */
  lemma {:induction false} SplitPiecesChars(s: string, sep: string)
    requires |sep| > 0
    ensures forall i, c :: 0 <= i < |Split(s, sep)| && c in Split(s, sep)[i] ==> c in s
    decreases |s|
  {
    var i := Find(s, sep);
    if i >= 0 {
      var rest := s[i + |sep|..];
      SplitPiecesChars(rest, sep);
      assert forall c :: c in rest ==> c in s;
      assert forall c :: c in s[..i] ==> c in s;
    }
  }

  /** Every character of a join with the empty glue comes from a piece. */
  lemma {:induction false} JoinEmptyGlueChars(parts: seq<string>, c: char)
    requires c in Join(parts, "")
    ensures exists i :: 0 <= i < |parts| && c in parts[i]
  {
    if |parts| > 1 {
      assert Join(parts, "") == parts[0] + Join(parts[1..], "");
      if c !in parts[0] {
        JoinEmptyGlueChars(parts[1..], c);
        var i :| 0 <= i < |parts[1..]| && c in parts[1..][i];
        assert c in parts[i + 1];
      }
    }
  }

  /** `s.replace(c, '')` keeps only characters of `s`. */
  lemma ReplaceKeepsChars(s: string, c: char, d: char)
    requires d in Replace(s, [c], "")
    ensures d in s
  {
    SplitPiecesChars(s, [c]);
    JoinEmptyGlueChars(Split(s, [c]), d);
  }

  /** Splitting a join on a one-character glue that no piece holds gives
      back the pieces. */
  lemma {:induction false} SplitJoinSingle(parts: seq<string>, c: char)
    requires |parts| >= 1
    requires forall i :: 0 <= i < |parts| ==> c !in parts[i]
    ensures Split(Join(parts, [c]), [c]) == parts
  {
    if |parts| == 1 {
      SplitWithout(parts[0], c);
    } else {
      var p := parts[0];
      var rest := Join(parts[1..], [c]);
      var s := Join(parts, [c]);
      assert s == p + [c] + rest;
      SplitJoinSingle(parts[1..], c);
      assert At(s, |p|, [c]);
      var i := Find(s, [c]);
      assert i >= 0;
      assert s[i] == s[i..i + 1][0];
      assert i == |p|;
      assert s[..i] == p;
      assert s[i + 1..] == rest;
    }
  }

  // ---- decimal numbers ------------------------------------------------

  predicate IsDigit(c: char) { '0' <= c <= '9' }

  predicate AllDigits(s: string) { forall i :: 0 <= i < |s| ==> IsDigit(s[i]) }

  function DigitsValue(s: string): (n: nat)
    requires AllDigits(s)
  {
    if s == [] then 0 else DigitsValue(s[..|s| - 1]) * 10 + (s[|s| - 1] - '0') as nat
  }

  /** Python `int(s)`, restricted to plain decimal digit strings; anything
      else is the `ValueError` path. */
  function ParseInt(s: string): (r: Option<int>)
    ensures r.Some? <==> |s| > 0 && AllDigits(s)
    ensures r.Some? ==> r.value >= 0
  {
    if |s| > 0 && AllDigits(s) then Some(DigitsValue(s)) else None
  }

  function DigitChar(d: nat): (c: char)
    requires d < 10
    ensures IsDigit(c) && (c - '0') as nat == d
  {
    ('0' as int + d) as char
  }

  /** `str(n)` for a natural number. */
  function NatToString(n: nat): (r: string)
    ensures |r| >= 1 && AllDigits(r)
    ensures n < 10 ==> |r| == 1
    ensures 10 <= n < 100 ==> |r| == 2
    ensures DigitsValue(r) == n
  {
    if n < 10 then [DigitChar(n)]
    else
      var r := NatToString(n / 10) + [DigitChar(n % 10)];
      assert r[..|r| - 1] == NatToString(n / 10);
      r
  }

  /** `str(n)` for any integer. */
  function IntToString(n: int): (r: string)
    ensures |r| >= 1
    ensures n >= 0 ==> ParseInt(r) == Some(n)
    ensures n < 0 ==> r[0] == '-'
  {
    if n < 0 then "-" + NatToString(-n) else NatToString(n)
  }

  /** `'{:0>2d}'.format(n)`: the decimal text of `n`, padded on the left
      with '0' to width two. */
  function Pad2(n: int): (r: string)
    ensures |r| >= 2
    ensures 0 <= n < 100 ==> |r| == 2
    ensures n >= 0 ==> ParseInt(r) == Some(n)
  {
    var s := IntToString(n);
    if |s| >= 2 then s
    else
      var r := "0" + s;
      assert r[..|r| - 1] == "0";
      assert DigitsValue("0") == DigitsValue("") * 10 + 0;
      r
  }
}
