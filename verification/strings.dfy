/** Text utilities the generator and the forms rely on: substring occurrence,
    JavaScript's `Array.prototype.join`, `String.prototype.split` on one
    character, and `String.prototype.trim`. Strings are `seq<char>`. */
module Strings {

  /* ---------------------------------------------------------------------
     Occurrence of one string inside another
     --------------------------------------------------------------------- */

  /** `pat` occurs in `s` starting at index `i`. */
  ghost predicate OccursAt(s: string, pat: string, i: int) {
    0 <= i && i + |pat| <= |s| && s[i..i + |pat|] == pat
  }

  ghost predicate Contains(s: string, pat: string) {
    exists i :: OccursAt(s, pat, i)
  }

  /** Some occurrence of `p` ends no later than some occurrence of `q` starts. */
  ghost predicate InOrder(s: string, p: string, q: string) {
    exists i, j :: OccursAt(s, p, i) && OccursAt(s, q, j) && i + |p| <= j
  }

  lemma SliceOfSlice(s: string, lo: int, hi: int, a: int, b: int)
    requires 0 <= lo <= hi <= |s| && 0 <= a <= b <= hi - lo
    ensures s[lo..hi][a..b] == s[lo + a .. lo + b]
  {
    assert forall k :: 0 <= k < b - a ==> s[lo..hi][a..b][k] == s[lo + a + k];
  }

  lemma ContainsSelf(s: string)
    ensures Contains(s, s)
  {
    assert OccursAt(s, s, 0);
  }

  /** An occurrence inside the middle piece is an occurrence in the whole. */
  lemma ContainsInfix(a: string, b: string, c: string, pat: string)
    requires Contains(b, pat)
    ensures Contains(a + b + c, pat)
  {
    var i :| OccursAt(b, pat, i);
    assert (a + b + c)[|a| + i .. |a| + i + |pat|] == b[i .. i + |pat|];
    assert OccursAt(a + b + c, pat, |a| + i);
  }

  lemma ContainsLeft(a: string, b: string, pat: string)
    requires Contains(a, pat)
    ensures Contains(a + b, pat)
  {
    var i :| OccursAt(a, pat, i);
    assert (a + b)[i .. i + |pat|] == a[i .. i + |pat|];
    assert OccursAt(a + b, pat, i);
  }

  lemma ContainsRight(a: string, b: string, pat: string)
    requires Contains(b, pat)
    ensures Contains(a + b, pat)
  {
    var i :| OccursAt(b, pat, i);
    assert (a + b)[|a| + i .. |a| + i + |pat|] == b[i .. i + |pat|];
    assert OccursAt(a + b, pat, |a| + i);
  }

  /** `t.startsWith(p)`. */
  predicate StartsWith(t: string, p: string) {
    |p| <= |t| && t[..|p|] == p
  }

  lemma StartsWithWhole(s: string)
    ensures StartsWith(s, s)
  {
  }

  lemma StartsWithAppend(a: string, b: string, p: string)
    requires StartsWith(a, p)
    ensures StartsWith(a + b, p)
  {
    assert (a + b)[..|p|] == a[..|p|];
  }

  /** `s.endsWith(t)`. */
  predicate EndsWith(s: string, t: string) {
    |t| <= |s| && s[|s| - |t|..] == t
  }

  lemma EndsWithAppend(a: string, b: string, t: string)
    requires EndsWith(b, t)
    ensures EndsWith(a + b, t)
  {
    assert (a + b)[|a + b| - |t|..] == b[|b| - |t|..];
  }

  lemma ContainsTransitive(s: string, mid: string, pat: string)
    requires Contains(s, mid) && Contains(mid, pat)
    ensures Contains(s, pat)
  {
    var i :| OccursAt(s, mid, i);
    var j :| OccursAt(mid, pat, j);
    SliceOfSlice(s, i, i + |mid|, j, j + |pat|);
    assert OccursAt(s, pat, i + j);
  }

  /** A pattern containing a character the text lacks cannot occur in it. */
  lemma NotContainsMissingChar(s: string, pat: string, c: char)
    requires c in pat && c !in s
    ensures !Contains(s, pat)
  {
  }

  /** Every character of an occurring pattern is a character of the text. */
  lemma ContainsKeepsOut(s: string, pat: string, c: char)
    requires Contains(s, pat) && c !in s
    ensures c !in pat
  {
    var i :| OccursAt(s, pat, i);
    assert forall k :: 0 <= k < |pat| ==> pat[k] == s[i..i + |pat|][k] == s[i + k];
  }

  lemma InOrderConcat(a: string, b: string, p: string, q: string)
    requires Contains(a, p) && Contains(b, q)
    ensures InOrder(a + b, p, q)
  {
    var i :| OccursAt(a, p, i);
    var j :| OccursAt(b, q, j);
    assert (a + b)[i .. i + |p|] == a[i .. i + |p|];
    assert (a + b)[|a| + j .. |a| + j + |q|] == b[j .. j + |q|];
    assert OccursAt(a + b, p, i) && OccursAt(a + b, q, |a| + j);
  }

  lemma InOrderInfix(x: string, s: string, y: string, p: string, q: string)
    requires InOrder(s, p, q)
    ensures InOrder(x + s + y, p, q)
  {
    var i, j :| OccursAt(s, p, i) && OccursAt(s, q, j) && i + |p| <= j;
    assert (x + s + y)[|x| + i .. |x| + i + |p|] == s[i .. i + |p|];
    assert (x + s + y)[|x| + j .. |x| + j + |q|] == s[j .. j + |q|];
    assert OccursAt(x + s + y, p, |x| + i) && OccursAt(x + s + y, q, |x| + j);
  }

  /** Ordered occurrences of two pieces order whatever each piece contains. */
  lemma InOrderRight(x: string, s: string, p: string, q: string)
    requires InOrder(s, p, q)
    ensures InOrder(x + s, p, q)
  {
    InOrderInfix(x, s, "", p, q);
    assert x + s + "" == x + s;
  }

  lemma InOrderNarrow(s: string, a: string, b: string, p: string, q: string)
    requires InOrder(s, a, b) && Contains(a, p) && Contains(b, q)
    ensures InOrder(s, p, q)
  {
    var i, j :| OccursAt(s, a, i) && OccursAt(s, b, j) && i + |a| <= j;
    var k :| OccursAt(a, p, k);
    var l :| OccursAt(b, q, l);
    SliceOfSlice(s, i, i + |a|, k, k + |p|);
    SliceOfSlice(s, j, j + |b|, l, l + |q|);
    assert OccursAt(s, p, i + k) && OccursAt(s, q, j + l);
  }

  /** Ordered occurrences inside a piece of `s` are ordered occurrences in `s`. */
  lemma InOrderWithin(s: string, mid: string, p: string, q: string)
    requires Contains(s, mid) && InOrder(mid, p, q)
    ensures InOrder(s, p, q)
  {
    var m :| OccursAt(s, mid, m);
    var i, j :| OccursAt(mid, p, i) && OccursAt(mid, q, j) && i + |p| <= j;
    SliceOfSlice(s, m, m + |mid|, i, i + |p|);
    SliceOfSlice(s, m, m + |mid|, j, j + |q|);
    assert OccursAt(s, p, m + i) && OccursAt(s, q, m + j);
  }

  /* ---------------------------------------------------------------------
     Array.prototype.join
     --------------------------------------------------------------------- */

  /** `parts.join(sep)`: the parts in order with `sep` between neighbours. */
  function Join(parts: seq<string>, sep: string): string
  {
    if |parts| == 0 then ""
    else if |parts| == 1 then parts[0]
    else parts[0] + sep + Join(parts[1..], sep)
  }

  lemma {:induction false} JoinContainsPart(parts: seq<string>, sep: string, k: int)
    requires 0 <= k < |parts|
    ensures Contains(Join(parts, sep), parts[k])
  {
    if |parts| == 1 {
      ContainsSelf(parts[0]);
    } else if k == 0 {
      ContainsSelf(parts[0]);
      ContainsInfix("", parts[0], sep + Join(parts[1..], sep), parts[0]);
      assert "" + parts[0] + (sep + Join(parts[1..], sep)) == Join(parts, sep);
    } else {
      JoinContainsPart(parts[1..], sep, k - 1);
      ContainsInfix(parts[0] + sep, Join(parts[1..], sep), "", parts[k]);
      assert parts[0] + sep + Join(parts[1..], sep) + "" == Join(parts, sep);
    }
  }

  /** Neighbouring parts are separated by exactly one `sep`. */
  lemma {:induction false} JoinAdjacent(parts: seq<string>, sep: string, k: int)
    requires 0 <= k < |parts| - 1
    ensures Contains(Join(parts, sep), parts[k] + sep + parts[k + 1])
  {
    var rest := Join(parts[1..], sep);
    if k == 0 {
      var pat := parts[0] + sep + parts[1];
      if |parts| == 2 {
        assert rest == parts[1];
        ContainsSelf(pat);
      } else {
        assert rest == parts[1] + sep + Join(parts[2..], sep);
        ContainsSelf(pat);
        ContainsLeft(pat, sep + Join(parts[2..], sep), pat);
        assert pat + (sep + Join(parts[2..], sep)) == Join(parts, sep);
      }
    } else {
      JoinAdjacent(parts[1..], sep, k - 1);
      ContainsRight(parts[0] + sep, rest, parts[k] + sep + parts[k + 1]);
    }
  }

  /** `join` keeps the parts in list order: an earlier part occurs before a later one. */
  lemma {:induction false} JoinInOrder(parts: seq<string>, sep: string, i: int, j: int)
    requires 0 <= i < j < |parts|
    ensures InOrder(Join(parts, sep), parts[i], parts[j])
  {
    var rest := Join(parts[1..], sep);
    assert Join(parts, sep) == parts[0] + sep + rest;
    if i == 0 {
      ContainsSelf(parts[0]);
      JoinContainsPart(parts[1..], sep, j - 1);
      ContainsInfix(sep, rest, "", parts[j]);
      assert sep + rest + "" == sep + rest;
      InOrderConcat(parts[0], sep + rest, parts[0], parts[j]);
      assert parts[0] + (sep + rest) == Join(parts, sep);
    } else {
      JoinInOrder(parts[1..], sep, i - 1, j - 1);
      InOrderInfix(parts[0] + sep, rest, "", parts[i], parts[j]);
      assert parts[0] + sep + rest + "" == Join(parts, sep);
    }
  }

  /** The joined string begins with the first part. */
  lemma {:induction false} JoinStartsWithFirst(parts: seq<string>, sep: string)
    requires |parts| > 0
    ensures |parts[0]| <= |Join(parts, sep)|
    ensures Join(parts, sep)[..|parts[0]|] == parts[0]
  {
    if |parts| > 1 {
      assert Join(parts, sep) == parts[0] + (sep + Join(parts[1..], sep));
    }
  }

  /** The joined string ends with the last part. */
  lemma {:induction false} JoinEndsWithLast(parts: seq<string>, sep: string)
    requires |parts| > 0
    ensures EndsWith(Join(parts, sep), parts[|parts| - 1])
  {
    if |parts| > 1 {
      JoinEndsWithLast(parts[1..], sep);
      var rest := Join(parts[1..], sep);
      var last := parts[|parts| - 1];
      assert parts[1..][|parts[1..]| - 1] == last;
      assert Join(parts, sep) == parts[0] + sep + rest;
      EndsWithAppend(parts[0] + sep, rest, last);
    }
  }

  /** Joining non-empty parts gives the empty string only for no parts. */
  lemma JoinEmpty(parts: seq<string>, sep: string)
    requires forall k :: 0 <= k < |parts| ==> parts[k] != ""
    ensures Join(parts, sep) == "" <==> |parts| == 0
  {
    if |parts| > 0 {
      JoinStartsWithFirst(parts, sep);
    }
  }

  /* ---------------------------------------------------------------------
     String.prototype.split on a one-character separator
     --------------------------------------------------------------------- */

  /** Number of occurrences of `c` in `s`. */
  function Count(s: string, c: char): nat
  {
    if |s| == 0 then 0 else (if s[0] == c then 1 else 0) + Count(s[1..], c)
  }

  /** `s.split(c)`: the maximal separator-free pieces, always at least one
      (so `"".split(",")` is `[""]`); joining them back gives `s`. */
  function Split(s: string, c: char): (r: seq<string>)
    ensures |r| == Count(s, c) + 1
    ensures forall k :: 0 <= k < |r| ==> c !in r[k]
    ensures Join(r, [c]) == s
  {
    if |s| == 0 then [""]
    else
      var rest := Split(s[1..], c);
      if s[0] == c then
        assert Join([""] + rest, [c]) == "" + [c] + Join(rest, [c]);
        [""] + rest
      else
        var r := [[s[0]] + rest[0]] + rest[1..];
        assert r[1..] == rest[1..];
        assert |rest| > 1 ==> Join(rest, [c]) == rest[0] + [c] + Join(rest[1..], [c]);
        r
  }

  lemma {:induction false} SplitWithoutSeparator(x: string, c: char)
    requires c !in x
    ensures Split(x, c) == [x]
  {
    if |x| > 0 {
      SplitWithoutSeparator(x[1..], c);
      assert [x[0]] + x[1..] == x;
    }
  }

  lemma {:induction false} SplitFirstPiece(x: string, c: char, rest: string)
    requires c !in x
    ensures Split(x + [c] + rest, c) == [x] + Split(rest, c)
  {
    if |x| == 0 {
      assert x + [c] + rest == [c] + rest;
      assert ([c] + rest)[1..] == rest;
    } else {
      SplitFirstPiece(x[1..], c, rest);
      assert (x + [c] + rest)[1..] == x[1..] + [c] + rest;
      assert [x[0]] + x[1..] == x;
    }
  }

  /** Splitting undoes joining, when no part contains the separator. */
  lemma {:induction false} SplitJoin(parts: seq<string>, c: char)
    requires |parts| > 0
    requires forall k :: 0 <= k < |parts| ==> c !in parts[k]
    ensures Split(Join(parts, [c]), c) == parts
  {
    if |parts| == 1 {
      SplitWithoutSeparator(parts[0], c);
    } else {
      SplitJoin(parts[1..], c);
      SplitFirstPiece(parts[0], c, Join(parts[1..], [c]));
      assert [parts[0]] + parts[1..] == parts;
    }
  }

  /* ---------------------------------------------------------------------
     String.prototype.trim
     --------------------------------------------------------------------- */

  /** The code points ECMAScript's `trim` removes: WhiteSpace (tab, vertical
      tab and form feed, which with line feed and carriage return make up
      U+0009 to U+000D, space, no-break space, byte-order mark and the Unicode
      space separators) and LineTerminator (line feed, carriage return, line
      and paragraph separators). */
  predicate IsWhitespace(c: char) {
    || ('\t' <= c <= '\r')
    || c == ' ' || c == '\U{00A0}' || c == '\U{1680}'
    || ('\U{2000}' <= c <= '\U{200A}')
    || c == '\U{2028}' || c == '\U{2029}' || c == '\U{202F}' || c == '\U{205F}'
    || c == '\U{3000}' || c == '\U{FEFF}'
  }

  /** `s` with its leading whitespace removed. */
  function TrimStart(s: string): (r: string)
    ensures |r| <= |s| && r == s[|s| - |r|..]
    ensures forall i :: 0 <= i < |s| - |r| ==> IsWhitespace(s[i])
    ensures r == [] || !IsWhitespace(r[0])
  {
    if |s| > 0 && IsWhitespace(s[0]) then TrimStart(s[1..]) else s
  }

  /** `s` with its trailing whitespace removed. */
  function TrimEnd(s: string): (r: string)
    ensures |r| <= |s| && r == s[..|r|]
    ensures forall i :: |r| <= i < |s| ==> IsWhitespace(s[i])
    ensures r == [] || !IsWhitespace(r[|r| - 1])
  {
    if |s| > 0 && IsWhitespace(s[|s| - 1]) then TrimEnd(s[..|s| - 1]) else s
  }

  /** No whitespace at either end. */
  predicate Trimmed(s: string) {
    s == [] || (!IsWhitespace(s[0]) && !IsWhitespace(s[|s| - 1]))
  }

  /** Every character of `s` outside positions `i` to `j` is whitespace. */
  predicate WhitespaceOutside(s: string, i: int, j: int) {
    forall k :: 0 <= k < |s| && !(i <= k < j) ==> IsWhitespace(s[k])
  }

  /** `r` is what is left of `s` once whitespace is cut from its two ends
      and nowhere else: a slice of `s` with only whitespace around it and no
      whitespace at its own ends. */
  ghost predicate IsTrimOf(s: string, r: string) {
    Trimmed(r) && exists i :: TrimAt(s, r, i)
  }

  /** `r` is the slice of `s` from position `i`, with only whitespace around it. */
  predicate TrimAt(s: string, r: string, i: int) {
    0 <= i <= |s| - |r| && r == s[i..i + |r|] && WhitespaceOutside(s, i, i + |r|)
  }

  /** `s.trim()`: the slice of `s` between its leading and trailing
      whitespace. It is empty exactly when `s` is all whitespace, which is
      when JavaScript treats `s.trim()` as falsy. */
  function Trim(s: string): (r: string)
    ensures IsTrimOf(s, r)
    ensures r == [] <==> forall i :: 0 <= i < |s| ==> IsWhitespace(s[i])
    ensures Contains(s, r)
  {
    var t := TrimStart(s);
    var r := TrimEnd(t);
    TrimEmptyIff(s, t, r);
    PrefixOfSuffix(s, t, r);
    EndsStripped(s, t, r);
    r
  }

  /** Cutting the leading, then the trailing whitespace leaves a trim of `s`. */
  lemma EndsStripped(s: string, t: string, r: string)
    requires t == TrimStart(s) && r == TrimEnd(t)
    ensures IsTrimOf(s, r)
  {
    var i := |s| - |t|;
    assert r == s[i..i + |r|] by {
      assert s[i..] == t;
      assert t[..|r|] == r;
    }
    forall k | 0 <= k < |s| && !(i <= k < i + |r|) ensures IsWhitespace(s[k]) {
      if k >= i {
        assert s[k] == t[k - i];
      }
    }
    assert TrimAt(s, r, i);
  }

  /** A non-empty trim sits inside any stretch that has only whitespace around it. */
  lemma TrimInside(s: string, r: string, i: int, lo: int, hi: int)
    requires r != [] && Trimmed(r) && 0 <= i <= |s| - |r| && r == s[i..i + |r|]
    requires WhitespaceOutside(s, lo, hi)
    ensures lo <= i && i + |r| <= hi
  {
    assert s[i] == r[0];
    assert s[i + |r| - 1] == r[|r| - 1];
  }

  /** There is only one trim of a string, so `IsTrimOf` pins down the
      result of `trim()` entirely. */
  lemma TrimUnique(s: string, r1: string, r2: string)
    requires IsTrimOf(s, r1) && IsTrimOf(s, r2)
    ensures r1 == r2
  {
    var i1 :| TrimAt(s, r1, i1);
    var i2 :| TrimAt(s, r2, i2);
    if r1 != [] && r2 != [] {
      TrimInside(s, r1, i1, i2, i2 + |r2|);
      TrimInside(s, r2, i2, i1, i1 + |r1|);
    } else if r1 != [] {
      TrimInside(s, r1, i1, i2, i2);
    } else if r2 != [] {
      TrimInside(s, r2, i2, i1, i1);
    }
  }

  lemma TrimEmptyIff(s: string, t: string, r: string)
    requires t == TrimStart(s) && r == TrimEnd(t)
    ensures r == [] <==> forall i :: 0 <= i < |s| ==> IsWhitespace(s[i])
  {
    if r == [] {
      assert t == [];
    }
  }

  /** A prefix of a suffix of `s` occurs in `s`. */
  lemma PrefixOfSuffix(s: string, t: string, r: string)
    requires |t| <= |s| && t == s[|s| - |t|..]
    requires |r| <= |t| && r == t[..|r|]
    ensures Contains(s, r)
  {
    SliceOfSlice(s, |s| - |t|, |s|, 0, |r|);
    assert OccursAt(s, r, |s| - |t|);
  }

  /** A character missing from `s` is missing from its trim. */
  lemma TrimKeepsOut(s: string, c: char)
    requires c !in s
    ensures c !in Trim(s)
  {
    ContainsKeepsOut(s, Trim(s), c);
  }

  /** A string already free of leading and trailing whitespace is its own trim. */
  lemma TrimTrimmed(s: string)
    requires Trimmed(s)
    ensures Trim(s) == s
  {
  }

  /** A leading whitespace character does not change the trim. */
  lemma TrimSkipsLeading(w: char, s: string)
    requires IsWhitespace(w)
    ensures Trim([w] + s) == Trim(s)
  {
    assert ([w] + s)[1..] == s;
  }
}
