/** The array operations the forms pass to `onChange`, on immutable
    sequences: `filter`, `map` by position, removal by position, and the
    subsequence relation that states "the rest keeps its order". */
module Seqs {

  /** `a` is obtained from `b` by deleting elements, without reordering. */
  ghost predicate IsSubsequence<T>(a: seq<T>, b: seq<T>)
    decreases |b|
  {
    if |a| == 0 then true
    else if |b| == 0 then false
    else (a[0] == b[0] && IsSubsequence(a[1..], b[1..])) || IsSubsequence(a, b[1..])
  }

  /** Number of elements of `xs` that satisfy `p`. */
  function CountWhere<T>(xs: seq<T>, p: T -> bool): nat
  {
    if |xs| == 0 then 0 else (if p(xs[0]) then 1 else 0) + CountWhere(xs[1..], p)
  }

  /** `xs.map(f)`. */
  function Map<A, B>(xs: seq<A>, f: A -> B): seq<B>
  {
    seq(|xs|, i requires 0 <= i < |xs| => f(xs[i]))
  }

  /** `xs.filter(keep)`: exactly the elements satisfying `keep`, in their
      original order. */
  function Filter<T>(xs: seq<T>, keep: T -> bool): (r: seq<T>)
    ensures |r| == CountWhere(xs, keep) && |r| <= |xs|
    ensures forall i :: 0 <= i < |r| ==> keep(r[i])
    ensures forall i :: 0 <= i < |r| ==> r[i] in xs
    ensures forall i :: 0 <= i < |xs| && keep(xs[i]) ==> xs[i] in r
    ensures IsSubsequence(r, xs)
  {
    if |xs| == 0 then []
    else
      var rest := Filter(xs[1..], keep);
      if keep(xs[0]) then
        assert forall i :: 0 < i < |xs| ==> xs[i] == xs[1..][i - 1];
        [xs[0]] + rest
      else
        assert forall i :: 0 < i < |xs| ==> xs[i] == xs[1..][i - 1];
        rest
  }

  /** Mapping a list with a head element maps the head, then the rest. */
  lemma MapCons<A, B>(x: A, ys: seq<A>, f: A -> B)
    ensures Map([x] + ys, f) == [f(x)] + Map(ys, f)
  {
    assert forall i :: 0 < i <= |ys| ==> ([x] + ys)[i] == ys[i - 1];
  }

  /** Filtering then mapping a non-empty list handles its head, then the rest. */
  lemma MapFilterHead<A, B>(xs: seq<A>, keep: A -> bool, f: A -> B)
    requires |xs| > 0
    ensures Map(Filter(xs, keep), f)
            == (if keep(xs[0]) then [f(xs[0])] else []) + Map(Filter(xs[1..], keep), f)
  {
    var rest := Filter(xs[1..], keep);
    if keep(xs[0]) {
      assert Filter(xs, keep) == [xs[0]] + rest;
      MapCons(xs[0], rest, f);
    } else {
      assert Filter(xs, keep) == rest;
    }
  }

  /** When at most one element of `xs` fails `keep`, filtering removes at most one element. */
  lemma {:induction false} FilterDropsAtMostOne<T>(xs: seq<T>, keep: T -> bool)
    requires forall i, j :: 0 <= i < j < |xs| && !keep(xs[i]) ==> keep(xs[j])
    ensures |Filter(xs, keep)| >= |xs| - 1
  {
    if |xs| > 0 {
      if keep(xs[0]) {
        FilterDropsAtMostOne(xs[1..], keep);
      } else {
        FilterKeepsAll(xs[1..], keep);
      }
    }
  }

  /** Filtering drops every element that fails `keep`, so one failure shortens the sequence. */
  lemma {:induction false} FilterShrinks<T>(xs: seq<T>, keep: T -> bool, k: int)
    requires 0 <= k < |xs| && !keep(xs[k])
    ensures |Filter(xs, keep)| <= |xs| - 1
  {
    if k > 0 {
      FilterShrinks(xs[1..], keep, k - 1);
    }
  }

  /** Filtering with a predicate every element satisfies keeps everything. */
  lemma {:induction false} FilterKeepsAll<T>(xs: seq<T>, keep: T -> bool)
    requires forall i :: 0 <= i < |xs| ==> keep(xs[i])
    ensures Filter(xs, keep) == xs
  {
    if |xs| > 0 {
      FilterKeepsAll(xs[1..], keep);
      assert [xs[0]] + xs[1..] == xs;
    }
  }

  /** Filtering distributes over concatenation. */
  lemma {:induction false} FilterAppend<T>(a: seq<T>, b: seq<T>, keep: T -> bool)
    ensures Filter(a + b, keep) == Filter(a, keep) + Filter(b, keep)
  {
    if |a| > 0 {
      assert (a + b)[1..] == a[1..] + b;
      FilterAppend(a[1..], b, keep);
    } else {
      assert a + b == b;
    }
  }

  /** Two kept elements stay in their relative order after filtering:
      returns their positions in the filtered sequence. */
  lemma {:induction false} FilterKeepsOrder<T>(xs: seq<T>, keep: T -> bool, i: int, j: int) returns (a: int, b: int)
    requires 0 <= i < j < |xs| && keep(xs[i]) && keep(xs[j])
    ensures 0 <= a < b < |Filter(xs, keep)|
    ensures Filter(xs, keep)[a] == xs[i] && Filter(xs, keep)[b] == xs[j]
  {
    var r := Filter(xs, keep);
    var rest := Filter(xs[1..], keep);
    if i == 0 {
      assert r == [xs[0]] + rest;
      var b' := FilterIndexOf(xs[1..], keep, j - 1);
      a, b := 0, b' + 1;
    } else {
      var a', b' := FilterKeepsOrder(xs[1..], keep, i - 1, j - 1);
      if keep(xs[0]) {
        assert r == [xs[0]] + rest;
        a, b := a' + 1, b' + 1;
      } else {
        assert r == rest;
        a, b := a', b';
      }
    }
  }

  /** A kept element has a position in the filtered sequence. */
  lemma FilterIndexOf<T>(xs: seq<T>, keep: T -> bool, j: int) returns (b: int)
    requires 0 <= j < |xs| && keep(xs[j])
    ensures 0 <= b < |Filter(xs, keep)| && Filter(xs, keep)[b] == xs[j]
  {
    assert xs[j] in Filter(xs, keep);
    var r := Filter(xs, keep);
    b :| 0 <= b < |r| && r[b] == xs[j];
  }

  /** Appending one rejected element to a sequence the filter keeps whole
      and filtering gives back the sequence. */
  lemma FilterDropsAppended<T>(xs: seq<T>, x: T, keep: T -> bool)
    requires forall i :: 0 <= i < |xs| ==> keep(xs[i])
    requires !keep(x)
    ensures Filter(xs + [x], keep) == xs
  {
    FilterAppend(xs, [x], keep);
    FilterKeepsAll(xs, keep);
    assert Filter([x], keep) == [] by {
      assert [x][1..] == [];
    }
    assert xs + [] == xs;
  }

  /** Of three elements only the last is kept. */
  lemma FilterOnlyLast<T>(a: T, b: T, c: T, keep: T -> bool)
    requires !keep(a) && !keep(b) && keep(c)
    ensures Filter([a, b, c], keep) == [c]
  {
    assert [a, b, c][1..] == [b, c];
    assert [b, c][1..] == [c];
    assert [c][1..] == [];
  }

  /** Filtering out every element leaves nothing. */
  lemma FilterNone<T>(xs: seq<T>, keep: T -> bool)
    requires forall i :: 0 <= i < |xs| ==> !keep(xs[i])
    ensures Filter(xs, keep) == []
  {
  }

  /** Deleting an element that the filter drops does not change the filtered result. */
  lemma FilterIgnoresRejected<T>(xs: seq<T>, keep: T -> bool, i: int)
    requires 0 <= i < |xs| && !keep(xs[i])
    ensures Filter(RemoveAt(xs, i), keep) == Filter(xs, keep)
  {
    assert xs == xs[..i] + ([xs[i]] + xs[i + 1..]);
    FilterAppend(xs[..i], [xs[i]] + xs[i + 1..], keep);
    FilterAppend([xs[i]], xs[i + 1..], keep);
    FilterAppend(xs[..i], xs[i + 1..], keep);
    assert Filter([xs[i]], keep) == [] by {
      assert [xs[i]][1..] == [];
    }
  }

  /** `xs.map(x => sel(x) ? g(x) : x)`: the selected elements rewritten in
      place, the others kept, length and order unchanged. */
  function MapWhere<T>(xs: seq<T>, sel: T -> bool, g: T -> T): (r: seq<T>)
    ensures |r| == |xs|
    ensures forall i :: 0 <= i < |xs| ==> r[i] == if sel(xs[i]) then g(xs[i]) else xs[i]
  {
    seq(|xs|, i requires 0 <= i < |xs| => if sel(xs[i]) then g(xs[i]) else xs[i])
  }

  /** `xs.map((x, i) => i === index ? v : x)`: position `index` replaced when
      it exists; an index outside the array changes nothing. */
  function ReplaceAt<T>(xs: seq<T>, index: int, v: T): (r: seq<T>)
    ensures 0 <= index < |xs| ==> r == xs[index := v]
    ensures !(0 <= index < |xs|) ==> r == xs
  {
    seq(|xs|, i requires 0 <= i < |xs| => if i == index then v else xs[i])
  }

  /** `xs.filter((_, i) => i !== index)`: position `index` deleted when it
      exists, the rest in order; an index outside the array changes nothing. */
  function RemoveAt<T>(xs: seq<T>, index: int): (r: seq<T>)
    ensures 0 <= index < |xs| ==> r == xs[..index] + xs[index + 1..]
    ensures !(0 <= index < |xs|) ==> r == xs
  {
    if |xs| == 0 then []
    else
      var rest := RemoveAt(xs[1..], index - 1);
      if index == 0 then
        assert xs[..0] + xs[1..] == xs[1..];
        rest
      else
        assert 0 < index < |xs| ==> xs[1..][..index - 1] == xs[1..index];
        assert 0 < index < |xs| ==> xs[..index] == [xs[0]] + xs[1..index];
        assert !(0 <= index < |xs|) ==> [xs[0]] + xs[1..] == xs;
        [xs[0]] + rest
  }
}
