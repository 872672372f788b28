/** The two sorts the pipeline uses: `xs.sort(key=len, reverse=True)`, which
    is stable, also when reversed, so strings of equal length keep their
    relative order; and `sorted(xs)`, by Python's string order. */
module Sorting {

  /** Ordered from longest to shortest. */
  predicate LongestFirst(xs: seq<string>) {
    forall i, j :: 0 <= i < j < |xs| ==> |xs[i]| >= |xs[j]|
  }

  /** The strings of length `n` in `xs`, in their order in `xs`. */
  function OfLength(xs: seq<string>, n: nat): seq<string>
    decreases |xs|
  {
    if |xs| == 0 then []
    else (if |xs[0]| == n then [xs[0]] else []) + OfLength(xs[1..], n)
  }

  /** Places `x` ahead of every string no longer than itself. */
  function Insert(x: string, ys: seq<string>): (r: seq<string>)
    requires LongestFirst(ys)
    ensures LongestFirst(r)
    ensures multiset(r) == multiset(ys) + multiset{x}
    ensures |r| == |ys| + 1
    ensures r[0] == (if |ys| == 0 || |ys[0]| <= |x| then x else ys[0])
    decreases |ys|
  {
    if |ys| == 0 || |ys[0]| <= |x| then
      ConsLongest(x, ys);
      [x] + ys
    else
      var t := Insert(x, ys[1..]);
      ConsLongest(ys[0], t);
      ConsMultiset(ys);
      [ys[0]] + t
  }

  /** A string at least as long as the head of a sorted list extends it. */
  lemma ConsLongest(h: string, t: seq<string>)
    requires LongestFirst(t) && (|t| == 0 || |t[0]| <= |h|)
    ensures LongestFirst([h] + t)
  {
    var r := [h] + t;
    assert forall k :: 1 <= k < |r| ==> r[k] == t[k - 1];
  }

  lemma ConsMultiset(ys: seq<string>)
    requires |ys| > 0
    ensures multiset(ys) == multiset{ys[0]} + multiset(ys[1..])
  {
    assert ys == [ys[0]] + ys[1..];
  }

  /** Stable sort by decreasing length. */
  function SortLongestFirst(xs: seq<string>): (r: seq<string>)
    ensures LongestFirst(r)
    ensures multiset(r) == multiset(xs)
    decreases |xs|
  {
    if |xs| == 0 then []
    else
      var r := Insert(xs[0], SortLongestFirst(xs[1..]));
      assert xs == [xs[0]] + xs[1..];
      r
  }

  /** `x` lands ahead of the strings of its own length and leaves the others'
      order alone. */
  lemma {:induction false} InsertStable(x: string, ys: seq<string>, n: nat)
    requires LongestFirst(ys)
    ensures OfLength(Insert(x, ys), n) == (if |x| == n then [x] + OfLength(ys, n) else OfLength(ys, n))
    decreases |ys|
  {
    if |ys| == 0 || |ys[0]| <= |x| {
      assert ([x] + ys)[1..] == ys;
    } else {
      var t := Insert(x, ys[1..]);
      InsertStable(x, ys[1..], n);
      assert ([ys[0]] + t)[1..] == t;
      if |x| == n {
        assert |ys[0]| != n;
      }
    }
  }

  /** Strings of equal length keep their relative order. */
  lemma {:induction false} SortStable(xs: seq<string>, n: nat)
    ensures OfLength(SortLongestFirst(xs), n) == OfLength(xs, n)
    decreases |xs|
  {
    if |xs| > 0 {
      SortStable(xs[1..], n);
      InsertStable(xs[0], SortLongestFirst(xs[1..]), n);
    }
  }

  /** Python's `a <= b` on strings: lexicographic by code point, a prefix
      before its extensions. */
  predicate LexLe(a: string, b: string)
    decreases |a|
  {
    |a| == 0 || (|b| > 0 && (a[0] < b[0] || (a[0] == b[0] && LexLe(a[1..], b[1..]))))
  }

  lemma {:induction false} LexTotal(a: string, b: string)
    ensures LexLe(a, b) || LexLe(b, a)
    decreases |a|
  {
    if |a| > 0 && |b| > 0 && a[0] == b[0] {
      LexTotal(a[1..], b[1..]);
    }
  }

  lemma {:induction false} LexTrans(a: string, b: string, c: string)
    requires LexLe(a, b) && LexLe(b, c)
    ensures LexLe(a, c)
    decreases |a|
  {
    if |a| > 0 && a[0] == b[0] && b[0] == c[0] {
      LexTrans(a[1..], b[1..], c[1..]);
    }
  }

  /** Between two prefixes of the same string, the string order is the
      order of their lengths. */
  lemma {:induction false} PrefixLexLe(a: string, b: string, q: string)
    requires a <= q && b <= q
    ensures LexLe(a, b) <==> |a| <= |b|
    decreases |a|
  {
    if |a| > 0 && |b| > 0 {
      assert a[1..] <= q[1..] && b[1..] <= q[1..];
      PrefixLexLe(a[1..], b[1..], q[1..]);
    }
  }

  /** In ascending string order. */
  predicate LexSorted(xs: seq<string>) {
    forall i, j :: 0 <= i < j < |xs| ==> LexLe(xs[i], xs[j])
  }

  /** Places `x` ahead of the first string not below it. */
  function LexInsert(x: string, ys: seq<string>): (r: seq<string>)
    requires LexSorted(ys)
    ensures LexSorted(r)
    ensures multiset(r) == multiset(ys) + multiset{x}
    ensures |r| == |ys| + 1
    ensures r[0] == (if |ys| == 0 || LexLe(x, ys[0]) then x else ys[0])
    decreases |ys|
  {
    if |ys| == 0 || LexLe(x, ys[0]) then
      var r := [x] + ys;
      forall j | 0 <= j < |ys|
        ensures LexLe(x, ys[j])
      {
        if j > 0 {
          LexTrans(x, ys[0], ys[j]);
        }
      }
      ConsLex(x, ys);
      r
    else
      var t := LexInsert(x, ys[1..]);
      var r := [ys[0]] + t;
      LexTotal(x, ys[0]);
      assert LexLe(ys[0], t[0]);
      forall j | 0 <= j < |t|
        ensures LexLe(ys[0], t[j])
      {
        if j > 0 {
          LexTrans(ys[0], t[0], t[j]);
        }
      }
      ConsLex(ys[0], t);
      ConsMultiset(ys);
      r
  }

  /** A string below every string of a sorted list extends it. */
  lemma ConsLex(h: string, t: seq<string>)
    requires LexSorted(t) && forall j :: 0 <= j < |t| ==> LexLe(h, t[j])
    ensures LexSorted([h] + t)
  {
    var r := [h] + t;
    assert forall k :: 1 <= k < |r| ==> r[k] == t[k - 1];
  }

  /** `sorted(xs)`. */
  function LexSort(xs: seq<string>): (r: seq<string>)
    ensures LexSorted(r)
    ensures multiset(r) == multiset(xs)
    decreases |xs|
  {
    if |xs| == 0 then []
    else
      var r := LexInsert(xs[0], LexSort(xs[1..]));
      assert xs == [xs[0]] + xs[1..];
      r
  }
}
