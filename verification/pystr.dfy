/** The Python `str` built-ins the pipeline relies on, with Python's own
    semantics: `strip`/`rstrip`, `find`/`rfind`, `in`, slicing with negative
    indices, `replace` (leftmost, non-overlapping), `split`, `join`, `upper`.
    Each function's contract characterises its result independently of the
    recursion that computes it. */
module PyStr {

  // ---------------------------------------------------------------------------
  // Character classes
  // ---------------------------------------------------------------------------

  /** `c.isspace()`: the characters Python treats as whitespace. */
  predicate IsSpace(c: char) {
    var n := c as int;
    (9 <= n <= 13) || (28 <= n <= 32) || n == 0x85 || n == 0xA0 || n == 0x1680
    || (0x2000 <= n <= 0x200A) || n == 0x2028 || n == 0x2029 || n == 0x202F
    || n == 0x205F || n == 0x3000
  }

  /** Format characters (Unicode category Cf) and the reserved block after U+2064. */
  predicate IsFormat(n: int) {
    (0x600 <= n <= 0x605) || n == 0x61C || n == 0x6DD || n == 0x70F || n == 0x180E
    || (0x200B <= n <= 0x200F) || (0x202A <= n <= 0x202E) || (0x2060 <= n <= 0x206F)
    || n == 0xFEFF || (0xFFF9 <= n <= 0xFFFB)
  }

  /** `c.isprintable()`: false for control, format, private-use, separator and
      non-character code points; the space character is printable. */
  predicate IsPrintable(c: char) {
    var n := c as int;
    c == ' ' ||
    (n > 0x20 && !(0x7F <= n <= 0xA0) && n != 0xAD && !IsSpace(c) && !IsFormat(n)
     && !(0xE000 <= n <= 0xF8FF) && !(0xFDD0 <= n <= 0xFDEF)
     && n % 0x10000 < 0xFFFE && n < 0xF0000)
  }

  lemma SpaceNotPrintable(c: char)
    requires IsSpace(c) && c != ' '
    ensures !IsPrintable(c)
  {
  }

  predicate AllPrintable(s: string) {
    forall i :: 0 <= i < |s| ==> IsPrintable(s[i])
  }

  // ---------------------------------------------------------------------------
  // Searching
  // ---------------------------------------------------------------------------

  /** `w` occurs in `s` starting at index `i`. */
  predicate OccursAt(s: string, w: string, i: int) {
    0 <= i && i + |w| <= |s| && s[i..i + |w|] == w
  }

  lemma OccursAtTail(s: string, w: string, i: int)
    requires |s| > 0 && i >= 0
    ensures OccursAt(s[1..], w, i) <==> OccursAt(s, w, i + 1)
  {
    if 0 <= i && i + |w| <= |s| - 1 {
      assert s[1..][i..i + |w|] == s[i + 1..i + 1 + |w|];
    }
  }

  lemma OccursAtPrefix(s: string, w: string, i: int, n: int)
    requires 0 <= n <= |s|
    ensures OccursAt(s[..n], w, i) <==> (OccursAt(s, w, i) && i + |w| <= n)
  {
    if 0 <= i && i + |w| <= n {
      assert s[..n][i..i + |w|] == s[i..i + |w|];
    }
  }

  /** `s.find(w)`: the lowest index where `w` occurs, or -1. */
  function Find(s: string, w: string): (r: int)
    ensures r == -1 || OccursAt(s, w, r)
    ensures r == -1 ==> forall i :: !OccursAt(s, w, i)
    ensures forall i :: 0 <= i < r ==> !OccursAt(s, w, i)
    decreases |s|
  {
    if |w| <= |s| && s[..|w|] == w then 0
    else if |s| == 0 then -1
    else
      var k := Find(s[1..], w);
      forall i | i >= 0 ensures OccursAt(s[1..], w, i) <==> OccursAt(s, w, i + 1) {
        OccursAtTail(s, w, i);
      }
      assert forall i :: OccursAt(s, w, i) && i >= 1 ==> OccursAt(s[1..], w, i - 1);
      if k == -1 then -1 else k + 1
  }

  /** `w in s`. */
  predicate Contains(s: string, w: string) {
    Find(s, w) != -1
  }

  lemma ContainsAt(s: string, w: string, i: int)
    requires OccursAt(s, w, i)
    ensures Contains(s, w)
  {
  }

  /** A word with a character the text lacks does not occur in it. */
  lemma AbsentByChar(s: string, w: string, k: nat)
    requires k < |w| && w[k] !in s
    ensures !Contains(s, w)
  {
  }

  /** An occurrence reaching past `a` in `a + b` ends on a character of `b`. */
  lemma OccurrenceEnd(a: string, b: string, w: string, i: int)
    requires |w| > 0 && OccursAt(a + b, w, i) && i + |w| > |a|
    ensures b[i + |w| - 1 - |a|] == w[|w| - 1]
  {
    assert (a + b)[i..i + |w|][|w| - 1] == w[|w| - 1];
  }

  /** Appending characters foreign to `w` creates no occurrence of `w`. */
  lemma AppendForeign(a: string, b: string, w: string)
    requires |w| > 0 && !Contains(a, w)
    requires forall k :: 0 <= k < |b| ==> b[k] !in w
    ensures !Contains(a + b, w)
  {
    var s := a + b;
    forall i | 0 <= i && i + |w| <= |s|
      ensures !OccursAt(s, w, i)
    {
      if i + |w| <= |a| {
        assert s[i..i + |w|] == a[i..i + |w|];
        assert !OccursAt(a, w, i);
      } else {
        var j := i + |w| - 1;
        assert s[j] == b[j - |a|] && s[j] !in w;
        assert s[i..i + |w|][|w| - 1] == s[j];
      }
    }
  }

  /** `s.rfind(w)`: the highest index where `w` occurs, or -1. */
  function RFind(s: string, w: string): (r: int)
    ensures r == -1 || OccursAt(s, w, r)
    ensures r == -1 ==> forall i :: !OccursAt(s, w, i)
    ensures forall i :: r < i ==> !OccursAt(s, w, i)
    decreases |s|
  {
    if |w| <= |s| && s[|s| - |w|..] == w then |s| - |w|
    else if |s| == 0 then -1
    else
      var k := RFind(s[..|s| - 1], w);
      forall i ensures OccursAt(s[..|s| - 1], w, i) <==> (OccursAt(s, w, i) && i + |w| <= |s| - 1) {
        OccursAtPrefix(s, w, i, |s| - 1);
      }
      k
  }

  /** In `a + w + b`, where `b` lacks the last character of `w`, the last
      occurrence of `w` is the one right after `a`. */
  lemma RFindLast(a: string, w: string, b: string)
    requires |w| > 0 && w[|w| - 1] !in b
    ensures RFind(a + w + b, w) == |a|
  {
    var s := a + w + b;
    assert OccursAt(s, w, |a|) by {
      assert s[|a|..|a| + |w|] == w;
    }
    var r := RFind(s, w);
    if r > |a| {
      OccurrenceEnd(a + w, b, w, r);
    }
  }

  /** The index of the first `c` in `s`, or -1. */
  function IndexOf(s: string, c: char): (r: int)
    ensures -1 <= r < |s|
    ensures r == -1 <==> c !in s
    ensures r >= 0 ==> s[r] == c && c !in s[..r]
    decreases |s|
  {
    if |s| == 0 then -1
    else if s[0] == c then 0
    else
      var k := IndexOf(s[1..], c);
      assert s == [s[0]] + s[1..];
      if k == -1 then -1
      else
        assert s[..k + 1] == [s[0]] + s[1..][..k];
        k + 1
  }

  /** `s.startswith(p)`. */
  predicate StartsWith(s: string, p: string) {
    p <= s
  }

  /** `s.endswith(p)`. */
  predicate EndsWith(s: string, p: string) {
    |p| <= |s| && s[|s| - |p|..] == p
  }

  // ---------------------------------------------------------------------------
  // Slicing with Python's index conventions
  // ---------------------------------------------------------------------------

  /** `s[:k]`; a negative `k` counts from the end, as `s[:-1]` does. */
  function Head(s: string, k: int): (r: string)
    ensures r <= s
    ensures 0 <= k <= |s| ==> |r| == k
    ensures k == -1 && |s| > 0 ==> |r| == |s| - 1
  {
    if k >= 0 then (if k <= |s| then s[..k] else s)
    else if |s| + k >= 0 then s[..|s| + k] else []
  }

  /** `s[k:]`; a negative `k` counts from the end. */
  function Tail(s: string, k: int): (r: string)
    ensures |r| <= |s| && r == s[|s| - |r|..]
    ensures 0 <= k <= |s| ==> r == s[k..]
  {
    if k >= 0 then (if k <= |s| then s[k..] else [])
    else if |s| + k >= 0 then s[|s| + k..] else s
  }

  /** `s[a:b]` for non-negative `a` and `b`. */
  function Slice(s: string, a: nat, b: nat): string {
    Tail(Head(s, b), a)
  }

  // ---------------------------------------------------------------------------
  // Stripping
  // ---------------------------------------------------------------------------

  /** `s.lstrip()`. */
  function LStrip(s: string): (r: string)
    ensures |r| <= |s| && r == s[|s| - |r|..]
    ensures r == [] || !IsSpace(r[0])
    ensures forall i :: 0 <= i < |s| - |r| ==> IsSpace(s[i])
  {
    if |s| > 0 && IsSpace(s[0]) then LStrip(s[1..]) else s
  }

  /** `s.rstrip()`. */
  function RStripSpace(s: string): (r: string)
    ensures r <= s
    ensures r == [] || !IsSpace(r[|r| - 1])
    ensures forall i :: |r| <= i < |s| ==> IsSpace(s[i])
  {
    if |s| > 0 && IsSpace(s[|s| - 1]) then RStripSpace(s[..|s| - 1]) else s
  }

  /** `s.strip()`. */
  function Strip(s: string): (r: string)
    ensures |r| <= |s|
    ensures r == [] || (!IsSpace(r[0]) && !IsSpace(r[|r| - 1]))
    ensures forall c :: c in r ==> c in s
  {
    RStripSpace(LStrip(s))
  }

  /** `s.rstrip(c)` for a one-character argument. */
  function RStrip(s: string, c: char): (r: string)
    ensures r <= s
    ensures r == [] || r[|r| - 1] != c
    ensures forall i :: |r| <= i < |s| ==> s[i] == c
  {
    if |s| > 0 && s[|s| - 1] == c then RStrip(s[..|s| - 1], c) else s
  }

  // ---------------------------------------------------------------------------
  // Replacement
  // ---------------------------------------------------------------------------

  /** `s.replace("", t)`: `t` inserted before every character and at the end. */
  function InsertEverywhere(s: string, t: string): (r: string)
    ensures |r| == |s| + (|s| + 1) * |t|
  {
    if |s| == 0 then t else t + [s[0]] + InsertEverywhere(s[1..], t)
  }

  /** `s.replace(pat, repl)`: every leftmost, non-overlapping occurrence of
      `pat` is replaced by `repl`. */
  function Replace(s: string, pat: string, repl: string): string
    decreases |s|
  {
    if |pat| == 0 then InsertEverywhere(s, repl)
    else if |s| < |pat| then s
    else if s[..|pat|] == pat then repl + Replace(s[|pat|..], pat, repl)
    else [s[0]] + Replace(s[1..], pat, repl)
  }

  lemma InsertNothing(s: string)
    ensures InsertEverywhere(s, "") == s
  {
    if |s| > 0 {
      InsertNothing(s[1..]);
    }
  }

  /** Replacing with a string of the same length preserves the length. */
  lemma {:induction false} ReplaceSameLength(s: string, pat: string, repl: string)
    requires |pat| == |repl|
    ensures |Replace(s, pat, repl)| == |s|
    decreases |s|
  {
    if |pat| == 0 {
    } else if |s| < |pat| {
    } else if s[..|pat|] == pat {
      ReplaceSameLength(s[|pat|..], pat, repl);
    } else {
      ReplaceSameLength(s[1..], pat, repl);
    }
  }

  /** Replacing with a string no longer than the pattern never grows the text. */
  lemma {:induction false} ReplaceShrinks(s: string, pat: string, repl: string)
    requires 0 < |pat| && |repl| <= |pat|
    ensures |Replace(s, pat, repl)| <= |s|
    decreases |s|
  {
    if |s| < |pat| {
    } else if s[..|pat|] == pat {
      ReplaceShrinks(s[|pat|..], pat, repl);
    } else {
      ReplaceShrinks(s[1..], pat, repl);
    }
  }

  /** Every character of the result comes from the text or from `repl`. */
  lemma {:induction false} ReplaceChars(s: string, pat: string, repl: string)
    requires |pat| > 0
    ensures forall c :: c in Replace(s, pat, repl) ==> c in s || c in repl
    decreases |s|
  {
    if |s| < |pat| {
    } else if s[..|pat|] == pat {
      ReplaceChars(s[|pat|..], pat, repl);
    } else {
      ReplaceChars(s[1..], pat, repl);
    }
  }

  /** A text in which `pat` does not occur is returned unchanged. */
  lemma {:induction false} ReplaceAbsent(s: string, pat: string, repl: string)
    requires |pat| > 0 && !Contains(s, pat)
    ensures Replace(s, pat, repl) == s
    decreases |s|
  {
    if |s| < |pat| {
    } else {
      assert !OccursAt(s, pat, 0);
      forall i | i >= 0 ensures !OccursAt(s[1..], pat, i) {
        OccursAtTail(s, pat, i);
      }
      ReplaceAbsent(s[1..], pat, repl);
      assert s == [s[0]] + s[1..];
    }
  }

  /** Replacing one character by another works position by position. */
  lemma {:induction false} ReplaceCharPointwise(s: string, c: char, d: char)
    ensures |Replace(s, [c], [d])| == |s|
    ensures forall i :: 0 <= i < |s| ==> Replace(s, [c], [d])[i] == if s[i] == c then d else s[i]
    decreases |s|
  {
    if |s| > 0 {
      ReplaceCharPointwise(s[1..], c, d);
      var head := if s[..1] == [c] then [d] else [s[0]];
      assert Replace(s, [c], [d]) == head + Replace(s[1..], [c], [d]);
    }
  }

  /** With a non-empty replacement, the first character of the result is the
      text's first character or the replacement's. */
  lemma {:induction false} ReplaceFirst(s: string, pat: string, repl: string)
    requires |pat| > 0 && |repl| > 0 && |s| > 0
    ensures |Replace(s, pat, repl)| > 0
    ensures Replace(s, pat, repl)[0] == s[0] || Replace(s, pat, repl)[0] == repl[0]
  {
  }

  /** When the pattern does not start the text, the result starts with the
      text's first character. */
  lemma ReplaceHead(s: string, pat: string, repl: string)
    requires |pat| > 0 && |s| > 0 && !OccursAt(s, pat, 0)
    ensures |Replace(s, pat, repl)| > 0 && Replace(s, pat, repl)[0] == s[0]
  {
  }

  /** With a non-empty replacement, the last character of the result is the
      text's last character or the replacement's. */
  lemma {:induction false} ReplaceLast(s: string, pat: string, repl: string)
    requires |pat| > 0 && |repl| > 0 && |s| > 0
    ensures |Replace(s, pat, repl)| > 0
    ensures var r := Replace(s, pat, repl);
            r[|r| - 1] == s[|s| - 1] || r[|r| - 1] == repl[|repl| - 1]
    decreases |s|
  {
    if |s| < |pat| {
    } else if s[..|pat|] == pat {
      if |s| > |pat| {
        ReplaceLast(s[|pat|..], pat, repl);
      }
    } else {
      if |s| > 1 {
        ReplaceLast(s[1..], pat, repl);
      }
    }
  }

  // ---------------------------------------------------------------------------
  // Splitting and joining
  // ---------------------------------------------------------------------------

  /** `sep.join(parts)`. */
  function Join(sep: string, parts: seq<string>): string
    decreases |parts|
  {
    if |parts| == 0 then ""
    else if |parts| == 1 then parts[0]
    else parts[0] + sep + Join(sep, parts[1..])
  }

  /** `s.split(c)` for a one-character separator: always at least one part,
      empty parts kept, and joining the parts gives back `s`. */
  function Split(s: string, c: char): (parts: seq<string>)
    ensures |parts| >= 1
    ensures forall i :: 0 <= i < |parts| ==> c !in parts[i]
    decreases |s|
  {
    var i := IndexOf(s, c);
    if i < 0 then [s]
    else
      var rest := Split(s[i + 1..], c);
      assert forall k :: 1 <= k < |rest| + 1 ==> ([s[..i]] + rest)[k] == rest[k - 1];
      [s[..i]] + rest
  }

  lemma JoinCons(sep: string, p: string, rest: seq<string>)
    requires |rest| >= 1
    ensures Join(sep, [p] + rest) == p + sep + Join(sep, rest)
  {
    assert ([p] + rest)[1..] == rest;
  }

  lemma SplitAt(s: string, c: char, i: int)
    requires 0 <= i < |s| && s[i] == c
    ensures s == s[..i] + [c] + s[i + 1..]
  {
  }

  /** Joining the parts with the separator gives back the text. */
  lemma {:induction false} JoinSplit(s: string, c: char)
    ensures Join([c], Split(s, c)) == s
    decreases |s|
  {
    var i := IndexOf(s, c);
    if i >= 0 {
      var rest := Split(s[i + 1..], c);
      JoinSplit(s[i + 1..], c);
      JoinCons([c], s[..i], rest);
      SplitAt(s, c, i);
    }
  }

  /** The first `c` in `p + [c] + t` is the one right after `p` when `p` has none. */
  lemma IndexOfAfter(p: string, c: char, t: string)
    requires c !in p
    ensures IndexOf(p + [c] + t, c) == |p|
  {
    var s := p + [c] + t;
    var r := IndexOf(s, c);
    assert s[|p|] == c;
    assert s[..|p|] == p;
    assert r <= |p| ==> s[..r] == p[..r];
  }

  /** Splitting a join of separator-free parts gives the parts back. */
  lemma {:induction false} SplitJoin(parts: seq<string>, c: char)
    requires |parts| >= 1
    requires forall i :: 0 <= i < |parts| ==> c !in parts[i]
    ensures Split(Join([c], parts), c) == parts
    decreases |parts|
  {
    if |parts| > 1 {
      var p := parts[0];
      var t := Join([c], parts[1..]);
      var s := Join([c], parts);
      assert s == p + [c] + t;
      IndexOfAfter(p, c, t);
      assert s[..|p|] == p;
      assert s[|p| + 1..] == t;
      SplitJoin(parts[1..], c);
      assert Split(s, c) == [p] + Split(t, c);
      assert parts == [p] + parts[1..];
    }
  }

  /** Splitting at a first separator right after a separator-free prefix. */
  lemma SplitCons(p: string, c: char, t: string)
    requires c !in p
    ensures Split(p + [c] + t, c) == [p] + Split(t, c)
  {
    var s := p + [c] + t;
    IndexOfAfter(p, c, t);
    assert s[..|p|] == p;
    assert s[|p| + 1..] == t;
  }

  /** A text without the separator splits into itself alone. */
  lemma SplitNone(s: string, c: char)
    requires c !in s
    ensures Split(s, c) == [s]
  {
  }

  /** Joining with one more part appends the separator and that part. */
  lemma {:induction false} JoinSnoc(sep: string, parts: seq<string>, x: string)
    requires |parts| >= 1
    ensures Join(sep, parts + [x]) == Join(sep, parts) + sep + x
    decreases |parts|
  {
    if |parts| > 1 {
      JoinSnoc(sep, parts[1..], x);
      assert (parts + [x])[1..] == parts[1..] + [x];
    } else {
      assert (parts + [x])[1..] == [x];
    }
  }

  /** Length of the leading run of non-whitespace characters. */
  function WordLength(s: string): (k: nat)
    ensures k <= |s|
    ensures forall j :: 0 <= j < k ==> !IsSpace(s[j])
    ensures k == |s| || IsSpace(s[k])
    ensures |s| > 0 && !IsSpace(s[0]) ==> k >= 1
  {
    if |s| == 0 || IsSpace(s[0]) then 0 else 1 + WordLength(s[1..])
  }

  predicate NoSpace(w: string) {
    forall j :: 0 <= j < |w| ==> !IsSpace(w[j])
  }

  /** A non-empty run of non-whitespace characters. */
  predicate IsWord(w: string) {
    |w| > 0 && NoSpace(w)
  }

  /** `s.split()`: the maximal runs of non-whitespace characters. */
  function Words(s: string): seq<string>
    decreases |s|
  {
    var t := LStrip(s);
    if |t| == 0 then []
    else [t[..WordLength(t)]] + Words(t[WordLength(t)..])
  }

  /** Every piece `s.split()` yields is a non-empty run free of whitespace. */
  lemma {:induction false} WordsAreWords(s: string)
    ensures forall i :: 0 <= i < |Words(s)| ==> IsWord(Words(s)[i])
    decreases |s|
  {
    var t := LStrip(s);
    if |t| > 0 {
      var k := WordLength(t);
      WordsAreWords(t[k..]);
      var ws := Words(s);
      var rest := Words(t[k..]);
      assert ws == [t[..k]] + rest;
      forall i | 0 <= i < |ws|
        ensures IsWord(ws[i])
      {
        if i > 0 {
          assert ws[i] == rest[i - 1];
        }
      }
    }
  }

  // ---------------------------------------------------------------------------
  // Character maps and filters
  // ---------------------------------------------------------------------------

  function UpperChar(c: char): char {
    if 'a' <= c <= 'z' then (c as int - 32) as char else c
  }

  /** `s.upper()` on ASCII letters. */
  function Upper(s: string): (r: string)
    ensures |r| == |s|
    ensures forall i :: 0 <= i < |s| ==> r[i] == UpperChar(s[i])
  {
    seq(|s|, i requires 0 <= i < |s| => UpperChar(s[i]))
  }

  lemma UpperTwice(s: string)
    ensures Upper(Upper(s)) == Upper(s)
  {
  }

  /** Upper-casing changes letters only. */
  lemma UpperKeeps(s: string, c: char)
    requires !('a' <= c <= 'z') && !('A' <= c <= 'Z')
    ensures c in Upper(s) <==> c in s
  {
    if c in s {
      var i :| 0 <= i < |s| && s[i] == c;
      assert Upper(s)[i] == c;
    }
    if c in Upper(s) {
      var i :| 0 <= i < |s| && Upper(s)[i] == c;
      assert s[i] == c;
    }
  }

  /** `''.join(filter(str.isprintable, s))`. */
  function FilterPrintable(s: string): (r: string)
    ensures |r| <= |s|
    ensures AllPrintable(r)
    ensures forall c :: c in r ==> c in s
    ensures AllPrintable(s) ==> r == s
  {
    if |s| == 0 then []
    else if IsPrintable(s[0]) then [s[0]] + FilterPrintable(s[1..])
    else FilterPrintable(s[1..])
  }

  /** `c * n`. */
  function Repeat(c: char, n: nat): (r: string)
    ensures |r| == n
    ensures forall i :: 0 <= i < n ==> r[i] == c
  {
    seq(n, _ => c)
  }

  /** `str(n)` for a natural number. */
  function DecimalString(n: nat): (r: string)
    ensures |r| >= 1
    ensures forall i :: 0 <= i < |r| ==> '0' <= r[i] <= '9'
  {
    var d := [(48 + n % 10) as char];
    if n < 10 then d else DecimalString(n / 10) + d
  }
}
