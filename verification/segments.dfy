/** Helpers of the reference-segment extraction: inverting the ID map,
    cutting text windows around sentences that mention a referenced ID,
    stripping strings, finding bracketed citations, and the clean-up of a
    segment before classification. Sentence splitting and the regular
    expression engine are inputs. */
module Segments {
  import opened Wrappers
  import opened PyStr
  import opened Seqs

  // ---------------------------------------------------------------------------
  // Inverting a map
  // ---------------------------------------------------------------------------

  /** The keys stored with value `v` among the entries `items`. */
  function KeysWith<V(==)>(items: seq<(string, V)>, v: V): set<string> {
    set p | p in items && p.1 == v :: p.0
  }

  /** The loop of `swap_and_filter_dict`: each key joins its value's set. */
  function Swap<V(==)>(acc: map<V, set<string>>, items: seq<(string, V)>): map<V, set<string>>
    decreases |items|
  {
    if |items| == 0 then acc
    else
      var (k, v) := items[0];
      Swap(acc[v := (if v in acc then acc[v] else {}) + {k}], items[1..])
  }

  lemma {:induction false} SwapSpec<V>(acc: map<V, set<string>>, items: seq<(string, V)>, v: V)
    ensures v in Swap(acc, items) <==> v in acc || exists p :: p in items && p.1 == v
    ensures v in Swap(acc, items) ==>
              Swap(acc, items)[v] == (if v in acc then acc[v] else {}) + KeysWith(items, v)
    decreases |items|
  {
    if |items| > 0 {
      var (k, w) := items[0];
      var acc1 := acc[w := (if w in acc then acc[w] else {}) + {k}];
      SwapSpec(acc1, items[1..], v);
      assert items == [items[0]] + items[1..];
      assert KeysWith(items, v) == (if w == v then {k} else {}) + KeysWith(items[1..], v);
    }
  }

  /** `swap_and_filter_dict`: from value to the keys holding it, for the
      values in `filter` only. */
  function SwapAndFilter<V(==)>(dct: seq<(string, V)>, filter: set<V>): map<V, set<string>> {
    var m := Swap(map[], dct);
    map v | v in m.Keys && v in filter :: m[v]
  }

  /** The keys of the result are exactly the stored values that lie in the
      filter, and each maps to the non-empty set of keys holding it. */
  lemma SwapAndFilterSpec<V>(dct: seq<(string, V)>, filter: set<V>, v: V)
    ensures v in SwapAndFilter(dct, filter) <==> v in filter && exists p :: p in dct && p.1 == v
    ensures v in SwapAndFilter(dct, filter) ==>
              SwapAndFilter(dct, filter)[v] == KeysWith(dct, v) && KeysWith(dct, v) != {}
  {
    SwapSpec(map[], dct, v);
    if exists p :: p in dct && p.1 == v {
      var p :| p in dct && p.1 == v;
      assert p.0 in KeysWith(dct, v);
    }
  }

  // ---------------------------------------------------------------------------
  // Windows around hit sentences
  // ---------------------------------------------------------------------------

  /** `any(x in sent for x in keywords)`. */
  predicate HasKeyword(sent: string, keywords: seq<string>) {
    exists i :: 0 <= i < |keywords| && Contains(sent, keywords[i])
  }

  /** `sentences_with_hits`, in sentence order. */
  function Hits(sentences: seq<string>, keywords: seq<string>): (h: seq<string>)
    ensures forall s :: s in h <==> s in sentences && HasKeyword(s, keywords)
    decreases |sentences|
  {
    if |sentences| == 0 then []
    else
      var rest := Hits(sentences[1..], keywords);
      assert forall s :: s in sentences <==> s == sentences[0] || s in sentences[1..];
      if HasKeyword(sentences[0], keywords) then [sentences[0]] + rest else rest
  }

  /** `Hits` is a filter: on a concatenation it is the concatenation of the
      hits of each part, in order and with repeats kept. */
  lemma {:induction false} HitsAppend(a: seq<string>, b: seq<string>, keywords: seq<string>)
    ensures Hits(a + b, keywords) == Hits(a, keywords) + Hits(b, keywords)
    decreases |a|
  {
    if |a| == 0 {
      assert a + b == b;
    } else {
      assert (a + b)[0] == a[0] && (a + b)[1..] == a[1..] + b;
      HitsAppend(a[1..], b, keywords);
    }
  }

  /** A single sentence is a hit exactly when it mentions a keyword. */
  lemma HitsOne(sent: string, keywords: seq<string>)
    ensures Hits([sent], keywords) == if HasKeyword(sent, keywords) then [sent] else []
  {
    assert [sent][1..] == [];
  }

  /** The three hit sentences before the `i`th, when there are three. */
  function Before(h: seq<string>, i: nat): string
    requires i < |h|
  {
    if i > 2 then h[i - 3] + h[i - 2] + h[i - 1] else ""
  }

  /** The hit sentence after the `i`th, when there is one. */
  function After(h: seq<string>, i: nat): string
    requires i < |h|
  {
    if i < |h| - 1 then h[i + 1] else ""
  }

  /** The segment of the `i`th hit sentence. */
  function Window(h: seq<string>, i: nat): (w: string)
    requires i < |h|
    ensures OccursAt(w, h[i], |Before(h, i)|)
  {
    var w := Before(h, i) + h[i] + After(h, i);
    assert w[|Before(h, i)|..|Before(h, i)| + |h[i]|] == h[i];
    w
  }

  /** The segments of the first `n` hit sentences. */
  function WindowsUpTo(h: seq<string>, n: nat): (r: set<string>)
    requires n <= |h|
    ensures |r| <= n
    ensures forall w :: w in r <==> exists i :: 0 <= i < n && w == Window(h, i)
  {
    if n == 0 then {}
    else
      var prev := WindowsUpTo(h, n - 1);
      assert |prev + {Window(h, n - 1)}| <= |prev| + 1;
      prev + {Window(h, n - 1)}
  }

  /** `fill_reference_segments` after sentence splitting. */
  function FillSegments(sentences: seq<string>, keywords: seq<string>): Option<set<string>> {
    var h := Hits(sentences, keywords);
    if |h| == 0 then None else Some(WindowsUpTo(h, |h|))
  }

  /** There are no segments exactly when no sentence mentions a keyword;
      otherwise every segment is the window of some hit sentence and holds
      it right after the (possibly empty) three preceding hits, every hit
      sentence has its window, and there are no more segments than hits. */
  lemma FillSegmentsSpec(sentences: seq<string>, keywords: seq<string>)
    ensures var r := FillSegments(sentences, keywords);
            var h := Hits(sentences, keywords);
      && (r.None? <==> forall i :: 0 <= i < |sentences| ==> !HasKeyword(sentences[i], keywords))
      && (r.Some? ==> |r.value| <= |h|
                      && (forall i :: 0 <= i < |h| ==> Window(h, i) in r.value)
                      && (forall w :: w in r.value ==> exists i :: 0 <= i < |h| && w == Window(h, i)
                                                                && OccursAt(w, h[i], |Before(h, i)|)))
  {
    var h := Hits(sentences, keywords);
    if |h| == 0 {
      forall i | 0 <= i < |sentences|
        ensures !HasKeyword(sentences[i], keywords)
      {
        assert sentences[i] in sentences;
      }
    } else {
      assert h[0] in h;
    }
  }

  /** The window of a hit sentence with three predecessors starts with them,
      and one with fewer starts with the sentence itself; the window of any
      hit but the last ends with the next one, and that of the last ends with
      the sentence itself. */
  lemma WindowShape(h: seq<string>, i: nat)
    requires i < |h|
    ensures i >= 3 ==> h[i - 3] + h[i - 2] + h[i - 1] <= Window(h, i)
    ensures i < 3 ==> h[i] <= Window(h, i)
    ensures i < |h| - 1 ==> EndsWith(Window(h, i), h[i + 1])
    ensures i == |h| - 1 ==> Window(h, i) == Before(h, i) + h[i]
    ensures i < 3 && i < |h| - 1 ==> Window(h, i) == h[i] + h[i + 1]
    ensures i < 3 && i == |h| - 1 ==> Window(h, i) == h[i]
  {
    var w := Window(h, i);
    if i >= 3 {
      var b := h[i - 3] + h[i - 2] + h[i - 1];
      assert w == b + (h[i] + After(h, i));
    }
    if i < |h| - 1 {
      var a := Before(h, i) + h[i];
      assert w == a + h[i + 1];
      assert w[|w| - |h[i + 1]|..] == h[i + 1];
    }
  }

  // ---------------------------------------------------------------------------
  // Stripping
  // ---------------------------------------------------------------------------

  /** `strip_all`: each item is replaced by nothing, in list order; a missing
      list leaves the text as it is. */
  function StripAll(text: string, toStrip: Option<seq<string>>): string {
    match toStrip
    case None => text
    case Some(items) => RemoveEach(text, items)
  }

  function RemoveEach(text: string, items: seq<string>): string
    decreases |items|
  {
    if |items| == 0 then text else RemoveEach(Replace(text, items[0], ""), items[1..])
  }

  /** Removing a string never adds a character. */
  lemma RemoveKeeps(s: string, pat: string)
    ensures |Replace(s, pat, "")| <= |s|
    ensures forall c :: c in Replace(s, pat, "") ==> c in s
  {
    if |pat| == 0 {
      InsertNothing(s);
    } else {
      ReplaceShrinks(s, pat, "");
      ReplaceChars(s, pat, "");
    }
  }

  /** Removing a single character removes all of its occurrences. */
  lemma {:induction false} RemoveChar(s: string, c: char)
    ensures c !in Replace(s, [c], "")
    decreases |s|
  {
    if |s| > 0 {
      RemoveChar(s[1..], c);
      if s[..1] != [c] {
        assert Replace(s, [c], "") == [s[0]] + Replace(s[1..], [c], "");
      }
    }
  }

  /** The stripped text is never longer than the text and uses only its
      characters; a single-character item no longer occurs in it. */
  lemma {:induction false} RemoveEachSpec(text: string, items: seq<string>)
    ensures |RemoveEach(text, items)| <= |text|
    ensures forall c :: c in RemoveEach(text, items) ==> c in text
    ensures forall i :: 0 <= i < |items| && |items[i]| == 1 ==> items[i][0] !in RemoveEach(text, items)
    decreases |items|
  {
    if |items| > 0 {
      var t1 := Replace(text, items[0], "");
      RemoveKeeps(text, items[0]);
      RemoveEachSpec(t1, items[1..]);
      if |items[0]| == 1 {
        assert items[0] == [items[0][0]];
        RemoveChar(text, items[0][0]);
      }
      forall i | 1 <= i < |items| && |items[i]| == 1
        ensures items[i][0] !in RemoveEach(text, items)
      {
        assert items[i] == items[1..][i - 1];
      }
    }
  }

  /** With a list, the result shrinks and loses every single-character item;
      without one, the text is returned unchanged. */
  lemma StripAllSpec(text: string, toStrip: Option<seq<string>>)
    ensures toStrip.None? ==> StripAll(text, toStrip) == text
    ensures |StripAll(text, toStrip)| <= |text|
    ensures toStrip.Some? ==> forall i :: 0 <= i < |toStrip.value| && |toStrip.value[i]| == 1 ==>
              toStrip.value[i][0] !in StripAll(text, toStrip)
  {
    if toStrip.Some? {
      RemoveEachSpec(text, toStrip.value);
    }
  }

  // The worked examples in this module name their literal with a parameter
  // and a `requires x == "..."` rather than writing it into the ensures:
  // the verifier then reasons about slices and indices of one variable
  // instead of unfolding the literal at every occurrence.
  /** A longer item can survive: one left-to-right pass of `replace` joins
      the text around a removed occurrence into a new one. */
  lemma StripAllLeavesJoined(text: string, item: string)
    requires text == "aabb" && item == "ab"
    ensures StripAll(text, Some([item])) == item
  {
    var tail := text[1..];
    assert text[..2][1] == 'a' && item[1] == 'b';
    assert tail[..2] == item;
    assert Replace(tail[2..], item, "") == "b";
    assert Replace(tail, item, "") == "b";
    assert Replace(text, item, "") == "ab";
    assert [item][1..] == [];
    assert RemoveEach(text, [item]) == RemoveEach(Replace(text, item, ""), []);
    assert "ab" == item;
  }

  // ---------------------------------------------------------------------------
  // Bracketed citations
  // ---------------------------------------------------------------------------

  /** The matches of the bracket pattern built for a keyword in a sentence:
      each bracketed group followed later in the sentence by the keyword. */
  type BracketFinder = (string, string) -> seq<string>

  /** The pairs one sentence contributes, keyword by keyword. */
  function SentenceBrackets(sent: string, keywords: seq<string>, find: BracketFinder): seq<(string, string)>
    decreases |keywords|
  {
    if |keywords| == 0 then []
    else
      var ms := find(sent, keywords[0]);
      (if |ms| > 0 then [(ms[|ms| - 1], keywords[0])] else []) + SentenceBrackets(sent, keywords[1..], find)
  }

  /** `find_bracket_pattern`. */
  function FindBracketPattern(sentences: seq<string>, keywords: seq<string>, find: BracketFinder): seq<(string, string)>
    decreases |sentences|
  {
    if |sentences| == 0 then []
    else SentenceBrackets(sentences[0], keywords, find) + FindBracketPattern(sentences[1..], keywords, find)
  }

  /** `(m, k)` is the last bracket group found for keyword `k` in `sent`. */
  predicate LastBracket(sent: string, k: string, m: string, find: BracketFinder) {
    |find(sent, k)| > 0 && m == find(sent, k)[|find(sent, k)| - 1]
  }

  lemma {:induction false} SentenceBracketsSpec(sent: string, keywords: seq<string>, find: BracketFinder, pr: (string, string))
    ensures |SentenceBrackets(sent, keywords, find)| <= |keywords|
    ensures pr in SentenceBrackets(sent, keywords, find) <==> pr.1 in keywords && LastBracket(sent, pr.1, pr.0, find)
    decreases |keywords|
  {
    if |keywords| > 0 {
      SentenceBracketsSpec(sent, keywords[1..], find, pr);
      assert keywords == [keywords[0]] + keywords[1..];
    }
  }

  /** At most one pair per sentence and keyword, and a pair is there exactly
      when some sentence has a bracket group for that keyword, whose last
      group it holds. */
  lemma {:induction false} FindBracketPatternSpec(sentences: seq<string>, keywords: seq<string>, find: BracketFinder, pr: (string, string))
    ensures |FindBracketPattern(sentences, keywords, find)| <= |sentences| * |keywords|
    ensures pr in FindBracketPattern(sentences, keywords, find) <==>
              pr.1 in keywords && exists s :: s in sentences && LastBracket(s, pr.1, pr.0, find)
    decreases |sentences|
  {
    if |sentences| > 0 {
      SentenceBracketsSpec(sentences[0], keywords, find, pr);
      FindBracketPatternSpec(sentences[1..], keywords, find, pr);
      SentencesCons(sentences, pr.1, pr.0, find);
      MulStep(|sentences|, |keywords|);
    }
  }

  lemma SentencesCons(sentences: seq<string>, k: string, m: string, find: BracketFinder)
    requires |sentences| > 0
    ensures (exists s :: s in sentences && LastBracket(s, k, m, find)) <==>
              LastBracket(sentences[0], k, m, find) || exists s :: s in sentences[1..] && LastBracket(s, k, m, find)
  {
    HeadTail(sentences);
  }

  /** The nonlinear step of the bound above, which the solver does not find
      unaided. */
  lemma MulStep(a: nat, b: nat)
    requires a > 0
    ensures a * b == b + (a - 1) * b
  {
  }

  // ---------------------------------------------------------------------------
  // Cleaning a segment
  // ---------------------------------------------------------------------------

  /** `" ".join(segment.split())`. */
  function Collapse(s: string): string {
    Join(" ", Words(s))
  }

  lemma LStripWord(s: string)
    requires |s| > 0 && !IsSpace(s[0])
    ensures LStrip(s) == s
  {
  }

  lemma LStripOneSpace(t: string)
    requires |t| > 0 && !IsSpace(t[0])
    ensures LStrip(" " + t) == t
  {
    var s := " " + t;
    assert IsSpace(s[0]);
    assert s[1..] == t;
  }

  lemma {:induction false} WordLengthWord(w: string, t: string)
    requires IsWord(w)
    requires t == [] || IsSpace(t[0])
    ensures WordLength(w + t) == |w|
    decreases |w|
  {
    var s := w + t;
    assert s[0] == w[0];
    if |w| > 1 {
      assert s[1..] == w[1..] + t;
      WordLengthWord(w[1..], t);
    } else {
      assert s[1..] == t;
    }
  }

  /** `s.split()` when `s` starts with the word `w`. */
  lemma WordsStart(s: string, w: string)
    requires |s| > 0 && !IsSpace(s[0]) && WordLength(s) == |w| && s[..|w|] == w
    ensures Words(s) == [w] + Words(s[|w|..])
  {
    LStripWord(s);
  }

  /** A space before a word does not change the words. */
  lemma WordsSkipSpace(j: string)
    requires |j| > 0 && !IsSpace(j[0])
    ensures Words(" " + j) == Words(j)
  {
    LStripOneSpace(j);
    LStripWord(j);
  }

  /** `(w + " " + j).split()` starts with the word `w` and goes on with the
      words of `j`. */
  lemma WordsCons(w: string, j: string)
    requires IsWord(w) && |j| > 0 && !IsSpace(j[0])
    ensures Words(w + " " + j) == [w] + Words(j)
  {
    var s := w + (" " + j);
    assert w + " " + j == s;
    WordLengthWord(w, " " + j);
    assert s[..|w|] == w;
    assert s[|w|..] == " " + j;
    WordsStart(s, w);
    WordsSkipSpace(j);
  }

  /** A single word is its own only word. */
  lemma WordsOne(w: string)
    requires IsWord(w)
    ensures Words(w) == [w]
  {
    LStripWord(w);
    WordLengthWord(w, []);
    assert w + [] == w;
    assert w[..|w|] == w && w[|w|..] == [];
  }

  lemma {:induction false} WordsJoin(ws: seq<string>)
    requires forall i :: 0 <= i < |ws| ==> IsWord(ws[i])
    ensures Words(Join(" ", ws)) == ws
    ensures Join(" ", ws) == [] <==> ws == []
    ensures ws != [] ==> Join(" ", ws)[0] == ws[0][0]
    decreases |ws|
  {
    JoinWordsShape(ws);
    if |ws| == 1 {
      WordsOne(ws[0]);
    } else if |ws| > 1 {
      WordsTail(ws);
      WordsJoin(ws[1..]);
      WordsJoinStep(ws);
    }
  }

  lemma WordsTail(ws: seq<string>)
    requires |ws| > 0 && forall i :: 0 <= i < |ws| ==> IsWord(ws[i])
    ensures forall i :: 0 <= i < |ws[1..]| ==> IsWord(ws[1..][i])
  {
    forall i | 0 <= i < |ws[1..]| ensures IsWord(ws[1..][i]) {
      assert ws[1..][i] == ws[i + 1];
    }
  }

  /** Words joined by single spaces: empty only when there are none, and
      starting with the first word's first character. */
  lemma JoinWordsShape(ws: seq<string>)
    requires forall i :: 0 <= i < |ws| ==> IsWord(ws[i])
    ensures Join(" ", ws) == [] <==> ws == []
    ensures ws != [] ==> IsWord(ws[0]) && Join(" ", ws)[0] == ws[0][0]
  {
    if |ws| > 1 {
      HeadTail(ws);
      JoinCons(" ", ws[0], ws[1..]);
    }
  }

  /** The step of the induction: the first word, a space, and the rest. */
  lemma WordsJoinStep(ws: seq<string>)
    requires |ws| > 1 && forall i :: 0 <= i < |ws| ==> IsWord(ws[i])
    requires forall i :: 0 <= i < |ws[1..]| ==> IsWord(ws[1..][i])
    requires Words(Join(" ", ws[1..])) == ws[1..]
    ensures Words(Join(" ", ws)) == ws
  {
    HeadTail(ws);
    JoinCons(" ", ws[0], ws[1..]);
    JoinWordsShape(ws[1..]);
    WordsCons(ws[0], Join(" ", ws[1..]));
  }

  /** The collapsed text has the same words, and so collapsing twice is
      collapsing once; it neither starts nor ends with whitespace. */
  lemma CollapseSpec(s: string)
    ensures Words(Collapse(s)) == Words(s)
    ensures Collapse(Collapse(s)) == Collapse(s)
    ensures var r := Collapse(s); r == [] || (!IsSpace(r[0]) && !IsSpace(r[|r| - 1]))
  {
    WordsAreWords(s);
    WordsJoin(Words(s));
    var ws := Words(s);
    if |ws| > 0 {
      JoinLast(ws);
    }
  }

  lemma {:induction false} JoinLast(ws: seq<string>)
    requires |ws| > 0 && forall i :: 0 <= i < |ws| ==> IsWord(ws[i])
    ensures var j := Join(" ", ws); |j| > 0 && !IsSpace(j[|j| - 1])
    decreases |ws|
  {
    if |ws| > 1 {
      JoinLast(ws[1..]);
      var j := Join(" ", ws[1..]);
      assert Join(" ", ws) == ws[0] + " " + j;
    }
  }

  /** The placeholder a referenced ID is replaced with. */
  const Placeholder: string := "REFERENCED_CERTIFICATE_ID"

  function ReplaceEach(s: string, keywords: seq<string>, repl: string): string
    decreases |keywords|
  {
    if |keywords| == 0 then s else ReplaceEach(Replace(s, keywords[0], repl), keywords[1..], repl)
  }

  /** `process_segment`. */
  function ProcessSegment(segment: string, keywords: seq<string>): string {
    ReplaceEach(Collapse(segment), keywords, Placeholder)
  }

  lemma {:induction false} ReplaceEachAbsent(s: string, keywords: seq<string>, repl: string)
    requires forall i :: 0 <= i < |keywords| ==> |keywords[i]| > 0 && !Contains(s, keywords[i])
    ensures ReplaceEach(s, keywords, repl) == s
    decreases |keywords|
  {
    if |keywords| > 0 {
      ReplaceAbsent(s, keywords[0], repl);
      ReplaceEachAbsent(s, keywords[1..], repl);
    }
  }

  /** A segment that mentions none of the keywords is only collapsed. */
  lemma ProcessSegmentPlain(segment: string, keywords: seq<string>)
    requires forall i :: 0 <= i < |keywords| ==> |keywords[i]| > 0 && !Contains(Collapse(segment), keywords[i])
    ensures ProcessSegment(segment, keywords) == Collapse(segment)
  {
    ReplaceEachAbsent(Collapse(segment), keywords, Placeholder);
  }

  /** A whole text equal to the pattern becomes the replacement. */
  lemma ReplaceWhole(k: string, repl: string)
    requires |k| > 0
    ensures Replace(k, k, repl) == repl
  {
    assert k[..|k|] == k;
    assert Replace(k[|k|..], k, repl) == [];
  }

  lemma CollapseWord(k: string)
    requires IsWord(k)
    ensures Collapse(k) == k
  {
    WordsOne(k);
  }

  /** A keyword standing alone as the segment is replaced. */
  lemma ProcessSegmentOne(k: string)
    requires IsWord(k)
    ensures ProcessSegment(k, [k]) == Placeholder
  {
    CollapseWord(k);
    ReplaceWhole(k, Placeholder);
    assert [k][1..] == [];
    assert ProcessSegment(k, [k]) == ReplaceEach(Replace(k, k, Placeholder), [], Placeholder);
  }
}
