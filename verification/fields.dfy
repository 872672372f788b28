/** Small rewrites of single CSV and CPE fields: the security level with its
    augmentation items, protection-profile links, percent escapes in CPE
    names, and the word-by-word containment test used to match CPE vendors
    and products. */
module Fields {
  import opened Wrappers
  import opened PyStr
  import opened Seqs
  import opened RuleMatcher

  // ---------------------------------------------------------------------------
  // Security level
  // ---------------------------------------------------------------------------

  /** The assurance level and its augmentation items. */
  datatype SecurityLevel = SecurityLevel(eal: string, augmented: seq<string>)

  /** The lazy group `(.+?) ` of the item pattern, read from `t` at index `j`:
      the index of the first space at position 1 or later, provided no
      newline comes before it. */
  function LazyGroup(t: string, j: nat): (r: Option<nat>)
    ensures r.Some? ==> 1 <= r.value < |t| && j <= r.value && t[r.value] == ' '
    decreases |t| - j
  {
    if j >= |t| then None
    else if t[j] == ' ' && j >= 1 then Some(j)
    else if t[j] == '\n' then None
    else LazyGroup(t, j + 1)
  }

  /** `s` starts with `<br>`, spelled out character by character. */
  predicate TagAt(s: string) {
    |s| >= 4 && s[0] == '<' && s[1] == 'b' && s[2] == 'r' && s[3] == '>'
  }

  /** The groups `re.finditer('<br>(.+?) ', chunk)` captures, in order: a
      match is taken where one starts and the search resumes after it; where
      none starts the search moves one character on. */
  function Groups(chunk: string): seq<string>
    decreases |chunk|
  {
    if |chunk| < 4 then []
    else if TagAt(chunk) && LazyGroup(chunk[4..], 0).Some? then
      var j := LazyGroup(chunk[4..], 0).value;
      [chunk[4..4 + j]] + Groups(chunk[4 + j + 1..])
    else Groups(chunk[1..])
  }

  /** `parse_security_level`: everything before the first `<br>`, normalised,
      and the augmentation items after it; a level without `<br>` is kept
      as it is, with no items. */
  function ParseSecurityLevel(level: string): (r: SecurityLevel)
    ensures !Contains(level, "<br>") ==> r == SecurityLevel(level, [])
    ensures Contains(level, "<br>") ==> |r.eal| <= |level|
  {
    var p := Find(level, "<br>");
    if p == -1 then SecurityLevel(level, [])
    else SecurityLevel(Normalize(level[..p]), Map(Normalize, Groups(level[p..] + " ")))
  }

  /** The way the CSV writes augmentation items: each one after `<br>` and
      followed by a space. */
  function Tagged(items: seq<string>): string
    decreases |items|
  {
    if |items| == 0 then "" else "<br>" + items[0] + " " + Tagged(items[1..])
  }

  /** An item is one word: non-empty, without spaces or newlines. */
  predicate IsItem(w: string) {
    w != "" && ' ' !in w && '\n' !in w
  }

  lemma {:induction false} LazyGroupWord(w: string, rest: string, j: nat)
    requires IsItem(w) && j <= |w|
    ensures LazyGroup(w + " " + rest, j) == Some(|w|)
    decreases |w| - j
  {
    var t := w + " " + rest;
    assert t[|w|] == ' ';
    if j < |w| {
      assert t[j] == w[j];
      LazyGroupWord(w, rest, j + 1);
    }
  }

  /** One tagged item is read and the search resumes after its space. */
  lemma GroupsHead(br: string, w: string, rest: string)
    requires br == "<br>" && IsItem(w)
    ensures Groups(br + w + " " + rest) == [w] + Groups(rest)
  {
    var chunk := br + w + " " + rest;
    TagSlices(br, w, rest);
    LazyGroupWord(w, rest, 0);
  }

  lemma TagSlices(br: string, w: string, rest: string)
    requires br == "<br>"
    ensures var chunk := br + w + " " + rest;
            TagAt(chunk) && chunk[4..] == w + " " + rest
            && chunk[4..4 + |w|] == w && chunk[4 + |w| + 1..] == rest
  {
  }

  /** The items written by `Tagged` are read back. */
  lemma {:induction false} GroupsTagged(items: seq<string>)
    requires forall i :: 0 <= i < |items| ==> IsItem(items[i])
    ensures Groups(Tagged(items)) == items
    decreases |items|
  {
    if |items| > 0 {
      var t := items[1..];
      assert forall i :: 0 <= i < |t| ==> IsItem(t[i]) by {
        forall i | 0 <= i < |t| ensures IsItem(t[i]) { assert t[i] == items[i + 1]; }
      }
      GroupsHead("<br>", items[0], Tagged(t));
      GroupsTagged(t);
      HeadTail(items);
    }
  }

  /** A level followed by its items as the CSV writes them, the last item
      without its trailing space, parses back into the normalised level and
      the normalised items. */
  lemma ParseSecurityLevelOf(eal: string, tail: string, items: seq<string>)
    requires '<' !in eal
    requires |items| >= 1 && forall i :: 0 <= i < |items| ==> IsItem(items[i])
    requires tail + " " == Tagged(items)
    ensures ParseSecurityLevel(eal + tail) == SecurityLevel(Normalize(eal), Map(Normalize, items))
  {
    TaggedStart(items, tail);
    FindFirstTag(eal, tail);
    GroupsTagged(items);
  }

  lemma TaggedStart(items: seq<string>, tail: string)
    requires |items| >= 1 && tail + " " == Tagged(items)
    ensures |tail| >= 4 && tail[..4] == "<br>"
  {
    assert Tagged(items)[..4] == "<br>";
  }

  /** The first `<br>` is where the tail starts when the level has no `<`. */
  lemma FindFirstTag(eal: string, tail: string)
    requires '<' !in eal && |tail| >= 4 && tail[..4] == "<br>"
    ensures Find(eal + tail, "<br>") == |eal|
    ensures (eal + tail)[..|eal|] == eal && (eal + tail)[|eal|..] == tail
  {
    var s := eal + tail;
    assert OccursAt(s, "<br>", |eal|) by {
      assert s[|eal|..|eal| + 4] == tail[..4];
    }
    forall i | 0 <= i < |eal|
      ensures !OccursAt(s, "<br>", i)
    {
      assert s[i] == eal[i];
    }
  }

  // ---------------------------------------------------------------------------
  // Protection-profile links
  // ---------------------------------------------------------------------------

  /** `fix_pp_url`: `/epfiles/` becomes `/ppfiles/`, `http://` becomes
      `https://`, and `:443` is dropped, in that order. */
  function FixPpUrl(url: string): string {
    var u1 := if Find(url, "/epfiles/") != -1 then Replace(url, "/epfiles/", "/ppfiles/") else url;
    var u2 := Replace(u1, "http://", "https://");
    Replace(u2, ":443", "")
  }

  /** The guard before the first replacement changes nothing: the three
      replacements are applied unconditionally. */
  lemma FixPpUrlUnguarded(url: string)
    ensures FixPpUrl(url) ==
              Replace(Replace(Replace(url, "/epfiles/", "/ppfiles/"), "http://", "https://"), ":443", "")
  {
    if Find(url, "/epfiles/") == -1 {
      ReplaceAbsent(url, "/epfiles/", "/ppfiles/");
    }
  }

  /** A link with none of the three patterns is left alone. */
  lemma FixPpUrlClean(url: string)
    requires !Contains(url, "/epfiles/") && !Contains(url, "http://") && !Contains(url, ":443")
    ensures FixPpUrl(url) == url
  {
    ReplaceAbsent(url, "http://", "https://");
    ReplaceAbsent(url, ":443", "");
  }

  /** A plain-http link is moved to https and otherwise kept. */
  lemma FixPpUrlScheme(rest: string)
    requires !Contains("http://" + rest, "/epfiles/")
    requires !Contains(rest, "http://")
    requires !Contains("https://" + rest, ":443")
    ensures FixPpUrl("http://" + rest) == "https://" + rest
  {
    var url := "http://" + rest;
    assert url[..7] == "http://" && url[7..] == rest;
    ReplaceAbsent(rest, "http://", "https://");
    assert Replace(url, "http://", "https://") == "https://" + rest;
    ReplaceAbsent("https://" + rest, ":443", "");
  }

  // ---------------------------------------------------------------------------
  // Word-by-word containment
  // ---------------------------------------------------------------------------

  /** Every word is found in `target`, checked in order up to the first miss. */
  function AllFound(target: string, words: seq<string>): bool
    decreases |words|
  {
    if |words| == 0 then true
    else if Find(target, words[0]) == -1 then false
    else AllFound(target, words[1..])
  }

  /** Every word occurs in `target`. */
  predicate AllContained(target: string, words: seq<string>) {
    forall i :: 0 <= i < |words| ==> Contains(target, words[i])
  }

  lemma {:induction false} AllFoundSpec(target: string, words: seq<string>)
    ensures AllFound(target, words) <==> AllContained(target, words)
    decreases |words|
  {
    if |words| > 0 {
      AllFoundSpec(target, words[1..]);
      assert forall i :: 1 <= i < |words| ==> words[i] == words[1..][i - 1];
    }
  }

  /** `find_string_tokenized`: every `token`-separated word of `find` occurs
      in `target`. */
  function FindStringTokenized(target: string, find: string, token: char): (r: bool)
    ensures r <==> AllContained(target, Split(find, token))
  {
    var words := Split(find, token);
    AllFoundSpec(target, words);
    AllFound(target, words)
  }

  /** Without a separator the test is plain substring containment. */
  lemma FindStringTokenizedWhole(target: string, find: string, token: char)
    requires token !in find
    ensures FindStringTokenized(target, find, token) <==> Contains(target, find)
  {
    SplitNone(find, token);
  }

  /** With one separator both halves must occur, in any order. */
  lemma FindStringTokenizedPair(target: string, a: string, b: string, token: char)
    requires token !in a && token !in b
    ensures FindStringTokenized(target, a + [token] + b, token) <==> Contains(target, a) && Contains(target, b)
  {
    var words := Split(a + [token] + b, token);
    SplitCons(a, token, b);
    SplitNone(b, token);
    assert words == [a, b];
    assert AllContained(target, words) <==> Contains(target, words[0]) && Contains(target, words[1]);
  }

  // ---------------------------------------------------------------------------
  // Percent escapes
  // ---------------------------------------------------------------------------

  function HexDigit(c: char): Option<nat> {
    if '0' <= c <= '9' then Some(c as int - '0' as int)
    else if 'a' <= c <= 'f' then Some(c as int - 'a' as int + 10)
    else if 'A' <= c <= 'F' then Some(c as int - 'A' as int + 10)
    else None
  }

  /** The value of a non-empty run of hex digits. */
  function HexDigits(t: string): (r: Option<nat>)
    ensures r.Some? ==> |t| >= 1
    ensures r.Some? && |t| <= 1 ==> r.value < 16
    ensures r.Some? && |t| <= 2 ==> r.value < 256
    decreases |t|
  {
    if |t| == 0 then None
    else if |t| == 1 then HexDigit(t[0])
    else
      match (HexDigits(t[..|t| - 1]), HexDigit(t[|t| - 1]))
      case (Some(d), Some(e)) => Some(d * 16 + e)
      case _ => None
  }

  /** `int(s, 16)` on the at most two characters the decoder hands it:
      surrounding whitespace is ignored and a sign may lead; anything else
      is a `ValueError`. */
  function HexValue(s: string): (r: Option<int>)
    requires |s| <= 2
    ensures r.Some? ==> -255 <= r.value <= 255
  {
    var t := Strip(s);
    if |t| > 0 && (t[0] == '+' || t[0] == '-') then
      match HexDigits(t[1..])
      case None => None
      case Some(d) =>
        var v: int := if t[0] == '-' then -(d as int) else d as int;
        Some(v)
    else
      match HexDigits(t)
      case None => None
      case Some(d) => Some(d)
  }

  /** Two hex digits read as one byte. */
  lemma HexPair(a: char, b: char)
    requires HexDigit(a).Some? && HexDigit(b).Some?
    ensures HexValue([a, b]) == Some(HexDigit(a).value * 16 + HexDigit(b).value)
  {
    var s := [a, b];
    HexDigitNotSpace(a);
    HexDigitNotSpace(b);
    assert LStrip(s) == s;
    assert RStripSpace(s) == s;
    assert Strip(s) == s;
    assert s[..1] == [a];
    assert HexDigits([a]) == HexDigit(a);
    assert HexDigits(s) == Some(HexDigit(a).value * 16 + HexDigit(b).value);
  }

  lemma HexDigitNotSpace(c: char)
    requires HexDigit(c).Some?
    ensures !IsSpace(c) && c != '+' && c != '-'
  {
  }

  function Min(a: int, b: int): int {
    if a <= b then a else b
  }

  /** One step of the decoding loop at the `%` at `pos`: the two characters
      after it are replaced by the character they encode, or, when `int`
      or `chr` raises, the `%` alone is dropped. */
  function DecodeAt(s: string, pos: nat): (r: string)
    requires pos < |s| && s[pos] == '%'
    ensures |r| < |s|
  {
    var end := Min(pos + 3, |s|);
    var v := HexValue(s[pos + 1..end]);
    if v.Some? && v.value >= 0 then s[..pos] + [v.value as char] + s[end..]
    else s[..pos] + s[pos + 1..]
  }

  /** `replace_escaped_chars` as written: decode at the first `%` and search
      again from the start of the result, until no `%` is left. */
  function ReplaceEscaped(s: string): (r: string)
    ensures '%' !in r
    decreases |s|
  {
    var pos := IndexOf(s, '%');
    if pos == -1 then s else ReplaceEscaped(DecodeAt(s, pos))
  }

  /** Decoding in one left-to-right pass: text produced by a decoded escape
      is not read again. */
  function DecodeOnce(s: string): (r: string)
    decreases |s|
  {
    if |s| == 0 then ""
    else if s[0] != '%' then [s[0]] + DecodeOnce(s[1..])
    else
      var end := Min(3, |s|);
      var v := HexValue(s[1..end]);
      if v.Some? && v.value >= 0 then [v.value as char] + DecodeOnce(s[end..])
      else DecodeOnce(s[1..])
  }

  /** Percent-escaping: every `%` written as `%25`. */
  function EscapePercent(s: string): string {
    Replace(s, "%", "%25")
  }

  lemma EscapeCons(c: char, rest: string)
    ensures EscapePercent([c] + rest) == (if c == '%' then "%25" else [c]) + EscapePercent(rest)
  {
    var s := [c] + rest;
    assert s[..1] == [c] && s[1..] == rest;
  }

  lemma DecodeOnceCons(c: char, rest: string)
    requires c != '%'
    ensures DecodeOnce([c] + rest) == [c] + DecodeOnce(rest)
  {
    assert ([c] + rest)[1..] == rest;
  }

  // The worked examples in this module name their literal with a parameter
  // and a `requires x == "..."` rather than writing it into the ensures:
  // the verifier then reasons about slices and indices of one variable
  // instead of unfolding the literal at every occurrence.
  /** `%25` decodes to `%`. */
  lemma DecodeOncePercent(esc: string, rest: string)
    requires esc == "%25"
    ensures DecodeOnce(esc + rest) == "%" + DecodeOnce(rest)
  {
    var s := esc + rest;
    assert s[0] == '%' && Min(3, |s|) == 3;
    HexPair('2', '5');
    assert s[1..3] == ['2', '5'];
    assert s[3..] == rest;
    assert DecodeOnce(s) == [(0x25 as char)] + DecodeOnce(rest);
  }

  /** Decoding once undoes escaping, for every string. */
  lemma {:induction false} DecodeOnceRoundTrip(s: string)
    ensures DecodeOnce(EscapePercent(s)) == s
    decreases |s|
  {
    if |s| > 0 {
      assert s == [s[0]] + s[1..];
      EscapeCons(s[0], s[1..]);
      DecodeOnceRoundTrip(s[1..]);
      if s[0] == '%' {
        DecodeOncePercent("%25", EscapePercent(s[1..]));
      } else {
        DecodeOnceCons(s[0], EscapePercent(s[1..]));
      }
    }
  }

  /** As written, an escaped `%` is decoded twice: the text `%41` escapes to
      `%2541`, which the loop turns into `A`. */
  lemma ReplaceEscapedDecodesTwice(s: string)
    requires s == "%41"
    ensures EscapePercent(s) == "%2541"
    ensures ReplaceEscaped(EscapePercent(s)) == "A" && "A" != s
    ensures DecodeOnce(EscapePercent(s)) == s
  {
    EscapeExample(s);
    var e := EscapePercent(s);
    ReplaceEscapedStep(e, "%41");
    ReplaceEscapedStep("%41", "A");
    assert ReplaceEscaped("A") == "A" by {
      assert '%' !in "A";
    }
    DecodeOnceRoundTrip(s);
  }

  lemma EscapeExample(s: string)
    requires s == "%41"
    ensures EscapePercent(s) == "%2541"
  {
    EscapeCons('%', s[1..]);
    EscapeCons('4', s[2..]);
    EscapeCons('1', s[3..]);
    assert s[1..] == [s[1]] + s[2..];
    assert s[2..] == [s[2]] + s[3..];
    assert s[3..] == [];
  }

  /** One turn of the loop on the two strings of the example. */
  lemma ReplaceEscapedStep(s: string, t: string)
    requires (s == "%2541" && t == "%41") || (s == "%41" && t == "A")
    ensures ReplaceEscaped(s) == ReplaceEscaped(t)
  {
    ReplaceEscapedFront(s);
    var v := HexDigit(s[1]).value * 16 + HexDigit(s[2]).value;
    assert [v as char] + s[3..] == t;
  }

  /** One turn of the loop on a string starting with a decodable escape. */
  lemma ReplaceEscapedFront(s: string)
    requires |s| >= 3 && s[0] == '%' && HexDigit(s[1]).Some? && HexDigit(s[2]).Some?
    ensures var v := HexDigit(s[1]).value * 16 + HexDigit(s[2]).value;
            v < 256 && ReplaceEscaped(s) == ReplaceEscaped([v as char] + s[3..])
  {
    assert IndexOf(s, '%') == 0;
    DecodeAtFront(s);
  }

  lemma DecodeAtFront(s: string)
    requires |s| >= 3 && s[0] == '%' && HexDigit(s[1]).Some? && HexDigit(s[2]).Some?
    ensures var v := HexDigit(s[1]).value * 16 + HexDigit(s[2]).value;
            v < 256 && DecodeAt(s, 0) == [v as char] + s[3..]
  {
    var a, b := s[1], s[2];
    var w := s[1..3];
    assert w == [a, b];
    assert Min(0 + 3, |s|) == 3;
    HexPair(a, b);
  }
}
