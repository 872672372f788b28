/** The older single-file tool: its match normaliser, its redaction and its
    certificate-ID estimate, which differ from the current ones in small but
    observable ways (no printable filter, no longest-first ordering, a
    different candidate priority and no length bound). */
module Legacy {
  import opened Wrappers
  import opened Dict
  import opened PyStr
  import opened RuleMatcher
  import opened CertId

  // ---------------------------------------------------------------------------
  // Normalising a match
  // ---------------------------------------------------------------------------

  /** `normalize_match_string` of the older tool: the same stripping and
      double-space collapse, without dropping unprintable characters. */
  function LegacyNormalize(m: string): string {
    Replace(RStripEach(Strip(m), TrailingJunk), "  ", " ")
  }

  /** The result is no longer than the match, does not start with whitespace
      and does not end with ','. */
  lemma LegacyNormalizeSpec(m: string)
    ensures |LegacyNormalize(m)| <= |m|
    ensures var r := LegacyNormalize(m);
            r == [] || (!IsSpace(r[0]) && r[|r| - 1] != ',')
  {
    var t := Strip(m);
    var s := RStripEach(t, TrailingJunk);
    ReplaceShrinks(s, "  ", " ");
    if |s| > 0 {
      assert s[0] == t[0];
      assert TrailingJunk[|TrailingJunk| - 1] == ',';
      CollapseKeepsEnds(s);
    }
  }

  /** On printable matches both normalisers agree. */
  lemma LegacyNormalizeAgrees(m: string)
    requires AllPrintable(m)
    ensures LegacyNormalize(m) == Normalize(m)
  {
    NormalizePrintable(m);
  }

  // ---------------------------------------------------------------------------
  // Redaction
  // ---------------------------------------------------------------------------

  /** Every match of the groups `gs`, group by group, rule by rule. */
  function GroupsMatches(t: ScanTable, gs: seq<string>): seq<string>
    decreases |gs|
  {
    if |gs| == 0 then [] else TableMatches(Get(t, gs[0]).GetOr([])) + GroupsMatches(t, gs[1..])
  }

  /** The redaction of the older `parse_cert_file`: every stored match is
      replaced by an equal-length run of 'x', in table order, unsorted. */
  function LegacyRedact(text: string, t: ScanTable): string {
    MaskAll(text, GroupsMatches(t, Keys(t)))
  }

  lemma {:induction false} MaskAllLength(text: string, ms: seq<string>)
    ensures |MaskAll(text, ms)| == |text|
    decreases |ms|
  {
    if |ms| > 0 {
      ReplaceSameLength(text, ms[0], Repeat('x', |ms[0]|));
      MaskAllLength(Replace(text, ms[0], Repeat('x', |ms[0]|)), ms[1..]);
    }
  }

  /** Redaction never changes the length of the text. */
  lemma LegacyRedactLength(text: string, t: ScanTable)
    ensures |LegacyRedact(text, t)| == |text|
  {
    MaskAllLength(text, GroupsMatches(t, Keys(t)));
  }

  lemma {:induction false} GroupsMatchesNoNewline(t: ScanTable, gs: seq<string>)
    requires NoNewlineMatches(t)
    ensures forall i :: 0 <= i < |GroupsMatches(t, gs)| ==> '\n' !in GroupsMatches(t, gs)[i]
    decreases |gs|
  {
    if |gs| > 0 {
      var rt := Get(t, gs[0]).GetOr([]);
      GroupsMatchesNoNewline(t, gs[1..]);
      forall m | m in TableMatches(rt)
        ensures '\n' !in m
      {
        MatchesOfSource(rt, Keys(rt), m);
        var r :| r in Keys(rt) && CountIn(rt, r, m).Some?;
        assert CountAt(t, gs[0], r, m).Some?;
      }
      var all := GroupsMatches(t, gs);
      assert all == TableMatches(rt) + GroupsMatches(t, gs[1..]);
      forall i | 0 <= i < |all|
        ensures '\n' !in all[i]
      {
        if i >= |TableMatches(rt)| {
          assert all[i] == GroupsMatches(t, gs[1..])[i - |TableMatches(rt)|];
        } else {
          assert all[i] in TableMatches(rt);
        }
      }
    }
  }

  /** With line-free matches, the redacted text is the input with some
      characters overwritten by 'x' and the line breaks in place. */
  lemma LegacyRedactMasks(text: string, t: ScanTable)
    requires NoNewlineMatches(t)
    ensures MaskOf(LegacyRedact(text, t), text)
  {
    GroupsMatchesNoNewline(t, Keys(t));
    MaskAllMasks(text, GroupsMatches(t, Keys(t)));
  }

  // ---------------------------------------------------------------------------
  // Estimating the certificate ID
  // ---------------------------------------------------------------------------

  /** The file name without suffix and without a Windows-style directory. */
  function LegacyStem(fileName: string): string {
    var noSuffix := Head(fileName, RFind(fileName, "."));
    Tail(noSuffix, RFind(noSuffix, "\\") + 1)
  }

  /** The file-name loop: before each rule one more space is appended to the
      stem, and a rule with matches overwrites the candidate with its first. */
  function LegacyFileScan(stem: string, rules: seq<string>, findall: FindAll, cand: string): string
    decreases |rules|
  {
    if |rules| == 0 then cand
    else
      var padded := stem + " ";
      var ms := findall(rules[0], padded);
      LegacyFileScan(padded, rules[1..], findall, if |ms| > 0 then ms[0] else cand)
  }

  /** The text rule `k` is matched against: the stem with `k + 1` spaces. */
  function PaddedFor(stem: string, k: nat): string {
    stem + Repeat(' ', k + 1)
  }

  lemma PaddedShift(stem: string, k: nat)
    ensures PaddedFor(stem + " ", k) == PaddedFor(stem, k + 1)
  {
    assert PaddedFor(stem + " ", k) == stem + Repeat(' ', k + 2);
  }

  /** The matches of rule `k` on its padded stem. */
  function MatchesAt(stem: string, rules: seq<string>, findall: FindAll, k: nat): seq<string>
    requires k < |rules|
  {
    findall(rules[k], PaddedFor(stem, k))
  }

  /** Rule `k` matches and no later rule does. */
  predicate LastMatch(stem: string, rules: seq<string>, findall: FindAll, k: nat) {
    k < |rules| && |MatchesAt(stem, rules, findall, k)| > 0
    && forall k' :: k < k' < |rules| ==> |MatchesAt(stem, rules, findall, k')| == 0
  }

  /** The file-name candidate is the first match of the LAST rule that
      matches its padded stem; the starting candidate stays when none does. */
  lemma {:induction false} LegacyFileScanLast(stem: string, rules: seq<string>, findall: FindAll, cand: string)
    ensures (forall k: nat :: k < |rules| ==> |MatchesAt(stem, rules, findall, k)| == 0) ==>
              LegacyFileScan(stem, rules, findall, cand) == cand
    ensures (exists k: nat :: k < |rules| && |MatchesAt(stem, rules, findall, k)| > 0) ==>
              exists k: nat :: LastMatch(stem, rules, findall, k)
                               && LegacyFileScan(stem, rules, findall, cand) == MatchesAt(stem, rules, findall, k)[0]
    decreases |rules|
  {
    if |rules| > 0 {
      var padded := stem + " ";
      var ms := findall(rules[0], padded);
      var next := if |ms| > 0 then ms[0] else cand;
      var t := rules[1..];
      LegacyFileScanLast(padded, t, findall, next);
      MatchesShift(stem, rules, findall);
      if exists k: nat :: k < |t| && |MatchesAt(padded, t, findall, k)| > 0 {
        var k: nat :| LastMatch(padded, t, findall, k)
                      && LegacyFileScan(padded, t, findall, next) == MatchesAt(padded, t, findall, k)[0];
        LastMatchShift(stem, rules, findall, k);
      } else if |ms| > 0 {
        assert LastMatch(stem, rules, findall, 0);
      }
    }
  }

  /** Dropping the first rule and padding the stem once more leaves every
      later rule's matches unchanged. */
  lemma MatchesShift(stem: string, rules: seq<string>, findall: FindAll)
    requires |rules| > 0
    ensures MatchesAt(stem, rules, findall, 0) == findall(rules[0], stem + " ")
    ensures forall k: nat :: 1 <= k < |rules| ==>
              MatchesAt(stem, rules, findall, k) == MatchesAt(stem + " ", rules[1..], findall, k - 1)
  {
    assert PaddedFor(stem, 0) == stem + " ";
    forall k: nat | 1 <= k < |rules|
      ensures MatchesAt(stem, rules, findall, k) == MatchesAt(stem + " ", rules[1..], findall, k - 1)
    {
      PaddedShift(stem, k - 1);
      assert rules[k] == rules[1..][k - 1];
    }
  }

  lemma LastMatchShift(stem: string, rules: seq<string>, findall: FindAll, k: nat)
    requires |rules| > 0
    requires forall k: nat :: 1 <= k < |rules| ==>
               MatchesAt(stem, rules, findall, k) == MatchesAt(stem + " ", rules[1..], findall, k - 1)
    requires LastMatch(stem + " ", rules[1..], findall, k)
    ensures LastMatch(stem, rules, findall, k + 1)
    ensures MatchesAt(stem, rules, findall, k + 1) == MatchesAt(stem + " ", rules[1..], findall, k)
  {
  }

  /** The first non-empty string of `xs`, or '' when all are empty. */
  function FirstNonEmpty(xs: seq<string>): (r: string)
    ensures r == "" <==> forall i :: 0 <= i < |xs| ==> xs[i] == ""
    ensures r != "" ==> exists i :: 0 <= i < |xs| && r == xs[i] && forall j :: 0 <= j < i ==> xs[j] == ""
    decreases |xs|
  {
    if |xs| == 0 then ""
    else if xs[0] != "" then xs[0]
    else
      var r := FirstNonEmpty(xs[1..]);
      assert forall i :: 1 <= i < |xs| ==> xs[i] == xs[1..][i - 1];
      if r != "" then
        var i :| 0 <= i < |xs[1..]| && r == xs[1..][i] && forall j :: 0 <= j < i ==> xs[1..][j] == "";
        assert r == xs[i + 1] && forall j :: 0 <= j < i + 1 ==> xs[j] == "";
        r
      else r
  }

  /** The candidates of the older estimate; `Err` when a keyword scan lacks
      the `rules_cert_id` group. */
  function LegacyCandidates(frontpage: Option<FrontPage>, keywords: Option<ScanTable>,
                            fileName: Option<string>, idRules: seq<string>, findall: FindAll)
    : Result<Candidates>
  {
    var fp := if frontpage.Some? && "cert_id" in frontpage.value then frontpage.value["cert_id"] else "";
    var fn := if fileName.Some? then LegacyFileScan(LegacyStem(fileName.value), idRules, findall, "") else "";
    if keywords.None? then Ok(Candidates("", fp, fn))
    else
      match Get(keywords.value, "rules_cert_id")
      case None => Err("KeyError")
      case Some(rt) => Ok(Candidates(KeywordCandidate(rt), fp, fn))
  }

  /** The older priority: front page, then file name, then keywords. */
  function LegacyChoose(c: Candidates): (r: string)
    ensures r == FirstNonEmpty([c.frontpage, c.fileName, c.keyword])
  {
    var xs := [c.frontpage, c.fileName, c.keyword];
    assert xs[1..] == [c.fileName, c.keyword] && xs[1..][1..] == [c.keyword] && xs[1..][1..][1..] == [];
    if c.frontpage != "" then c.frontpage
    else if c.fileName != "" then c.fileName
    else
      assert FirstNonEmpty([c.keyword]) == c.keyword by {
        assert [c.keyword][1..] == [];
      }
      assert FirstNonEmpty([c.fileName, c.keyword]) == c.keyword;
      c.keyword
  }

  /** `estimate_cert_id` of the older tool: the first non-empty of the front
      page, file-name and keyword candidates, whatever its length, or ''. */
  function LegacyEstimate(frontpage: Option<FrontPage>, keywords: Option<ScanTable>,
                          fileName: Option<string>, idRules: seq<string>, findall: FindAll)
    : (r: Result<string>)
    ensures r.Err? <==> keywords.Some? && "rules_cert_id" !in Keys(keywords.value)
    ensures r.Ok? ==> var c := LegacyCandidates(frontpage, keywords, fileName, idRules, findall).value;
      r.value == FirstNonEmpty([c.frontpage, c.fileName, c.keyword])
  {
    var c :- LegacyCandidates(frontpage, keywords, fileName, idRules, findall);
    Ok(LegacyChoose(c))
  }
}
