/** The keyword scan of the certificate pipeline: every raw regex hit is
    normalised and counted per (group, rule, match) in insertion-ordered
    tables, and the matched strings are then masked out of the text with runs
    of 'x'. The regex engine is not modelled: a scan is given as the raw hits
    `re.finditer` yields for each rule, in text order. */
module RuleMatcher {
  import opened Wrappers
  import opened PyStr
  import opened Dict
  import opened Sorting
  import opened Seqs

  // ---------------------------------------------------------------------------
  // Line numbers
  // ---------------------------------------------------------------------------

  /** Offset just past line `k` (1-based) when each line counts for its length
      plus `comp`. */
  function LineEnd(lines: seq<string>, comp: int, k: nat): int
    requires k <= |lines|
  {
    if k == 0 then 0 else LineEnd(lines, comp, k - 1) + |lines[k - 1]| + comp
  }

  /** `get_line_number`: the 1-based number of the first line whose end offset
      lies beyond `index`, or -1 when there is none. */
  method GetLineNumber(lines: seq<string>, comp: int, index: int) returns (n: int)
    ensures n == -1 <==> forall k :: 1 <= k <= |lines| ==> LineEnd(lines, comp, k) <= index
    ensures n != -1 ==> 1 <= n <= |lines| && LineEnd(lines, comp, n) > index
    ensures n != -1 ==> forall k :: 1 <= k < n ==> LineEnd(lines, comp, k) <= index
  {
    var offset := 0;
    var i := 0;
    while i < |lines|
      invariant 0 <= i <= |lines|
      invariant offset == LineEnd(lines, comp, i)
      invariant forall k :: 1 <= k <= i ==> LineEnd(lines, comp, k) <= index
    {
      offset := offset + |lines[i]| + comp;
      if offset > index {
        assert LineEnd(lines, comp, i + 1) > index;
        return i + 1;
      }
      i := i + 1;
    }
    return -1;
  }

  // ---------------------------------------------------------------------------
  // Normalising a match
  // ---------------------------------------------------------------------------

  /** The characters trimmed from the end of a match, one `rstrip` each, in
      this order (the path separator is '/'). */
  const TrailingJunk: seq<char> := [']', '/', ';', '.', '”', '"', ':', ')', '(', ',']

  /** `s.rstrip(cs[0]).rstrip(cs[1])...`. */
  function RStripEach(s: string, cs: seq<char>): (r: string)
    ensures r <= s
    ensures |cs| > 0 && r != [] ==> r[|r| - 1] != cs[|cs| - 1]
    decreases |cs|
  {
    if |cs| == 0 then s else RStrip(RStripEach(s, cs[..|cs| - 1]), cs[|cs| - 1])
  }

  /** `normalize_match_string`. */
  function Normalize(m: string): (r: string)
    ensures AllPrintable(r)
    ensures |r| <= |m|
  {
    var stripped := RStripEach(Strip(m), TrailingJunk);
    ReplaceShrinks(stripped, "  ", " ");
    FilterPrintable(Replace(stripped, "  ", " "))
  }

  /** A string whose characters all come from a printable string, or are
      spaces, is printable. */
  lemma PrintableFrom(a: string, b: string)
    requires AllPrintable(b)
    requires forall c :: c in a ==> c in b || c == ' '
    ensures AllPrintable(a)
  {
    forall i | 0 <= i < |a|
      ensures IsPrintable(a[i])
    {
      if a[i] != ' ' {
        assert a[i] in b;
      }
    }
  }

  /** On printable input the normalised match starts with no whitespace and
      does not end with ','. */
  lemma NormalizeEnds(m: string)
    requires AllPrintable(m)
    ensures var r := Normalize(m);
            r == [] || (!IsSpace(r[0]) && r[|r| - 1] != ',')
  {
    var t := Strip(m);
    var s := RStripEach(t, TrailingJunk);
    NormalizePrintable(m);
    if |s| > 0 {
      assert s[0] == t[0];
      CollapseKeepsEnds(s);
    }
  }

  /** On printable input the printable filter has nothing to drop. */
  lemma NormalizePrintable(m: string)
    requires AllPrintable(m)
    ensures Normalize(m) == Replace(RStripEach(Strip(m), TrailingJunk), "  ", " ")
  {
    var s := RStripEach(Strip(m), TrailingJunk);
    StrippedPrintable(m);
    ReplaceChars(s, "  ", " ");
    PrintableFrom(Replace(s, "  ", " "), s);
  }

  lemma StrippedPrintable(m: string)
    requires AllPrintable(m)
    ensures AllPrintable(RStripEach(Strip(m), TrailingJunk))
  {
    var t := Strip(m);
    var s := RStripEach(t, TrailingJunk);
    PrintableFrom(t, m);
    PrefixChars(s, t);
    PrintableFrom(s, t);
  }

  lemma PrefixChars(a: string, b: string)
    requires a <= b
    ensures forall c :: c in a ==> c in b
  {
    forall c | c in a
      ensures c in b
    {
      var i :| 0 <= i < |a| && a[i] == c;
      assert b[i] == c;
    }
  }

  /** Collapsing double spaces keeps a non-space first character and a last
      character other than ','. */
  lemma CollapseKeepsEnds(s: string)
    requires |s| > 0 && !IsSpace(s[0]) && s[|s| - 1] != ','
    ensures var r := Replace(s, "  ", " ");
            |r| > 0 && !IsSpace(r[0]) && r[|r| - 1] != ','
  {
    ReplaceHead(s, "  ", " ");
    ReplaceLast(s, "  ", " ");
  }

  /** A normalised match never holds a line break. */
  lemma NormalizedNoNewline(m: string)
    ensures '\n' !in Normalize(m)
  {
    var r := Normalize(m);
    forall i | 0 <= i < |r|
      ensures r[i] != '\n'
    {
      assert IsPrintable(r[i]);
    }
  }

  // ---------------------------------------------------------------------------
  // The match-count tables
  // ---------------------------------------------------------------------------

  /** The hits of one rule, as `re.finditer(rule, text)` yields them. */
  datatype RuleHits = RuleHits(rule: string, hits: seq<string>)

  /** The rules of one group of `search_rules`, in list order; a rule may be
      listed more than once. */
  datatype GroupHits = GroupHits(group: string, rules: seq<RuleHits>)

  /** Normalised match to the number of raw hits behind it. */
  type MatchCounts = Dict<string, int>

  /** Rule to its match counts; a rule appears only once it has a hit. */
  type RuleTable = Dict<string, MatchCounts>

  /** Group to its rule table: `items_found_all`. */
  type ScanTable = Dict<string, RuleTable>

  /** A count `k` added to an optional count, keeping "absent" for zero. */
  function AddCount(o: Option<int>, k: nat): Option<int> {
    match o
    case None => if k == 0 then None else Some(k)
    case Some(v) => Some(v + k)
  }

  /** `items_found[rule][match][count] += 1`, creating the entry at 0 first. */
  function Bump(c: MatchCounts, m: string): MatchCounts {
    Put(c, m, Get(c, m).GetOr(0) + 1)
  }

  /** Counting the hits of one rule into its match table, in hit order. */
  function Tally(c: MatchCounts, hits: seq<string>): MatchCounts
    decreases |hits|
  {
    if |hits| == 0 then c else Tally(Bump(c, hits[0]), hits[1..])
  }

  lemma BumpGet(c: MatchCounts, h: string, m: string)
    ensures Get(Bump(c, h), m) == AddCount(Get(c, m), if h == m then 1 else 0)
  {
    if h != m {
      GetPutOther(c, h, Get(c, h).GetOr(0) + 1, m);
    }
  }

  /** After counting, each match's count grows by the number of hits equal
      to it, and a match is present iff it was or some hit gave it. */
  lemma {:induction false} TallyCounts(c: MatchCounts, hits: seq<string>, m: string)
    ensures Get(Tally(c, hits), m) == AddCount(Get(c, m), multiset(hits)[m])
    decreases |hits|
  {
    if |hits| > 0 {
      var h := hits[0];
      var k := if h == m then 1 else 0;
      assert hits == [h] + hits[1..];
      assert multiset(hits)[m] == k + multiset(hits[1..])[m];
      TallyCounts(Bump(c, h), hits[1..], m);
      BumpGet(c, h, m);
      AddCountTwice(Get(c, m), k, multiset(hits[1..])[m]);
    }
  }

  lemma AddCountTwice(o: Option<int>, a: nat, b: nat)
    ensures AddCount(AddCount(o, a), b) == AddCount(o, a + b)
  {
  }

  /** Each hit adds at most one new match. */
  lemma {:induction false} TallySize(c: MatchCounts, hits: seq<string>)
    ensures |c| <= |Tally(c, hits)| <= |c| + |hits|
    decreases |hits|
  {
    if |hits| > 0 {
      var h := hits[0];
      TallySize(Bump(c, h), hits[1..]);
    }
  }

  /** One rule's hits: the rule is inserted at its first hit. */
  function ScanRule(rt: RuleTable, rh: RuleHits): RuleTable {
    if |rh.hits| == 0 then rt
    else Put(rt, rh.rule, Tally(Get(rt, rh.rule).GetOr([]), rh.hits))
  }

  /** The rules of one group, in list order. */
  function ScanRules(rt: RuleTable, rules: seq<RuleHits>): RuleTable
    decreases |rules|
  {
    if |rules| == 0 then rt else ScanRules(ScanRule(rt, rules[0]), rules[1..])
  }

  /** All hits of the list entries named `r`, in order. */
  function HitsOf(rules: seq<RuleHits>, r: string): seq<string>
    decreases |rules|
  {
    if |rules| == 0 then []
    else HitsFor(rules[0], r) + HitsOf(rules[1..], r)
  }

  /** The count a rule table holds for `m` under rule `r`. */
  function CountIn(rt: RuleTable, r: string, m: string): Option<int> {
    match Get(rt, r)
    case None => None
    case Some(c) => Get(c, m)
  }

  /** The hits of `rh` that count for rule `r`. */
  function HitsFor(rh: RuleHits, r: string): seq<string> {
    if rh.rule == r then rh.hits else []
  }

  lemma ScanRuleCounts(rt: RuleTable, rh: RuleHits, r: string, m: string)
    ensures CountIn(ScanRule(rt, rh), r, m) == AddCount(CountIn(rt, r, m), multiset(HitsFor(rh, r))[m])
  {
    if |rh.hits| > 0 {
      var c0 := Get(rt, rh.rule).GetOr([]);
      if rh.rule == r {
        TallyCounts(c0, rh.hits, m);
      } else {
        GetPutOther(rt, rh.rule, Tally(c0, rh.hits), r);
      }
    }
  }

  /** Counting a group's rules adds, for every (rule, match), the number of that
      rule's hits equal to the match. */
  lemma {:induction false} ScanRulesCounts(rt: RuleTable, rules: seq<RuleHits>, r: string, m: string)
    ensures CountIn(ScanRules(rt, rules), r, m) == AddCount(CountIn(rt, r, m), multiset(HitsOf(rules, r))[m])
    decreases |rules|
  {
    if |rules| > 0 {
      ScanRulesCounts(ScanRule(rt, rules[0]), rules[1..], r, m);
      ScanRulesStep(rt, rules, r, m);
    } else {
      assert AddCount(CountIn(rt, r, m), 0) == CountIn(rt, r, m);
    }
  }

  /** One rule's step of the count, given the count over the remaining rules. */
  lemma ScanRulesStep(rt: RuleTable, rules: seq<RuleHits>, r: string, m: string)
    requires |rules| > 0
    requires var rt1 := ScanRule(rt, rules[0]);
      CountIn(ScanRules(rt1, rules[1..]), r, m) == AddCount(CountIn(rt1, r, m), multiset(HitsOf(rules[1..], r))[m])
    ensures CountIn(ScanRules(rt, rules), r, m) == AddCount(CountIn(rt, r, m), multiset(HitsOf(rules, r))[m])
  {
    var rt1 := ScanRule(rt, rules[0]);
    ScanRuleCounts(rt, rules[0], r, m);
    HitsOfCount(rules, r, m);
    AddChain(CountIn(rt, r, m), CountIn(ScanRules(rt1, rules[1..]), r, m), multiset(HitsFor(rules[0], r))[m],
             multiset(HitsOf(rules[1..], r))[m], multiset(HitsOf(rules, r))[m]);
  }

  /** Adding `a` and then `b` is adding their sum. */
  lemma AddChain(x: Option<int>, y: Option<int>, a: nat, b: nat, n: nat)
    requires n == a + b && y == AddCount(AddCount(x, a), b)
    ensures y == AddCount(x, n)
  {
  }

  lemma HitsOfCount(rules: seq<RuleHits>, r: string, m: string)
    requires |rules| > 0
    ensures multiset(HitsOf(rules, r))[m]
            == multiset(HitsFor(rules[0], r))[m] + multiset(HitsOf(rules[1..], r))[m]
  {
    assert HitsOf(rules, r) == HitsFor(rules[0], r) + HitsOf(rules[1..], r);
  }

  /** A rule becomes present iff it already was or has a hit. */
  lemma {:induction false} ScanRulesKeys(rt: RuleTable, rules: seq<RuleHits>, r: string)
    ensures r in Keys(ScanRules(rt, rules)) <==> r in Keys(rt) || |HitsOf(rules, r)| > 0
    decreases |rules|
  {
    if |rules| > 0 {
      ScanRulesKeys(ScanRule(rt, rules[0]), rules[1..], r);
    }
  }

  /** The rule lists of the groups named `g`, in order. */
  function RulesOf(groups: seq<GroupHits>, g: string): seq<RuleHits>
    decreases |groups|
  {
    if |groups| == 0 then []
    else (if groups[0].group == g then groups[0].rules else []) + RulesOf(groups[1..], g)
  }

  /** The group loop of `parse_cert_file`: every group gets a (possibly empty)
      rule table. */
  function ScanGroups(t: ScanTable, groups: seq<GroupHits>): ScanTable
    decreases |groups|
  {
    if |groups| == 0 then t
    else
      var g := groups[0];
      ScanGroups(Put(t, g.group, ScanRules(Get(t, g.group).GetOr([]), g.rules)), groups[1..])
  }

  lemma {:induction false} HitsOfAppend(a: seq<RuleHits>, b: seq<RuleHits>, r: string)
    ensures HitsOf(a + b, r) == HitsOf(a, r) + HitsOf(b, r)
    decreases |a|
  {
    if |a| > 0 {
      assert (a + b)[0] == a[0];
      assert (a + b)[1..] == a[1..] + b;
      HitsOfAppend(a[1..], b, r);
    } else {
      assert a + b == b;
    }
  }

  lemma {:induction false} ScanRulesAppend(rt: RuleTable, a: seq<RuleHits>, b: seq<RuleHits>)
    ensures ScanRules(rt, a + b) == ScanRules(ScanRules(rt, a), b)
    decreases |a|
  {
    if |a| > 0 {
      assert (a + b)[1..] == a[1..] + b;
      ScanRulesAppend(ScanRule(rt, a[0]), a[1..], b);
    } else {
      assert a + b == b;
    }
  }

  /** The table of group `g` is the table of all rule lists given for `g`,
      scanned one after the other. */
  lemma {:induction false} ScanGroupsTable(t: ScanTable, groups: seq<GroupHits>, g: string)
    ensures Get(ScanGroups(t, groups), g).GetOr([]) == ScanRules(Get(t, g).GetOr([]), RulesOf(groups, g))
    decreases |groups|
  {
    if |groups| > 0 {
      var g0 := groups[0];
      var rt0 := Get(t, g).GetOr([]);
      var t1 := Put(t, g0.group, ScanRules(Get(t, g0.group).GetOr([]), g0.rules));
      ScanGroupsTable(t1, groups[1..], g);
      if g0.group == g {
        assert RulesOf(groups, g) == g0.rules + RulesOf(groups[1..], g);
        ScanRulesAppend(rt0, g0.rules, RulesOf(groups[1..], g));
      } else {
        assert RulesOf(groups, g) == RulesOf(groups[1..], g) by {
          assert RulesOf(groups, g) == [] + RulesOf(groups[1..], g);
        }
        GetPutOther(t, g0.group, ScanRules(Get(t, g0.group).GetOr([]), g0.rules), g);
      }
    } else {
      assert RulesOf(groups, g) == [];
    }
  }

  /** Every group of the rule list gets an entry. */
  lemma {:induction false} ScanGroupsKeys(t: ScanTable, groups: seq<GroupHits>, g: string)
    ensures g in Keys(ScanGroups(t, groups)) <==> g in Keys(t) || exists i :: 0 <= i < |groups| && groups[i].group == g
    decreases |groups|
  {
    if |groups| > 0 {
      var g0 := groups[0];
      var t1 := Put(t, g0.group, ScanRules(Get(t, g0.group).GetOr([]), g0.rules));
      ScanGroupsKeys(t1, groups[1..], g);
      assert forall i :: 1 <= i < |groups| ==> groups[1..][i - 1] == groups[i];
      if g0.group != g {
        assert (g in Keys(t1)) == (g in Keys(t));
      }
    }
  }

  /** A rule's hits, each replaced by its normalised form. */
  function NormalizeRule(rh: RuleHits): RuleHits {
    RuleHits(rh.rule, Map(Normalize, rh.hits))
  }

  function NormalizeGroup(g: GroupHits): GroupHits {
    GroupHits(g.group, Map(NormalizeRule, g.rules))
  }

  lemma {:induction false} HitsOfNormalized(rules: seq<RuleHits>, r: string)
    ensures HitsOf(Map(NormalizeRule, rules), r) == Map(Normalize, HitsOf(rules, r))
    decreases |rules|
  {
    if |rules| > 0 {
      MapTail(NormalizeRule, rules);
      HitsOfNormalized(rules[1..], r);
      MapAppend(Normalize, HitsFor(rules[0], r), HitsOf(rules[1..], r));
    } else {
      assert HitsOf(rules, r) == [];
    }
  }

  lemma {:induction false} RulesOfNormalized(groups: seq<GroupHits>, g: string)
    ensures RulesOf(Map(NormalizeGroup, groups), g) == Map(NormalizeRule, RulesOf(groups, g))
    decreases |groups|
  {
    if |groups| > 0 {
      MapTail(NormalizeGroup, groups);
      RulesOfNormalized(groups[1..], g);
      var mine := if groups[0].group == g then groups[0].rules else [];
      MapAppend(NormalizeRule, mine, RulesOf(groups[1..], g));
    } else {
      assert RulesOf(groups, g) == [];
    }
  }

  /** The table `parse_cert_file` builds: every hit is normalised, then
      counted. */
  function BuildTable(groups: seq<GroupHits>): ScanTable {
    ScanGroups([], Map(NormalizeGroup, groups))
  }

  /** The count stored under (group, rule, match). */
  function CountAt(t: ScanTable, g: string, r: string, m: string): Option<int> {
    CountIn(Get(t, g).GetOr([]), r, m)
  }

  /** Every group is present; a (group, rule, match) count is exactly the
      number of that rule's raw hits in that group that normalise to the match,
      and is absent when there are none; a rule is present iff it had a hit.
      Hits longer than the warning limit are counted like any other. */
  lemma BuildTableCounts(groups: seq<GroupHits>, g: string, r: string, m: string)
    ensures g in Keys(BuildTable(groups)) <==> exists i :: 0 <= i < |groups| && groups[i].group == g
    ensures var n := multiset(Map(Normalize, HitsOf(RulesOf(groups, g), r)))[m];
            CountAt(BuildTable(groups), g, r, m) == if n == 0 then None else Some(n)
    ensures r in Keys(Get(BuildTable(groups), g).GetOr([])) <==> |HitsOf(RulesOf(groups, g), r)| > 0
  {
    BuildTableGroups(groups, g);
    BuildTableCount(groups, g, r, m);
    BuildTableRules(groups, g, r);
  }

  lemma BuildTableGroups(groups: seq<GroupHits>, g: string)
    ensures g in Keys(BuildTable(groups)) <==> exists i :: 0 <= i < |groups| && groups[i].group == g
  {
    var ng := Map(NormalizeGroup, groups);
    ScanGroupsKeys([], ng, g);
    assert (exists i :: 0 <= i < |ng| && ng[i].group == g) <==> (exists i :: 0 <= i < |groups| && groups[i].group == g) by {
      assert forall i :: 0 <= i < |groups| ==> ng[i].group == groups[i].group;
    }
  }

  lemma BuildTableCount(groups: seq<GroupHits>, g: string, r: string, m: string)
    ensures var n := multiset(Map(Normalize, HitsOf(RulesOf(groups, g), r)))[m];
            CountAt(BuildTable(groups), g, r, m) == if n == 0 then None else Some(n)
  {
    var ng := Map(NormalizeGroup, groups);
    ScanGroupsTable([], ng, g);
    ScanRulesCounts([], RulesOf(ng, g), r, m);
    RulesOfNormalized(groups, g);
    HitsOfNormalized(RulesOf(groups, g), r);
  }

  lemma BuildTableRules(groups: seq<GroupHits>, g: string, r: string)
    ensures r in Keys(Get(BuildTable(groups), g).GetOr([])) <==> |HitsOf(RulesOf(groups, g), r)| > 0
  {
    var ng := Map(NormalizeGroup, groups);
    ScanGroupsTable([], ng, g);
    ScanRulesKeys([], RulesOf(ng, g), r);
    RulesOfNormalized(groups, g);
    HitsOfNormalized(RulesOf(groups, g), r);
  }

  // ---------------------------------------------------------------------------
  // Warnings and item counts
  // ---------------------------------------------------------------------------

  const MaxAllowedMatchLength: nat := 300

  /** The (rule, length) pairs the scan warns about, in scan order. */
  function Warnings(groups: seq<GroupHits>): seq<(string, nat)>
    decreases |groups|
  {
    if |groups| == 0 then [] else RuleWarnings(groups[0].rules) + Warnings(groups[1..])
  }

  function RuleWarnings(rules: seq<RuleHits>): seq<(string, nat)>
    decreases |rules|
  {
    if |rules| == 0 then [] else HitWarnings(rules[0].rule, rules[0].hits) + RuleWarnings(rules[1..])
  }

  function HitWarnings(rule: string, hits: seq<string>): (w: seq<(string, nat)>)
    decreases |hits|
  {
    if |hits| == 0 then []
    else
      var n := |hits[0]|;
      (if n > MaxAllowedMatchLength then [(rule, n)] else []) + HitWarnings(rule, hits[1..])
  }

  /** A warning names a rule and an over-long normalised hit of it, and every
      such hit is warned about. */
  lemma {:induction false} HitWarningsExact(rule: string, hits: seq<string>, w: (string, nat))
    ensures w in HitWarnings(rule, hits) <==>
            w.0 == rule && w.1 > MaxAllowedMatchLength &&
            exists i :: 0 <= i < |hits| && |hits[i]| == w.1
    decreases |hits|
  {
    if |hits| > 0 {
      HitWarningsExact(rule, hits[1..], w);
      assert forall i :: 1 <= i < |hits| ==> hits[1..][i - 1] == hits[i];
    }
  }

  /** `count_num_items_found`: the number of (group, rule, match) entries. */
  function CountItems(t: ScanTable): nat
    decreases |t|
  {
    if |t| == 0 then 0 else RuleItems(t[0].1) + CountItems(t[1..])
  }

  function RuleItems(rt: RuleTable): nat
    decreases |rt|
  {
    if |rt| == 0 then 0 else |rt[0].1| + RuleItems(rt[1..])
  }

  /** Number of raw hits over all rule entries. */
  function TotalHits(rules: seq<RuleHits>): nat
    decreases |rules|
  {
    if |rules| == 0 then 0 else |rules[0].hits| + TotalHits(rules[1..])
  }

  function TotalGroupHits(groups: seq<GroupHits>): nat
    decreases |groups|
  {
    if |groups| == 0 then 0 else TotalHits(groups[0].rules) + TotalGroupHits(groups[1..])
  }

  lemma {:induction false} RuleItemsPut(rt: RuleTable, r: string, c: MatchCounts)
    ensures RuleItems(Put(rt, r, c)) == RuleItems(rt) - (if r in Keys(rt) then |Get(rt, r).value| else 0) + |c|
    ensures r in Keys(rt) ==> |Get(rt, r).value| <= RuleItems(rt)
    decreases |rt|
  {
    if |rt| > 0 && rt[0].0 != r {
      RuleItemsPut(rt[1..], r, c);
      assert Keys(rt) == [rt[0].0] + Keys(rt[1..]);
    }
  }

  lemma {:induction false} ScanRulesItems(rt: RuleTable, rules: seq<RuleHits>)
    ensures RuleItems(rt) <= RuleItems(ScanRules(rt, rules)) <= RuleItems(rt) + TotalHits(rules)
    decreases |rules|
  {
    if |rules| > 0 {
      var rh := rules[0];
      if |rh.hits| > 0 {
        var c0 := Get(rt, rh.rule).GetOr([]);
        TallySize(c0, rh.hits);
        RuleItemsPut(rt, rh.rule, Tally(c0, rh.hits));
      }
      ScanRulesItems(ScanRule(rt, rh), rules[1..]);
    }
  }

  lemma {:induction false} CountItemsPut(t: ScanTable, g: string, rt: RuleTable)
    ensures CountItems(Put(t, g, rt)) == CountItems(t) - (if g in Keys(t) then RuleItems(Get(t, g).value) else 0) + RuleItems(rt)
    ensures g in Keys(t) ==> RuleItems(Get(t, g).value) <= CountItems(t)
    decreases |t|
  {
    if |t| > 0 && t[0].0 != g {
      CountItemsPut(t[1..], g, rt);
      assert Keys(t) == [t[0].0] + Keys(t[1..]);
    }
  }

  lemma {:induction false} ScanGroupsItems(t: ScanTable, groups: seq<GroupHits>)
    ensures CountItems(t) <= CountItems(ScanGroups(t, groups)) <= CountItems(t) + TotalGroupHits(groups)
    decreases |groups|
  {
    if |groups| > 0 {
      var g := groups[0];
      var rt0 := Get(t, g.group).GetOr([]);
      ScanRulesItems(rt0, g.rules);
      CountItemsPut(t, g.group, ScanRules(rt0, g.rules));
      ScanGroupsItems(Put(t, g.group, ScanRules(rt0, g.rules)), groups[1..]);
    }
  }

  lemma {:induction false} TotalHitsNormalized(rules: seq<RuleHits>)
    ensures TotalHits(Map(NormalizeRule, rules)) == TotalHits(rules)
    decreases |rules|
  {
    if |rules| > 0 {
      MapTail(NormalizeRule, rules);
      TotalHitsNormalized(rules[1..]);
    }
  }

  lemma {:induction false} TotalGroupHitsNormalized(groups: seq<GroupHits>)
    ensures TotalGroupHits(Map(NormalizeGroup, groups)) == TotalGroupHits(groups)
    decreases |groups|
  {
    if |groups| > 0 {
      MapTail(NormalizeGroup, groups);
      TotalHitsNormalized(groups[0].rules);
      TotalGroupHitsNormalized(groups[1..]);
    }
  }

  /** Every counted item stands for at least one raw hit. */
  lemma BuildTableItems(groups: seq<GroupHits>)
    ensures CountItems(BuildTable(groups)) <= TotalGroupHits(groups)
  {
    ScanGroupsItems([], Map(NormalizeGroup, groups));
    TotalGroupHitsNormalized(groups);
  }

  // ---------------------------------------------------------------------------
  // Redaction
  // ---------------------------------------------------------------------------

  /** `r` is `t` with some characters overwritten by 'x'; line breaks are
      neither removed nor introduced. */
  predicate MaskOf(r: string, t: string) {
    |r| == |t| &&
    forall i :: 0 <= i < |t| ==> (r[i] == t[i] || r[i] == 'x') && (r[i] == '\n' <==> t[i] == '\n')
  }

  lemma MaskTrans(a: string, b: string, c: string)
    requires MaskOf(a, b) && MaskOf(b, c)
    ensures MaskOf(a, c)
  {
  }

  /** `text.replace(m, 'x' * len(m))` masks the text when `m` has no line break. */
  lemma {:induction false} ReplaceMasks(s: string, m: string)
    requires '\n' !in m
    ensures MaskOf(Replace(s, m, Repeat('x', |m|)), s)
    decreases |s|
  {
    var x := Repeat('x', |m|);
    if |m| == 0 {
      InsertNothing(s);
    } else if |s| < |m| {
    } else if s[..|m|] == m {
      ReplaceMasks(s[|m|..], m);
      var rest := Replace(s[|m|..], m, x);
      var r := x + rest;
      assert Replace(s, m, x) == r;
      forall i | 0 <= i < |s|
        ensures (r[i] == s[i] || r[i] == 'x') && (r[i] == '\n' <==> s[i] == '\n')
      {
        if i < |m| {
          assert s[i] == s[..|m|][i];
          assert s[i] in m;
        } else {
          assert r[i] == rest[i - |m|];
          assert s[i] == s[|m|..][i - |m|];
        }
      }
    } else {
      ReplaceMasks(s[1..], m);
      var rest := Replace(s[1..], m, x);
      var r := [s[0]] + rest;
      assert Replace(s, m, x) == r;
      forall i | 0 <= i < |s|
        ensures (r[i] == s[i] || r[i] == 'x') && (r[i] == '\n' <==> s[i] == '\n')
      {
        if i > 0 {
          assert r[i] == rest[i - 1];
        }
      }
    }
  }

  /** Every match replaced by an equal-length run of 'x', in list order. */
  function MaskAll(text: string, ms: seq<string>): string
    decreases |ms|
  {
    if |ms| == 0 then text else MaskAll(Replace(text, ms[0], Repeat('x', |ms[0]|)), ms[1..])
  }

  lemma {:induction false} MaskAllMasks(text: string, ms: seq<string>)
    requires forall i :: 0 <= i < |ms| ==> '\n' !in ms[i]
    ensures MaskOf(MaskAll(text, ms), text)
    decreases |ms|
  {
    if |ms| > 0 {
      var t1 := Replace(text, ms[0], Repeat('x', |ms[0]|));
      ReplaceMasks(text, ms[0]);
      MaskAllMasks(t1, ms[1..]);
      MaskTrans(MaskAll(t1, ms[1..]), t1, text);
    }
  }

  /** The matches stored under the rules `ks`, rule by rule, each rule's in
      insertion order. */
  function MatchesOf(rt: RuleTable, ks: seq<string>): seq<string>
    decreases |ks|
  {
    if |ks| == 0 then [] else Keys(Get(rt, ks[0]).GetOr([])) + MatchesOf(rt, ks[1..])
  }

  /** The inner loop of the redaction: every match of every rule of a group. */
  function TableMatches(rt: RuleTable): seq<string> {
    MatchesOf(rt, Keys(rt))
  }

  lemma {:induction false} MatchesOfSource(rt: RuleTable, ks: seq<string>, m: string)
    requires m in MatchesOf(rt, ks)
    ensures exists r :: r in ks && CountIn(rt, r, m).Some?
    decreases |ks|
  {
    if m in Keys(Get(rt, ks[0]).GetOr([])) {
      assert ks[0] in ks && CountIn(rt, ks[0], m).Some?;
    } else {
      MatchesOfSource(rt, ks[1..], m);
      var r :| r in ks[1..] && CountIn(rt, r, m).Some?;
      assert r in ks;
    }
  }

  /** The list of matches masked after each group: the matches of all groups
      so far, sorted longest first. */
  function MaskOrder(all: seq<string>, rt: RuleTable): (ms: seq<string>)
    ensures LongestFirst(ms)
    ensures multiset(ms) == multiset(all + TableMatches(rt))
  {
    SortLongestFirst(all + TableMatches(rt))
  }

  /** The redaction loop over the groups `gs`: after each group, all matches
      collected so far are re-sorted and masked again. */
  function Redact(text: string, all: seq<string>, t: ScanTable, gs: seq<string>): string
    decreases |gs|
  {
    if |gs| == 0 then text
    else
      var ms := MaskOrder(all, Get(t, gs[0]).GetOr([]));
      Redact(MaskAll(text, ms), ms, t, gs[1..])
  }

  /** No match stored in the table holds a line break. */
  ghost predicate NoNewlineMatches(t: ScanTable) {
    forall g, r, m :: CountAt(t, g, r, m).Some? ==> '\n' !in m
  }

  lemma {:induction false} RedactMasks(text: string, all: seq<string>, t: ScanTable, gs: seq<string>)
    requires forall m :: m in all ==> '\n' !in m
    requires NoNewlineMatches(t)
    ensures MaskOf(Redact(text, all, t, gs), text)
    decreases |gs|
  {
    if |gs| > 0 {
      var rt := Get(t, gs[0]).GetOr([]);
      var ms := MaskOrder(all, rt);
      forall m | m in ms
        ensures '\n' !in m
      {
        assert m in multiset(all + TableMatches(rt));
        if m !in all {
          MatchesOfSource(rt, Keys(rt), m);
          var r :| r in Keys(rt) && CountIn(rt, r, m).Some?;
          assert CountAt(t, gs[0], r, m).Some?;
        }
      }
      MaskAllMasks(text, ms);
      RedactMasks(MaskAll(text, ms), ms, t, gs[1..]);
      MaskTrans(Redact(MaskAll(text, ms), ms, t, gs[1..]), MaskAll(text, ms), text);
    }
  }

  /** The result of `parse_cert_file`: the table, the redacted text and the
      over-long-match warnings. */
  datatype ParsedCert = ParsedCert(table: ScanTable, redacted: string, warnings: seq<(string, nat)>)

  /** `parse_cert_file` without the file I/O. */
  function ParseCertFile(text: string, groups: seq<GroupHits>): (p: ParsedCert)
  {
    var t := BuildTable(groups);
    ParsedCert(t, Redact(text, [], t, Keys(t)), Warnings(Map(NormalizeGroup, groups)))
  }

  /** The redacted text has the input's length, differs from it only where an
      'x' was written, and keeps every line break where it was. */
  lemma ParseCertFileMasks(text: string, groups: seq<GroupHits>)
    ensures MaskOf(ParseCertFile(text, groups).redacted, text)
  {
    var t := BuildTable(groups);
    forall g, r, m | CountAt(t, g, r, m).Some?
      ensures '\n' !in m
    {
      CountedNoNewline(groups, g, r, m);
    }
    RedactMasks(text, [], t, Keys(t));
  }

  /** A counted match never holds a line break. */
  lemma CountedNoNewline(groups: seq<GroupHits>, g: string, r: string, m: string)
    requires CountAt(BuildTable(groups), g, r, m).Some?
    ensures '\n' !in m
  {
    BuildTableCount(groups, g, r, m);
    var hs := HitsOf(RulesOf(groups, g), r);
    assert m in Map(Normalize, hs);
    var j :| 0 <= j < |hs| && Map(Normalize, hs)[j] == m;
    NormalizedNoNewline(hs[j]);
  }
}
