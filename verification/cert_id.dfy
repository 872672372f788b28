/** Certificate IDs: estimating a certificate's own ID from its front page, its
    keyword scan and its file name, and rewriting IDs of four certification
    schemes (French ANSSI, German BSI, Spanish `-INF-`, Italian `OCSI/CERT`)
    into one canonical spelling. */
module CertId {
  import opened Wrappers
  import opened PyStr
  import opened Dict
  import opened Seqs
  import opened RuleMatcher

  // ---------------------------------------------------------------------------
  // Estimating a certificate's ID
  // ---------------------------------------------------------------------------

  /** The fields of the front-page scan, which may hold `cert_id`. */
  type FrontPage = map<string, string>

  const MinCertIdLength: nat := 5
  const MaxCertIdLength: nat := 60

  /** Only candidates of 5 to 60 characters are trusted. */
  predicate ValidLength(s: string) {
    MinCertIdLength <= |s| <= MaxCertIdLength
  }

  /** `count > best` holds nowhere before `i` and `es[i]` has the largest count:
      `es[i]` is where a running maximum with strict `>` settles. */
  predicate FirstMax(es: seq<(string, int)>, i: nat)
    requires i < |es|
  {
    (forall j :: 0 <= j < |es| ==> es[j].1 <= es[i].1)
    && (forall j :: 0 <= j < i ==> es[j].1 < es[i].1)
  }

  /** A running maximum that replaces `best` only on a strictly larger count. */
  function MaxScan(es: seq<(string, int)>, best: string, top: int): string
    decreases |es|
  {
    if |es| == 0 then best
    else if es[0].1 > top then MaxScan(es[1..], es[0].0, es[0].1)
    else MaxScan(es[1..], best, top)
  }

  /** A first maximum of the tail that beats the head is a first maximum of
      the whole. */
  lemma FirstMaxCons(es: seq<(string, int)>, i: nat)
    requires |es| > 0 && i < |es| - 1 && FirstMax(es[1..], i) && es[0].1 < es[1..][i].1
    ensures FirstMax(es, i + 1)
  {
    assert forall j :: 1 <= j < |es| ==> es[j] == es[1..][j - 1];
  }

  /** A head no entry of the tail beats is the first maximum. */
  lemma FirstMaxHead(es: seq<(string, int)>)
    requires |es| > 0 && forall j :: 0 <= j < |es| - 1 ==> es[1..][j].1 <= es[0].1
    ensures FirstMax(es, 0)
  {
    assert forall j :: 1 <= j < |es| ==> es[j] == es[1..][j - 1];
  }

  /** The scan keeps `best` when nothing beats `top`, and otherwise settles on
      the first entry with the largest count. */
  lemma {:induction false} MaxScanSpec(es: seq<(string, int)>, best: string, top: int)
    ensures (forall j :: 0 <= j < |es| ==> es[j].1 <= top) ==> MaxScan(es, best, top) == best
    ensures (exists j :: 0 <= j < |es| && es[j].1 > top) ==>
              exists i :: 0 <= i < |es| && es[i].1 > top && FirstMax(es, i)
                          && MaxScan(es, best, top) == es[i].0
    decreases |es|
  {
    if |es| > 0 {
      var t := es[1..];
      if es[0].1 > top {
        MaxScanSpec(t, es[0].0, es[0].1);
        if exists j :: 0 <= j < |t| && t[j].1 > es[0].1 {
          var i :| 0 <= i < |t| && t[i].1 > es[0].1 && FirstMax(t, i)
                   && MaxScan(t, es[0].0, es[0].1) == t[i].0;
          FirstMaxCons(es, i);
          assert es[i + 1] == t[i];
        } else {
          FirstMaxHead(es);
        }
      } else {
        MaxScanSpec(t, best, top);
        if exists j :: 0 <= j < |t| && t[j].1 > top {
          var i :| 0 <= i < |t| && t[i].1 > top && FirstMax(t, i)
                   && MaxScan(t, best, top) == t[i].0;
          FirstMaxCons(es, i);
          assert es[i + 1] == t[i];
        } else {
          assert forall j :: 1 <= j < |es| ==> es[j] == t[j - 1];
        }
      }
    }
  }

  /** `(match, count)` for the matches `ms` of one rule's counter. */
  function MatchEntries(c: MatchCounts, ms: seq<string>): seq<(string, int)> {
    seq(|ms|, i requires 0 <= i < |ms| => (ms[i], Get(c, ms[i]).GetOr(0)))
  }

  /** `(match, count)` for every match of the rules `ks`, in iteration order. */
  function CountEntries(rt: RuleTable, ks: seq<string>): seq<(string, int)>
    decreases |ks|
  {
    if |ks| == 0 then []
    else
      var c := Get(rt, ks[0]).GetOr([]);
      MatchEntries(c, Keys(c)) + CountEntries(rt, ks[1..])
  }

  /** The most frequent match of the `rules_cert_id` table; the first one
      wins a tie, and '' is kept when no count is positive. */
  function KeywordCandidate(rt: RuleTable): string {
    MaxScan(CountEntries(rt, Keys(rt)), "", 0)
  }

  /** The longest of `ms`, the first one on ties. */
  function Longest(ms: seq<string>): string
    requires |ms| > 0
  {
    MaxScan(Map((m: string) => (m, |m|), ms), ms[0], |ms[0]|)
  }

  lemma LongestSpec(ms: seq<string>)
    requires |ms| > 0
    ensures exists i :: 0 <= i < |ms| && Longest(ms) == ms[i]
              && (forall j :: 0 <= j < |ms| ==> |ms[j]| <= |ms[i]|)
              && (forall j :: 0 <= j < i ==> |ms[j]| < |ms[i]|)
  {
    var es := Map((m: string) => (m, |m|), ms);
    MaxScanSpec(es, ms[0], |ms[0]|);
    if exists j :: 0 <= j < |es| && es[j].1 > |ms[0]| {
      var i :| 0 <= i < |es| && es[i].1 > |ms[0]| && FirstMax(es, i) && Longest(ms) == es[i].0;
      assert Longest(ms) == ms[i];
    } else {
      assert FirstMax(es, 0);
    }
  }

  /** The file name without directory and suffix, with a trailing space and
      `%20` decoded, as the file-name rules expect it. */
  function FileStem(fileName: string): string {
    var noSuffix := Head(fileName, RFind(fileName, "."));
    var base := Tail(noSuffix, RFind(noSuffix, "/") + 1);
    Replace(base + " ", "%20", " ")
  }

  /** The regular-expression search `re.findall(rule, text)`, supplied by the caller. */
  type FindAll = (string, string) -> seq<string>

  /** Each rule with a match overwrites the candidate with its longest match. */
  function FileNameScan(stem: string, rules: seq<string>, findall: FindAll, cand: string): string
    decreases |rules|
  {
    if |rules| == 0 then cand
    else
      var ms := findall(rules[0], stem);
      FileNameScan(stem, rules[1..], findall, if |ms| > 0 then Longest(ms) else cand)
  }

  /** The file-name candidate comes from the LAST rule that matches at all. */
  lemma {:induction false} FileNameScanLast(stem: string, rules: seq<string>, findall: FindAll, cand: string)
    ensures (forall k :: 0 <= k < |rules| ==> |findall(rules[k], stem)| == 0) ==>
              FileNameScan(stem, rules, findall, cand) == cand
    ensures (exists k :: 0 <= k < |rules| && |findall(rules[k], stem)| > 0) ==>
              exists k :: 0 <= k < |rules| && |findall(rules[k], stem)| > 0
                          && FileNameScan(stem, rules, findall, cand) == Longest(findall(rules[k], stem))
                          && forall k' :: k < k' < |rules| ==> |findall(rules[k'], stem)| == 0
    decreases |rules|
  {
    if |rules| > 0 {
      var ms := findall(rules[0], stem);
      var next := if |ms| > 0 then Longest(ms) else cand;
      var t := rules[1..];
      FileNameScanLast(stem, t, findall, next);
      assert forall k :: 1 <= k < |rules| ==> rules[k] == t[k - 1];
      if exists k :: 0 <= k < |t| && |findall(t[k], stem)| > 0 {
        var k :| 0 <= k < |t| && |findall(t[k], stem)| > 0
                 && FileNameScan(stem, t, findall, next) == Longest(findall(t[k], stem))
                 && forall k' :: k < k' < |t| ==> |findall(t[k'], stem)| == 0;
        assert FileNameScan(stem, rules, findall, cand) == Longest(findall(rules[k + 1], stem));
      } else if |ms| > 0 {
        assert FileNameScan(stem, rules, findall, cand) == Longest(findall(rules[0], stem));
      }
    }
  }

  /** The three candidates an estimate chooses from. */
  datatype Candidates = Candidates(keyword: string, frontpage: string, fileName: string)

  /** The later valid candidate overrides the earlier: file name over front
      page over keywords. */
  function Choose(c: Candidates): string {
    var e0 := if ValidLength(c.keyword) then c.keyword else "";
    var e1 := if ValidLength(c.frontpage) then c.frontpage else e0;
    if ValidLength(c.fileName) then c.fileName else e1
  }

  /** The candidates of one certificate; `Err` when a keyword scan lacks the
      `rules_cert_id` group that is indexed unconditionally. */
  function GatherCandidates(frontpage: Option<FrontPage>, keywords: Option<ScanTable>,
                            fileName: Option<string>, idRules: seq<string>, findall: FindAll)
    : Result<Candidates>
  {
    var fp := if frontpage.Some? && "cert_id" in frontpage.value then frontpage.value["cert_id"] else "";
    var fn := if fileName.Some? then FileNameScan(FileStem(fileName.value), idRules, findall, "") else "";
    if keywords.None? then Ok(Candidates("", fp, fn))
    else
      match Get(keywords.value, "rules_cert_id")
      case None => Err("KeyError")
      case Some(rt) => Ok(Candidates(KeywordCandidate(rt), fp, fn))
  }

  /** `estimate_cert_id`. */
  function EstimateCertId(frontpage: Option<FrontPage>, keywords: Option<ScanTable>,
                          fileName: Option<string>, idRules: seq<string>, findall: FindAll)
    : (r: Result<string>)
    ensures r.Err? <==> keywords.Some? && "rules_cert_id" !in Keys(keywords.value)
    ensures r.Ok? ==> r.value == "" || ValidLength(r.value)
    ensures r.Ok? ==> var c := GatherCandidates(frontpage, keywords, fileName, idRules, findall).value;
      && (ValidLength(c.fileName) ==> r.value == c.fileName)
      && (!ValidLength(c.fileName) && ValidLength(c.frontpage) ==> r.value == c.frontpage)
      && (!ValidLength(c.fileName) && !ValidLength(c.frontpage) && ValidLength(c.keyword) ==> r.value == c.keyword)
      && (r.value == "" <==> !ValidLength(c.fileName) && !ValidLength(c.frontpage) && !ValidLength(c.keyword))
  {
    var c :- GatherCandidates(frontpage, keywords, fileName, idRules, findall);
    Ok(Choose(c))
  }

  /** The keyword candidate is '' when no count is positive and otherwise the
      first match whose count is strictly the largest so far and never beaten. */
  lemma KeywordCandidateSpec(rt: RuleTable)
    ensures var es := CountEntries(rt, Keys(rt));
      && ((forall j :: 0 <= j < |es| ==> es[j].1 <= 0) ==> KeywordCandidate(rt) == "")
      && ((exists j :: 0 <= j < |es| && es[j].1 > 0) ==>
            exists i :: 0 <= i < |es| && es[i].1 > 0 && FirstMax(es, i) && KeywordCandidate(rt) == es[i].0)
  {
    MaxScanSpec(CountEntries(rt, Keys(rt)), "", 0);
  }

  // ---------------------------------------------------------------------------
  // Canonicalising an ID
  // ---------------------------------------------------------------------------

  /** All IDs found anywhere, mapped to their canonical spelling. */
  type Registry = Dict<string, string>

  /** Length of `ANSSI-CC-0000`: the index where '/' follows the year. */
  const AnssiYearEnd: nat := 13

  /** ANSSI: the `ANSSi` typo (the slice from index 4 keeps the lower-case
      `i`), `_` instead of `/` after the year, `_` instead of `-`. */
  function AnssiFix(s: string): (r: string)
    ensures '_' !in r
    ensures |r| == |s| + (if StartsWith(s, "ANSSi") then 1 else 0)
    ensures StartsWith(s, "ANSSi") ==> StartsWith(r, "ANSSIi")
    ensures !StartsWith(s, "ANSSi") && |s| > AnssiYearEnd && s[AnssiYearEnd] == '_' ==> r[AnssiYearEnd] == '/'
    ensures !StartsWith(s, "ANSSi") && '_' !in s ==> r == s
  {
    var a := if StartsWith(s, "ANSSi") then "ANSSI" + s[4..] else s;
    var b := if |a| > AnssiYearEnd && a[AnssiYearEnd] == '_'
             then a[..AnssiYearEnd] + "/" + a[AnssiYearEnd + 1..] else a;
    ReplaceCharPointwise(b, '_', '-');
    if '_' in b then Replace(b, "_", "-") else b
  }

  /** The fields of a BSI ID `BSI-DSZ-CC-<num>[-<version>][-<year>]`. */
  datatype BsiId = BsiId(num: Option<string>, version: Option<string>, year: Option<string>)

  predicate VersionLike(p: string) {
    StartsWith(p, "V") || StartsWith(p, "v")
  }

  /** Reads the dash-separated parts: part 4 is a version when it starts with
      V or v and a year otherwise; a part 5 is always the year. */
  function ParseBsi(parts: seq<string>): BsiId {
    var num := if |parts| > 3 then Some(parts[3]) else None;
    var isVersion := |parts| > 4 && VersionLike(parts[4]);
    var version := if isVersion then Some(Upper(parts[4])) else None;
    var year := if |parts| > 5 then Some(parts[5])
                else if |parts| > 4 && !isVersion then Some(parts[4])
                else None;
    BsiId(num, version, year)
  }

  const FirstProbeYear: nat := 1996
  const EndProbeYear: nat := 2030

  /** `id-year` is a registry key. */
  predicate Registered(id: string, reg: Registry, z: nat) {
    id + "-" + DecimalString(z) in Keys(reg)
  }

  /** The first year from `y` on, below 2030, for which `id-year` is registered. */
  function ProbeYear(id: string, reg: Registry, y: nat): (r: Option<string>)
    decreases EndProbeYear - y
  {
    if y >= EndProbeYear then None
    else if Registered(id, reg, y) then Some(DecimalString(y))
    else ProbeYear(id, reg, y + 1)
  }

  /** No year is found only when no year in range is registered. */
  lemma {:induction false} ProbeYearNone(id: string, reg: Registry, y: nat)
    ensures ProbeYear(id, reg, y).None? <==>
              forall z: nat :: y <= z < EndProbeYear ==> !Registered(id, reg, z)
    decreases EndProbeYear - y
  {
    if y < EndProbeYear && !Registered(id, reg, y) {
      ProbeYearNone(id, reg, y + 1);
    }
  }

  /** A probed year is the smallest registered one in range. */
  lemma {:induction false} ProbeYearSome(id: string, reg: Registry, y: nat)
    ensures ProbeYear(id, reg, y).Some? ==>
              exists z: nat :: y <= z < EndProbeYear && ProbeYear(id, reg, y).value == DecimalString(z)
                && Registered(id, reg, z)
                && forall z': nat :: y <= z' < z ==> !Registered(id, reg, z')
    decreases EndProbeYear - y
  {
    if y < EndProbeYear && !Registered(id, reg, y) {
      ProbeYearSome(id, reg, y + 1);
      if ProbeYear(id, reg, y).Some? {
        var z: nat :| y + 1 <= z < EndProbeYear && ProbeYear(id, reg, y + 1).value == DecimalString(z)
                      && Registered(id, reg, z)
                      && forall z': nat :: y + 1 <= z' < z ==> !Registered(id, reg, z');
        assert forall z': nat :: y <= z' < z ==> !Registered(id, reg, z');
      }
    }
  }

  /** A number shorter than four characters gets one leading '0'. */
  function PadNumber(n: string): string {
    if |n| < 4 then "0" + n else n
  }

  function Dashed(o: Option<string>): string {
    if o.Some? then "-" + o.value else ""
  }

  /** The year a BSI rewrite ends with: the one written in the ID, or a probed one. */
  function BsiYear(id: string, reg: Registry): Option<string> {
    var b := ParseBsi(Split(id, '-'));
    if b.year.Some? then b.year else ProbeYear(id, reg, FirstProbeYear)
  }

  /** BSI: pad the number, upper-case the version, complete a missing year. */
  function BsiFix(id: string, reg: Registry): string {
    var b := ParseBsi(Split(id, '-'));
    var num := if b.num.Some? then Some(PadNumber(b.num.value)) else None;
    "BSI-DSZ-CC" + Dashed(num) + Dashed(b.version) + Dashed(BsiYear(id, reg))
  }

  /** `s[:s.find(c)]` when `c` occurs, else `s`. */
  function CutAt(s: string, c: char): (r: string)
    ensures r <= s && c !in r
    ensures c in s ==> s[|r|] == c
    ensures c !in s ==> r == s
  {
    if c in s then s[..IndexOf(s, c)] else s
  }

  /** A Spanish certificate number with its `v`/`V` version suffix dropped. */
  function SpainNumber(p: string): (n: string)
    ensures n <= p && 'v' !in n && 'V' !in n
    ensures 'v' !in p && 'V' !in p ==> n == p
    ensures n != p ==> p[|n|] == 'v' || p[|n|] == 'V'
  {
    CutAt(CutAt(p, 'v'), 'V')
  }

  /** Spain: `<year>-<batch>-INF-<number>` without the version; the third
      part is rewritten to `INF`. Fewer than four parts is an `IndexError`. */
  function SpainFix(id: string): (r: Result<string>)
    ensures r.Err? <==> |Split(id, '-')| < 4
    ensures r.Ok? ==> var parts := Split(id, '-');
              r.value == parts[0] + "-" + parts[1] + "-INF-" + SpainNumber(parts[3])
  {
    var parts := Split(id, '-');
    if |parts| < 4 then Err("IndexError")
    else Ok(parts[0] + "-" + parts[1] + "-INF-" + SpainNumber(parts[3]))
  }

  /** `fix_certid_reference`: the scheme rules applied in order, each later
      one overriding the earlier; an ID no rule applies to is only stripped
      of trailing whitespace. */
  function FixCertId(id: string, reg: Registry): Result<string> {
    var s := RStripSpace(id);
    var s1 := if StartsWith(id, "ANSS") then AnssiFix(s) else s;
    var s2 := if StartsWith(id, "BSI-DSZ-CC-") then BsiFix(id, reg) else s1;
    var s3 :- if Contains(id, "-INF-") then SpainFix(id) else Ok(s2);
    if Contains(id, "OCSI/CERT") && !EndsWith(id, "/RC") then Ok(id + "/RC") else Ok(s3)
  }

  // ---------------------------------------------------------------------------
  // Properties of the rewrite
  // ---------------------------------------------------------------------------

  function OptList(o: Option<string>): seq<string> {
    if o.Some? then [o.value] else []
  }

  lemma SplitCons3(a: string, b: string, c: string, t: string)
    requires '-' !in a && '-' !in b && '-' !in c
    ensures Split(a + ['-'] + (b + ['-'] + (c + ['-'] + t)), '-') == [a] + ([b] + ([c] + Split(t, '-')))
  {
    var t2 := c + ['-'] + t;
    var t1 := b + ['-'] + t2;
    SplitCons(c, '-', t);
    SplitCons(b, '-', t2);
    SplitCons(a, '-', t1);
  }

  /** Every BSI ID splits into `BSI`, `DSZ`, `CC` and at least one more part. */
  lemma BsiSplit(id: string)
    requires StartsWith(id, "BSI-DSZ-CC-")
    ensures Split(id, '-') == ["BSI", "DSZ", "CC"] + Split(id[11..], '-')
  {
    BsiPrefix(id);
    SplitCons3("BSI", "DSZ", "CC", id[11..]);
    ThreeHeads(Split(id[11..], '-'));
  }

  // BsiPrefix, ThreeHeads, ParseBsiFields, BareShape and PaddedShape state
  // shape facts about the literal prefix. As separate lemmas they keep
  // their callers' proofs several times cheaper than the same facts
  // asserted inline.
  lemma BsiPrefix(id: string)
    requires StartsWith(id, "BSI-DSZ-CC-")
    ensures id == "BSI" + ['-'] + ("DSZ" + ['-'] + ("CC" + ['-'] + id[11..]))
  {
  }

  lemma ThreeHeads(rest: seq<string>)
    ensures ["BSI"] + (["DSZ"] + (["CC"] + rest)) == ["BSI", "DSZ", "CC"] + rest
  {
  }

  /** The certificate number: the fourth dash-separated part. */
  function BsiNumber(id: string): string
    requires StartsWith(id, "BSI-DSZ-CC-")
  {
    BsiSplit(id);
    Split(id, '-')[3]
  }

  /** The dash-separated fields a BSI rewrite writes out. */
  function BsiFields(id: string, reg: Registry): seq<string>
    requires StartsWith(id, "BSI-DSZ-CC-")
  {
    ["BSI", "DSZ", "CC", PadNumber(BsiNumber(id))]
    + OptList(ParseBsi(Split(id, '-')).version) + OptList(BsiYear(id, reg))
  }

  lemma JoinDashed(ps: seq<string>, o: Option<string>)
    requires |ps| >= 1
    ensures Join("-", ps + OptList(o)) == Join("-", ps) + Dashed(o)
  {
    if o.Some? {
      JoinSnoc("-", ps, o.value);
    } else {
      assert ps + [] == ps;
    }
  }

  lemma JoinBsiHead(n: string)
    ensures Join("-", ["BSI", "DSZ", "CC", n]) == "BSI-DSZ-CC-" + n
  {
    var l := ["BSI", "DSZ", "CC", n];
    assert l[1..] == ["DSZ", "CC", n];
    assert l[1..][1..] == ["CC", n];
    assert l[1..][1..][1..] == [n];
    assert Join("-", [n]) == n;
    assert Join("-", ["CC", n]) == "CC" + "-" + n;
    assert Join("-", ["DSZ", "CC", n]) == "DSZ" + "-" + ("CC" + "-" + n);
    assert Join("-", l) == "BSI" + "-" + ("DSZ" + "-" + ("CC" + "-" + n));
  }

  /** The rewrite assembled piece by piece. */
  lemma BsiFixPieces(id: string, reg: Registry)
    requires StartsWith(id, "BSI-DSZ-CC-")
    ensures BsiFix(id, reg) == "BSI-DSZ-CC" + Dashed(Some(PadNumber(BsiNumber(id))))
                               + Dashed(ParseBsi(Split(id, '-')).version) + Dashed(BsiYear(id, reg))
  {
    BsiSplit(id);
  }

  lemma JoinBsiFields(n: string, v: Option<string>, y: Option<string>)
    ensures Join("-", ["BSI", "DSZ", "CC", n] + OptList(v) + OptList(y))
            == "BSI-DSZ-CC" + Dashed(Some(n)) + Dashed(v) + Dashed(y)
  {
    var head := ["BSI", "DSZ", "CC", n];
    JoinBsiHead(n);
    JoinDashed(head, v);
    JoinDashed(head + OptList(v), y);
    assert "BSI-DSZ-CC" + Dashed(Some(n)) == "BSI-DSZ-CC-" + n;
  }

  lemma BsiFixJoin(id: string, reg: Registry)
    requires StartsWith(id, "BSI-DSZ-CC-")
    ensures BsiFix(id, reg) == Join("-", BsiFields(id, reg))
  {
    BsiFixPieces(id, reg);
    JoinBsiFields(PadNumber(BsiNumber(id)), ParseBsi(Split(id, '-')).version, BsiYear(id, reg));
  }

  predicate DashFree(o: Option<string>) {
    o.Some? ==> '-' !in o.value
  }

  lemma DashFreeFields(n: string, v: Option<string>, y: Option<string>)
    requires '-' !in n && DashFree(v) && DashFree(y)
    ensures var fs := ["BSI", "DSZ", "CC", n] + OptList(v) + OptList(y);
      forall i :: 0 <= i < |fs| ==> '-' !in fs[i]
  {
  }

  /** The fields read from dash-free parts are dash-free. */
  lemma ParseBsiDashFree(parts: seq<string>)
    requires forall i :: 0 <= i < |parts| ==> '-' !in parts[i]
    ensures DashFree(ParseBsi(parts).num) && DashFree(ParseBsi(parts).version) && DashFree(ParseBsi(parts).year)
  {
    if |parts| > 4 {
      UpperKeeps(parts[4], '-');
    }
  }

  lemma ProbeYearDashFree(id: string, reg: Registry, y: nat)
    ensures DashFree(ProbeYear(id, reg, y))
  {
    ProbeYearSome(id, reg, y);
    if ProbeYear(id, reg, y).Some? {
      var z: nat :| ProbeYear(id, reg, y).value == DecimalString(z);
    }
  }

  /** No field of a BSI rewrite contains a dash. */
  lemma BsiFieldsDashFree(id: string, reg: Registry)
    requires StartsWith(id, "BSI-DSZ-CC-")
    ensures forall i :: 0 <= i < |BsiFields(id, reg)| ==> '-' !in BsiFields(id, reg)[i]
  {
    BsiSplit(id);
    var parts := Split(id, '-');
    ParseBsiDashFree(parts);
    ProbeYearDashFree(id, reg, FirstProbeYear);
    assert '-' !in BsiNumber(id);
    DashFreeFields(PadNumber(BsiNumber(id)), ParseBsi(parts).version, BsiYear(id, reg));
  }

  /** A BSI rewrite starts with `BSI-DSZ-CC-` and splits back into exactly
      the fields it was assembled from. */
  lemma BsiFixFields(id: string, reg: Registry)
    requires StartsWith(id, "BSI-DSZ-CC-")
    ensures StartsWith(BsiFix(id, reg), "BSI-DSZ-CC-")
    ensures Split(BsiFix(id, reg), '-') == BsiFields(id, reg)
  {
    BsiSplit(id);
    BsiFixJoin(id, reg);
    BsiFieldsDashFree(id, reg);
    SplitJoin(BsiFields(id, reg), '-');
  }

  /** The number gains exactly one leading '0' when shorter than four characters. */
  lemma BsiNumberPadded(id: string, reg: Registry)
    requires StartsWith(id, "BSI-DSZ-CC-")
    ensures var p := BsiNumber(id); var out := Split(BsiFix(id, reg), '-');
      |out| >= 4 && out[3] == (if |p| < 4 then "0" + p else p)
  {
    BsiSplit(id);
    BsiFixFields(id, reg);
  }

  /** A `v`/`V` version part comes out upper-cased, right after the number. */
  lemma BsiVersionUpper(id: string, reg: Registry)
    requires StartsWith(id, "BSI-DSZ-CC-")
    requires |Split(id, '-')| > 4 && VersionLike(Split(id, '-')[4])
    ensures var out := Split(BsiFix(id, reg), '-');
      |out| >= 5 && out[4] == Upper(Split(id, '-')[4]) && StartsWith(out[4], "V")
  {
    BsiFixFields(id, reg);
    var parts := Split(id, '-');
    var v := Upper(parts[4]);
    assert ParseBsi(parts).version == Some(v);
    var fs := BsiFields(id, reg);
    assert fs == ["BSI", "DSZ", "CC", PadNumber(BsiNumber(id))] + [v] + OptList(BsiYear(id, reg));
    assert fs[4] == v;
    assert v[0] == 'V';
  }

  /** Once the number has at least four characters and the year is written
      out and cannot be mistaken for a version, a second rewrite changes nothing. */
  lemma BsiIdempotent(id: string, reg: Registry)
    requires StartsWith(id, "BSI-DSZ-CC-")
    requires |BsiNumber(id)| >= 3
    requires BsiYear(id, reg).Some? && !VersionLike(BsiYear(id, reg).value)
    ensures BsiFix(BsiFix(id, reg), reg) == BsiFix(id, reg)
  {
    var parts := Split(id, '-');
    var r := BsiFix(id, reg);
    var n := PadNumber(BsiNumber(id));
    var v := ParseBsi(parts).version;
    var y := BsiYear(id, reg).value;
    BsiFixFields(id, reg);
    assert Split(r, '-') == ["BSI", "DSZ", "CC", n] + OptList(v) + [y];
    if v.Some? {
      UpperTwice(parts[4]);
      assert v.value[0] == 'V';
    }
    ParseBsiFields(n, v, y);
    assert BsiFields(r, reg) == BsiFields(id, reg);
    BsiFixJoin(r, reg);
    BsiFixJoin(id, reg);
  }

  /** Reading back the fields of a rewrite with an upper-case version and a year. */
  lemma ParseBsiFields(n: string, v: Option<string>, y: string)
    requires v.Some? ==> VersionLike(v.value) && Upper(v.value) == v.value
    requires !VersionLike(y)
    ensures ParseBsi(["BSI", "DSZ", "CC", n] + OptList(v) + [y]) == BsiId(Some(n), v, Some(y))
  {
  }

  /** With an empty registry, a bare short number only gains its '0'. */
  lemma BsiBareShort(id: string, reg: Registry)
    requires StartsWith(id, "BSI-DSZ-CC-") && '-' !in id[11..] && |id[11..]| < 4 && reg == []
    ensures BsiFix(id, reg) == "BSI-DSZ-CC-0" + id[11..]
  {
    var t := id[11..];
    BsiSplit(id);
    SplitNone(t, '-');
    assert Split(id, '-') == ["BSI", "DSZ", "CC", t];
    assert ParseBsi(Split(id, '-')) == BsiId(Some(t), None, None);
    ProbeYearNone(id, reg, FirstProbeYear);
    assert BsiYear(id, reg) == None;
    BareShape(t);
  }

  lemma BareShape(t: string)
    requires |t| < 4
    ensures "BSI-DSZ-CC" + Dashed(Some(PadNumber(t))) + Dashed(None) + Dashed(None) == "BSI-DSZ-CC-0" + t
  {
  }

  /** A bare number of at most two characters is padded on each of two passes. */
  lemma BsiPadTwice(id: string, reg: Registry)
    requires StartsWith(id, "BSI-DSZ-CC-") && '-' !in id[11..] && |id[11..]| < 3 && reg == []
    ensures BsiFix(id, reg) == "BSI-DSZ-CC-0" + id[11..]
    ensures BsiFix(BsiFix(id, reg), reg) == "BSI-DSZ-CC-00" + id[11..]
  {
    BsiBareShort(id, reg);
    var once := BsiFix(id, reg);
    PaddedShape(id[11..], once);
    BsiBareShort(once, reg);
  }

  lemma PaddedShape(t: string, once: string)
    requires once == "BSI-DSZ-CC-0" + t && '-' !in t && |t| < 3
    ensures StartsWith(once, "BSI-DSZ-CC-") && once[11..] == "0" + t
    ensures '-' !in once[11..] && |once[11..]| < 4
    ensures "BSI-DSZ-CC-0" + once[11..] == "BSI-DSZ-CC-00" + t
  {
  }

  // The worked examples in this module name their literal with a parameter
  // and a `requires x == "..."` rather than writing it into the ensures:
  // the verifier then reasons about slices and indices of one variable
  // instead of unfolding the literal at every occurrence.
  lemma BsiExampleShape(id: string)
    requires id == "BSI-DSZ-CC-85"
    ensures StartsWith(id, "BSI-DSZ-CC-") && id[11..] == "85"
  {
  }

  /** `BSI-DSZ-CC-85` becomes `BSI-DSZ-CC-085` and then `BSI-DSZ-CC-0085`:
      the rewrite is not idempotent. */
  lemma BsiNotIdempotent(id: string, reg: Registry)
    requires id == "BSI-DSZ-CC-85" && reg == []
    ensures BsiFix(id, reg) == "BSI-DSZ-CC-085"
    ensures BsiFix(BsiFix(id, reg), reg) == "BSI-DSZ-CC-0085"
  {
    BsiExampleShape(id);
    BsiPadTwice(id, reg);
    BsiExamplePads(id[11..]);
  }

  lemma BsiExamplePads(t: string)
    requires t == "85"
    ensures "BSI-DSZ-CC-0" + t == "BSI-DSZ-CC-085" && "BSI-DSZ-CC-00" + t == "BSI-DSZ-CC-0085"
  {
  }

  lemma FixBsi(id: string, reg: Registry)
    requires StartsWith(id, "BSI-DSZ-CC-") && !Contains(id, "-INF-") && !Contains(id, "OCSI/CERT")
    ensures FixCertId(id, reg) == Ok(BsiFix(id, reg))
  {
  }

  /** A Spanish ID outside the Italian scheme is rewritten by the Spanish rule alone. */
  lemma FixSpain(id: string, reg: Registry)
    requires Contains(id, "-INF-") && !Contains(id, "OCSI/CERT")
    ensures FixCertId(id, reg) == SpainFix(id)
  {
  }

  /** The mistyped `ANSSi` prefix yields `ANSSIi`, not `ANSSI-`. */
  lemma FixAnssiMistyped(id: string, reg: Registry)
    requires StartsWith(id, "ANSSi") && !Contains(id, "-INF-") && !Contains(id, "OCSI/CERT")
    ensures FixCertId(id, reg).Ok? && StartsWith(FixCertId(id, reg).value, "ANSSIi")
  {
    var s := RStripSpace(id);
    assert !IsSpace(id[4]);
    assert StartsWith(s, "ANSSi");
    assert !StartsWith(id, "BSI-DSZ-CC-") by {
      assert id[0] != 'B';
    }
  }

  /** An Italian ID gets the `/RC` suffix exactly when it lacks one. */
  lemma FixOcsi(id: string, reg: Registry)
    requires Contains(id, "OCSI/CERT") && !Contains(id, "-INF-")
    requires !StartsWith(id, "ANSS") && !StartsWith(id, "BSI-DSZ-CC-")
    ensures FixCertId(id, reg) == Ok(if EndsWith(id, "/RC") then id else id + "/RC")
  {
    if EndsWith(id, "/RC") {
      assert id[|id| - 1] == 'C';
      assert RStripSpace(id) == id;
    }
  }

  /** Rewriting an Italian ID a second time adds no second suffix. */
  lemma FixOcsiIdempotent(id: string, reg: Registry)
    requires Contains(id, "OCSI/CERT") && !Contains(id, "-INF-")
    requires !StartsWith(id, "ANSS") && !StartsWith(id, "BSI-DSZ-CC-")
    ensures var r := FixCertId(id, reg).value; FixCertId(r, reg) == Ok(r)
  {
    FixOcsi(id, reg);
    if !EndsWith(id, "/RC") {
      SuffixedContains(id);
      SuffixedPrefixes(id);
      FixOcsi(id + "/RC", reg);
    }
  }

  /** The suffix keeps the Italian marker and brings no Spanish one. */
  lemma SuffixedContains(id: string)
    requires Contains(id, "OCSI/CERT") && !Contains(id, "-INF-")
    ensures Contains(id + "/RC", "OCSI/CERT") && !Contains(id + "/RC", "-INF-")
    ensures EndsWith(id + "/RC", "/RC")
  {
    var r := id + "/RC";
    var k := Find(id, "OCSI/CERT");
    assert r[k..k + 9] == id[k..k + 9];
    assert OccursAt(r, "OCSI/CERT", k);
    AppendForeign(id, "/RC", "-INF-");
  }

  /** The suffix changes neither the French nor the German prefix test. */
  lemma SuffixedPrefixes(id: string)
    requires Contains(id, "OCSI/CERT")
    requires !StartsWith(id, "ANSS") && !StartsWith(id, "BSI-DSZ-CC-")
    ensures !StartsWith(id + "/RC", "ANSS") && !StartsWith(id + "/RC", "BSI-DSZ-CC-")
  {
    var r := id + "/RC";
    var k := Find(id, "OCSI/CERT");
    assert |id| >= 9;
    assert r[..4] == id[..4];
    if |id| >= 11 {
      assert r[..11] == id[..11];
    } else {
      assert r[10] != '-';
    }
  }

  lemma FixAnssiExample(id: string, reg: Registry)
    requires id == "ANSSI-CC-2010_40"
    ensures FixCertId(id, reg) == Ok("ANSSI-CC-2010/40")
  {
    AnssiExampleGuards(id);
    AnssiExampleFix(id);
  }

  lemma AnssiExampleGuards(id: string)
    requires id == "ANSSI-CC-2010_40"
    ensures StartsWith(id, "ANSS") && !StartsWith(id, "BSI-DSZ-CC-")
    ensures !Contains(id, "-INF-") && !Contains(id, "OCSI/CERT") && RStripSpace(id) == id
  {
    AbsentByChar(id, "-INF-", 3);
    AbsentByChar(id, "OCSI/CERT", 0);
    AnssiExampleStrip(id);
    assert id[0] != 'B';
  }

  lemma AnssiExampleStrip(id: string)
    requires id == "ANSSI-CC-2010_40"
    ensures RStripSpace(id) == id
  {
    assert !IsSpace(id[|id| - 1]);
  }

  lemma AnssiExampleFix(id: string)
    requires id == "ANSSI-CC-2010_40"
    ensures AnssiFix(id) == "ANSSI-CC-2010/40"
  {
    assert id[4] != "ANSSi"[4];
    var b := id[..AnssiYearEnd] + "/" + id[AnssiYearEnd + 1..];
    assert b == "ANSSI-CC-2010/40";
    assert '_' !in b;
  }

  /** The Spanish rule on an ID of exactly four dash-separated parts. */
  lemma SpainFixOf(a: string, b: string, c: string, n: string)
    requires '-' !in a && '-' !in b && '-' !in c && '-' !in n
    ensures SpainFix(a + ['-'] + (b + ['-'] + (c + ['-'] + n))) == Ok(a + "-" + b + "-INF-" + SpainNumber(n))
  {
    SplitCons3(a, b, c, n);
    SplitNone(n, '-');
  }

  lemma SpainExampleShape(id: string)
    requires id == "2014-55-INF-1505v1"
    ensures OccursAt(id, "-INF-", 7) && 'O' !in id
    ensures id == id[..4] + ['-'] + (id[5..7] + ['-'] + (id[8..11] + ['-'] + id[12..]))
    ensures '-' !in id[..4] && '-' !in id[5..7] && '-' !in id[8..11] && id[12..] == "1505v1"
    ensures id[..4] + "-" + id[5..7] + "-INF-" + "1505" == "2014-55-INF-1505"
  {
  }

  lemma SpainNumberExample(n: string)
    requires n == "1505v1"
    ensures SpainNumber(n) == "1505"
  {
    assert n[4] == 'v' && 'v' !in n[..4];
    assert IndexOf(n, 'v') == 4;
    assert 'V' !in n[..4];
  }

  lemma SpainFixExample(id: string)
    requires id == "2014-55-INF-1505v1"
    ensures SpainFix(id) == Ok("2014-55-INF-1505")
  {
    SpainExampleShape(id);
    SpainFixOf(id[..4], id[5..7], id[8..11], id[12..]);
    SpainNumberExample(id[12..]);
  }

  lemma FixSpainExample(id: string, reg: Registry)
    requires id == "2014-55-INF-1505v1"
    ensures FixCertId(id, reg) == Ok("2014-55-INF-1505")
  {
    SpainExampleShape(id);
    ContainsAt(id, "-INF-", 7);
    AbsentByChar(id, "OCSI/CERT", 0);
    FixSpain(id, reg);
    SpainFixExample(id);
  }

  lemma OcsiExampleShape(id: string)
    requires id == "OCSI/CERT/ATS/01/2018"
    ensures OccursAt(id, "OCSI/CERT", 0) && '-' !in id
    ensures !StartsWith(id, "ANSS") && !StartsWith(id, "BSI-DSZ-CC-") && !EndsWith(id, "/RC")
    ensures id + "/RC" == "OCSI/CERT/ATS/01/2018/RC"
  {
    assert id[0] == 'O';
    assert id[|id| - 1] == '8';
  }

  /** The Italian example gains `/RC` once, and a second rewrite keeps it. */
  lemma FixOcsiExample(id: string, reg: Registry)
    requires id == "OCSI/CERT/ATS/01/2018"
    ensures FixCertId(id, reg) == Ok("OCSI/CERT/ATS/01/2018/RC")
    ensures FixCertId(FixCertId(id, reg).value, reg) == FixCertId(id, reg)
  {
    OcsiExampleShape(id);
    ContainsAt(id, "OCSI/CERT", 0);
    AbsentByChar(id, "-INF-", 0);
    FixOcsi(id, reg);
    FixOcsiIdempotent(id, reg);
  }
}
