/** The ID registry: every certificate ID mentioned anywhere in the dataset,
    mapped to its canonical spelling, and the per-certificate counts of
    referenced IDs rewritten to canonical form. */
module Registry {
  import opened Wrappers
  import opened Dict
  import opened RuleMatcher
  import opened CertId
  import opened Records

  // ---------------------------------------------------------------------------
  // Collecting every mentioned ID
  // ---------------------------------------------------------------------------

  /** The matches of a scan's `rules_cert_id` table, rule by rule. */
  function Mentions(scan: Option<ScanTable>): seq<string> {
    match IdTable(scan)
    case None => []
    case Some(rt) => TableMatches(rt)
  }

  function UpdateMentions(us: seq<Update>): seq<string>
    decreases |us|
  {
    if |us| == 0 then []
    else Mentions(us[0].keywords) + Mentions(us[0].stKeywords) + UpdateMentions(us[1..])
  }

  /** The certificate's own estimated ID, unless it is empty. */
  function OwnId(c: CertItem): seq<string> {
    if c.certId.Some? && |c.certId.value| > 0 then [c.certId.value] else []
  }

  /** Report scan, security-target scan, own ID, then each update's two scans. */
  function ItemMentions(c: CertItem): seq<string> {
    Mentions(c.keywords) + Mentions(c.stKeywords) + OwnId(c) + UpdateMentions(c.updates)
  }

  function AllMentions(items: Items, ks: seq<string>): seq<string>
    decreases |ks|
  {
    if |ks| == 0 then []
    else
      var here := match Get(items, ks[0]) case None => [] case Some(c) => ItemMentions(c);
      here + AllMentions(items, ks[1..])
  }

  /** `all_cert_ids[m] = m` for each mention in turn. */
  function Register(reg: Registry, ms: seq<string>): Registry
    decreases |ms|
  {
    if |ms| == 0 then reg else Register(Put(reg, ms[0], ms[0]), ms[1..])
  }

  /** Registering maps each mention to itself and leaves other keys alone. */
  lemma {:induction false} RegisterGet(reg: Registry, ms: seq<string>, k: string)
    ensures Get(Register(reg, ms), k) == if k in ms then Some(k) else Get(reg, k)
    decreases |ms|
  {
    if |ms| > 0 {
      RegisterGet(Put(reg, ms[0], ms[0]), ms[1..], k);
      if k != ms[0] {
        GetPutOther(reg, ms[0], ms[0], k);
      }
    }
  }

  /** `collect_all_certid_references`. */
  function CollectIds(items: Items): Registry {
    Register([], AllMentions(items, Keys(items)))
  }

  /** The collected registry holds exactly the mentioned IDs, each mapped to itself. */
  lemma CollectIdsGet(items: Items, k: string)
    ensures Get(CollectIds(items), k) == if k in AllMentions(items, Keys(items)) then Some(k) else None
  {
    RegisterGet([], AllMentions(items, Keys(items)), k);
  }

  // ---------------------------------------------------------------------------
  // Rewriting the registry
  // ---------------------------------------------------------------------------

  lemma {:induction false} ProbeYearKeys(id: string, r1: Registry, r2: Registry, y: nat)
    requires Keys(r1) == Keys(r2)
    ensures ProbeYear(id, r1, y) == ProbeYear(id, r2, y)
    decreases EndProbeYear - y
  {
    if y < EndProbeYear {
      ProbeYearKeys(id, r1, r2, y + 1);
    }
  }

  /** The rewrite looks at the registry's keys only, never at its values. */
  lemma FixCertIdKeys(id: string, r1: Registry, r2: Registry)
    requires Keys(r1) == Keys(r2)
    ensures FixCertId(id, r1) == FixCertId(id, r2)
  {
    ProbeYearKeys(id, r1, r2, FirstProbeYear);
    assert BsiYear(id, r1) == BsiYear(id, r2);
    assert BsiFix(id, r1) == BsiFix(id, r2);
  }

  /** One key at a time, the rewrite consulting the registry as updated so far. */
  function FixEach(cur: Registry, ks: seq<string>): Result<Registry>
    decreases |ks|
  {
    if |ks| == 0 then Ok(cur)
    else
      var n :- FixCertId(ks[0], cur);
      FixEach(if ks[0] != n then Put(cur, ks[0], n) else cur, ks[1..])
  }

  /** `fix_certid_references`. */
  function FixAll(reg: Registry): Result<Registry> {
    FixEach(reg, Keys(reg))
  }

  /** The entry a key ends with: its rewrite when that differs from the key. */
  function FixedValue(reg: Registry, cur: Registry, ks: seq<string>, k: string): Option<string> {
    if k in ks && FixCertId(k, reg).Ok? && FixCertId(k, reg).value != k
    then Some(FixCertId(k, reg).value) else Get(cur, k)
  }

  lemma {:induction false} FixEachErr(reg: Registry, cur: Registry, ks: seq<string>)
    requires Keys(cur) == Keys(reg)
    requires forall i :: 0 <= i < |ks| ==> ks[i] in Keys(reg)
    ensures FixEach(cur, ks).Err? <==> exists i :: 0 <= i < |ks| && FixCertId(ks[i], reg).Err?
    decreases |ks|
  {
    if |ks| > 0 {
      var r := FixCertId(ks[0], reg);
      ErrCons(reg, ks);
      if r.Ok? {
        var next := if ks[0] != r.value then Put(cur, ks[0], r.value) else cur;
        FixEachUnfold(reg, cur, ks, next);
        FixEachErr(reg, next, ks[1..]);
      } else {
        FixCertIdKeys(ks[0], cur, reg);
      }
    }
  }

  /** A rewrite that succeeds moves the loop on to the next key, with the
      same keys in the registry. */
  lemma FixEachUnfold(reg: Registry, cur: Registry, ks: seq<string>, next: Registry)
    requires Keys(cur) == Keys(reg) && |ks| > 0 && ks[0] in Keys(reg)
    requires forall i :: 0 <= i < |ks| ==> ks[i] in Keys(reg)
    requires FixCertId(ks[0], reg).Ok?
    requires next == if ks[0] != FixCertId(ks[0], reg).value then Put(cur, ks[0], FixCertId(ks[0], reg).value) else cur
    ensures FixEach(cur, ks) == FixEach(next, ks[1..])
    ensures Keys(next) == Keys(reg)
    ensures forall i :: 0 <= i < |ks[1..]| ==> ks[1..][i] in Keys(reg)
  {
    FixCertIdKeys(ks[0], cur, reg);
    forall i | 0 <= i < |ks[1..]| ensures ks[1..][i] in Keys(reg) {
      assert ks[1..][i] == ks[i + 1];
    }
  }

  lemma ErrCons(reg: Registry, ks: seq<string>)
    requires |ks| > 0
    ensures (exists i :: 0 <= i < |ks| && FixCertId(ks[i], reg).Err?) <==>
              FixCertId(ks[0], reg).Err? || exists i :: 0 <= i < |ks[1..]| && FixCertId(ks[1..][i], reg).Err?
  {
    assert forall i :: 1 <= i < |ks| ==> ks[i] == ks[1..][i - 1];
  }

  lemma {:induction false} FixEachGet(reg: Registry, cur: Registry, ks: seq<string>, k: string)
    requires Keys(cur) == Keys(reg)
    requires forall i :: 0 <= i < |ks| ==> ks[i] in Keys(reg)
    ensures FixEach(cur, ks).Ok? ==>
              Keys(FixEach(cur, ks).value) == Keys(reg)
              && Get(FixEach(cur, ks).value, k) == FixedValue(reg, cur, ks, k)
    decreases |ks|
  {
    if |ks| > 0 {
      FixCertIdKeys(ks[0], cur, reg);
      var r := FixCertId(ks[0], reg);
      if r.Ok? {
        var n := r.value;
        var next := if ks[0] != n then Put(cur, ks[0], n) else cur;
        FixEachGet(reg, next, ks[1..], k);
        if k != ks[0] && ks[0] != n {
          GetPutOther(cur, ks[0], n, k);
        }
      }
    }
  }

  /** The rewritten registry keeps its keys; a key whose rewrite differs from
      it maps to that rewrite, any other keeps its value. The rewrite fails
      exactly when it fails on some key. */
  lemma FixAllSpec(reg: Registry, k: string)
    ensures FixAll(reg).Err? <==> exists i :: 0 <= i < |reg| && FixCertId(Keys(reg)[i], reg).Err?
    ensures FixAll(reg).Ok? ==> Keys(FixAll(reg).value) == Keys(reg)
    ensures FixAll(reg).Ok? ==>
              Get(FixAll(reg).value, k) == if k in Keys(reg) && FixCertId(k, reg).value != k
                                           then Some(FixCertId(k, reg).value) else Get(reg, k)
  {
    FixEachErr(reg, reg, Keys(reg));
    FixEachGet(reg, reg, Keys(reg), k);
    if FixAll(reg).Ok? && k in Keys(reg) {
      var i :| 0 <= i < |Keys(reg)| && Keys(reg)[i] == k;
      assert FixCertId(k, reg).Ok?;
    }
  }

  // ---------------------------------------------------------------------------
  // Counting references under their canonical IDs
  // ---------------------------------------------------------------------------

  /** `(match, count)` of a scan's `rules_cert_id` table. */
  function ScanEntries(scan: Option<ScanTable>): seq<(string, int)> {
    match IdTable(scan)
    case None => []
    case Some(rt) => CountEntries(rt, Keys(rt))
  }

  function UpdateEntries(us: seq<Update>): seq<(string, int)>
    decreases |us|
  {
    if |us| == 0 then []
    else ScanEntries(us[0].keywords) + ScanEntries(us[0].stKeywords) + UpdateEntries(us[1..])
  }

  /** Report scan, security-target scan, then each update's two scans. */
  function ItemEntries(c: CertItem): seq<(string, int)> {
    ScanEntries(c.keywords) + ScanEntries(c.stKeywords) + UpdateEntries(c.updates)
  }

  /** Each mention's count added under its canonical ID; a mention missing
      from the registry is a `KeyError`. */
  function AddRefs(refs: MatchCounts, es: seq<(string, int)>, reg: Registry): Result<MatchCounts>
    decreases |es|
  {
    if |es| == 0 then Ok(refs)
    else if es[0].0 !in Keys(reg) then Err("KeyError")
    else AddRefs(AddOne(refs, Get(reg, es[0].0).value, es[0].1), es[1..], reg)
  }

  /** `refs[c] = refs.get(c, 0) + n`. */
  function AddOne(refs: MatchCounts, c: string, n: int): MatchCounts {
    Put(refs, c, Get(refs, c).GetOr(0) + n)
  }

  /** The total count of the mentions whose canonical ID is `c`. */
  function SumTo(es: seq<(string, int)>, reg: Registry, c: string): int
    decreases |es|
  {
    if |es| == 0 then 0
    else (if Get(reg, es[0].0) == Some(c) then es[0].1 else 0) + SumTo(es[1..], reg, c)
  }

  /** Some mention has canonical ID `c`. */
  predicate Reaches(es: seq<(string, int)>, reg: Registry, c: string) {
    exists i :: 0 <= i < |es| && Get(reg, es[i].0) == Some(c)
  }

  lemma {:induction false} AddRefsErr(refs: MatchCounts, es: seq<(string, int)>, reg: Registry)
    ensures AddRefs(refs, es, reg).Err? <==> exists i :: 0 <= i < |es| && es[i].0 !in Keys(reg)
    decreases |es|
  {
    if |es| > 0 && es[0].0 in Keys(reg) {
      AddRefsErr(AddOne(refs, Get(reg, es[0].0).value, es[0].1), es[1..], reg);
      assert forall i :: 1 <= i < |es| ==> es[i] == es[1..][i - 1];
    }
  }

  /** Each canonical ID's count grows by the counts of the mentions that
      rewrite to it, and it is present iff it was or some mention reaches it. */
  lemma {:induction false} AddRefsGet(refs: MatchCounts, es: seq<(string, int)>, reg: Registry, c: string)
    ensures AddRefs(refs, es, reg).Ok? ==>
              Get(AddRefs(refs, es, reg).value, c)
              == if Get(refs, c).None? && !Reaches(es, reg, c) then None
                 else Some(Get(refs, c).GetOr(0) + SumTo(es, reg, c))
    decreases |es|
  {
    if |es| > 0 && es[0].0 in Keys(reg) {
      var next := AddOne(refs, Get(reg, es[0].0).value, es[0].1);
      AddRefsGet(next, es[1..], reg, c);
      var r := AddRefs(next, es[1..], reg);
      assert AddRefs(refs, es, reg) == r;
      if r.Ok? {
        var c0, n := Get(reg, es[0].0).value, es[0].1;
        StepFacts(refs, es, reg, c, c0, n, next);
        AddRefsGetStep(refs, c, c0, n, next, r.value,
                       Reaches(es[1..], reg, c), SumTo(es[1..], reg, c), Reaches(es, reg, c), SumTo(es, reg, c));
      }
    }
  }

  /** The step of the induction: if the remaining mentions turn `next`
      into `out` as claimed, the first mention (canonical ID `c0`, count
      `n`) and the rest turn `refs` into `out` as claimed; `reachRest`,
      `rest` and `reachAll`, `total` are what the remaining and all mentions
      contribute to `c`. */
  lemma AddRefsGetStep(refs: MatchCounts, c: string, c0: string, n: int, next: MatchCounts, out: MatchCounts,
                       reachRest: bool, rest: int, reachAll: bool, total: int)
    requires Get(next, c) == if c == c0 then Some(Get(refs, c).GetOr(0) + n) else Get(refs, c)
    requires reachAll == (c == c0 || reachRest)
    requires total == (if c == c0 then n else 0) + rest
    requires Get(out, c) == if Get(next, c).None? && !reachRest then None else Some(Get(next, c).GetOr(0) + rest)
    ensures Get(out, c) == if Get(refs, c).None? && !reachAll then None else Some(Get(refs, c).GetOr(0) + total)
  {
    CountStep(Get(refs, c), Get(next, c), Get(out, c), n, rest, c == c0, reachRest, reachAll, total);
  }

  /** What the first mention changes: the entry it hits, whether `c` is
      reached, and the sum of the counts reaching `c`. */
  lemma StepFacts(refs: MatchCounts, es: seq<(string, int)>, reg: Registry, c: string,
                  c0: string, n: int, next: MatchCounts)
    requires |es| > 0 && es[0].0 in Keys(reg) && Get(reg, es[0].0) == Some(c0) && n == es[0].1
    requires next == AddOne(refs, c0, n)
    ensures Get(next, c) == if c == c0 then Some(Get(refs, c).GetOr(0) + n) else Get(refs, c)
    ensures Reaches(es, reg, c) == (c == c0 || Reaches(es[1..], reg, c))
    ensures SumTo(es, reg, c) == (if c == c0 then n else 0) + SumTo(es[1..], reg, c)
  {
    AddOneGet(refs, c0, n, c);
    ReachesConsIn(es, reg, c);
    SumToCons(es, reg, c);
  }

  /** One mention's step of the count: a hit adds its count to the entry,
      creating it; the rest adds the remaining total. */
  lemma CountStep(before: Option<int>, mid: Option<int>, after: Option<int>, k: int, rest: int,
                  hit: bool, reachRest: bool, reachAll: bool, total: int)
    requires mid == if hit then Some(before.GetOr(0) + k) else before
    requires after == if mid.None? && !reachRest then None else Some(mid.GetOr(0) + rest)
    requires reachAll == (hit || reachRest) && total == (if hit then k else 0) + rest
    ensures after == if before.None? && !reachAll then None else Some(before.GetOr(0) + total)
  {
  }

  lemma AddOneGet(refs: MatchCounts, c0: string, n: int, c: string)
    ensures Get(AddOne(refs, c0, n), c)
            == if c == c0 then Some(Get(refs, c).GetOr(0) + n) else Get(refs, c)
  {
    var v := Get(refs, c0).GetOr(0) + n;
    assert AddOne(refs, c0, n) == Put(refs, c0, v);
    if c != c0 {
      GetPutOther(refs, c0, v, c);
    }
  }

  lemma SumToCons(es: seq<(string, int)>, reg: Registry, c: string)
    requires |es| > 0 && es[0].0 in Keys(reg)
    ensures SumTo(es, reg, c) == (if c == Get(reg, es[0].0).value then es[0].1 else 0) + SumTo(es[1..], reg, c)
  {
  }

  lemma ReachesConsIn(es: seq<(string, int)>, reg: Registry, c: string)
    requires |es| > 0 && es[0].0 in Keys(reg)
    ensures Reaches(es, reg, c) <==> c == Get(reg, es[0].0).value || Reaches(es[1..], reg, c)
  {
    ReachesCons(es, reg, c);
  }

  lemma ReachesCons(es: seq<(string, int)>, reg: Registry, c: string)
    requires |es| > 0
    ensures Reaches(es, reg, c) <==> Get(reg, es[0].0) == Some(c) || Reaches(es[1..], reg, c)
  {
    assert forall i :: 1 <= i < |es| ==> es[i] == es[1..][i - 1];
    if Reaches(es[1..], reg, c) {
      var i :| 0 <= i < |es| - 1 && Get(reg, es[1..][i].0) == Some(c);
      assert es[i + 1] == es[1..][i];
    }
  }

  /** The sum of all counts of a counter. */
  function Total(d: MatchCounts): int
    decreases |d|
  {
    if |d| == 0 then 0 else d[0].1 + Total(d[1..])
  }

  /** Writing `v` under `k` replaces the value `Get` finds there. */
  lemma {:induction false} TotalPut(d: MatchCounts, k: string, v: int)
    ensures Total(Put(d, k, v)) == Total(d) - Get(d, k).GetOr(0) + v
    decreases |d|
  {
    if |d| > 0 && d[0].0 != k {
      TotalPut(d[1..], k, v);
      assert Put(d, k, v)[1..] == Put(d[1..], k, v);
    }
  }

  function Counts(es: seq<(string, int)>): int
    decreases |es|
  {
    if |es| == 0 then 0 else es[0].1 + Counts(es[1..])
  }

  /** No count is lost or invented: the counter's total grows by exactly the
      mentions' total. */
  lemma {:induction false} AddRefsTotal(refs: MatchCounts, es: seq<(string, int)>, reg: Registry)
    ensures AddRefs(refs, es, reg).Ok? ==> Total(AddRefs(refs, es, reg).value) == Total(refs) + Counts(es)
    decreases |es|
  {
    if |es| > 0 && es[0].0 in Keys(reg) {
      var c0 := Get(reg, es[0].0).value;
      var r1 := AddOne(refs, c0, es[0].1);
      TotalPut(refs, c0, Get(refs, c0).GetOr(0) + es[0].1);
      assert Total(r1) == Total(refs) + es[0].1;
      assert AddRefs(refs, es, reg) == AddRefs(r1, es[1..], reg);
      AddRefsTotal(r1, es[1..], reg);
    }
  }

  // ---------------------------------------------------------------------------
  // Applying the registry to every certificate
  // ---------------------------------------------------------------------------

  /** The certificate with its entries added to its `unknown` reference counter. */
  function CountRefs(c: CertItem, reg: Registry): Result<CertItem> {
    var refs :- AddRefs(c.references.GetOr([]), ItemEntries(c), reg);
    Ok(c.(references := Some(refs)))
  }

  /** Every certificate's references counted under the registry's IDs. */
  function ApplyRefs(items: Items, ks: seq<string>, reg: Registry): Result<Items> {
    EachItem(items, ks, (k: string, c: CertItem) => CountRefs(c, reg))
  }

  /** `process_certs_data_normalize_certid`: collect, rewrite, then count
      every certificate's references under the rewritten IDs. */
  function NormalizeCertIds(items: Items): Result<Items> {
    var reg :- FixAll(CollectIds(items));
    ApplyRefs(items, Keys(items), reg)
  }

  /** The names of a table's entries are its matches, in the same order. */
  lemma {:induction false} CountEntriesNames(rt: RuleTable, ks: seq<string>)
    ensures |CountEntries(rt, ks)| == |MatchesOf(rt, ks)|
    ensures forall i :: 0 <= i < |CountEntries(rt, ks)| ==> CountEntries(rt, ks)[i].0 == MatchesOf(rt, ks)[i]
    decreases |ks|
  {
    if |ks| > 0 {
      CountEntriesNames(rt, ks[1..]);
    }
  }

  lemma ScanEntriesMentioned(scan: Option<ScanTable>)
    ensures forall i :: 0 <= i < |ScanEntries(scan)| ==> ScanEntries(scan)[i].0 in Mentions(scan)
  {
    if IdTable(scan).Some? {
      var rt := IdTable(scan).value;
      CountEntriesNames(rt, Keys(rt));
    }
  }

  lemma {:induction false} UpdateEntriesMentioned(us: seq<Update>)
    ensures forall i :: 0 <= i < |UpdateEntries(us)| ==> UpdateEntries(us)[i].0 in UpdateMentions(us)
    decreases |us|
  {
    if |us| > 0 {
      ScanEntriesMentioned(us[0].keywords);
      ScanEntriesMentioned(us[0].stKeywords);
      UpdateEntriesMentioned(us[1..]);
    }
  }

  /** Every entry a certificate counts is among the IDs it mentions. */
  lemma ItemEntriesMentioned(c: CertItem)
    ensures forall i :: 0 <= i < |ItemEntries(c)| ==> ItemEntries(c)[i].0 in ItemMentions(c)
  {
    ScanEntriesMentioned(c.keywords);
    ScanEntriesMentioned(c.stKeywords);
    UpdateEntriesMentioned(c.updates);
  }

  lemma {:induction false} AllMentionsCover(items: Items, ks: seq<string>, k: string, m: string)
    requires k in ks && Get(items, k).Some? && m in ItemMentions(Get(items, k).value)
    ensures m in AllMentions(items, ks)
    decreases |ks|
  {
    if ks[0] != k {
      AllMentionsCover(items, ks[1..], k, m);
    }
  }

  /** Every reference a certificate counts was collected, so counting under
      the rewritten registry never raises `KeyError`. */
  lemma CountRefsOk(items: Items, reg: Registry, k: string)
    requires Keys(reg) == Keys(CollectIds(items))
    requires Get(items, k).Some?
    ensures CountRefs(Get(items, k).value, reg).Ok?
  {
    var c := Get(items, k).value;
    AddRefsErr(c.references.GetOr([]), ItemEntries(c), reg);
    ItemEntriesMentioned(c);
    forall i | 0 <= i < |ItemEntries(c)|
      ensures ItemEntries(c)[i].0 in Keys(reg)
    {
      var m := ItemEntries(c)[i].0;
      AllMentionsCover(items, Keys(items), k, m);
      CollectIdsGet(items, m);
    }
  }

  /** The normalisation fails only when rewriting an ID fails. On success every
      certificate keeps its fields except its reference counter, which grows
      by exactly the counts of the entries it mentions, each added under the
      rewritten ID. */
  lemma NormalizeCertIdsSpec(items: Items, k: string)
    requires UniqueKeys(items)
    ensures NormalizeCertIds(items).Err? <==> FixAll(CollectIds(items)).Err?
    ensures NormalizeCertIds(items).Ok? ==>
              Keys(NormalizeCertIds(items).value) == Keys(items)
              && (Get(NormalizeCertIds(items).value, k).None? <==> Get(items, k).None?)
    ensures NormalizeCertIds(items).Ok? && Get(items, k).Some? ==>
              var c, c1 := Get(items, k).value, Get(NormalizeCertIds(items).value, k).value;
              c1 == c.(references := c1.references)
              && c1.references.Some?
              && Total(c1.references.value) == Total(c.references.GetOr([])) + Counts(ItemEntries(c))
  {
    var fixed := FixAll(CollectIds(items));
    if fixed.Ok? {
      var reg := fixed.value;
      forall m ensures Get(reg, m).None? <==> Get(CollectIds(items), m).None? {
        FixAllSpec(CollectIds(items), m);
      }
      assert Keys(reg) == Keys(CollectIds(items)) by {
        FixAllSpec(CollectIds(items), "");
      }
      EachItemErr(items, Keys(items), (k: string, c: CertItem) => CountRefs(c, reg));
      forall i | 0 <= i < |Keys(items)| && Get(items, Keys(items)[i]).Some?
        ensures CountRefs(Get(items, Keys(items)[i]).value, reg).Ok?
      {
        CountRefsOk(items, reg, Keys(items)[i]);
      }
      EachItemGet(items, Keys(items), (k: string, c: CertItem) => CountRefs(c, reg), k);
      if Get(items, k).Some? {
        CountRefsOk(items, reg, k);
        var c := Get(items, k).value;
        AddRefsTotal(c.references.GetOr([]), ItemEntries(c), reg);
      }
    }
  }
}
