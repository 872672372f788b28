/** The per-certificate record the pipeline builds up: the CSV row's
    maintenance updates and links, and whatever scans get attached to it. */
module Records {
  import opened Wrappers
  import opened Dict
  import opened Seqs
  import opened RuleMatcher
  import opened CertId

  /** The PDF metadata scan of one file. */
  type PdfMeta = map<string, string>

  /** One maintenance update listed in the CSV row, with the scans of its
      report and security target once attached. */
  datatype Update = Update(
    reportLink: string,
    stLink: Option<string>,
    keywords: Option<ScanTable>,
    stKeywords: Option<ScanTable>,
    pdfmeta: Option<PdfMeta>,
    stPdfmeta: Option<PdfMeta>)

  /** One certificate: the CSV fields the pipeline reads, the attached scans,
      and the `processed` fields it derives (`cert_id` and the counts of
      referenced certificate IDs). */
  datatype CertItem = CertItem(
    stLink: Option<string>,
    updates: seq<Update>,
    frontpage: Option<FrontPage>,
    keywords: Option<ScanTable>,
    stKeywords: Option<ScanTable>,
    pdfmeta: Option<PdfMeta>,
    certId: Option<string>,
    references: Option<MatchCounts>)

  /** Certificates by the file name of their CSV row. */
  type Items = Dict<string, CertItem>

  /** The `rules_cert_id` part of a scan, when both are present. */
  function IdTable(scan: Option<ScanTable>): Option<RuleTable> {
    if scan.Some? then Get(scan.value, "rules_cert_id") else None
  }

  /** `for k in ks: items[k] = f(k, items[k])`, stopping at the first error;
      a key without an item is skipped. */
  function EachItem(items: Items, ks: seq<string>, f: (string, CertItem) -> Result<CertItem>): Result<Items>
    decreases |ks|
  {
    if |ks| == 0 then Ok(items)
    else
      match Get(items, ks[0])
      case None => EachItem(items, ks[1..], f)
      case Some(c) =>
        var c1 :- f(ks[0], c);
        EachItem(Put(items, ks[0], c1), ks[1..], f)
  }

  /** What the pass leaves under key `k`. */
  function EachItemAt(items: Items, ks: seq<string>, f: (string, CertItem) -> Result<CertItem>, k: string): Option<CertItem> {
    if k in ks && Get(items, k).Some? && f(k, Get(items, k).value).Ok?
    then Some(f(k, Get(items, k).value).value) else Get(items, k)
  }

  /** Over distinct keys the pass fails exactly when `f` fails on one of the items. */
  lemma {:induction false} EachItemErr(items: Items, ks: seq<string>, f: (string, CertItem) -> Result<CertItem>)
    requires Distinct(ks)
    ensures EachItem(items, ks, f).Err? <==>
              exists i :: 0 <= i < |ks| && Get(items, ks[i]).Some? && f(ks[i], Get(items, ks[i]).value).Err?
    decreases |ks|
  {
    if |ks| > 0 {
      assert forall i :: 1 <= i < |ks| ==> ks[i] == ks[1..][i - 1];
      match Get(items, ks[0])
      case None =>
        EachItemErr(items, ks[1..], f);
      case Some(c) =>
        if f(ks[0], c).Ok? {
          var next := Put(items, ks[0], f(ks[0], c).value);
          EachItemErr(next, ks[1..], f);
          forall i | 1 <= i < |ks|
            ensures Get(next, ks[i]) == Get(items, ks[i])
          {
            GetPutOther(items, ks[0], f(ks[0], c).value, ks[i]);
          }
        }
    }
  }

  /** Over distinct keys the pass keeps the key set and replaces each visited
      item by `f` of it, leaving every other item alone. */
  lemma {:induction false} EachItemGet(items: Items, ks: seq<string>, f: (string, CertItem) -> Result<CertItem>, k: string)
    requires Distinct(ks)
    ensures EachItem(items, ks, f).Ok? ==>
              Keys(EachItem(items, ks, f).value) == Keys(items)
              && Get(EachItem(items, ks, f).value, k) == EachItemAt(items, ks, f, k)
    decreases |ks|
  {
    if |ks| > 0 {
      assert forall i :: 1 <= i < |ks| ==> ks[i] == ks[1..][i - 1];
      match Get(items, ks[0])
      case None =>
        EachItemGet(items, ks[1..], f, k);
      case Some(c) =>
        if f(ks[0], c).Ok? {
          var c1 := f(ks[0], c).value;
          var next := Put(items, ks[0], c1);
          EachItemGet(next, ks[1..], f, k);
          if k != ks[0] {
            GetPutOther(items, ks[0], c1, k);
          } else {
            assert k !in ks[1..];
          }
        }
    }
  }
}
