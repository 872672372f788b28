/** Pairing the CSV records with the scans of their files
    (`collate_certificates_data`). Every scan is filed under the base name of
    its path; a record finds its scans by exact, case-sensitive equality with
    the names derived from its CSV key and links. */
module Collate {
  import opened Wrappers
  import opened PyStr
  import opened Dict
  import opened Seqs
  import opened RuleMatcher
  import opened CertId
  import opened Records
  import opened Registry

  // ---------------------------------------------------------------------------
  // File names
  // ---------------------------------------------------------------------------

  /** `path[path.rfind(os.sep) + 1:]`, with `/` as the separator. */
  function BaseName(path: string): string {
    Tail(path, RFind(path, "/") + 1)
  }

  lemma BaseNameNoSlash(path: string)
    ensures '/' !in BaseName(path)
  {
    var k := RFind(path, "/");
    assert -1 <= k < |path|;
    var b := path[k + 1..];
    assert BaseName(path) == b;
    forall j | 0 <= j < |b|
      ensures b[j] != '/'
    {
      assert !OccursAt(path, "/", k + 1 + j);
      assert path[k + 1 + j..k + 2 + j] == [b[j]];
    }
  }

  /** The base name of `dir/name` is `name`. */
  lemma BaseNameOf(dir: string, name: string)
    requires '/' !in name
    ensures BaseName(dir + "/" + name) == name
  {
    RFindLast(dir, "/", name);
  }

  /** A name without a separator is its own base name. */
  lemma BaseNameBare(name: string)
    requires '/' !in name
    ensures BaseName(name) == name
  {
    forall i | 0 <= i < |name|
      ensures !OccursAt(name, "/", i)
    {
      assert name[i..i + 1] == [name[i]];
    }
  }

  /** `extract_file_name_from_url`: the base name with `%20` decoded. */
  function FileNameFromUrl(url: string): string {
    Replace(BaseName(url), "%20", " ")
  }

  lemma FileNameFromUrlNoSlash(url: string)
    ensures '/' !in FileNameFromUrl(url)
  {
    BaseNameNoSlash(url);
    ReplaceChars(BaseName(url), "%20", " ");
  }

  lemma FileNameFromUrlOf(dir: string, name: string)
    requires '/' !in name
    ensures FileNameFromUrl(dir + "/" + name) == Replace(name, "%20", " ")
  {
    BaseNameOf(dir, name);
  }

  /** `name[:name.rfind('.')] + '.txt'`: the text file converted from `name`. */
  function TxtName(name: string): string {
    Head(name, RFind(name, ".")) + ".txt"
  }

  /** The suffix after the last dot is replaced by `txt`. */
  lemma TxtNameOf(stem: string, ext: string)
    requires '.' !in ext
    ensures TxtName(stem + "." + ext) == stem + ".txt"
  {
    RFindLast(stem, ".", ext);
  }

  /** Without a dot, `rfind` gives -1 and the slice drops the last character. */
  lemma TxtNameNoDot(name: string)
    requires '.' !in name && |name| > 0
    ensures TxtName(name) == name[..|name| - 1] + ".txt"
  {
  }

  lemma TxtNameNotEmpty(name: string)
    ensures |TxtName(name)| >= 4
  {
  }

  /** `key[:key.rfind('__')]`: the report file a CSV key names. */
  function ReportPdf(key: string): string {
    Head(key, RFind(key, "__"))
  }

  lemma ReportPdfOf(pdf: string, id: string)
    requires '_' !in id
    ensures ReportPdf(pdf + "__" + id) == pdf
  {
    RFindLast(pdf, "__", id);
  }

  /** Without `__`, the slice drops the last character of the key. */
  lemma ReportPdfNoSeparator(key: string)
    requires !Contains(key, "__") && |key| > 0
    ensures ReportPdf(key) == key[..|key| - 1]
  {
    if RFind(key, "__") != -1 {
      ContainsAt(key, "__", RFind(key, "__"));
    }
  }

  /** The stand-in for a record without a security-target link. */
  const NoSecurityTarget := "security_target_which_doesnt_exists"

  /** The stand-in for an update without a security-target link. */
  const NoUpdateTarget := "file_name_which_doesnt_exists"

  /** The text file of a record's security target. */
  function StTxt(link: Option<string>): string {
    match link
    case None => NoSecurityTarget
    case Some(u) => TxtName(FileNameFromUrl(u))
  }

  // ---------------------------------------------------------------------------
  // Scans filed by name
  // ---------------------------------------------------------------------------

  // The pairing below is stated over an arbitrary naming function `name`;
  // the pipeline instantiates it with `BaseName`.

  /** `{name(p): p}` over the paths in order: an empty name is skipped and a
      later path overwrites an earlier one. */
  function NameMap(name: string -> string, paths: seq<string>): Dict<string, string>
    decreases |paths|
  {
    if |paths| == 0 then []
    else
      var d := NameMap(name, paths[..|paths| - 1]);
      var p := paths[|paths| - 1];
      if name(p) != "" then Put(d, name(p), p) else d
  }

  /** The last path named `n`. */
  function LastNamed(name: string -> string, paths: seq<string>, n: string): Option<string>
    decreases |paths|
  {
    if |paths| == 0 then None
    else if name(paths[|paths| - 1]) == n then Some(paths[|paths| - 1])
    else LastNamed(name, paths[..|paths| - 1], n)
  }

  /** Some path is named `n`. */
  predicate HasName(name: string -> string, paths: seq<string>, n: string) {
    exists i :: 0 <= i < |paths| && name(paths[i]) == n
  }

  lemma {:induction false} LastNamedSpec(name: string -> string, paths: seq<string>, n: string)
    ensures LastNamed(name, paths, n).Some? <==> HasName(name, paths, n)
    ensures LastNamed(name, paths, n).Some? ==>
              exists i :: 0 <= i < |paths| && paths[i] == LastNamed(name, paths, n).value && name(paths[i]) == n
                          && forall j :: i < j < |paths| ==> name(paths[j]) != n
    decreases |paths|
  {
    if |paths| > 0 {
      var init := paths[..|paths| - 1];
      LastNamedSpec(name, init, n);
      assert forall i :: 0 <= i < |init| ==> init[i] == paths[i];
      if name(paths[|paths| - 1]) != n && HasName(name, paths, n) {
        var i :| 0 <= i < |paths| && name(paths[i]) == n;
        assert name(init[i]) == n;
      }
    }
  }

  /** The mapping files each non-empty name under its last path. */
  lemma {:induction false} NameMapGet(name: string -> string, paths: seq<string>, n: string)
    ensures Get(NameMap(name, paths), n) == if n == "" then None else LastNamed(name, paths, n)
    decreases |paths|
  {
    if |paths| > 0 {
      var p := paths[|paths| - 1];
      NameMapGet(name, paths[..|paths| - 1], n);
      if name(p) != "" && name(p) != n {
        GetPutOther(NameMap(name, paths[..|paths| - 1]), name(p), p, n);
      }
    }
  }

  /** The scan of the last path named `n`. */
  function LastScan<V>(name: string -> string, scans: Dict<string, V>, n: string): Option<V> {
    match LastNamed(name, Keys(scans), n)
    case None => None
    case Some(p) => Get(scans, p)
  }

  /** The scan filed under `n`: `scans[mapping[n]]` when `n` is in the mapping. */
  function FiledAt<V>(name: string -> string, scans: Dict<string, V>, n: string): Option<V> {
    match Get(NameMap(name, Keys(scans)), n)
    case None => None
    case Some(p) => Get(scans, p)
  }

  /** A scan is filed under `n` iff `n` is non-empty and names some scanned
      path, and it is the scan of the last such path. */
  lemma FiledAtSpec<V>(name: string -> string, scans: Dict<string, V>, n: string)
    ensures FiledAt(name, scans, n) == if n == "" then None else LastScan(name, scans, n)
    ensures LastScan(name, scans, n).Some? <==> HasName(name, Keys(scans), n)
    ensures FiledAt(name, scans, n).Some? <==> n in Keys(NameMap(name, Keys(scans)))
  {
    NameMapGet(name, Keys(scans), n);
    LastNamedSpec(name, Keys(scans), n);
  }

  /** `a or b` on attachments: a found scan replaces the one already there. */
  function Or<T>(a: Option<T>, b: Option<T>): Option<T> {
    if a.Some? then a else b
  }

  /** A loop over the paths attaching, for each path named `target`, the scan
      filed under `target`. */
  function ScanPass<V>(name: string -> string, paths: seq<string>, scans: Dict<string, V>, target: string,
                       cur: Option<V>): Option<V>
    decreases |paths|
  {
    if |paths| == 0 then cur
    else
      var prev := ScanPass(name, paths[..|paths| - 1], scans, target, cur);
      if name(paths[|paths| - 1]) == target && target in Keys(NameMap(name, Keys(scans)))
      then FiledAt(name, scans, target) else prev
  }

  lemma {:induction false} ScanPassFound<V>(name: string -> string, paths: seq<string>, scans: Dict<string, V>,
                                            target: string, cur: Option<V>)
    ensures ScanPass(name, paths, scans, target, cur)
            == if HasName(name, paths, target) && target in Keys(NameMap(name, Keys(scans)))
               then FiledAt(name, scans, target) else cur
    decreases |paths|
  {
    if |paths| > 0 {
      var init := paths[..|paths| - 1];
      ScanPassFound(name, init, scans, target, cur);
      assert forall i :: 0 <= i < |init| ==> init[i] == paths[i];
      if name(paths[|paths| - 1]) != target && HasName(name, paths, target) {
        var i :| 0 <= i < |paths| && name(paths[i]) == target;
        assert name(init[i]) == target;
      }
    }
  }

  /** Looping over every scanned path attaches exactly the scan filed under
      `target`, and keeps the old one when there is none. */
  lemma ScanPassSpec<V>(name: string -> string, scans: Dict<string, V>, target: string, cur: Option<V>)
    ensures ScanPass(name, Keys(scans), scans, target, cur) == Or(FiledAt(name, scans, target), cur)
  {
    ScanPassFound(name, Keys(scans), scans, target, cur);
    FiledAtSpec(name, scans, target);
    NameMapGet(name, Keys(scans), target);
    LastNamedSpec(name, Keys(scans), target);
  }

  /** Some name converts to `t`. */
  predicate HasConv(conv: string -> string, names: seq<string>, t: string) {
    exists i :: 0 <= i < |names| && conv(names[i]) == t
  }

  /** A loop over the mapping's names: each name whose conversion equals `t`
      attaches the scan filed under it (`filed`), if it is in the mapping
      (`mapped`); the last one wins. */
  function ConvPass<V>(name: string -> string, conv: string -> string, names: seq<string>,
                       mapped: string -> bool, filed: string -> Option<V>, t: string, cur: Option<V>): Option<V>
    decreases |names|
  {
    if |names| == 0 then cur
    else
      var prev := ConvPass(name, conv, names[..|names| - 1], mapped, filed, t, cur);
      var n := name(names[|names| - 1]);
      if conv(n) == t && mapped(n) then filed(n) else prev
  }

  /** Over names that `name` leaves unchanged and that are all mapped, nothing
      changes when no name converts to `t`... */
  lemma {:induction false} ConvPassNone<V>(name: string -> string, conv: string -> string, names: seq<string>,
                                           mapped: string -> bool, filed: string -> Option<V>, t: string,
                                           cur: Option<V>)
    requires forall i :: 0 <= i < |names| ==> name(names[i]) == names[i]
    ensures !HasConv(conv, names, t) ==> ConvPass(name, conv, names, mapped, filed, t, cur) == cur
    decreases |names|
  {
    if |names| > 0 && !HasConv(conv, names, t) {
      var init := names[..|names| - 1];
      assert forall i :: 0 <= i < |init| ==> init[i] == names[i];
      ConvPassNone(name, conv, init, mapped, filed, t, cur);
    }
  }

  /** Position `i` holds the last name in `names` converting to `t`. */
  predicate LastConv(conv: string -> string, names: seq<string>, t: string, i: int) {
    0 <= i < |names| && conv(names[i]) == t
    && forall j :: i < j < |names| ==> conv(names[j]) != t
  }

  /** ...and otherwise the scan attached is that of the last name converting
      to `t`. */
  lemma {:induction false} ConvPassLast<V>(name: string -> string, conv: string -> string, names: seq<string>,
                                           mapped: string -> bool, filed: string -> Option<V>, t: string,
                                           cur: Option<V>)
    requires forall i :: 0 <= i < |names| ==> name(names[i]) == names[i] && mapped(names[i])
    ensures HasConv(conv, names, t) ==>
              exists i :: LastConv(conv, names, t, i)
                          && ConvPass(name, conv, names, mapped, filed, t, cur) == filed(names[i])
    decreases |names|
  {
    if HasConv(conv, names, t) {
      var init := names[..|names| - 1];
      var last := names[|names| - 1];
      if conv(last) == t {
        var i := |names| - 1;
        assert LastConv(conv, names, t, i);
        ConvPassHit(name, conv, names, mapped, filed, t, cur);
      } else {
        InitHasConv(conv, names, t);
        ConvPassLast(name, conv, init, mapped, filed, t, cur);
        var i :| LastConv(conv, init, t, i)
                 && ConvPass(name, conv, init, mapped, filed, t, cur) == filed(init[i]);
        ConvPassMiss(name, conv, names, mapped, filed, t, cur);
        LastConvExtend(conv, names, t, i);
      }
    }
  }

  lemma ConvPassHit<V>(name: string -> string, conv: string -> string, names: seq<string>,
                       mapped: string -> bool, filed: string -> Option<V>, t: string, cur: Option<V>)
    requires |names| > 0
    requires name(names[|names| - 1]) == names[|names| - 1] && mapped(names[|names| - 1])
    requires conv(names[|names| - 1]) == t
    ensures ConvPass(name, conv, names, mapped, filed, t, cur) == filed(names[|names| - 1])
  {
  }

  lemma ConvPassMiss<V>(name: string -> string, conv: string -> string, names: seq<string>,
                        mapped: string -> bool, filed: string -> Option<V>, t: string, cur: Option<V>)
    requires |names| > 0
    requires name(names[|names| - 1]) == names[|names| - 1]
    requires conv(names[|names| - 1]) != t
    ensures ConvPass(name, conv, names, mapped, filed, t, cur)
            == ConvPass(name, conv, names[..|names| - 1], mapped, filed, t, cur)
  {
  }

  lemma InitHasConv(conv: string -> string, names: seq<string>, t: string)
    requires HasConv(conv, names, t) && |names| > 0 && conv(names[|names| - 1]) != t
    ensures HasConv(conv, names[..|names| - 1], t)
  {
    var k :| 0 <= k < |names| && conv(names[k]) == t;
    assert names[..|names| - 1][k] == names[k];
  }

  lemma LastConvExtend(conv: string -> string, names: seq<string>, t: string, i: int)
    requires |names| > 0 && conv(names[|names| - 1]) != t
    requires LastConv(conv, names[..|names| - 1], t, i)
    ensures LastConv(conv, names, t, i) && names[..|names| - 1][i] == names[i]
  {
    var init := names[..|names| - 1];
    forall j | i < j < |names|
      ensures conv(names[j]) != t
    {
      if j < |init| {
        assert names[j] == init[j];
      }
    }
  }

  /** The same loop for a second target: a name converting to `t` attaches
      the scan filed under the fixed name `m`, if `m` is mapped. */
  function ConvPassTo<V>(name: string -> string, conv: string -> string, names: seq<string>,
                         mapped: string -> bool, filed: string -> Option<V>, m: string, t: string,
                         cur: Option<V>): Option<V>
    decreases |names|
  {
    if |names| == 0 then cur
    else
      var prev := ConvPassTo(name, conv, names[..|names| - 1], mapped, filed, m, t, cur);
      var n := name(names[|names| - 1]);
      if conv(n) == t && mapped(m) then filed(m) else prev
  }

  lemma {:induction false} ConvPassToSpec<V>(name: string -> string, conv: string -> string, names: seq<string>,
                                             mapped: string -> bool, filed: string -> Option<V>, m: string,
                                             t: string, cur: Option<V>)
    requires forall i :: 0 <= i < |names| ==> name(names[i]) == names[i]
    ensures ConvPassTo(name, conv, names, mapped, filed, m, t, cur)
            == if HasConv(conv, names, t) && mapped(m) then filed(m) else cur
    decreases |names|
  {
    if |names| > 0 {
      var init := names[..|names| - 1];
      assert forall i :: 0 <= i < |init| ==> init[i] == names[i];
      ConvPassToSpec(name, conv, init, mapped, filed, m, t, cur);
      if conv(names[|names| - 1]) != t && HasConv(conv, names, t) {
        var i :| 0 <= i < |names| && conv(names[i]) == t;
        assert conv(init[i]) == t;
      }
    }
  }

  // ---------------------------------------------------------------------------
  // Base names
  // ---------------------------------------------------------------------------

  /** The base-name mapping of a scan's paths. */
  function BaseNames(paths: seq<string>): Dict<string, string> {
    NameMap(BaseName, paths)
  }

  /** The scan whose path has base name `n`. */
  function Lookup<V>(scans: Dict<string, V>, n: string): Option<V> {
    FiledAt(BaseName, scans, n)
  }

  /** The keys of the mapping are base names, hence their own base names. */
  lemma BaseNamesKeys(paths: seq<string>, n: string)
    requires n in Keys(BaseNames(paths))
    ensures n != "" && BaseName(n) == n
  {
    NameMapGet(BaseName, paths, n);
    LastNamedSpec(BaseName, paths, n);
    var i :| 0 <= i < |paths| && BaseName(paths[i]) == n;
    BaseNameNoSlash(paths[i]);
    BaseNameBare(n);
  }

  /** The three kinds of scans the records are paired with, by path. */
  datatype Scans = Scans(front: Dict<string, FrontPage>, keywords: Dict<string, ScanTable>,
                         pdfmeta: Dict<string, PdfMeta>)

  // ---------------------------------------------------------------------------
  // First pass: attach the record's scans and estimate its ID
  // ---------------------------------------------------------------------------

  function AttachScans(key: string, c: CertItem, s: Scans, idRules: seq<string>, findall: FindAll)
    : Result<CertItem>
  {
    var pdf := ReportPdf(key);
    var txt := TxtName(pdf);
    var fp := Lookup(s.front, txt);
    var kw := Lookup(s.keywords, txt);
    var est :- EstimateCertId(fp, kw, Some(key), idRules, findall);
    Ok(c.(frontpage := Or(fp, c.frontpage),
          keywords := Or(kw, c.keywords),
          stKeywords := Or(Lookup(s.keywords, StTxt(c.stLink)), c.stKeywords),
          pdfmeta := Or(Lookup(s.pdfmeta, pdf), c.pdfmeta),
          certId := Some(est)))
  }

  /** Attaching fails only on a keyword scan without the ID rules. */
  lemma AttachScansErr(key: string, c: CertItem, s: Scans, idRules: seq<string>, findall: FindAll)
    ensures var kw := LastScan(BaseName, s.keywords, TxtName(ReportPdf(key)));
      AttachScans(key, c, s, idRules, findall).Err? <==> kw.Some? && "rules_cert_id" !in Keys(kw.value)
  {
    TxtNameNotEmpty(ReportPdf(key));
    FiledAtSpec(BaseName, s.keywords, TxtName(ReportPdf(key)));
  }

  /** A scan attaches iff the base name of its path equals the record's
      derived name: the report's `.txt` for the front page and keywords, the
      security target's `.txt` for its keywords, the report's `.pdf` for the
      metadata. The estimate sees the attached scans only. */
  lemma AttachScansFields(key: string, c: CertItem, s: Scans, idRules: seq<string>, findall: FindAll)
    requires AttachScans(key, c, s, idRules, findall).Ok?
    ensures var r := AttachScans(key, c, s, idRules, findall).value;
      var pdf := ReportPdf(key);
      var txt := TxtName(pdf);
      var st := StTxt(c.stLink);
      && r.frontpage == (if HasName(BaseName, Keys(s.front), txt) then LastScan(BaseName, s.front, txt)
                         else c.frontpage)
      && r.keywords == (if HasName(BaseName, Keys(s.keywords), txt) then LastScan(BaseName, s.keywords, txt)
                        else c.keywords)
      && r.stKeywords == (if st != "" && HasName(BaseName, Keys(s.keywords), st)
                          then LastScan(BaseName, s.keywords, st) else c.stKeywords)
      && r.pdfmeta == (if pdf != "" && HasName(BaseName, Keys(s.pdfmeta), pdf)
                       then LastScan(BaseName, s.pdfmeta, pdf) else c.pdfmeta)
      && r.stLink == c.stLink && r.updates == c.updates && r.references == c.references
  {
    var pdf := ReportPdf(key);
    var txt := TxtName(pdf);
    TxtNameNotEmpty(pdf);
    FiledAtSpec(BaseName, s.front, txt);
    FiledAtSpec(BaseName, s.keywords, txt);
    FiledAtSpec(BaseName, s.keywords, StTxt(c.stLink));
    FiledAtSpec(BaseName, s.pdfmeta, pdf);
  }

  // ---------------------------------------------------------------------------
  // Second pass: canonicalise the estimated ID against the collected registry
  // ---------------------------------------------------------------------------

  /** The rewrite is computed for every record, so its failure is the pass's;
      the ID is replaced only when it is a non-empty registry key. */
  function FixOwnId(c: CertItem, reg: CertId.Registry): Result<CertItem> {
    if c.certId.None? then Err("KeyError")
    else
      var cur := c.certId.value;
      var n :- FixCertId(cur, reg);
      if |cur| > 0 && cur in Keys(reg) && cur != n then Ok(c.(certId := Some(n))) else Ok(c)
  }

  /** A record's own non-empty ID is always among the collected IDs. */
  lemma OwnIdCollected(items: Items, k: string)
    requires Get(items, k).Some? && Get(items, k).value.certId.Some?
    requires |Get(items, k).value.certId.value| > 0
    ensures Get(items, k).value.certId.value in Keys(CollectIds(items))
  {
    var c := Get(items, k).value;
    assert c.certId.value in ItemMentions(c);
    AllMentionsCover(items, Keys(items), k, c.certId.value);
    CollectIdsGet(items, c.certId.value);
  }

  // ---------------------------------------------------------------------------
  // Third pass: pair the maintenance updates
  // ---------------------------------------------------------------------------

  /** The security-target file of an update. */
  function UpdateStPdf(link: Option<string>): string {
    match link
    case None => NoUpdateTarget
    case Some(l) => FileNameFromUrl(l)
  }

  /** Its text file: '' when the link's file name is empty. */
  function UpdateStTxt(link: Option<string>): string {
    match link
    case None => NoUpdateTarget
    case Some(l) => if |FileNameFromUrl(l)| > 0 then TxtName(FileNameFromUrl(l)) else ""
  }

  /** Membership in the metadata mapping's names, as a predicate. */
  function InNames(names: seq<string>): string -> bool {
    (n: string) => n in names
  }

  /** The metadata filed under a name, if any. */
  function MetaFiled(meta: Dict<string, PdfMeta>): string -> Option<PdfMeta> {
    (n: string) => Lookup(meta, n)
  }

  lemma InNamesHolds(names: seq<string>)
    ensures forall i :: 0 <= i < |names| ==> InNames(names)(names[i])
  {
  }

  function PairUpdate(u: Update, s: Scans): Update {
    var txt := TxtName(FileNameFromUrl(u.reportLink));
    var stTxt := UpdateStTxt(u.stLink);
    var names := Keys(BaseNames(Keys(s.pdfmeta)));
    var mapped := InNames(names);
    var filed := MetaFiled(s.pdfmeta);
    u.(keywords := ScanPass(BaseName, Keys(s.keywords), s.keywords, txt, u.keywords),
       stKeywords := ScanPass(BaseName, Keys(s.keywords), s.keywords, stTxt, u.stKeywords),
       pdfmeta := ConvPass(BaseName, TxtName, names, mapped, filed, txt, u.pdfmeta),
       stPdfmeta := ConvPassTo(BaseName, TxtName, names, mapped, filed, UpdateStPdf(u.stLink), stTxt, u.stPdfmeta))
  }

  /** An update's keyword scans attach by base name as a record's do. */
  lemma PairUpdateKeywords(u: Update, s: Scans)
    ensures var r := PairUpdate(u, s);
      && r.reportLink == u.reportLink && r.stLink == u.stLink
      && r.keywords == Or(Lookup(s.keywords, TxtName(FileNameFromUrl(u.reportLink))), u.keywords)
      && r.stKeywords == Or(Lookup(s.keywords, UpdateStTxt(u.stLink)), u.stKeywords)
  {
    ScanPassSpec(BaseName, s.keywords, TxtName(FileNameFromUrl(u.reportLink)), u.keywords);
    ScanPassSpec(BaseName, s.keywords, UpdateStTxt(u.stLink), u.stKeywords);
  }

  /** The metadata mapping's names are their own base names. */
  lemma MetaNames(s: Scans)
    ensures var names := Keys(BaseNames(Keys(s.pdfmeta)));
      forall i :: 0 <= i < |names| ==> BaseName(names[i]) == names[i]
  {
    var names := Keys(BaseNames(Keys(s.pdfmeta)));
    forall i | 0 <= i < |names|
      ensures BaseName(names[i]) == names[i]
    {
      BaseNamesKeys(Keys(s.pdfmeta), names[i]);
    }
  }

  lemma PairUpdateMetaIs(u: Update, s: Scans)
    ensures PairUpdate(u, s).pdfmeta
            == ConvPass(BaseName, TxtName, Keys(BaseNames(Keys(s.pdfmeta))), InNames(Keys(BaseNames(Keys(s.pdfmeta)))),
                        MetaFiled(s.pdfmeta), TxtName(FileNameFromUrl(u.reportLink)), u.pdfmeta)
  {
  }

  /** `r` is what the last of `names` whose `.txt` is `txt` has filed in
      `meta`, or `cur` when no name has that `.txt`. */
  ghost predicate AttachesLast(names: seq<string>, meta: Dict<string, PdfMeta>, txt: string,
                               cur: Option<PdfMeta>, r: Option<PdfMeta>) {
    && (!HasConv(TxtName, names, txt) ==> r == cur)
    && (HasConv(TxtName, names, txt) ==>
          exists i :: LastConv(TxtName, names, txt, i) && r == Lookup(meta, names[i]))
  }

  /** The pass over the metadata names, with what it attaches read back from
      the mapping. */
  lemma MetaPass(names: seq<string>, meta: Dict<string, PdfMeta>, txt: string, cur: Option<PdfMeta>)
    requires forall i :: 0 <= i < |names| ==> BaseName(names[i]) == names[i]
    ensures AttachesLast(names, meta, txt, cur,
                         ConvPass(BaseName, TxtName, names, InNames(names), MetaFiled(meta), txt, cur))
  {
    var mapped := InNames(names);
    var filed := MetaFiled(meta);
    InNamesHolds(names);
    if HasConv(TxtName, names, txt) {
      ConvPassLast(BaseName, TxtName, names, mapped, filed, txt, cur);
      var i :| LastConv(TxtName, names, txt, i)
               && ConvPass(BaseName, TxtName, names, mapped, filed, txt, cur) == filed(names[i]);
      assert filed(names[i]) == Lookup(meta, names[i]);
    } else {
      ConvPassNone(BaseName, TxtName, names, mapped, filed, txt, cur);
    }
  }

  /** An update's metadata is that of the last metadata name whose `.txt`
      equals the report's; nothing changes when there is none. */
  lemma PairUpdateMeta(u: Update, s: Scans)
    ensures AttachesLast(Keys(BaseNames(Keys(s.pdfmeta))), s.pdfmeta, TxtName(FileNameFromUrl(u.reportLink)),
                         u.pdfmeta, PairUpdate(u, s).pdfmeta)
  {
    PairUpdateMetaIs(u, s);
    MetaNames(s);
    MetaPass(Keys(BaseNames(Keys(s.pdfmeta))), s.pdfmeta, TxtName(FileNameFromUrl(u.reportLink)), u.pdfmeta);
  }

  /** The target's metadata, filed under the target's own name, attaches only
      when some metadata name converts to the target's `.txt`. */
  lemma PairUpdateStMeta(u: Update, s: Scans)
    ensures var r := PairUpdate(u, s);
      var names := Keys(BaseNames(Keys(s.pdfmeta)));
      var stPdf := UpdateStPdf(u.stLink);
      r.stPdfmeta == if HasConv(TxtName, names, UpdateStTxt(u.stLink)) && stPdf in names
                     then Lookup(s.pdfmeta, stPdf) else u.stPdfmeta
  {
    var names := Keys(BaseNames(Keys(s.pdfmeta)));
    var mapped := InNames(names);
    var filed := MetaFiled(s.pdfmeta);
    MetaNames(s);
    ConvPassToSpec(BaseName, TxtName, names, mapped, filed, UpdateStPdf(u.stLink), UpdateStTxt(u.stLink), u.stPdfmeta);
  }

  function PairUpdates(c: CertItem, s: Scans): CertItem {
    c.(updates := Map((u: Update) => PairUpdate(u, s), c.updates))
  }

  // ---------------------------------------------------------------------------
  // The whole collation
  // ---------------------------------------------------------------------------

  function Attached(csv: Items, s: Scans, idRules: seq<string>, findall: FindAll): Result<Items> {
    EachItem(csv, Keys(csv), (k: string, c: CertItem) => AttachScans(k, c, s, idRules, findall))
  }

  function Fixed(items: Items, ks: seq<string>): Result<Items> {
    var reg := CollectIds(items);
    EachItem(items, ks, (k: string, c: CertItem) => FixOwnId(c, reg))
  }

  function Paired(items: Items, ks: seq<string>, s: Scans): Result<Items> {
    EachItem(items, ks, (k: string, c: CertItem) => Ok(PairUpdates(c, s)))
  }

  /** `collate_certificates_data`, without the HTML scans. */
  function Collate(csv: Items, s: Scans, idRules: seq<string>, findall: FindAll): Result<Items> {
    var attached :- Attached(csv, s, idRules, findall);
    var fixed :- Fixed(attached, Keys(csv));
    Paired(fixed, Keys(csv), s)
  }

  /** The rewritten ID replaces the estimate exactly when the estimate is a
      non-empty registry key; nothing else about the record changes. */
  lemma FixOwnIdSpec(c: CertItem, reg: CertId.Registry)
    ensures FixOwnId(c, reg).Err? <==> c.certId.None? || FixCertId(c.certId.value, reg).Err?
    ensures FixOwnId(c, reg).Ok? ==>
      var r := FixOwnId(c, reg).value;
      && r == c.(certId := r.certId)
      && r.certId == Some(if |c.certId.value| > 0 && c.certId.value in Keys(reg)
                          then FixCertId(c.certId.value, reg).value else c.certId.value)
  {
  }

  /** Over the CSV's distinct keys, a pass that succeeds keeps the key set and
      leaves under each CSV key `f` of the record there. */
  lemma PassAt(items: Items, ks: seq<string>, f: (string, CertItem) -> Result<CertItem>, k: string)
    requires Distinct(ks) && k in ks && Get(items, k).Some?
    requires EachItem(items, ks, f).Ok?
    ensures Keys(EachItem(items, ks, f).value) == Keys(items)
    ensures f(k, Get(items, k).value).Ok?
    ensures Get(EachItem(items, ks, f).value, k) == Some(f(k, Get(items, k).value).value)
  {
    EachItemErr(items, ks, f);
    EachItemGet(items, ks, f, k);
    var i :| 0 <= i < |ks| && ks[i] == k;
  }

  lemma AttachedAt(csv: Items, s: Scans, idRules: seq<string>, findall: FindAll, k: string)
    requires UniqueKeys(csv) && Get(csv, k).Some? && Attached(csv, s, idRules, findall).Ok?
    ensures Keys(Attached(csv, s, idRules, findall).value) == Keys(csv)
    ensures AttachScans(k, Get(csv, k).value, s, idRules, findall).Ok?
    ensures Get(Attached(csv, s, idRules, findall).value, k)
            == Some(AttachScans(k, Get(csv, k).value, s, idRules, findall).value)
  {
    PassAt(csv, Keys(csv), (k: string, c: CertItem) => AttachScans(k, c, s, idRules, findall), k);
  }

  lemma FixedAt(items: Items, ks: seq<string>, k: string)
    requires Distinct(ks) && k in ks && Get(items, k).Some? && Fixed(items, ks).Ok?
    ensures Keys(Fixed(items, ks).value) == Keys(items)
    ensures FixOwnId(Get(items, k).value, CollectIds(items)).Ok?
    ensures Get(Fixed(items, ks).value, k) == Some(FixOwnId(Get(items, k).value, CollectIds(items)).value)
  {
    var reg := CollectIds(items);
    PassAt(items, ks, (k: string, c: CertItem) => FixOwnId(c, reg), k);
  }

  lemma PairedAt(items: Items, ks: seq<string>, s: Scans, k: string)
    requires Distinct(ks) && k in ks && Get(items, k).Some? && Paired(items, ks, s).Ok?
    ensures Keys(Paired(items, ks, s).value) == Keys(items)
    ensures Get(Paired(items, ks, s).value, k) == Some(PairUpdates(Get(items, k).value, s))
  {
    PassAt(items, ks, (k: string, c: CertItem) => Ok(PairUpdates(c, s)), k);
  }

  /** The collation keeps exactly the CSV's keys; each record is its CSV row
      with its scans attached, its updates paired, and its estimated ID
      replaced by the rewrite against the IDs collected from all records
      whenever the estimate is non-empty: such an estimate is always one of
      the collected IDs, so the guard on registry membership never fails. */
  lemma CollateSpec(csv: Items, s: Scans, idRules: seq<string>, findall: FindAll, k: string)
    requires UniqueKeys(csv) && Get(csv, k).Some?
    requires Collate(csv, s, idRules, findall).Ok?
    ensures Keys(Collate(csv, s, idRules, findall).value) == Keys(csv)
    ensures var a := AttachScans(k, Get(csv, k).value, s, idRules, findall);
      var reg := CollectIds(Attached(csv, s, idRules, findall).value);
      var r := Get(Collate(csv, s, idRules, findall).value, k);
      && a.Ok? && a.value.certId.Some? && r.Some?
      && r.value == PairUpdates(a.value.(certId := r.value.certId), s)
      && r.value.certId.Some?
      && (|a.value.certId.value| > 0 ==> FixCertId(a.value.certId.value, reg) == Ok(r.value.certId.value))
      && (|a.value.certId.value| == 0 ==> r.value.certId == a.value.certId)
  {
    var ks := Keys(csv);
    AttachedAt(csv, s, idRules, findall, k);
    var attached := Attached(csv, s, idRules, findall).value;
    var a := AttachScans(k, Get(csv, k).value, s, idRules, findall).value;
    FixedAt(attached, ks, k);
    var fixed := Fixed(attached, ks).value;
    PairedAt(fixed, ks, s, k);
    FixOwnIdSpec(a, CollectIds(attached));
    if |a.certId.value| > 0 {
      OwnIdCollected(attached, k);
    }
  }
}
