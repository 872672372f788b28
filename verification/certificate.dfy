/** Certificate identity and serialisation: equality by digest, the
    dictionary form and its inverse, the related-CVE heuristic, and the
    maintenance-update records derived from a certificate. The SHA-256 helper
    and the CVE lookup are parameters. */
module Certificate {
  import opened Wrappers
  import opened Dict
  import opened Seqs

  // ---------------------------------------------------------------------------
  // Dictionary values
  // ---------------------------------------------------------------------------

  /** An object the model does not look into (a state, PDF data or
      heuristics record), by identity. */
  type Token = nat

  /** A value of a serialised attribute. */
  datatype Value = Text(s: string) | Null | Obj(t: Token) | Date(ordinal: int)

  /** `{**a, **b}`: the pairs of `b` written over `a` in order. */
  function Merge(a: Dict<string, Value>, b: Dict<string, Value>): Dict<string, Value>
    decreases |b|
  {
    if |b| == 0 then a else Merge(Put(a, b[0].0, b[0].1), b[1..])
  }

  lemma {:induction false} PutNew(d: Dict<string, Value>, k: string, v: Value)
    requires k !in Keys(d)
    ensures Put(d, k, v) == d + [(k, v)]
    decreases |d|
  {
    if |d| > 0 {
      assert Keys(d) == [d[0].0] + Keys(d[1..]);
      PutNew(d[1..], k, v);
    }
  }

  /** The tail of a dictionary with unique keys has unique keys and lacks
      the head's key. */
  lemma UniqueTail(b: Dict<string, Value>)
    requires |b| > 0 && UniqueKeys(b)
    ensures UniqueKeys(b[1..]) && b[0].0 !in Keys(b[1..])
  {
    var ks := Keys(b);
    assert ks == [b[0].0] + Keys(b[1..]);
    assert Keys(b[1..]) == ks[1..];
    assert ks[0] == b[0].0;
  }

  /** Merging keys that are new, once each, appends them. */
  lemma {:induction false} MergeNew(a: Dict<string, Value>, b: Dict<string, Value>)
    requires forall i :: 0 <= i < |b| ==> b[i].0 !in Keys(a)
    requires UniqueKeys(b)
    ensures Merge(a, b) == a + b
    decreases |b|
  {
    if |b| > 0 {
      UniqueTail(b);
      MergeStep(a, b);
      FreshTail(a, b);
      MergeNew(a + [b[0]], b[1..]);
      ConsAppend(a, b);
    }
  }

  lemma ConsAppend(a: Dict<string, Value>, b: Dict<string, Value>)
    requires |b| > 0
    ensures (a + [b[0]]) + b[1..] == a + b
  {
  }

  /** Merging a new first key appends it and continues with the rest. */
  lemma MergeStep(a: Dict<string, Value>, b: Dict<string, Value>)
    requires |b| > 0 && b[0].0 !in Keys(a)
    ensures Merge(a, b) == Merge(a + [b[0]], b[1..])
  {
    PutNew(a, b[0].0, b[0].1);
  }

  /** The keys after the first stay new once the first is appended. */
  lemma FreshTail(a: Dict<string, Value>, b: Dict<string, Value>)
    requires |b| > 0 && forall i :: 0 <= i < |b| ==> b[i].0 !in Keys(a)
    requires b[0].0 !in Keys(b[1..])
    ensures forall i :: 0 <= i < |b| - 1 ==> b[1..][i].0 !in Keys(a + [b[0]])
  {
    var t := b[1..];
    KeysAppend(a, [b[0]]);
    assert Keys([b[0]]) == [b[0].0];
    forall i | 0 <= i < |t|
      ensures t[i].0 !in Keys(a + [b[0]])
    {
      assert t[i] == b[i + 1];
      KeyAt(t, i);
    }
  }

  lemma {:induction false} KeysAppend(a: Dict<string, Value>, b: Dict<string, Value>)
    ensures Keys(a + b) == Keys(a) + Keys(b)
    decreases |a|
  {
    if |a| > 0 {
      assert (a + b)[0] == a[0] && (a + b)[1..] == a[1..] + b;
      KeysAppend(a[1..], b);
      assert Keys(a + b) == [a[0].0] + Keys(a[1..] + b);
      assert Keys(a) == [a[0].0] + Keys(a[1..]);
    } else {
      assert a + b == b;
    }
  }

  /** The entries of `attrs` whose names are listed in `keep`, in order. */
  function KeepOnly(attrs: Dict<string, Value>, keep: seq<string>): Dict<string, Value>
    decreases |attrs|
  {
    if |attrs| == 0 then []
    else (if attrs[0].0 in keep then [attrs[0]] else []) + KeepOnly(attrs[1..], keep)
  }

  /** `to_dict`: the digest under 'dgst', then the serialised attributes of
      the instance dictionary `attrs`, in its order. */
  function ToDict(dgst: string, attrs: Dict<string, Value>, serialized: seq<string>): Dict<string, Value> {
    Merge([("dgst", Text(dgst))], KeepOnly(attrs, serialized))
  }

  /** `dct.pop(k)` on a dictionary holding `k`: the entries under other keys,
      in order. */
  function Without(dct: Dict<string, Value>, k: string): Dict<string, Value>
    decreases |dct|
  {
    if |dct| == 0 then []
    else if dct[0].0 == k then Without(dct[1..], k)
    else [dct[0]] + Without(dct[1..], k)
  }

  /** `dct.values()`. */
  function Values(dct: Dict<string, Value>): seq<Value> {
    seq(|dct|, i requires 0 <= i < |dct| => dct[i].1)
  }

  // ---------------------------------------------------------------------------
  // Maintenance updates
  // ---------------------------------------------------------------------------

  /** A maintenance update of a certified product. */
  datatype MaintenanceUpdate = MaintenanceUpdate(
    name: string,
    reportLink: string,
    stLink: string,
    state: Option<Token>,
    pdfData: Option<Token>,
    heuristics: Option<Token>,
    relatedCertDigest: string,
    maintenanceDate: int)

  /** `serialized_attributes` of a maintenance update. */
  const Serialized: seq<string> :=
    ["name", "report_link", "st_link", "state", "pdf_data", "heuristics", "related_cert_digest", "maintenance_date"]

  /** The fixed list has eight distinct names and leaves the digest out. */
  lemma SerializedShape()
    ensures |Serialized| == 8 && Distinct(Serialized) && "dgst" !in Serialized
  {
  }

  /** The truncated SHA-256 hex digest of a string. */
  type Hash = string -> string

  /** `dgst`: built from the parent's digest and the hash of the name. */
  function Dgst(u: MaintenanceUpdate, hash: Hash): string {
    "cert_" + u.relatedCertDigest + "_update_" + hash(u.name)
  }

  /** `__eq__`. */
  predicate SameCert(a: MaintenanceUpdate, b: MaintenanceUpdate, hash: Hash) {
    Dgst(a, hash) == Dgst(b, hash)
  }

  /** The digest depends on the parent's digest and the name only. */
  lemma DgstOnly(a: MaintenanceUpdate, b: MaintenanceUpdate, hash: Hash)
    requires a.relatedCertDigest == b.relatedCertDigest && a.name == b.name
    ensures SameCert(a, b, hash)
  {
  }

  /** With hashes of one length, the digest gives back the parent's digest
      and the name's hash. */
  lemma DgstParts(a: MaintenanceUpdate, b: MaintenanceUpdate, hash: Hash)
    requires |hash(a.name)| == |hash(b.name)|
    requires SameCert(a, b, hash)
    ensures a.relatedCertDigest == b.relatedCertDigest && hash(a.name) == hash(b.name)
  {
    var da, db := Dgst(a, hash), Dgst(b, hash);
    var n := |hash(a.name)|;
    assert da[|da| - n..] == hash(a.name);
    assert db[|db| - n..] == hash(b.name);
    var pa := "cert_" + a.relatedCertDigest;
    var pb := "cert_" + b.relatedCertDigest;
    assert da[..|pa|] == pa && da[|pa|..|pa| + 8] == "_update_";
    assert db[..|pb|] == pb;
    assert |pa| == |pb|;
    assert a.relatedCertDigest == pa[5..] && b.relatedCertDigest == pb[5..];
  }

  /** Equality by digest is an equivalence. */
  lemma SameCertEquivalence(a: MaintenanceUpdate, b: MaintenanceUpdate, c: MaintenanceUpdate, hash: Hash)
    ensures SameCert(a, a, hash)
    ensures SameCert(a, b, hash) ==> SameCert(b, a, hash)
    ensures SameCert(a, b, hash) && SameCert(b, c, hash) ==> SameCert(a, c, hash)
  {
  }

  /** The serialised attributes of an update in the order of `Serialized`. */
  function Encode(u: MaintenanceUpdate): Dict<string, Value> {
    [("name", Text(u.name)), ("report_link", Text(u.reportLink)), ("st_link", Text(u.stLink)),
     ("state", OptObj(u.state)), ("pdf_data", OptObj(u.pdfData)), ("heuristics", OptObj(u.heuristics)),
     ("related_cert_digest", Text(u.relatedCertDigest)), ("maintenance_date", Date(u.maintenanceDate))]
  }

  function OptObj(o: Option<Token>): Value {
    if o.Some? then Obj(o.value) else Null
  }

  function AsText(v: Value): Result<string> {
    if v.Text? then Ok(v.s) else Err("TypeError")
  }

  function AsOptObj(v: Value): Result<Option<Token>> {
    match v
    case Null => Ok(None)
    case Obj(t) => Ok(Some(t))
    case _ => Err("TypeError")
  }

  function AsDate(v: Value): Result<int> {
    if v.Date? then Ok(v.ordinal) else Err("TypeError")
  }

  /** The constructor called with the values positionally. */
  function Construct(vals: seq<Value>): Result<MaintenanceUpdate> {
    if |vals| != 8 then Err("TypeError")
    else
      var name :- AsText(vals[0]);
      var reportLink :- AsText(vals[1]);
      var stLink :- AsText(vals[2]);
      var state :- AsOptObj(vals[3]);
      var pdfData :- AsOptObj(vals[4]);
      var heuristics :- AsOptObj(vals[5]);
      var parent :- AsText(vals[6]);
      var date :- AsDate(vals[7]);
      Ok(MaintenanceUpdate(name, reportLink, stLink, state, pdfData, heuristics, parent, date))
  }

  /** The class `from_dict` instantiates. */
  datatype CertClass = AbstractCertificate | MaintenanceUpdateClass

  /** What a `from_dict` call gives back, and the caller's dictionary as the
      call leaves it: `pop` removes 'dgst' from the caller's own object. */
  datatype FromDictCall = FromDictCall(result: Result<MaintenanceUpdate>, left: Dict<string, Value>)

  /** `Certificate.from_dict` with `cls` bound to `c`: 'dgst' must be there
      and is popped, and the abstract base class cannot be instantiated. */
  function FromDict(c: CertClass, dct: Dict<string, Value>): FromDictCall {
    if "dgst" !in Keys(dct) then FromDictCall(Err("KeyError"), dct)
    else
      var left := Without(dct, "dgst");
      FromDictCall(if c == AbstractCertificate then Err("TypeError") else Construct(Values(left)), left)
  }

  /** Whatever the class, the call leaves the caller's dictionary without
      'dgst' and with every other entry, once each when the keys are unique;
      with the update class the remaining values are the constructor's
      arguments, in order. */
  lemma FromDictPops(c: CertClass, dct: Dict<string, Value>)
    ensures var r := FromDict(c, dct);
      && "dgst" !in Keys(r.left)
      && (forall e :: e in r.left <==> e in dct && e.0 != "dgst")
      && ("dgst" !in Keys(dct) ==> r.left == dct && r.result == Err("KeyError"))
      && ("dgst" in Keys(dct) && UniqueKeys(dct) ==> |r.left| == |dct| - 1)
      && ("dgst" in Keys(dct) && c == MaintenanceUpdateClass ==> r.result == Construct(Values(r.left)))
  {
    var r := FromDict(c, dct);
    WithoutEntries(dct, "dgst");
    if "dgst" !in Keys(dct) {
      forall i | 0 <= i < |dct| ensures dct[i].0 != "dgst" {
        KeyAt(dct, i);
      }
      WithoutAbsent(dct, "dgst");
    } else if UniqueKeys(dct) {
      WithoutUnique(dct, "dgst");
    }
  }

  lemma {:induction false} WithoutEntries(dct: Dict<string, Value>, k: string)
    ensures k !in Keys(Without(dct, k))
    ensures forall e :: e in Without(dct, k) <==> e in dct && e.0 != k
    decreases |dct|
  {
    if |dct| > 0 {
      WithoutEntries(dct[1..], k);
      var w := Without(dct[1..], k);
      if dct[0].0 != k {
        assert Keys([dct[0]] + w) == [dct[0].0] + Keys(w);
      }
      assert forall e :: e in dct <==> e == dct[0] || e in dct[1..];
    }
  }

  lemma {:induction false} WithoutAbsent(dct: Dict<string, Value>, k: string)
    requires forall i :: 0 <= i < |dct| ==> dct[i].0 != k
    ensures Without(dct, k) == dct
    decreases |dct|
  {
    if |dct| > 0 {
      WithoutAbsent(dct[1..], k);
    }
  }

  /** In a dictionary with unique keys, popping a present key removes one
      entry. */
  lemma {:induction false} WithoutUnique(dct: Dict<string, Value>, k: string)
    requires k in Keys(dct) && UniqueKeys(dct)
    ensures |Without(dct, k)| == |dct| - 1
    decreases |dct|
  {
    UniqueTail(dct);
    assert Keys(dct) == [dct[0].0] + Keys(dct[1..]);
    if dct[0].0 == k {
      forall i | 0 <= i < |dct[1..]| ensures dct[1..][i].0 != k {
        KeyAt(dct[1..], i);
      }
      WithoutAbsent(dct[1..], k);
    } else {
      WithoutUnique(dct[1..], k);
    }
  }

  /** `CommonCriteriaMaintenanceUpdate.from_dict` as written: it calls the
      base method through the base class. */
  function FromDictAsWritten(dct: Dict<string, Value>): FromDictCall {
    FromDict(AbstractCertificate, dct)
  }

  /** The method as written fails on every dictionary, its own output
      included, and still pops 'dgst' from the caller's dictionary first. */
  lemma FromDictAsWrittenFails(dct: Dict<string, Value>)
    ensures FromDictAsWritten(dct).result.Err?
    ensures "dgst" in Keys(dct) ==> FromDictAsWritten(dct).left == Without(dct, "dgst")
  {
  }

  /** The evident intent: the base method with `cls` bound to the update
      class. */
  function FromDictFixed(dct: Dict<string, Value>): FromDictCall {
    FromDict(MaintenanceUpdateClass, dct)
  }

  lemma {:induction false} KeepOnlyKeys(attrs: Dict<string, Value>, keep: seq<string>)
    ensures forall i :: 0 <= i < |KeepOnly(attrs, keep)| ==> KeepOnly(attrs, keep)[i].0 in keep
    decreases |attrs|
  {
    if |attrs| > 0 {
      KeepOnlyKeys(attrs[1..], keep);
    }
  }

  /** `to_dict` holds the digest first, then exactly the serialised
      attributes in the instance's order. */
  lemma ToDictShape(dgst: string, attrs: Dict<string, Value>)
    requires UniqueKeys(KeepOnly(attrs, Serialized))
    ensures ToDict(dgst, attrs, Serialized) == [("dgst", Text(dgst))] + KeepOnly(attrs, Serialized)
  {
    var kept := KeepOnly(attrs, Serialized);
    KeepOnlyKeys(attrs, Serialized);
    forall i | 0 <= i < |kept|
      ensures kept[i].0 !in Keys([("dgst", Text(dgst))])
    {
      assert Keys([("dgst", Text(dgst))]) == ["dgst"];
    }
    MergeNew([("dgst", Text(dgst))], kept);
  }

  lemma EncodeKeys(u: MaintenanceUpdate)
    ensures Keys(Encode(u)) == Serialized
  {
    forall i | 0 <= i < 8 ensures Keys(Encode(u))[i] == Serialized[i] {
      KeyAt(Encode(u), i);
    }
  }

  /** The values of an encoded update, passed positionally, rebuild it. */
  lemma ConstructEncode(u: MaintenanceUpdate)
    ensures Construct(Values(Encode(u))) == Ok(u)
  {
  }

  /** When the instance dictionary lists the serialised attributes in the
      constructor's order, the corrected `from_dict` inverts `to_dict`. */
  lemma FromDictRoundTrip(u: MaintenanceUpdate, attrs: Dict<string, Value>, hash: Hash)
    requires KeepOnly(attrs, Serialized) == Encode(u)
    ensures FromDictFixed(ToDict(Dgst(u, hash), attrs, Serialized)).result == Ok(u)
    ensures FromDictFixed(ToDict(Dgst(u, hash), attrs, Serialized)).left == KeepOnly(attrs, Serialized)
  {
    EncodeKeys(u);
    SerializedShape();
    ToDictShape(Dgst(u, hash), attrs);
    FromEncoded(u, Text(Dgst(u, hash)));
  }

  /** A dictionary of the digest followed by an update's encoding reads back
      as that update. */
  lemma FromEncoded(u: MaintenanceUpdate, d: Value)
    ensures FromDictFixed([("dgst", d)] + Encode(u)) == FromDictCall(Ok(u), Encode(u))
  {
    EncodeNoDgst(u);
    DgstHead(d, Encode(u));
    WithoutAbsent(Encode(u), "dgst");
    ConstructEncode(u);
  }

  lemma EncodeNoDgst(u: MaintenanceUpdate)
    ensures forall i :: 0 <= i < |Encode(u)| ==> Encode(u)[i].0 != "dgst"
  {
    EncodeKeys(u);
    SerializedShape();
    forall i | 0 <= i < |Encode(u)| ensures Encode(u)[i].0 != "dgst" {
      KeyAt(Encode(u), i);
    }
  }

  lemma DgstHead(d: Value, e: Dict<string, Value>)
    ensures "dgst" in Keys([("dgst", d)] + e)
    ensures Without([("dgst", d)] + e, "dgst") == Without(e, "dgst")
  {
    var dct := [("dgst", d)] + e;
    assert dct[1..] == e;
    KeyAt(dct, 0);
  }

  /** A maintenance entry of a certificate as the listing gives it. */
  datatype MaintenanceEntry = MaintenanceEntry(title: string, reportLink: string, stLink: string, date: int)

  /** `get_updates_from_cc_cert`. */
  function UpdatesOf(entries: seq<MaintenanceEntry>, parentDgst: string): (r: seq<MaintenanceUpdate>)
    ensures |r| == |entries|
    ensures forall i :: 0 <= i < |r| ==>
      && r[i].name == entries[i].title && r[i].reportLink == entries[i].reportLink
      && r[i].stLink == entries[i].stLink && r[i].maintenanceDate == entries[i].date
      && r[i].relatedCertDigest == parentDgst
      && r[i].state.None? && r[i].pdfData.None? && r[i].heuristics.None?
  {
    seq(|entries|, i requires 0 <= i < |entries| =>
      MaintenanceUpdate(entries[i].title, entries[i].reportLink, entries[i].stLink, None, None, None, parentDgst, entries[i].date))
  }

  /** Two entries with one title give updates that compare equal. */
  lemma UpdatesSameTitle(entries: seq<MaintenanceEntry>, parentDgst: string, i: nat, j: nat, hash: Hash)
    requires i < |entries| && j < |entries| && entries[i].title == entries[j].title
    ensures SameCert(UpdatesOf(entries, parentDgst)[i], UpdatesOf(entries, parentDgst)[j], hash)
  {
  }

  // ---------------------------------------------------------------------------
  // Related CVEs
  // ---------------------------------------------------------------------------

  /** The CVE IDs known for a CPE URI, if the URI is known. */
  type CveLookup = string -> Option<set<string>>

  /** The non-missing lookup results, in order. */
  function Found(cpes: seq<string>, lookup: CveLookup): (r: seq<set<string>>)
    ensures |r| <= |cpes|
    ensures forall s :: s in r <==> exists i :: 0 <= i < |cpes| && lookup(cpes[i]) == Some(s)
    decreases |cpes|
  {
    if |cpes| == 0 then []
    else
      var rest := Found(cpes[1..], lookup);
      assert forall i :: 1 <= i < |cpes| ==> cpes[i] == cpes[1..][i - 1];
      assert forall s :: (exists i :: 0 <= i < |cpes| - 1 && lookup(cpes[1..][i]) == Some(s)) ==>
                         (exists i :: 0 <= i < |cpes| && lookup(cpes[i]) == Some(s));
      match lookup(cpes[0])
      case None => rest
      case Some(s) => [s] + rest
  }

  function UnionAll(ss: seq<set<string>>): (r: set<string>)
    ensures forall x :: x in r <==> exists i :: 0 <= i < |ss| && x in ss[i]
    decreases |ss|
  {
    if |ss| == 0 then {}
    else
      var rest := UnionAll(ss[1..]);
      assert forall i :: 1 <= i < |ss| ==> ss[i] == ss[1..][i - 1];
      ss[0] + rest
  }

  /** `compute_heuristics_related_cves`: no CPE matches clear the field; with
      matches, the union of the found CVE sets replaces it unless none was
      found. */
  function RelatedCves(cpeMatches: Option<seq<string>>, current: Option<set<string>>, lookup: CveLookup): (r: Option<set<string>>)
    ensures cpeMatches.None? || cpeMatches.value == [] ==> r.None?
    ensures cpeMatches.Some? && cpeMatches.value != [] ==>
      ((forall i :: 0 <= i < |cpeMatches.value| ==> lookup(cpeMatches.value[i]).None?) ==> r == current)
    ensures cpeMatches.Some? && cpeMatches.value != [] && (exists i :: 0 <= i < |cpeMatches.value| && lookup(cpeMatches.value[i]).Some?) ==>
      r.Some? && forall x :: x in r.value <==>
        exists i :: 0 <= i < |cpeMatches.value| && lookup(cpeMatches.value[i]).Some? && x in lookup(cpeMatches.value[i]).value
  {
    if cpeMatches.None? || cpeMatches.value == [] then None
    else
      var cpes := cpeMatches.value;
      var found := Found(cpes, lookup);
      if found == [] then
        current
      else
        assert found[0] in found;
        var u := UnionAll(found);
        assert forall x :: x in u <==>
          exists i :: 0 <= i < |cpes| && lookup(cpes[i]).Some? && x in lookup(cpes[i]).value by {
          forall x | x in u
            ensures exists i :: 0 <= i < |cpes| && lookup(cpes[i]).Some? && x in lookup(cpes[i]).value
          {
            var k :| 0 <= k < |found| && x in found[k];
            assert found[k] in found;
            var i :| 0 <= i < |cpes| && lookup(cpes[i]) == Some(found[k]);
          }
          forall x | exists i :: 0 <= i < |cpes| && lookup(cpes[i]).Some? && x in lookup(cpes[i]).value
            ensures x in u
          {
            var i :| 0 <= i < |cpes| && lookup(cpes[i]).Some? && x in lookup(cpes[i]).value;
            var s := lookup(cpes[i]).value;
            assert s in found;
            var k :| 0 <= k < |found| && found[k] == s;
          }
        }
        Some(u)
  }
}
