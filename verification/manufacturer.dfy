/** Post-processing of the `cc_manufacturer` CSV field and the front-page
    certification lab: splitting joint manufacturers, reducing a name to the
    shortest other manufacturer name that prefixes it, and keeping the first
    word of the lab. */
module Manufacturer {
  import opened Wrappers
  import opened PyStr
  import opened Dict
  import opened Seqs
  import opened Sorting

  // ---------------------------------------------------------------------------
  // The list of manufacturers
  // ---------------------------------------------------------------------------

  /** Appends each non-empty field value not seen before, in field order. */
  function Collect(acc: seq<string>, fields: seq<Option<string>>): seq<string>
    decreases |fields|
  {
    if |fields| == 0 then acc
    else
      var f := fields[0];
      Collect(if f.Some? && f.value != "" && f.value !in acc then acc + [f.value] else acc, fields[1..])
  }

  /** The manufacturers named by the certificates, one entry per name. */
  function Manufacturers(fields: seq<Option<string>>): seq<string> {
    Collect([], fields)
  }

  lemma {:induction false} CollectSpec(acc: seq<string>, fields: seq<Option<string>>, m: string)
    ensures m in Collect(acc, fields) <==>
              m in acc || (m != "" && exists i :: 0 <= i < |fields| && fields[i] == Some(m))
    ensures Distinct(acc) ==> Distinct(Collect(acc, fields))
    decreases |fields|
  {
    if |fields| > 0 {
      var f := fields[0];
      var next := if f.Some? && f.value != "" && f.value !in acc then acc + [f.value] else acc;
      CollectSpec(next, fields[1..], m);
      assert forall i :: 1 <= i < |fields| ==> fields[i] == fields[1..][i - 1];
    }
  }

  /** A name is listed exactly when some certificate carries it, and no
      name is listed twice. */
  lemma ManufacturersSpec(fields: seq<Option<string>>, m: string)
    ensures m in Manufacturers(fields) <==>
              m != "" && exists i :: 0 <= i < |fields| && fields[i] == Some(m)
    ensures Distinct(Manufacturers(fields))
  {
    CollectSpec([], fields, m);
  }

  /** `sorted(manufacturers)`. */
  function SortedManufacturers(fields: seq<Option<string>>): (r: seq<string>)
    ensures LexSorted(r)
    ensures multiset(r) == multiset(Manufacturers(fields))
    ensures forall m :: m in r <==> m in Manufacturers(fields)
  {
    var r := LexSort(Manufacturers(fields));
    assert forall m :: m in r <==> m in multiset(r);
    r
  }

  // ---------------------------------------------------------------------------
  // Reduction to the shortest prefixing name
  // ---------------------------------------------------------------------------

  /** `p` is a non-empty prefix of `q` other than `q` itself. */
  predicate ProperPrefix(p: string, q: string) {
    p != "" && p != q && StartsWith(q, p)
  }

  /** The inner loop for one `m1`: every other name it prefixes is reduced
      to it, unless already reduced. */
  function InnerReduce(acc: Dict<string, string>, m1: string, m2s: seq<string>): Dict<string, string>
    decreases |m2s|
  {
    if |m2s| == 0 then acc
    else
      var m2 := m2s[0];
      InnerReduce(if m1 != m2 && StartsWith(m2, m1) && m2 !in Keys(acc) then Put(acc, m2, m1) else acc, m1, m2s[1..])
  }

  /** The outer loop, skipping the empty name. */
  function OuterReduce(acc: Dict<string, string>, m1s: seq<string>, ms: seq<string>): Dict<string, string>
    decreases |m1s|
  {
    if |m1s| == 0 then acc
    else OuterReduce(if m1s[0] == "" then acc else InnerReduce(acc, m1s[0], ms), m1s[1..], ms)
  }

  /** `already_reduced`, built over the manufacturer list `ms`. */
  function Reductions(ms: seq<string>): Dict<string, string> {
    OuterReduce([], ms, ms)
  }

  /** The first name of `ms` that is a proper prefix of `q`. */
  function FirstPrefix(ms: seq<string>, q: string): Option<string>
    decreases |ms|
  {
    if |ms| == 0 then None
    else if ProperPrefix(ms[0], q) then Some(ms[0])
    else FirstPrefix(ms[1..], q)
  }

  lemma {:induction false} InnerReduceGet(acc: Dict<string, string>, m1: string, m2s: seq<string>, q: string)
    requires m1 != ""
    ensures Get(InnerReduce(acc, m1, m2s), q) ==
              if Get(acc, q).None? && q in m2s && ProperPrefix(m1, q) then Some(m1) else Get(acc, q)
    decreases |m2s|
  {
    if |m2s| > 0 {
      var m2 := m2s[0];
      if m1 != m2 && StartsWith(m2, m1) && m2 !in Keys(acc) {
        var next := Put(acc, m2, m1);
        InnerReduceGet(next, m1, m2s[1..], q);
        if q != m2 {
          GetPutOther(acc, m2, m1, q);
        }
      } else {
        InnerReduceGet(acc, m1, m2s[1..], q);
      }
    }
  }

  lemma {:induction false} OuterReduceGet(acc: Dict<string, string>, m1s: seq<string>, ms: seq<string>, q: string)
    ensures Get(OuterReduce(acc, m1s, ms), q) ==
              if Get(acc, q).Some? || q !in ms then Get(acc, q) else FirstPrefix(m1s, q)
    decreases |m1s|
  {
    if |m1s| > 0 {
      if m1s[0] == "" {
        OuterReduceGet(acc, m1s[1..], ms, q);
      } else {
        var next := InnerReduce(acc, m1s[0], ms);
        InnerReduceGet(acc, m1s[0], ms, q);
        OuterReduceGet(next, m1s[1..], ms, q);
      }
    }
  }

  /** A name is reduced exactly when it is listed and another listed name
      prefixes it, and then to the first such name. */
  lemma ReductionsGet(ms: seq<string>, q: string)
    ensures Get(Reductions(ms), q) == if q in ms then FirstPrefix(ms, q) else None
  {
    OuterReduceGet([], ms, ms, q);
  }

  lemma {:induction false} FirstPrefixSpec(ms: seq<string>, q: string)
    ensures FirstPrefix(ms, q).Some? <==> exists i :: 0 <= i < |ms| && ProperPrefix(ms[i], q)
    ensures FirstPrefix(ms, q).Some? ==> FirstPrefix(ms, q).value in ms && ProperPrefix(FirstPrefix(ms, q).value, q)
    decreases |ms|
  {
    if |ms| > 0 && !ProperPrefix(ms[0], q) {
      FirstPrefixSpec(ms[1..], q);
      assert forall i :: 1 <= i < |ms| ==> ms[i] == ms[1..][i - 1];
    }
  }

  /** Over a sorted list the first prefixing name is also the shortest. */
  lemma {:induction false} FirstPrefixShortest(ms: seq<string>, q: string)
    requires LexSorted(ms)
    ensures FirstPrefix(ms, q).Some? ==>
              forall i :: 0 <= i < |ms| && ProperPrefix(ms[i], q) ==> |FirstPrefix(ms, q).value| <= |ms[i]|
    decreases |ms|
  {
    if |ms| > 0 {
      if ProperPrefix(ms[0], q) {
        forall i | 0 < i < |ms| && ProperPrefix(ms[i], q)
          ensures |ms[0]| <= |ms[i]|
        {
          PrefixLexLe(ms[0], ms[i], q);
        }
      } else {
        assert LexSorted(ms[1..]) by {
          assert forall i :: 1 <= i < |ms| ==> ms[i] == ms[1..][i - 1];
        }
        FirstPrefixShortest(ms[1..], q);
        assert forall i :: 1 <= i < |ms| ==> ms[i] == ms[1..][i - 1];
      }
    }
  }

  /** `get_manufacturer_simple_name`. */
  function SimpleName(m: string, reduced: Dict<string, string>): string {
    Get(reduced, m).GetOr(m)
  }

  /** Over the sorted manufacturer list, a name is simplified exactly when it
      is listed and some other listed name prefixes it, and then to the
      shortest such name. */
  lemma SimpleNameSpec(ms: seq<string>, q: string)
    requires LexSorted(ms)
    ensures var r := SimpleName(q, Reductions(ms));
            (r != q <==> q in ms && exists i :: 0 <= i < |ms| && ProperPrefix(ms[i], q))
            && (r != q ==> r in ms && ProperPrefix(r, q)
                           && forall i :: 0 <= i < |ms| && ProperPrefix(ms[i], q) ==> |r| <= |ms[i]|)
  {
    ReductionsGet(ms, q);
    FirstPrefixSpec(ms, q);
    FirstPrefixShortest(ms, q);
  }

  /** A simplified name is always a prefix of the name, whatever the list. */
  lemma SimpleNamePrefix(ms: seq<string>, q: string)
    ensures StartsWith(q, SimpleName(q, Reductions(ms)))
  {
    ReductionsGet(ms, q);
    FirstPrefixSpec(ms, q);
  }

  // ---------------------------------------------------------------------------
  // Joint manufacturers
  // ---------------------------------------------------------------------------

  /** `[p.strip() for p in m.split(sep)]`. */
  function Parts(m: string, sep: char): (r: seq<string>)
    ensures |r| >= 1
  {
    Map(Strip, Split(m, sep))
  }

  /** Splitting at `sep` is accepted when it gives more than one part and
      every part is a listed manufacturer. */
  predicate Accepted(m: string, sep: char, known: seq<string>) {
    var parts := Parts(m, sep);
    |parts| > 1 && forall i :: 0 <= i < |parts| ==> parts[i] in known
  }

  function SplitOn(m: string, sep: char, known: seq<string>): seq<string> {
    if Accepted(m, sep, known) then Parts(m, sep) else []
  }

  /** `mapping_csvmanuf_separated[m]`: the parts of every accepted split,
      first at ',' and then at '/', or `m` alone when neither is accepted. */
  function Separated(m: string, known: seq<string>): (r: seq<string>)
    ensures |r| >= 1
    ensures r == [m] <==> !Accepted(m, ',', known) && !Accepted(m, '/', known)
    ensures r != [m] ==> forall i :: 0 <= i < |r| ==> r[i] in known
  {
    var found := SplitOn(m, ',', known) + SplitOn(m, '/', known);
    if |found| == 0 then [m] else found
  }

  /** A name without separators stays whole. */
  lemma SeparatedNone(m: string, known: seq<string>)
    requires ',' !in m && '/' !in m
    ensures Separated(m, known) == [m]
  {
    SplitNone(m, ',');
    SplitNone(m, '/');
  }

  /** Two listed names joined by a comma are split into the two. */
  lemma SeparatedPair(a: string, b: string, known: seq<string>)
    requires a in known && b in known
    requires Strip(a) == a && Strip(b) == b
    requires ',' !in a && ',' !in b && '/' !in a && '/' !in b
    ensures Separated(a + [','] + b, known) == [a, b]
  {
    var m := a + [','] + b;
    CommaParts(a, b);
    assert SplitOn(m, ',', known) == [a, b];
    NoSlash(a, b);
    SplitNone(m, '/');
    assert |Parts(m, '/')| == 1;
    assert SplitOn(m, '/', known) == [];
    assert [a, b] + [] == [a, b];
  }

  lemma NoSlash(a: string, b: string)
    requires '/' !in a && '/' !in b
    ensures '/' !in a + [','] + b
  {
  }

  lemma CommaParts(a: string, b: string)
    requires Strip(a) == a && Strip(b) == b
    requires ',' !in a && ',' !in b
    ensures Parts(a + [','] + b, ',') == [a, b]
  {
    var parts := Split(a + [','] + b, ',');
    SplitCons(a, ',', b);
    SplitNone(b, ',');
    assert parts == [a, b];
    StripPair(a, b);
  }

  lemma StripPair(a: string, b: string)
    requires Strip(a) == a && Strip(b) == b
    ensures Map(Strip, [a, b]) == [a, b]
  {
    var r := Map(Strip, [a, b]);
    assert r[0] == a && r[1] == b;
  }

  // ---------------------------------------------------------------------------
  // Per certificate
  // ---------------------------------------------------------------------------

  /** The `processed` manufacturer fields of one certificate. */
  datatype ManufacturerInfo = ManufacturerInfo(names: seq<string>, simpleNames: seq<string>, simple: string)

  function Process(field: Option<string>, known: seq<string>, reduced: Dict<string, string>): Option<ManufacturerInfo> {
    if field.None? || field.value == "" then None
    else
      var names := Separated(field.value, known);
      Some(ManufacturerInfo(names, Map(n => SimpleName(n, reduced), names), SimpleName(field.value, reduced)))
  }

  /** The manufacturer pass over the `cc_manufacturer` fields of all
      certificates, in key order. */
  function ProcessAll(fields: seq<Option<string>>): seq<Option<ManufacturerInfo>> {
    var known := SortedManufacturers(fields);
    var reduced := Reductions(known);
    Map(f => Process(f, known, reduced), fields)
  }

  /** A certificate with a non-empty manufacturer gets the names it was split
      into, each either the whole field or another certificate's
      manufacturer, each with its simplified name as a prefix, and its own
      simplified name. */
  lemma ProcessAllSpec(fields: seq<Option<string>>, i: nat)
    requires i < |fields|
    ensures |ProcessAll(fields)| == |fields|
    ensures ProcessAll(fields)[i].Some? <==> fields[i].Some? && fields[i].value != ""
    ensures ProcessAll(fields)[i].Some? ==>
              var info := ProcessAll(fields)[i].value;
              var m := fields[i].value;
              var known := SortedManufacturers(fields);
              |info.names| >= 1 && |info.simpleNames| == |info.names|
              && (forall j :: 0 <= j < |info.names| ==>
                    (info.names == [m] || info.names[j] in Manufacturers(fields))
                    && StartsWith(info.names[j], info.simpleNames[j]))
              && info.simple == SimpleName(m, Reductions(known))
  {
    var known := SortedManufacturers(fields);
    if fields[i].Some? && fields[i].value != "" {
      var names := Separated(fields[i].value, known);
      forall j | 0 <= j < |names|
        ensures StartsWith(names[j], SimpleName(names[j], Reductions(known)))
      {
        SimpleNamePrefix(known, names[j]);
      }
    }
  }

  // ---------------------------------------------------------------------------
  // Certification lab
  // ---------------------------------------------------------------------------

  /** `processed.cert_lab`: the upper-cased lab up to its first space, or
      nothing for an empty lab. */
  function CertLab(lab: string): (r: Option<string>)
    ensures r.None? <==> lab == ""
    ensures r.Some? ==> r.value <= Upper(lab) && ' ' !in r.value
                        && (|r.value| == |lab| || Upper(lab)[|r.value|] == ' ')
  {
    if lab == "" then None
    else
      var u := Upper(lab);
      var p := IndexOf(u, ' ');
      Some(if p == -1 then u else u[..p])
  }

  /** A lab name followed by more words gives its first word, upper-cased. */
  lemma CertLabWord(word: string, rest: string)
    requires word != "" && ' ' !in word
    ensures CertLab(word + [' '] + rest) == Some(Upper(word))
  {
    var u := Upper(word + [' '] + rest);
    assert u[..|word|] == Upper(word);
    assert ' ' !in Upper(word) by {
      UpperKeeps(word, ' ');
    }
    assert u[|word|] == ' ';
    IndexOfAfter(Upper(word), ' ', u[|word| + 1..]);
    assert u == Upper(word) + [' '] + u[|word| + 1..];
  }
}
