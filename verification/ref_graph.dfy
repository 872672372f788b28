/** The certificate reference graph: which certificates mention which
    certificate IDs in their keyword scans (direct referrers), and the
    indirect referrers obtained by repeating the composition step until
    nothing changes. */
module RefGraph {
  import opened Wrappers
  import opened Dict
  import opened Seqs
  import opened RuleMatcher
  import opened Records

  // ---------------------------------------------------------------------------
  // Direct referrers
  // ---------------------------------------------------------------------------

  /** The matches of the scan groups listed in `filter`, group by group in
      scan order. */
  function GroupMatches(t: ScanTable, gs: seq<string>, filter: set<string>): seq<string>
    decreases |gs|
  {
    if |gs| == 0 then []
    else (if gs[0] in filter then TableMatches(Get(t, gs[0]).GetOr([])) else []) + GroupMatches(t, gs[1..], filter)
  }

  /** What a certificate's keyword scan mentions; nothing without a scan. */
  function Mentions(c: CertItem, filter: set<string>): seq<string> {
    if c.keywords.None? then [] else GroupMatches(c.keywords.value, Keys(c.keywords.value), filter)
  }

  /** The certificate's own ID, '' when it has none. */
  function OwnRefId(c: CertItem): string {
    if c.certId.Some? then c.certId.value else ""
  }

  /** `c` has an ID and mentions `x`, another ID. */
  predicate Mentioned(c: CertItem, filter: set<string>, x: string) {
    OwnRefId(c) != "" && x != OwnRefId(c) && x in Mentions(c, filter)
  }

  /** `y` is the ID of a certificate `c` that mentions `x`. */
  predicate Refers(c: CertItem, filter: set<string>, x: string, y: string) {
    y == OwnRefId(c) && Mentioned(c, filter, x)
  }

  /** `referenced_by`: for each mentioned ID, the IDs of the certificates
      mentioning it, each once, in the order first seen. */
  type Referrers = Dict<string, seq<string>>

  function List(refBy: Referrers, x: string): seq<string> {
    Get(refBy, x).GetOr([])
  }

  function AppendNew(xs: seq<string>, x: string): (r: seq<string>)
    ensures forall y :: y in r <==> y in xs || y == x
    ensures Distinct(xs) ==> Distinct(r)
    ensures |r| > 0
  {
    if x in xs then xs
    else
      assert forall i :: 0 <= i < |xs| ==> (xs + [x])[i] == xs[i];
      xs + [x]
  }

  /** The inner loops for one certificate with ID `id` mentioning `ms`. */
  function AddReferrer(refBy: Referrers, id: string, ms: seq<string>): Referrers
    decreases |ms|
  {
    if |ms| == 0 then refBy
    else
      var m := ms[0];
      AddReferrer(if m != id && id != "" then Put(refBy, m, AppendNew(List(refBy, m), id)) else refBy, id, ms[1..])
  }

  lemma {:induction false} AddReferrerGet(refBy: Referrers, id: string, ms: seq<string>, x: string, y: string)
    ensures y in List(AddReferrer(refBy, id, ms), x) <==>
              y in List(refBy, x) || (y == id && id != "" && x != id && x in ms)
    ensures x in Keys(AddReferrer(refBy, id, ms)) <==> x in Keys(refBy) || (id != "" && x != id && x in ms)
    ensures Distinct(List(refBy, x)) ==> Distinct(List(AddReferrer(refBy, id, ms), x))
    decreases |ms|
  {
    if |ms| > 0 {
      var m := ms[0];
      if m != id && id != "" {
        var next := Put(refBy, m, AppendNew(List(refBy, m), id));
        AddReferrerGet(next, id, ms[1..], x, y);
        if x != m {
          GetPutOther(refBy, m, AppendNew(List(refBy, m), id), x);
        }
      } else {
        AddReferrerGet(refBy, id, ms[1..], x, y);
      }
    }
  }

  /** The outer loop over the certificates `ks`. */
  function CollectReferrers(refBy: Referrers, items: Items, ks: seq<string>, filter: set<string>): Referrers
    decreases |ks|
  {
    if |ks| == 0 then refBy
    else
      match Get(items, ks[0])
      case None => CollectReferrers(refBy, items, ks[1..], filter)
      case Some(c) => CollectReferrers(AddReferrer(refBy, OwnRefId(c), Mentions(c, filter)), items, ks[1..], filter)
  }

  /** Some certificate among `ks` has ID `y` and mentions `x`. */
  predicate ReferredAmong(items: Items, ks: seq<string>, filter: set<string>, x: string, y: string) {
    exists i :: 0 <= i < |ks| && Get(items, ks[i]).Some? && Refers(Get(items, ks[i]).value, filter, x, y)
  }

  /** Some certificate among `ks` with an ID mentions `x`. */
  predicate MentionedAmong(items: Items, ks: seq<string>, filter: set<string>, x: string) {
    exists i :: 0 <= i < |ks| && Get(items, ks[i]).Some? && Mentioned(Get(items, ks[i]).value, filter, x)
  }

  lemma {:induction false} CollectReferrersGet(refBy: Referrers, items: Items, ks: seq<string>, filter: set<string>, x: string, y: string)
    ensures y in List(CollectReferrers(refBy, items, ks, filter), x) <==>
              y in List(refBy, x) || ReferredAmong(items, ks, filter, x, y)
    ensures x in Keys(CollectReferrers(refBy, items, ks, filter)) <==>
              x in Keys(refBy) || MentionedAmong(items, ks, filter, x)
    ensures Distinct(List(refBy, x)) ==> Distinct(List(CollectReferrers(refBy, items, ks, filter), x))
    decreases |ks|
  {
    if |ks| > 0 {
      assert forall i :: 1 <= i < |ks| ==> ks[i] == ks[1..][i - 1];
      match Get(items, ks[0])
      case None =>
        CollectReferrersGet(refBy, items, ks[1..], filter, x, y);
      case Some(c) =>
        var next := AddReferrer(refBy, OwnRefId(c), Mentions(c, filter));
        AddReferrerGet(refBy, OwnRefId(c), Mentions(c, filter), x, y);
        CollectReferrersGet(next, items, ks[1..], filter, x, y);
    }
  }

  /** `referenced_by` over all certificates, in key order. */
  function ReferencedBy(items: Items, filter: set<string>): Referrers {
    CollectReferrers([], items, Keys(items), filter)
  }

  /** The referrers of `x` are exactly the IDs of the certificates mentioning
      it in a filtered group, each listed once; `x` has an entry exactly when
      some certificate with an ID other than `x` mentions it. */
  lemma ReferencedBySpec(items: Items, filter: set<string>, x: string, y: string)
    ensures y in List(ReferencedBy(items, filter), x) <==> ReferredAmong(items, Keys(items), filter, x, y)
    ensures x in Keys(ReferencedBy(items, filter)) <==> MentionedAmong(items, Keys(items), filter, x)
    ensures Distinct(List(ReferencedBy(items, filter), x))
  {
    CollectReferrersGet([], items, Keys(items), filter, x, y);
  }

  /** An ID never refers to itself. */
  lemma NoSelfReference(items: Items, filter: set<string>, x: string)
    ensures x !in List(ReferencedBy(items, filter), x)
  {
    ReferencedBySpec(items, filter, x, x);
  }

  /** The tail of a duplicate-free list is duplicate-free and lacks the head. */
  lemma DistinctTail(xs: seq<string>)
    requires |xs| > 0 && Distinct(xs)
    ensures Distinct(xs[1..]) && xs[0] !in xs[1..]
  {
    assert forall i :: 0 <= i < |xs| - 1 ==> xs[1..][i] == xs[i + 1];
  }

  lemma ElementsCons(xs: seq<string>)
    requires |xs| > 0
    ensures (set y | y in xs) == (set y | y in xs[1..]) + {xs[0]}
  {
    assert xs == [xs[0]] + xs[1..];
  }

  lemma {:induction false} DistinctCard(xs: seq<string>)
    requires Distinct(xs)
    ensures |set y | y in xs| == |xs|
    decreases |xs|
  {
    if |xs| > 0 {
      DistinctTail(xs);
      DistinctCard(xs[1..]);
      ElementsCons(xs);
    }
  }

  /** `referenced_by_direct_nums[x]`: the number of distinct certificates
      directly referring to `x`. */
  lemma DirectCount(items: Items, filter: set<string>, x: string)
    ensures |List(ReferencedBy(items, filter), x)| == |set y | y in List(ReferencedBy(items, filter), x)|
  {
    ReferencedBySpec(items, filter, x, "");
    DistinctCard(List(ReferencedBy(items, filter), x));
  }

  // ---------------------------------------------------------------------------
  // Indirect referrers
  // ---------------------------------------------------------------------------

  /** Referrer sets by ID. */
  type Graph = map<string, set<string>>

  /** `referenced_by_indirect` before the loop: each ID's direct referrers. */
  function Direct(refBy: Referrers): (d: Graph)
    ensures d.Keys == set x | x in Keys(refBy)
  {
    map x | x in Keys(refBy) :: set y | y in List(refBy, x)
  }

  /** One visit of `c` in the loop: everything referring to one of `c`'s
      referrers that has an entry is added to `c`'s set. */
  function Expand(m: Graph, c: string): set<string>
    requires c in m
  {
    m[c] + (set r, x | r in m[c] && r in m && x in m[r] :: x)
  }

  /** One pass of the `while` loop over the IDs `ks`, in order. */
  function Pass(m: Graph, ks: seq<string>): (r: Graph)
    requires forall i :: 0 <= i < |ks| ==> ks[i] in m
    ensures r.Keys == m.Keys
    ensures forall c :: c in m ==> m[c] <= r[c]
    decreases |ks|
  {
    if |ks| == 0 then m
    else Pass(m[ks[0] := Expand(m, ks[0])], ks[1..])
  }

  /** Every set lies within `u`. */
  predicate Bounded(m: Graph, u: set<string>) {
    forall c :: c in m ==> m[c] <= u
  }

  lemma {:induction false} PassBounded(m: Graph, ks: seq<string>, u: set<string>)
    requires forall i :: 0 <= i < |ks| ==> ks[i] in m
    requires Bounded(m, u)
    ensures Bounded(Pass(m, ks), u)
    decreases |ks|
  {
    if |ks| > 0 {
      PassBounded(m[ks[0] := Expand(m, ks[0])], ks[1..], u);
    }
  }

  /** The pairs `(c, x)` with `x` in `u` not yet in `c`'s set: the loop's
      measure, which every pass that changes something makes smaller. */
  function Missing(m: Graph, ks: seq<string>, u: set<string>): set<(string, string)> {
    (set c, x | c in ks && x in u :: (c, x)) - (set c, x | c in ks && c in m && x in m[c] :: (c, x))
  }

  lemma PassShrinks(m: Graph, ks: seq<string>, u: set<string>)
    requires forall c :: c in m <==> c in ks
    requires Bounded(m, u)
    requires Pass(m, ks) != m
    ensures Missing(Pass(m, ks), ks, u) < Missing(m, ks, u)
  {
    var m' := Pass(m, ks);
    PassBounded(m, ks, u);
    var c :| c in m && m'[c] != m[c];
    var x :| x in m'[c] && x !in m[c];
    assert (c, x) in Missing(m, ks, u);
    assert (c, x) !in Missing(m', ks, u);
  }

  /** The `while new_change_detected` loop: passes until one changes nothing. */
  function Closure(m: Graph, ks: seq<string>, u: set<string>): (r: Graph)
    requires forall c :: c in m <==> c in ks
    requires Bounded(m, u)
    ensures r.Keys == m.Keys
    decreases Missing(m, ks, u)
  {
    var m' := Pass(m, ks);
    if m' == m then m
    else
      PassShrinks(m, ks, u);
      PassBounded(m, ks, u);
      Closure(m', ks, u)
  }

  /** Every ID any set could ever hold: the direct referrers. */
  function Referring(d: Graph): set<string> {
    set c, x | c in d && x in d[c] :: x
  }

  /** `referenced_by_indirect` after the loop. */
  function Indirect(refBy: Referrers): (r: Graph)
    ensures r.Keys == Direct(refBy).Keys
  {
    var d := Direct(refBy);
    Closure(d, Keys(refBy), Referring(d))
  }

  /** Each set holds what refers to anything it holds that has an entry. */
  predicate Closed(m: Graph) {
    forall c, r :: c in m && r in m && r in m[c] ==> m[r] <= m[c]
  }

  /** A pass that changes nothing found every set already expanded. */
  lemma {:induction false} PassFixed(m: Graph, ks: seq<string>)
    requires forall i :: 0 <= i < |ks| ==> ks[i] in m
    requires Pass(m, ks) == m
    ensures forall i :: 0 <= i < |ks| ==> Expand(m, ks[i]) == m[ks[i]]
    decreases |ks|
  {
    if |ks| > 0 {
      var m1 := m[ks[0] := Expand(m, ks[0])];
      assert Expand(m, ks[0]) == m[ks[0]] by {
        assert m1[ks[0]] <= Pass(m1, ks[1..])[ks[0]];
      }
      assert m1 == m;
      PassFixed(m, ks[1..]);
      assert forall i :: 1 <= i < |ks| ==> ks[i] == ks[1..][i - 1];
    }
  }

  /** The loop ends with closed sets that only grew from where they started
      and hold nothing from outside `u`. */
  lemma {:induction false} ClosureSpec(m: Graph, ks: seq<string>, u: set<string>)
    requires forall c :: c in m <==> c in ks
    requires Bounded(m, u)
    ensures Closure(m, ks, u).Keys == m.Keys
    ensures forall c :: c in m ==> m[c] <= Closure(m, ks, u)[c]
    ensures Bounded(Closure(m, ks, u), u)
    ensures Closed(Closure(m, ks, u))
    decreases Missing(m, ks, u)
  {
    var m' := Pass(m, ks);
    if m' == m {
      PassFixed(m, ks);
      forall c, r | c in m && r in m && r in m[c]
        ensures m[r] <= m[c]
      {
        assert c in ks;
        var i :| 0 <= i < |ks| && ks[i] == c;
        assert Expand(m, c) == m[c];
      }
    } else {
      PassShrinks(m, ks, u);
      PassBounded(m, ks, u);
      ClosureSpec(m', ks, u);
    }
  }

  // ---------------------------------------------------------------------------
  // The closure is transitive reachability
  // ---------------------------------------------------------------------------

  /** `p` walks from ID to referrer: each step goes from an ID with an entry
      to one of its direct referrers. */
  predicate Chain(d: Graph, p: seq<string>) {
    |p| >= 2 && forall i :: 0 <= i < |p| - 1 ==> p[i] in d && p[i + 1] in d[p[i]]
  }

  /** `x` refers to `c` directly or through other certificates. */
  ghost predicate Reaches(d: Graph, c: string, x: string) {
    exists p :: Chain(d, p) && p[0] == c && p[|p| - 1] == x
  }

  lemma ReachesJoin(d: Graph, c: string, r: string, x: string)
    requires Reaches(d, c, r) && Reaches(d, r, x)
    ensures Reaches(d, c, x)
  {
    var p :| Chain(d, p) && p[0] == c && p[|p| - 1] == r;
    var q :| Chain(d, q) && q[0] == r && q[|q| - 1] == x;
    var pq := p + q[1..];
    assert forall i :: 0 <= i < |p| ==> pq[i] == p[i];
    assert forall i :: |p| <= i < |pq| ==> pq[i] == q[i - |p| + 1];
    assert Chain(d, pq);
  }

  /** Every member of every set reaches its ID in `d`. */
  ghost predicate Sound(d: Graph, m: Graph) {
    forall c, x :: c in m && x in m[c] ==> Reaches(d, c, x)
  }

  lemma {:induction false} PassSound(d: Graph, m: Graph, ks: seq<string>)
    requires forall i :: 0 <= i < |ks| ==> ks[i] in m
    requires Sound(d, m)
    ensures Sound(d, Pass(m, ks))
    decreases |ks|
  {
    if |ks| > 0 {
      var k := ks[0];
      var m1 := m[k := Expand(m, k)];
      forall c, x | c in m1 && x in m1[c]
        ensures Reaches(d, c, x)
      {
        if c == k && x !in m[k] {
          var r :| r in m[k] && r in m && x in m[r];
          ReachesJoin(d, k, r, x);
        }
      }
      PassSound(d, m1, ks[1..]);
    }
  }

  lemma {:induction false} ClosureSound(d: Graph, m: Graph, ks: seq<string>, u: set<string>)
    requires forall c :: c in m <==> c in ks
    requires Bounded(m, u)
    requires Sound(d, m)
    ensures Sound(d, Closure(m, ks, u))
    decreases Missing(m, ks, u)
  {
    var m' := Pass(m, ks);
    if m' != m {
      PassShrinks(m, ks, u);
      PassBounded(m, ks, u);
      PassSound(d, m, ks);
      ClosureSound(d, m', ks, u);
    }
  }

  /** A closed graph containing `d` holds, for each ID, everything that
      reaches it along a chain. */
  lemma {:induction false} ChainInClosed(d: Graph, m: Graph, p: seq<string>, k: nat)
    requires Closed(m) && m.Keys == d.Keys
    requires forall c :: c in d ==> d[c] <= m[c]
    requires Chain(d, p) && 1 <= k < |p|
    ensures p[k] in m[p[0]]
    decreases k
  {
    if k > 1 {
      ChainInClosed(d, m, p, k - 1);
      assert p[k] in m[p[k - 1]];
    }
  }

  /** The indirect referrers of `x` are exactly the IDs that reach `x` along
      a chain of direct references, for every `x` with an entry. */
  lemma IndirectSpec(refBy: Referrers, x: string, y: string)
    ensures x in Direct(refBy) ==> (y in Indirect(refBy)[x] <==> Reaches(Direct(refBy), x, y))
    ensures x in Direct(refBy) ==> Direct(refBy)[x] <= Indirect(refBy)[x]
  {
    var d := Direct(refBy);
    var m := Indirect(refBy);
    IndirectFacts(refBy);
    if x in d && Reaches(d, x, y) {
      var p :| Chain(d, p) && p[0] == x && p[|p| - 1] == y;
      ChainInClosed(d, m, p, |p| - 1);
    }
  }

  /** The loop's result is closed, keeps every direct referrer, and holds
      only IDs that reach their key. */
  lemma IndirectFacts(refBy: Referrers)
    ensures var d := Direct(refBy);
            var m := Indirect(refBy);
            && Closed(m) && m.Keys == d.Keys
            && (forall c :: c in d ==> d[c] <= m[c])
            && Sound(d, m)
  {
    var d := Direct(refBy);
    var ks := Keys(refBy);
    var u := Referring(d);
    assert Bounded(d, u);
    ClosureSpec(d, ks, u);
    DirectSound(d);
    ClosureSound(d, d, ks, u);
  }

  /** A direct reference is a chain of length two. */
  lemma DirectSound(d: Graph)
    ensures Sound(d, d)
  {
    forall c, z | c in d && z in d[c]
      ensures Reaches(d, c, z)
    {
      assert Chain(d, [c, z]);
    }
  }

  /** An ID on a reference cycle is its own indirect referrer. */
  lemma CycleSelf(refBy: Referrers, p: seq<string>)
    requires Chain(Direct(refBy), p) && p[0] == p[|p| - 1]
    ensures p[0] in Indirect(refBy)[p[0]]
  {
    IndirectSpec(refBy, p[0], p[0]);
  }
}
