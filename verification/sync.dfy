/** The web page's periodic dataset update: which certificate IDs are new,
    removed or updated against the stored snapshot, the statistics logged
    about them, how downloaded documents replace stored ones, and the
    sequence of effects on success and on failure. The database, the task
    queue and the dataset methods are not part of this model. */
module Sync {
  import opened Wrappers

  // ---------------------------------------------------------------------------
  // The ID partition
  // ---------------------------------------------------------------------------

  datatype Partition = Partition(newIds: set<string>, removedIds: set<string>, updatedIds: set<string>)

  /** `new_ids`, `removed_ids` and `updated_ids` from the current and the
      stored ID sets. */
  function Partitioned(current: set<string>, stored: set<string>): (p: Partition)
    ensures p.newIds !! p.removedIds && p.newIds !! p.updatedIds && p.removedIds !! p.updatedIds
    ensures p.newIds + p.updatedIds == current
    ensures p.removedIds + p.updatedIds == stored
  {
    Partition(current - stored, stored - current, current * stored)
  }

  /** Those three facts determine the partition: any disjoint split of the
      two sets into "only current", "only stored" and "both" is this one. */
  lemma PartitionUnique(current: set<string>, stored: set<string>, q: Partition)
    requires q.newIds !! q.removedIds && q.newIds !! q.updatedIds && q.removedIds !! q.updatedIds
    requires q.newIds + q.updatedIds == current
    requires q.removedIds + q.updatedIds == stored
    ensures q == Partitioned(current, stored)
  {
    var p := Partitioned(current, stored);
    assert q.newIds == p.newIds by {
      forall x | x in q.newIds ensures x !in stored { }
    }
    assert q.removedIds == p.removedIds by {
      forall x | x in q.removedIds ensures x !in current { }
    }
    assert q.updatedIds == p.updatedIds;
  }

  // ---------------------------------------------------------------------------
  // Statistics
  // ---------------------------------------------------------------------------

  datatype Stats = Stats(newCerts: nat, removedIds: nat, updatedIds: nat)

  function StatsOf(p: Partition): Stats {
    Stats(|p.newIds|, |p.removedIds|, |p.updatedIds|)
  }

  /** The logged counts add up to the sizes of the current and the stored
      ID sets. */
  lemma StatsSpec(current: set<string>, stored: set<string>)
    ensures var s := StatsOf(Partitioned(current, stored));
            s.newCerts + s.updatedIds == |current| && s.removedIds + s.updatedIds == |stored|
  {
    var p := Partitioned(current, stored);
    DisjointCard(p.newIds, p.updatedIds);
    DisjointCard(p.removedIds, p.updatedIds);
  }

  lemma DisjointCard(a: set<string>, b: set<string>)
    requires a !! b
    ensures |a + b| == |a| + |b|
  {
    assert a * b == {};
  }

  /** One certificate's state flags, by name. */
  type StateFlags = map<string, bool>

  /** `cert_states`: for every flag name, the number of certificates on which
      it is set. */
  function CertStates(states: seq<StateFlags>): map<string, nat>
    decreases |states|
  {
    if |states| == 0 then map[]
    else
      var rest := CertStates(states[1..]);
      var s := states[0];
      map k | k in rest.Keys + (set f | f in s && s[f]) :: (if k in rest then rest[k] else 0) + (if k in s && s[k] then 1 else 0)
  }

  /** The certificates among `states` with flag `k` set. */
  function Holders(states: seq<StateFlags>, k: string): set<nat> {
    set i | 0 <= i < |states| && k in states[i] && states[i][k]
  }

  lemma HoldersShift(states: seq<StateFlags>, k: string)
    requires |states| > 0
    ensures |Holders(states, k)| == |Holders(states[1..], k)| + (if k in states[0] && states[0][k] then 1 else 0)
  {
    var tail := Holders(states[1..], k);
    var shifted := Shift(tail);
    assert Holders(states, k) == shifted + (if k in states[0] && states[0][k] then {0} else {}) by {
      forall i | i in Holders(states, k) && i > 0
        ensures i in shifted
      {
        var j: nat := i - 1;
        assert states[1..][j] == states[i];
        assert j in tail;
      }
    }
    ShiftCard(tail);
  }

  function Shift(s: set<nat>): set<nat> {
    set i | i in s :: i + 1
  }

  lemma {:induction false} ShiftCard(s: set<nat>)
    ensures |Shift(s)| == |s|
    ensures 0 !in Shift(s)
    decreases |s|
  {
    if s != {} {
      var x :| x in s;
      var rest := s - {x};
      ShiftCard(rest);
      ShiftRemove(s, x);
      RemoveCard(s, x);
    }
  }

  /** Shifting a set is shifting it without `x` and adding `x + 1`. */
  lemma ShiftRemove(s: set<nat>, x: nat)
    requires x in s
    ensures Shift(s) == Shift(s - {x}) + {x + 1} && x + 1 !in Shift(s - {x})
  {
    var a := Shift(s);
    var b := Shift(s - {x});
    forall y | y in a ensures y in b + {x + 1} {
      var i :| i in s && y == i + 1;
      if i != x { assert i in s - {x}; }
    }
    forall y | y in b + {x + 1} ensures y in a {
      if y != x + 1 {
        var i :| i in s - {x} && y == i + 1;
      }
    }
  }

  lemma RemoveCard(s: set<nat>, x: nat)
    requires x in s
    ensures |s| == |s - {x}| + 1
  {
    assert s == (s - {x}) + {x};
  }

  /** A flag name is counted exactly when some certificate has it set, and
      its count is the number of such certificates. */
  lemma {:induction false} CertStatesSpec(states: seq<StateFlags>, k: string)
    ensures k in CertStates(states) <==> |Holders(states, k)| > 0
    ensures k in CertStates(states) ==> CertStates(states)[k] == |Holders(states, k)|
    decreases |states|
  {
    if |states| > 0 {
      CertStatesSpec(states[1..], k);
      HoldersShift(states, k);
    }
  }

  // ---------------------------------------------------------------------------
  // Replacing stored documents
  // ---------------------------------------------------------------------------

  /** The four stored document kinds. */
  datatype DocKind = ReportPdf | ReportTxt | TargetPdf | TargetTxt

  /** A stored document: its kind and the certificate digest it is named after. */
  type DocKey = (DocKind, string)

  /** A downloaded document, with its size when it exists. */
  datatype Download = Download(key: DocKey, size: Option<nat>)

  /** The sizes of the stored documents. */
  type Store = map<DocKey, nat>

  /** Lines 64-79: a downloaded document replaces the stored one when that is
      missing or strictly smaller. */
  function Offer(store: Store, d: Download): Store {
    if d.size.Some? && (d.key !in store || store[d.key] < d.size.value) then store[d.key := d.size.value]
    else store
  }

  function OfferAll(store: Store, ds: seq<Download>): Store
    decreases |ds|
  {
    if |ds| == 0 then store else OfferAll(Offer(store, ds[0]), ds[1..])
  }

  /** Some existing download in `ds` is for `key`, of size `n`. */
  predicate Offered(ds: seq<Download>, key: DocKey, n: nat) {
    exists i :: 0 <= i < |ds| && ds[i].key == key && ds[i].size == Some(n)
  }

  /** After the moves, each stored size is the largest of the size stored
      before and the sizes downloaded for it; nothing is removed and no size
      decreases. */
  lemma {:induction false} OfferAllSpec(store: Store, ds: seq<Download>, key: DocKey)
    ensures var r := OfferAll(store, ds);
      && (key in r <==> key in store || exists n: nat :: Offered(ds, key, n))
      && (key in store ==> key in r && store[key] <= r[key])
      && (forall n: nat :: Offered(ds, key, n) ==> key in r && n <= r[key])
      && (key in r ==> (key in store && r[key] == store[key]) || Offered(ds, key, r[key]))
    decreases |ds|
  {
    if |ds| > 0 {
      var s1 := Offer(store, ds[0]);
      OfferAllSpec(s1, ds[1..], key);
      var r := OfferAll(store, ds);
      forall n: nat | Offered(ds[1..], key, n)
        ensures Offered(ds, key, n)
      {
        var i :| 0 <= i < |ds[1..]| && ds[1..][i].key == key && ds[1..][i].size == Some(n);
        assert ds[i + 1] == ds[1..][i];
      }
      forall n: nat | Offered(ds, key, n)
        ensures key in r && n <= r[key]
      {
        var i :| 0 <= i < |ds| && ds[i].key == key && ds[i].size == Some(n);
        if i > 0 {
          assert ds[1..][i - 1] == ds[i];
          assert Offered(ds[1..], key, n);
        }
      }
      if key in r && !(key in store && r[key] == store[key]) && !Offered(ds[1..], key, r[key]) {
        assert key in s1 && r[key] == s1[key];
        assert ds[0].key == key && ds[0].size == Some(r[key]);
      }
      if exists n: nat :: Offered(ds, key, n) {
        var n :| Offered(ds, key, n);
      }
      if key in r && key !in store && !(exists n: nat :: Offered(ds[1..], key, n)) {
        assert Offered(ds, key, ds[0].size.value);
      }
    }
  }

  // ---------------------------------------------------------------------------
  // The update run
  // ---------------------------------------------------------------------------

  /** The effects of one run, in order. */
  datatype Effect =
    | RebuildDataset
    | MoveFiles
    | LogOk(stats: Stats)
    | ProcessNew(ids: set<string>)
    | ProcessUpdated(ids: set<string>)
    | ProcessRemoved(ids: set<string>)
    | Notify
    | LogFailure(error: string)
    | RemoveWorkDir

  /** A step of the run that raises, and its message: one of the setup
      steps before the `try` (lines 28-44: the version lookup, loading or
      creating the dataset, the auxiliary directory and the two symlinks,
      which raise when the link is already there), or the step at index
      `at` of the `try` block. */
  datatype Fault = InSetup(error: string) | InBody(at: nat, error: string)

  datatype RunResult = Finished(trace: seq<Effect>) | Raised(trace: seq<Effect>, error: string)

  /** The steps of the `try` block: the dataset is rebuilt unless updates
      are skipped and a previous output exists; then the files are moved, the
      run is logged and the certificates are processed, new ones first. */
  function Body(rebuild: bool, current: set<string>, stored: set<string>): seq<Effect> {
    var p := Partitioned(current, stored);
    (if rebuild then [RebuildDataset] else [])
      + [MoveFiles, LogOk(StatsOf(p)), ProcessNew(p.newIds), ProcessUpdated(p.updatedIds), ProcessRemoved(p.removedIds), Notify]
  }

  /** A fault raised before the `try` block. */
  predicate SetupFault(fault: Option<Fault>) {
    fault.Some? && fault.value.InSetup?
  }

  /** `update_data`, with the step that raises, if any, as a parameter. The
      trace lists the effects from the `try` block on; a setup fault
      propagates before any of them. */
  function UpdateData(rebuild: bool, current: set<string>, stored: set<string>, fault: Option<Fault>): (r: RunResult)
    ensures RemoveWorkDir in r.trace <==> !SetupFault(fault)
    ensures !SetupFault(fault) ==> |r.trace| > 0 && r.trace[|r.trace| - 1] == RemoveWorkDir
  {
    var body := Body(rebuild, current, stored);
    BodyClean(rebuild, current, stored);
    match fault
    case Some(InSetup(e)) => Raised([], e)
    case Some(InBody(at, e)) =>
      if at < |body| then
        var r := Raised(body[..at] + [LogFailure(e), RemoveWorkDir], e);
        assert r.trace[|r.trace| - 1] == RemoveWorkDir;
        r
      else
        var r := Finished(body + [RemoveWorkDir]);
        assert r.trace[|r.trace| - 1] == RemoveWorkDir;
        r
    case None =>
      var r := Finished(body + [RemoveWorkDir]);
      assert r.trace[|r.trace| - 1] == RemoveWorkDir;
      r
  }

  /** A fault in the setup propagates at once: no failure entry is logged
      and the working directory, with whatever the setup created in it, is
      not removed. */
  lemma SetupFaultLeaks(rebuild: bool, current: set<string>, stored: set<string>, error: string)
    ensures var r := UpdateData(rebuild, current, stored, Some(InSetup(error)));
      && r.Raised? && r.error == error
      && RemoveWorkDir !in r.trace
      && forall i :: 0 <= i < |r.trace| ==> !r.trace[i].LogFailure?
  {
  }

  /** The evident intent of the `finally` clause: the setup runs inside the
      `try`, so a setup fault is logged and the directory removed as well. */
  function UpdateDataGuarded(rebuild: bool, current: set<string>, stored: set<string>, fault: Option<Fault>): (r: RunResult)
    ensures !SetupFault(fault) ==> r == UpdateData(rebuild, current, stored, fault)
  {
    if SetupFault(fault) then Raised([LogFailure(fault.value.error), RemoveWorkDir], fault.value.error)
    else UpdateData(rebuild, current, stored, fault)
  }

  /** With the setup guarded, every run ends by removing the working
      directory, exactly once, and every raised fault is logged with its
      message right before that. */
  lemma UpdateDataGuardedSpec(rebuild: bool, current: set<string>, stored: set<string>, fault: Option<Fault>)
    ensures var r := UpdateDataGuarded(rebuild, current, stored, fault);
      && |r.trace| > 0 && r.trace[|r.trace| - 1] == RemoveWorkDir
      && (forall i :: 0 <= i < |r.trace| - 1 ==> r.trace[i] != RemoveWorkDir)
      && (r.Raised? ==> fault.Some? && r.error == fault.value.error
                        && |r.trace| >= 2 && r.trace[|r.trace| - 2] == LogFailure(fault.value.error))
  {
    if !SetupFault(fault) {
      UpdateDataSpec(rebuild, current, stored, fault);
    }
  }

  /** The working directory is removed at most once, as the last effect; a
      step of the `try` block that raises is logged with its message right
      before that, and the same message is raised; a run that finishes logs
      no failure. */
  lemma UpdateDataSpec(rebuild: bool, current: set<string>, stored: set<string>, fault: Option<Fault>)
    ensures var r := UpdateData(rebuild, current, stored, fault);
      && (forall i :: 0 <= i < |r.trace| - 1 ==> r.trace[i] != RemoveWorkDir)
      && (r.Raised? ==> fault.Some? && r.error == fault.value.error)
      && (r.Raised? && !SetupFault(fault) ==>
            |r.trace| >= 2 && r.trace[|r.trace| - 2] == LogFailure(fault.value.error))
      && (r.Finished? ==> !SetupFault(fault) && forall i :: 0 <= i < |r.trace| ==> !r.trace[i].LogFailure?)
      && (fault.None? ==> r.Finished?)
  {
    var body := Body(rebuild, current, stored);
    BodyClean(rebuild, current, stored);
    if fault.Some? && fault.value.InBody? && fault.value.at < |body| {
      var pre := body[..fault.value.at];
      assert forall i :: 0 <= i < |pre| ==> pre[i] == body[i];
    }
  }

  /** The body neither removes the working directory nor logs a failure. */
  lemma BodyClean(rebuild: bool, current: set<string>, stored: set<string>)
    ensures var b := Body(rebuild, current, stored);
      forall i :: 0 <= i < |b| ==> b[i] != RemoveWorkDir && !b[i].LogFailure?
  {
  }

  /** On a run without a fault, the logged stats are the partition's sizes
      and the certificates are processed new, then updated, then removed,
      after the log entry and after the files were moved. */
  lemma UpdateDataOrder(rebuild: bool, current: set<string>, stored: set<string>)
    ensures var t := UpdateData(rebuild, current, stored, None).trace;
      var p := Partitioned(current, stored);
      var b := if rebuild then 1 else 0;
      && |t| == b + 7
      && t[b] == MoveFiles
      && t[b + 1] == LogOk(Stats(|current - stored|, |stored - current|, |current * stored|))
      && t[b + 2] == ProcessNew(current - stored)
      && t[b + 3] == ProcessUpdated(current * stored)
      && t[b + 4] == ProcessRemoved(stored - current)
  {
    var body := Body(rebuild, current, stored);
    assert UpdateData(rebuild, current, stored, None).trace == body + [RemoveWorkDir];
    BodyOrder(rebuild, current, stored);
  }

  lemma BodyOrder(rebuild: bool, current: set<string>, stored: set<string>)
    ensures var t := Body(rebuild, current, stored);
      var p := Partitioned(current, stored);
      var b := if rebuild then 1 else 0;
      && |t| == b + 6
      && t[b] == MoveFiles
      && t[b + 1] == LogOk(StatsOf(p))
      && t[b + 2] == ProcessNew(p.newIds)
      && t[b + 3] == ProcessUpdated(p.updatedIds)
      && t[b + 4] == ProcessRemoved(p.removedIds)
  {
    var p := Partitioned(current, stored);
    var tail := [MoveFiles, LogOk(StatsOf(p)), ProcessNew(p.newIds), ProcessUpdated(p.updatedIds),
                 ProcessRemoved(p.removedIds), Notify];
    if rebuild {
      assert Body(rebuild, current, stored) == [RebuildDataset] + tail;
    } else {
      assert Body(rebuild, current, stored) == [] + tail;
    }
  }

  /** A fault in the processing phase happens after the run was logged as
      successful, so such a run is logged twice: once ok and once failed. */
  lemma LateFaultLogsTwice(rebuild: bool, current: set<string>, stored: set<string>, error: string)
    ensures var b := if rebuild then 1 else 0;
            var t := UpdateData(rebuild, current, stored, Some(InBody(b + 2, error))).trace;
            t[b + 1].LogOk? && t[b + 2] == LogFailure(error)
  {
  }
}
