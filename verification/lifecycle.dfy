/** The command-line driver: which pipeline stages run, in which order, and
    when the program stops with a non-zero exit code. The dataset's own stage methods
    are not part of this model; their effect on the dataset's state flags is
    supplied as parameters. */
module Lifecycle {
  import opened Wrappers

  /** The accepted action words. */
  datatype Action = All | Build | Download | Convert | Analyze

  /** The stages `all` stands for. */
  const Stages: set<Action> := {Build, Download, Convert, Analyze}

  /** The dataset's progress flags. */
  datatype DatasetState = DatasetState(metaSourcesParsed: bool, pdfsDownloaded: bool, pdfsConverted: bool)

  /** What the dataset methods do to the flags: the state of a dataset loaded
      from the input file, of a freshly built one, and the effect of each
      stage method. */
  datatype Effects = Effects(
    loaded: DatasetState,
    built: DatasetState,
    download: DatasetState -> DatasetState,
    convert: DatasetState -> DatasetState,
    extract: DatasetState -> DatasetState,
    heuristics: DatasetState -> DatasetState)

  /** One dataset call, with the state it was called on. */
  datatype Step =
    | LoadJson
    | BuildFresh
    | DownloadPdfs(before: DatasetState)
    | ConvertPdfs(before: DatasetState)
    | ExtractData(before: DatasetState)
    | ComputeHeuristics(before: DatasetState)

  /** Why the program stopped: click rejected the arguments (no action
      word), `Path(None)` raised `TypeError` (no output path), no dataset
      was loaded or built, or a stage's gate failed. */
  datatype Failure = Usage | NoOutput | NoDataset | NotParsed | NotDownloaded | NotConverted

  /** The run so far: still going with a dataset, or stopped. */
  datatype Outcome =
    | Running(trace: seq<Step>, state: DatasetState)
    | Exited(trace: seq<Step>, failure: Failure)

  /** click exits with 2 on a usage error; an uncaught exception and
      `sys.exit(1)` both exit with 1. */
  function ExitCode(o: Outcome): int {
    if o.Running? then 0 else if o.failure == Usage then 2 else 1
  }

  /** The failures that `main` reports itself, after its checks. */
  predicate GateFailed(o: Outcome) {
    o.Exited? && o.failure in {NoDataset, NotParsed, NotDownloaded, NotConverted}
  }

  /** The deduplicated action set, with `all` expanded. */
  function Requested(actions: seq<Action>): (r: set<Action>)
    ensures All !in r
    ensures All in actions ==> r == Stages
    ensures All !in actions ==> forall a :: a in r <==> a in actions
  {
    if All in actions then Stages else set a | a in actions
  }

  /** The fixed position of each call in a run. */
  function Rank(s: Step): nat {
    match s
    case LoadJson => 0
    case BuildFresh => 1
    case DownloadPdfs(_) => 2
    case ConvertPdfs(_) => 3
    case ExtractData(_) => 4
    case ComputeHeuristics(_) => 5
  }

  /** The action a call belongs to; loading the input belongs to none. */
  function StageOf(s: Step): Option<Action> {
    match s
    case LoadJson => None
    case BuildFresh => Some(Build)
    case DownloadPdfs(_) => Some(Download)
    case ConvertPdfs(_) => Some(Convert)
    case ExtractData(_) => Some(Analyze)
    case ComputeHeuristics(_) => Some(Analyze)
  }

  /** Every stage call was made on a dataset whose flag allowed it. */
  predicate Gated(s: Step) {
    match s
    case DownloadPdfs(b) => b.metaSourcesParsed
    case ConvertPdfs(b) => b.pdfsDownloaded
    case ExtractData(b) => b.pdfsConverted
    case _ => true
  }

  /** Calls are in the fixed order, each at most once. */
  predicate Ordered(t: seq<Step>) {
    forall i, j :: 0 <= i < j < |t| ==> Rank(t[i]) < Rank(t[j])
  }

  predicate Ran(t: seq<Step>, a: Action) {
    exists i :: 0 <= i < |t| && StageOf(t[i]) == Some(a)
  }

  /** The trace invariant every stage keeps: ordered, gated calls, and no
      call of a stage that was not requested. */
  predicate Wellformed(t: seq<Step>, req: set<Action>, bound: nat) {
    Ordered(t) && (forall i :: 0 <= i < |t| ==> Gated(t[i]) && Rank(t[i]) < bound)
    && (forall a :: Ran(t, a) ==> a in req)
  }

  lemma RanAppend(t: seq<Step>, u: seq<Step>, a: Action)
    ensures Ran(t + u, a) <==> Ran(t, a) || Ran(u, a)
  {
    if Ran(t + u, a) {
      var i :| 0 <= i < |t + u| && StageOf((t + u)[i]) == Some(a);
      if i >= |t| {
        assert StageOf(u[i - |t|]) == Some(a);
      }
    }
    if Ran(u, a) {
      var i :| 0 <= i < |u| && StageOf(u[i]) == Some(a);
      assert (t + u)[i + |t|] == u[i];
    }
    if Ran(t, a) {
      var i :| 0 <= i < |t| && StageOf(t[i]) == Some(a);
      assert (t + u)[i] == t[i];
    }
  }

  /** Lines 47-63: load the input unless a build is requested, build when
      requested, and stop when there is neither. */
  function Start(req: set<Action>, hasInput: bool, fx: Effects): (r: Outcome)
    ensures Wellformed(r.trace, req, 2)
    ensures r.Exited? <==> Build !in req && !hasInput
    ensures r.Exited? ==> r.failure == NoDataset && r.trace == []
    ensures Ran(r.trace, Build) <==> Build in req
    ensures LoadJson in r.trace <==> hasInput && Build !in req
  {
    if Build in req then
      assert StageOf([BuildFresh][0]) == Some(Build);
      Running([BuildFresh], fx.built)
    else if hasInput then Running([LoadJson], fx.loaded)
    else Exited([], NoDataset)
  }

  /** Lines 65-70. */
  function DownloadStage(o: Outcome, req: set<Action>, fx: Effects): (r: Outcome)
    requires Wellformed(o.trace, req, 2)
    ensures Wellformed(r.trace, req, 3)
    ensures o.Exited? ==> r == o
    ensures o.Running? && Download !in req ==> r == o
    ensures o.Running? && Download in req && !o.state.metaSourcesParsed ==> r == Exited(o.trace, NotParsed)
    ensures o.Running? && Download in req && o.state.metaSourcesParsed ==>
              r == Running(o.trace + [DownloadPdfs(o.state)], fx.download(o.state))
  {
    if o.Exited? || Download !in req then o
    else if !o.state.metaSourcesParsed then Exited(o.trace, NotParsed)
    else
      var t := o.trace + [DownloadPdfs(o.state)];
      forall a | Ran(t, a) ensures a in req { RanAppend(o.trace, [DownloadPdfs(o.state)], a); }
      Running(t, fx.download(o.state))
  }

  /** Lines 72-77. */
  function ConvertStage(o: Outcome, req: set<Action>, fx: Effects): (r: Outcome)
    requires Wellformed(o.trace, req, 3)
    ensures Wellformed(r.trace, req, 4)
    ensures o.Exited? ==> r == o
    ensures o.Running? && Convert !in req ==> r == o
    ensures o.Running? && Convert in req && !o.state.pdfsDownloaded ==> r == Exited(o.trace, NotDownloaded)
    ensures o.Running? && Convert in req && o.state.pdfsDownloaded ==>
              r == Running(o.trace + [ConvertPdfs(o.state)], fx.convert(o.state))
  {
    if o.Exited? || Convert !in req then o
    else if !o.state.pdfsDownloaded then Exited(o.trace, NotDownloaded)
    else
      var t := o.trace + [ConvertPdfs(o.state)];
      forall a | Ran(t, a) ensures a in req { RanAppend(o.trace, [ConvertPdfs(o.state)], a); }
      Running(t, fx.convert(o.state))
  }

  /** Lines 79-85: extraction and then the heuristics. */
  function AnalyzeStage(o: Outcome, req: set<Action>, fx: Effects): (r: Outcome)
    requires Wellformed(o.trace, req, 4)
    ensures Wellformed(r.trace, req, 6)
    ensures o.Exited? ==> r == o
    ensures o.Running? && Analyze !in req ==> r == o
    ensures o.Running? && Analyze in req && !o.state.pdfsConverted ==> r == Exited(o.trace, NotConverted)
    ensures o.Running? && Analyze in req && o.state.pdfsConverted ==>
              var mid := fx.extract(o.state);
              r == Running(o.trace + [ExtractData(o.state), ComputeHeuristics(mid)], fx.heuristics(mid))
  {
    if o.Exited? || Analyze !in req then o
    else if !o.state.pdfsConverted then Exited(o.trace, NotConverted)
    else
      var mid := fx.extract(o.state);
      var u := [ExtractData(o.state), ComputeHeuristics(mid)];
      var t := o.trace + u;
      forall a | Ran(t, a) ensures a in req {
        RanAppend(o.trace, u, a);
        if Ran(u, a) {
          var i :| 0 <= i < |u| && StageOf(u[i]) == Some(a);
        }
      }
      Running(t, fx.heuristics(mid))
  }

  /** Lines 47-85, on the requested stages. */
  function Pipeline(req: set<Action>, hasInput: bool, fx: Effects): Outcome {
    AnalyzeStage(ConvertStage(DownloadStage(Start(req, hasInput, fx), req, fx), req, fx), req, fx)
  }

  /** `main`, from the action words and whether an output path and an input
      path were given. Line 16 makes click demand at least one action word;
      line 36 converts the output path before anything else is done, so
      without `-o` the program stops there. */
  function Run(actions: seq<Action>, hasOutput: bool, hasInput: bool, fx: Effects): Outcome {
    if |actions| == 0 then Exited([], Usage)
    else if !hasOutput then Exited([], NoOutput)
    else Pipeline(Requested(actions), hasInput, fx)
  }

  /** A finished later outcome's trace starts with the earlier one's. */
  predicate Extends(o: Outcome, r: Outcome) {
    r.Running? ==> o.Running? && |o.trace| <= |r.trace| && r.trace[..|o.trace|] == o.trace
  }

  lemma RanExtends(o: Outcome, r: Outcome, a: Action)
    requires Extends(o, r) && r.Running? && Ran(o.trace, a)
    ensures Ran(r.trace, a)
  {
    var i :| 0 <= i < |o.trace| && StageOf(o.trace[i]) == Some(a);
    assert r.trace[..|o.trace|][i] == r.trace[i];
  }

  lemma DownloadRan(o: Outcome, req: set<Action>, fx: Effects)
    requires Wellformed(o.trace, req, 2)
    ensures var r := DownloadStage(o, req, fx);
      Extends(o, r) && (r.Running? && Download in req ==> Ran(r.trace, Download))
  {
    var r := DownloadStage(o, req, fx);
    if r.Running? && Download in req {
      assert StageOf(r.trace[|o.trace|]) == Some(Download);
    }
  }

  lemma ConvertRan(o: Outcome, req: set<Action>, fx: Effects)
    requires Wellformed(o.trace, req, 3)
    ensures var r := ConvertStage(o, req, fx);
      Extends(o, r) && (r.Running? && Convert in req ==> Ran(r.trace, Convert))
  {
    var r := ConvertStage(o, req, fx);
    if r.Running? && Convert in req {
      assert StageOf(r.trace[|o.trace|]) == Some(Convert);
    }
  }

  lemma AnalyzeRan(o: Outcome, req: set<Action>, fx: Effects)
    requires Wellformed(o.trace, req, 4)
    ensures var r := AnalyzeStage(o, req, fx);
      Extends(o, r) && (r.Running? && Analyze in req ==> Ran(r.trace, Analyze))
  {
    var r := AnalyzeStage(o, req, fx);
    if r.Running? && Analyze in req {
      assert StageOf(r.trace[|o.trace|]) == Some(Analyze);
    }
  }

  /** A run that finishes has called every requested stage. */
  lemma RunRanRequested(actions: seq<Action>, hasOutput: bool, hasInput: bool, fx: Effects, a: Action)
    requires Run(actions, hasOutput, hasInput, fx).Running? && a in Requested(actions)
    ensures Ran(Run(actions, hasOutput, hasInput, fx).trace, a)
  {
    var req := Requested(actions);
    var o0 := Start(req, hasInput, fx);
    var o1 := DownloadStage(o0, req, fx);
    var o2 := ConvertStage(o1, req, fx);
    var o3 := AnalyzeStage(o2, req, fx);
    DownloadRan(o0, req, fx);
    ConvertRan(o1, req, fx);
    AnalyzeRan(o2, req, fx);
    if a == Build || a == Download {
      RanExtends(o1, o2, a);
    }
    if a != Analyze {
      RanExtends(o2, o3, a);
    }
  }

  /** Every run calls the dataset in the fixed order, each call at most
      once, only for requested stages and only with its flag set; a run that
      finishes with exit code 0 ran every requested stage. A run without
      action words exits with 2 and one without an output path exits with 1,
      both before any call; otherwise the exit code is 1 exactly when a check
      of `main` failed. */
  lemma RunSpec(actions: seq<Action>, hasOutput: bool, hasInput: bool, fx: Effects)
    ensures var r := Run(actions, hasOutput, hasInput, fx);
      && Ordered(r.trace)
      && (forall i :: 0 <= i < |r.trace| ==> Gated(r.trace[i]))
      && (forall a :: Ran(r.trace, a) ==> a in Requested(actions))
      && (r.Running? ==> forall a :: a in Requested(actions) ==> Ran(r.trace, a))
      && (ExitCode(r) == 2 <==> |actions| == 0)
      && (|actions| == 0 ==> r == Exited([], Usage))
      && (|actions| > 0 && !hasOutput ==> r == Exited([], NoOutput) && ExitCode(r) == 1)
      && (|actions| > 0 && hasOutput ==> (ExitCode(r) == 1 <==> GateFailed(r)) && (ExitCode(r) == 0 <==> r.Running?))
  {
    var r := Run(actions, hasOutput, hasInput, fx);
    if r.Running? {
      forall a | a in Requested(actions)
        ensures Ran(r.trace, a)
      {
        RunRanRequested(actions, hasOutput, hasInput, fx, a);
      }
    }
  }

  /** Without `build` (or `all`) and without an input path nothing runs. */
  lemma NoDatasetExits(actions: seq<Action>, fx: Effects)
    requires |actions| > 0 && Build !in actions && All !in actions
    ensures Run(actions, true, false, fx) == Exited([], NoDataset)
  {
  }

  /** With `build` (or `all`) the input path makes no difference. */
  lemma BuildIgnoresInput(actions: seq<Action>, hasOutput: bool, fx: Effects)
    requires Build in actions || All in actions
    ensures Run(actions, hasOutput, true, fx) == Run(actions, hasOutput, false, fx)
    ensures LoadJson !in Run(actions, hasOutput, true, fx).trace
  {
    var req := Requested(actions);
    assert Build in req;
    var o := Start(req, true, fx);
    assert o == Running([BuildFresh], fx.built);
  }

  /** Only which words were given matters: not their order, nor repeats. */
  lemma RunOrderIndependent(a1: seq<Action>, a2: seq<Action>, hasOutput: bool, hasInput: bool, fx: Effects)
    requires forall a :: a in a1 <==> a in a2
    ensures Run(a1, hasOutput, hasInput, fx) == Run(a2, hasOutput, hasInput, fx)
  {
    RequestedSame(a1, a2);
    if |a1| > 0 {
      assert a1[0] in a2;
    }
    if |a2| > 0 {
      assert a2[0] in a1;
    }
  }

  lemma RequestedSame(a1: seq<Action>, a2: seq<Action>)
    requires forall a :: a in a1 <==> a in a2
    ensures Requested(a1) == Requested(a2)
  {
    if All !in a1 {
      assert forall a :: a in Requested(a1) <==> a in Requested(a2);
    }
  }

  /** A failed gate stops the run before the gated call is made. */
  lemma DownloadNeedsParsed(actions: seq<Action>, fx: Effects)
    requires Build in actions && Download in actions
    requires !fx.built.metaSourcesParsed
    ensures Run(actions, true, false, fx) == Exited([BuildFresh], NotParsed)
  {
  }

  /** `all` on a dataset whose stages each set the next flag runs the whole
      pipeline. */
  lemma AllRunsEverything(fx: Effects)
    requires fx.built.metaSourcesParsed
    requires fx.download(fx.built).pdfsDownloaded
    requires fx.convert(fx.download(fx.built)).pdfsConverted
    ensures var s1 := fx.download(fx.built);
            var s2 := fx.convert(s1);
            Run([All], true, false, fx).trace ==
              [BuildFresh, DownloadPdfs(fx.built), ConvertPdfs(s1), ExtractData(s2), ComputeHeuristics(fx.extract(s2))]
  {
  }
}
