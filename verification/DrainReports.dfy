/**
 What one drain reports and records: the merged result, the first error, the writes put off and the states, each said
 of the projects one by one. internal/compile/solution.go: Drain after the scheduler, and mergeSolutionBuildResult.
 */
module DrainReports {
  import opened Wrappers
  import opened Sequences
  import opened SolutionGraph
  import opened Drains
  import opened Coordinator

  // ----- the merged result

  function EmptyResult(): BuildResult {
    BuildResult(map[], [], [], false, false)
  }

  function Dir(path: Path): Path {
    if path == "" || path[|path| - 1] == '/' then path else Dir(path[..|path| - 1])
  }

  function Rekeyed(project: Project, outputs: map<string, string>): map<string, string> {
    assert forall p, q ::
      p in outputs && q in outputs && Dir(project.configPath) + p == Dir(project.configPath) + q ==> p == q by {
      forall p, q | p in outputs && q in outputs && Dir(project.configPath) + p == Dir(project.configPath) + q
        ensures p == q
      {
        var d := Dir(project.configPath);
        assert p == (d + p)[|d|..] && q == (d + q)[|d|..];
      }
    }
    map p | p in outputs :: Dir(project.configPath) + p := outputs[p]
  }

  /** internal/compile/solution.go: mergeSolutionBuildResult. */
  function MergeBuild(acc: BuildResult, project: Project, built: BuildResult): BuildResult {
    BuildResult(acc.outputs + Rekeyed(project, built.outputs), acc.emitted + built.emitted,
                acc.diagnostics + built.diagnostics, acc.wroteTypes || built.wroteTypes,
                acc.wroteLockfile || built.wroteLockfile)
  }

  function MergeOutcome(acc: BuildResult, project: Project, o: Outcome): BuildResult {
    if o.skip then acc
    else
      var merged := if o.drained.result.Some? then MergeBuild(acc, project, o.drained.result.value) else acc;
      if o.drained.err.None? then merged
      else if o.blockedBy != "" then merged.(diagnostics := merged.diagnostics + [o.drained.err.value])
      else if o.drained.result.None? || o.drained.result.value.diagnostics == [] then
        merged.(diagnostics := merged.diagnostics + o.drained.messages)
      else merged
  }

  // ----- what an outcome contributes

  /** The result of a project that was built, whether or not it failed. */
  function ResultOf(o: Outcome): Option<BuildResult> {
    if o.skip then None else o.drained.result
  }

  function EmittedBy(o: Outcome): seq<string> {
    match ResultOf(o)
    case None => []
    case Some(built) => built.emitted
  }

  function DiagnosticsOf(o: Outcome): seq<string> {
    match ResultOf(o)
    case None => []
    case Some(built) => built.diagnostics
  }

  /** What is said about an error: that of a blocked project, or the messages of a failing one without diagnostics. */
  function ErrorText(o: Outcome): seq<string> {
    if o.skip || o.drained.err.None? then []
    else if o.blockedBy != "" then [o.drained.err.value]
    else if DiagnosticsOf(o) == [] then o.drained.messages
    else []
  }

  ghost function Emits(outcomes: map<nat, Outcome>): nat -> seq<string> {
    i => if i in outcomes then EmittedBy(outcomes[i]) else []
  }

  ghost function Diagnoses(outcomes: map<nat, Outcome>): nat -> seq<string> {
    i => if i in outcomes then DiagnosticsOf(outcomes[i]) + ErrorText(outcomes[i]) else []
  }

  ghost function PutsOff(outcomes: map<nat, Outcome>): nat -> seq<string> {
    i => if i in outcomes && !outcomes[i].skip then outcomes[i].drained.persists else []
  }

  ghost predicate HasError(outcomes: map<nat, Outcome>, i: nat) {
    i in outcomes && !outcomes[i].skip && outcomes[i].drained.err.Some?
  }

  ghost predicate WroteTypes(outcomes: map<nat, Outcome>, i: nat) {
    i in outcomes && ResultOf(outcomes[i]).Some? && ResultOf(outcomes[i]).value.wroteTypes
  }

  ghost predicate WroteLockfile(outcomes: map<nat, Outcome>, i: nat) {
    i in outcomes && ResultOf(outcomes[i]).Some? && ResultOf(outcomes[i]).value.wroteLockfile
  }

  ghost predicate SomeTypes(outcomes: map<nat, Outcome>, n: nat) {
    exists i: nat :: i < n && WroteTypes(outcomes, i)
  }

  ghost predicate SomeLockfile(outcomes: map<nat, Outcome>, n: nat) {
    exists i: nat :: i < n && WroteLockfile(outcomes, i)
  }

  /** `d` is the directory of the config path `path`, with its slash. */
  ghost predicate IsDirOf(d: Path, path: Path) {
    d <= path && (d == "" || d[|d| - 1] == '/') && '/' !in path[|d|..]
  }

  /** Project `i` puts `text` at `key`: an output of it, under the directory of its config. */
  ghost predicate Puts(projects: seq<Project>, outcomes: map<nat, Outcome>, i: nat, key: string, text: string) {
    && i < |projects| && i in outcomes && ResultOf(outcomes[i]).Some?
    && var outputs := ResultOf(outcomes[i]).value.outputs;
       exists d ::
         IsDirOf(d, projects[i].configPath) && d <= key && key[|d|..] in outputs && outputs[key[|d|..]] == text
  }

  /** None of the projects from `i` on puts anything at `key`. */
  ghost predicate NonePuts(projects: seq<Project>, outcomes: map<nat, Outcome>, i: nat, n: nat, key: string) {
    forall j: nat, text :: i <= j < n ==> !Puts(projects, outcomes, j, key, text)
  }

  /** The last of the first `n` projects that puts anything at `key` puts `text` there. */
  ghost predicate LastPut(projects: seq<Project>, outcomes: map<nat, Outcome>, n: nat, key: string, text: string) {
    exists i: nat :: i < n && Puts(projects, outcomes, i, key, text) && NonePuts(projects, outcomes, i + 1, n, key)
  }

  ghost predicate OutputAt(
    projects: seq<Project>, outcomes: map<nat, Outcome>, n: nat, outputs: map<string, string>, key: string)
  {
    if key in outputs then LastPut(projects, outcomes, n, key, outputs[key])
    else NonePuts(projects, outcomes, 0, n, key)
  }

  // ----- the report

  /**
   What a drain reports of the first `n` projects: the outputs at the keys that some project puts there, the last one
   winning; what was emitted and what was said, in graph order; and whether any project wrote the types or the lock.
   */
  ghost predicate Reports(projects: seq<Project>, outcomes: map<nat, Outcome>, n: nat, result: BuildResult) {
    && (forall key :: OutputAt(projects, outcomes, n, result.outputs, key))
    && InPieces(result.emitted, n, Emits(outcomes))
    && InPieces(result.diagnostics, n, Diagnoses(outcomes))
    && (result.wroteTypes <==> SomeTypes(outcomes, n))
    && (result.wroteLockfile <==> SomeLockfile(outcomes, n))
  }

  /** The error of the first project, in graph order, that has one. */
  ghost predicate IsFirstError(outcomes: map<nat, Outcome>, n: nat, err: Option<string>) {
    if err.None? then forall i: nat :: i < n ==> !HasError(outcomes, i)
    else exists i: nat :: i < n && HasError(outcomes, i) && err == outcomes[i].drained.err
                          && forall j: nat :: j < i ==> !HasError(outcomes, j)
  }

  // ----- the merged result is that report

  lemma {:induction false} DirIsDir(path: Path)
    ensures IsDirOf(Dir(path), path)
  {
    if !(path == "" || path[|path| - 1] == '/') {
      var init := path[..|path| - 1];
      DirIsDir(init);
      assert path[|Dir(path)|..] == init[|Dir(path)|..] + [path[|path| - 1]];
    }
  }

  lemma OneDir(d: Path, e: Path, path: Path)
    requires IsDirOf(d, path) && IsDirOf(e, path)
    ensures d == e
  {
  }

  /** The directory decides what a project puts at a key. */
  lemma PutsUnder(projects: seq<Project>, outcomes: map<nat, Outcome>, i: nat, key: string, text: string)
    requires i < |projects| && i in outcomes && ResultOf(outcomes[i]).Some?
    ensures
      var d, outputs := Dir(projects[i].configPath), ResultOf(outcomes[i]).value.outputs;
      Puts(projects, outcomes, i, key, text) <==> d <= key && key[|d|..] in outputs && outputs[key[|d|..]] == text
  {
    DirIsDir(projects[i].configPath);
    if Puts(projects, outcomes, i, key, text) {
      var outputs := ResultOf(outcomes[i]).value.outputs;
      var d :|
        IsDirOf(d, projects[i].configPath) && d <= key && key[|d|..] in outputs && outputs[key[|d|..]] == text;
      OneDir(d, Dir(projects[i].configPath), projects[i].configPath);
    }
  }

  lemma RekeyedAt(project: Project, outputs: map<string, string>, key: string)
    ensures
      var d := Dir(project.configPath);
      && (key in Rekeyed(project, outputs) <==> d <= key && key[|d|..] in outputs)
      && (key in Rekeyed(project, outputs) ==> Rekeyed(project, outputs)[key] == outputs[key[|d|..]])
  {
    var d := Dir(project.configPath);
    if key in Rekeyed(project, outputs) {
      var p :| p in outputs && key == d + p;
      assert key[|d|..] == p;
    }
    if d <= key && key[|d|..] in outputs { assert key == d + key[|d|..]; }
  }

  lemma PutNext(
    projects: seq<Project>, outcomes: map<nat, Outcome>, n: nat, before: map<string, string>,
    after: map<string, string>, key: string)
    requires n < |projects| && n in outcomes && OutputAt(projects, outcomes, n, before, key)
    requires
      match ResultOf(outcomes[n])
      case None => after == before
      case Some(built) => after == before + Rekeyed(projects[n], built.outputs)
    ensures OutputAt(projects, outcomes, n + 1, after, key)
  {
    if ResultOf(outcomes[n]).Some? { PutsRekeyed(projects, outcomes, n, key); }
    if key in after && !Puts(projects, outcomes, n, key, after[key]) {
      LastPutStays(projects, outcomes, n, key, before[key]);
    } else if key in after {
      assert NonePuts(projects, outcomes, n + 1, n + 1, key);
    }
  }

  lemma PutsRekeyed(projects: seq<Project>, outcomes: map<nat, Outcome>, n: nat, key: string)
    requires n < |projects| && n in outcomes && ResultOf(outcomes[n]).Some?
    ensures
      var put := Rekeyed(projects[n], ResultOf(outcomes[n]).value.outputs);
      forall text :: Puts(projects, outcomes, n, key, text) <==> key in put && put[key] == text
  {
    RekeyedAt(projects[n], ResultOf(outcomes[n]).value.outputs, key);
    forall text { PutsUnder(projects, outcomes, n, key, text); }
  }

  lemma LastPutStays(projects: seq<Project>, outcomes: map<nat, Outcome>, n: nat, key: string, text: string)
    requires LastPut(projects, outcomes, n, key, text) && forall t :: !Puts(projects, outcomes, n, key, t)
    ensures LastPut(projects, outcomes, n + 1, key, text)
  {
    var i: nat :| i < n && Puts(projects, outcomes, i, key, text) && NonePuts(projects, outcomes, i + 1, n, key);
    assert NonePuts(projects, outcomes, i + 1, n + 1, key);
  }

  lemma ReportNext(projects: seq<Project>, outcomes: map<nat, Outcome>, n: nat, result: BuildResult)
    requires n < |projects| && n in outcomes && Reports(projects, outcomes, n, result)
    ensures Reports(projects, outcomes, n + 1, MergeOutcome(result, projects[n], outcomes[n]))
  {
    var m, next := n + 1, MergeOutcome(result, projects[n], outcomes[n]);
    MergedFields(result, projects[n], outcomes[n]);
    forall key ensures OutputAt(projects, outcomes, m, next.outputs, key) {
      PutNext(projects, outcomes, n, result.outputs, next.outputs, key);
    }
    OnePieceMore(result.emitted, n, Emits(outcomes));
    OnePieceMore(result.diagnostics, n, Diagnoses(outcomes));
    FlagsNext(outcomes, n);
  }

  lemma FlagsNext(outcomes: map<nat, Outcome>, n: nat)
    ensures SomeTypes(outcomes, n + 1) <==> SomeTypes(outcomes, n) || WroteTypes(outcomes, n)
    ensures SomeLockfile(outcomes, n + 1) <==> SomeLockfile(outcomes, n) || WroteLockfile(outcomes, n)
  {
  }

  /** What one outcome adds to each part of the result. */
  lemma MergedFields(acc: BuildResult, project: Project, o: Outcome)
    ensures
      var next := MergeOutcome(acc, project, o);
      && next.emitted == acc.emitted + EmittedBy(o)
      && next.diagnostics == acc.diagnostics + (DiagnosticsOf(o) + ErrorText(o))
      && match ResultOf(o)
         case None =>
           next.outputs == acc.outputs && next.wroteTypes == acc.wroteTypes && next.wroteLockfile == acc.wroteLockfile
         case Some(built) =>
           && next.outputs == acc.outputs + Rekeyed(project, built.outputs)
           && next.wroteTypes == (acc.wroteTypes || built.wroteTypes)
           && next.wroteLockfile == (acc.wroteLockfile || built.wroteLockfile)
  {
  }

  lemma NothingReported(projects: seq<Project>, outcomes: map<nat, Outcome>)
    ensures Reports(projects, outcomes, 0, EmptyResult()) && IsFirstError(outcomes, 0, None)
    ensures InPieces([], 0, PutsOff(outcomes))
  {
    NoPieces(Emits(outcomes));
    NoPieces(Diagnoses(outcomes));
    NoPieces(PutsOff(outcomes));
  }

  lemma FirstErrorNext(outcomes: map<nat, Outcome>, n: nat, err: Option<string>)
    requires IsFirstError(outcomes, n, err) && n in outcomes
    ensures
      var o := outcomes[n];
      IsFirstError(outcomes, n + 1, if !o.skip && o.drained.err.Some? && err.None? then o.drained.err else err)
  {
  }

  /** What the first `n` outcomes give: the report, the first error and the writes put off. */
  ghost predicate SoFar(
    projects: seq<Project>, outcomes: map<nat, Outcome>, n: nat, result: BuildResult, err: Option<string>,
    more: seq<string>)
  {
    && Reports(projects, outcomes, n, result) && IsFirstError(outcomes, n, err)
    && InPieces(more, n, PutsOff(outcomes))
  }

  lemma SoFarNext(
    projects: seq<Project>, outcomes: map<nat, Outcome>, n: nat, result: BuildResult, err: Option<string>,
    was: seq<string>, more: seq<string>) returns (next: seq<string>)
    requires n < |projects| && n in outcomes && SoFar(projects, outcomes, n, result, err, more)
    ensures was + next == was + more + if outcomes[n].skip then [] else outcomes[n].drained.persists
    ensures
      var o := outcomes[n];
      var first := if !o.skip && o.drained.err.Some? && err.None? then o.drained.err else err;
      SoFar(projects, outcomes, n + 1, MergeOutcome(result, projects[n], o), first, next)
  {
    ReportNext(projects, outcomes, n, result);
    FirstErrorNext(outcomes, n, err);
    OnePieceMore(more, n, PutsOff(outcomes));
    next := more + PutsOff(outcomes)(n);
    assert was + next == was + more + PutsOff(outcomes)(n);
  }

  // ----- what becomes of a project

  /**
   The outcome of project `i`: skipped exactly when it is up to date, built by the drainer when none of its references
   is left with an error, and otherwise blocked by the first that is.
   */
  ghost predicate Fits(projects: seq<Project>, states: States, drainer: Drainer, i: nat, o: Outcome)
    requires HasStates(projects, states) && i < |projects|
  {
    var p, references := projects[i].configPath, projects[i].references;
    && (o.skip <==> states[p].upToDate)
    && (!o.skip ==>
          if NoneFails(projects, states, drainer, references)
          then o.blockedBy == "" && o.drained == drainer(projects[i], states[p].forceFull)
          else
            && IsBlocker(projects, states, drainer, references, o.blockedBy)
            && o.drained.err == Some("compile: project " + p + " blocked by failed dependency " + o.blockedBy)
            && o.drained.result == None && o.drained.messages == [] && o.drained.persists == [])
  }

  ghost predicate AllFit(projects: seq<Project>, states: States, drainer: Drainer, outcomes: map<nat, Outcome>)
    requires HasStates(projects, states)
  {
    forall i: nat :: i < |projects| ==> i in outcomes && Fits(projects, states, drainer, i, outcomes[i])
  }

  lemma OutcomesFit(
    projects: seq<Project>, overlap: (Path, Path) -> bool, waitOnly: map<Path, seq<Path>>, states: States,
    drainer: Drainer)
    requires GraphOk(projects, overlap, waitOnly) && HasStates(projects, states) && UpToDateClosed(projects, states)
    ensures AllFit(projects, states, drainer, Outcomes(projects, states, drainer, |projects|))
  {
    forall i: nat | i < |projects|
      ensures
        var outcomes := Outcomes(projects, states, drainer, |projects|);
        i in outcomes && Fits(projects, states, drainer, i, outcomes[i])
    {
      OutcomeOfFinal(projects, overlap, waitOnly, states, drainer, i);
      FirstFailedIsBlocker(projects, overlap, waitOnly, states, drainer, projects[i].references);
    }
  }

  /** The state of a project before and after its outcome is recorded. */
  ghost predicate Recorded(before: ProjectState, after: ProjectState, o: Outcome) {
    if o.skip then after == before
    else
      && after.result == o.drained.result && after.err == o.drained.err
      && (after.upToDate <==> o.drained.err.None? || before.upToDate)
      && (after.forceFull <==> o.drained.err.Some? && before.forceFull)
      && after.blockedBy ==
         if o.drained.err.None? then "" else if o.blockedBy != "" then o.blockedBy else before.blockedBy
  }

  /** Every project's state is recorded, and nothing else changes. */
  ghost predicate AllRecorded(projects: seq<Project>, before: States, after: States, outcomes: map<nat, Outcome>)
    requires HasStates(projects, before) && HasStates(projects, after)
  {
    && after.Keys == before.Keys && (forall p :: p in before && !Listed(projects, p) ==> after[p] == before[p])
    && forall i: nat :: i < |projects| ==>
         i in outcomes && Recorded(before[projects[i].configPath], after[projects[i].configPath], outcomes[i])
  }

  lemma DrainStatesRecorded(projects: seq<Project>, states: States, outcomes: map<nat, Outcome>)
    requires DistinctProjects(projects) && HasStates(projects, states)
    requires forall i :: 0 <= i < |projects| ==> i in outcomes
    ensures AllRecorded(projects, states, DrainStates(projects, states, outcomes, |projects|), outcomes)
  {
    var after := DrainStates(projects, states, outcomes, |projects|);
    forall i: nat | i < |projects|
      ensures Recorded(states[projects[i].configPath], after[projects[i].configPath], outcomes[i])
    {
      StateAfterDrain(projects, states, outcomes, |projects|, i);
    }
    forall p | p in states && !Listed(projects, p) ensures after[p] == states[p] {
      OtherStatesStay(projects, states, outcomes, |projects|, p);
    }
  }

  lemma DrainStatesNext(projects: seq<Project>, states: States, outcomes: map<nat, Outcome>, n: nat)
    requires HasStates(projects, states) && n < |projects| && forall i :: 0 <= i < |projects| ==> i in outcomes
    ensures
      var before, p := DrainStates(projects, states, outcomes, n), projects[n].configPath;
      DrainStates(projects, states, outcomes, n + 1) == before[p := NextState(before[p], outcomes[n])]
  {
  }

  lemma {:induction false} OtherStatesStay(
    projects: seq<Project>, states: States, outcomes: map<nat, Outcome>, n: nat, p: Path)
    requires HasStates(projects, states) && n <= |projects| && p in states && !Listed(projects, p)
    requires forall i :: 0 <= i < |projects| ==> i in outcomes
    ensures DrainStates(projects, states, outcomes, n)[p] == states[p]
  {
    if n > 0 { OtherStatesStay(projects, states, outcomes, n - 1, p); }
  }

  /** Outcomes as the projects deserve them, recorded in the states and reported in the result. */
  ghost predicate IsDrain(
    projects: seq<Project>, before: States, after: States, drainer: Drainer, outcomes: map<nat, Outcome>,
    result: BuildResult)
  {
    && HasStates(projects, before) && HasStates(projects, after)
    && AllFit(projects, before, drainer, outcomes)
    && AllRecorded(projects, before, after, outcomes)
    && Reports(projects, outcomes, |projects|, result)
  }
}
