/**
 One drain of a solution, on values: internal/compile/solution.go, the task table, the closure handed to
 the scheduler and the state update of SolutionCoordinator.Drain.
 */
module Drains {
  import opened Wrappers
  import opened Graphs
  import opened SolutionGraph
  import opened CrossProject
  import opened Scheduler

  datatype BuildResult = BuildResult(outputs: map<string, string>, emitted: seq<string>, diagnostics: seq<string>,
                                     wroteTypes: bool, wroteLockfile: bool)

  /** What a drainer returns for one project; `persists` are the writes it has put off, by what they write. */
  datatype Drained = Drained(
    result: Option<BuildResult>, messages: seq<string>, err: Option<string>, persists: seq<string>)

  /** A project's build, given whether it is forced to be a full one. */
  type Drainer = (Project, bool) -> Drained

  /** `blockedBy` is empty when the project was not blocked, as in the source. */
  datatype Outcome = Outcome(skip: bool, blockedBy: Path, drained: Drained)

  datatype ProjectState = ProjectState(result: Option<BuildResult>, upToDate: bool, blockedBy: Path,
                                       err: Option<string>, forceFull: bool)

  type States = map<Path, ProjectState>

  // ----- the task table

  predicate HasStates(projects: seq<Project>, states: States) {
    forall i :: 0 <= i < |projects| ==> projects[i].configPath in states
  }

  /** The position of `p` among the first `n` projects, or `n` when it is not there. */
  function IndexOf(projects: seq<Project>, p: Path, n: nat): (i: nat)
    requires n <= |projects|
    ensures i <= n && (i < n ==> projects[i].configPath == p)
    ensures i == n ==> forall j :: 0 <= j < n ==> projects[j].configPath != p
  {
    if n == 0 then 0
    else
      var i := IndexOf(projects, p, n - 1);
      if i < n - 1 || projects[n - 1].configPath == p then i else n
  }

  /** The positions of those `paths` that are projects of the solution. */
  function InGraph(projects: seq<Project>, paths: seq<Path>): (indices: seq<nat>)
    ensures forall k :: 0 <= k < |indices| ==> indices[k] < |projects|
  {
    if paths == [] then [] else IfListed(projects, paths[0]) + InGraph(projects, paths[1..])
  }

  function IfListed(projects: seq<Project>, p: Path): (indices: seq<nat>)
    ensures forall k :: 0 <= k < |indices| ==> indices[k] < |projects|
  {
    var i := IndexOf(projects, p, |projects|);
    if i < |projects| then [i] else []
  }

  lemma {:induction false} InGraphExactly(projects: seq<Project>, paths: seq<Path>, i: nat)
    requires DistinctProjects(projects)
    ensures i in InGraph(projects, paths) <==> i < |projects| && projects[i].configPath in paths
  {
    if paths != [] {
      InGraphExactly(projects, paths[1..], i);
      assert i < |projects| && projects[i].configPath == paths[0] ==> IndexOf(projects, paths[0], |projects|) == i;
    }
  }

  function Predecessors(projects: seq<Project>, i: nat): seq<nat>
    requires i < |projects|
  {
    InGraph(projects, projects[i].references)
  }

  function TasksOf(projects: seq<Project>, waitOnly: map<Path, seq<Path>>): seq<Task> {
    seq(|projects|, i requires 0 <= i < |projects| =>
      Task(i, Predecessors(projects, i), InGraph(projects, Get(waitOnly, projects[i].configPath))))
  }

  /** What the coordinator is built from: the listing order, and the wait-only table for some overlap test. */
  ghost predicate GraphOk(projects: seq<Project>, overlap: (Path, Path) -> bool, waitOnly: map<Path, seq<Path>>) {
    && DistinctProjects(projects)
    && (forall i, k :: 0 <= i < |projects| && 0 <= k < |projects[i].references| ==>
          (Listed(projects, projects[i].references[k]) ==> ProjectEarlier(projects, projects[i].references[k], i)))
    && WaitsForOverlaps(projects, overlap, waitOnly)
  }

  /** BuildSolutionGraph and deriveWaitOnlyDependencies establish it. */
  lemma BuiltGraphIsOk(configs: Configs, root: Path, projects: seq<Project>, overlap: (Path, Path) -> bool,
                       waitOnly: map<Path, seq<Path>>)
    requires IsSolutionGraph(configs, root, projects) && WaitsForOverlaps(projects, overlap, waitOnly)
    ensures GraphOk(projects, overlap, waitOnly)
  {
    forall i, k |
      0 <= i < |projects| && 0 <= k < |projects[i].references| && Listed(projects, projects[i].references[k])
      ensures ProjectEarlier(projects, projects[i].references[k], i)
    {
      EdgeReaches(References(configs), projects[i].configPath, projects[i].references[k]);
    }
  }

  lemma EarlierIndex(projects: seq<Project>, p: Path, i: nat)
    requires DistinctProjects(projects) && i <= |projects| && ProjectEarlier(projects, p, i)
    ensures IndexOf(projects, p, |projects|) < i
  {
    var j :| 0 <= j < i && projects[j].configPath == p;
  }

  lemma ListedBeforeIndex(projects: seq<Project>, waitOnly: map<Path, seq<Path>>, i: nat, b: nat)
    requires b < i <= |projects|
    ensures ListedBefore(TasksOf(projects, waitOnly), b, i)
  {
    assert TasksOf(projects, waitOnly)[b].index == b;
  }

  /** Every barrier of the task table is an earlier position, so no drain can hang. */
  lemma TasksAreOrdered(projects: seq<Project>, overlap: (Path, Path) -> bool, waitOnly: map<Path, seq<Path>>)
    requires GraphOk(projects, overlap, waitOnly)
    ensures DistinctIndices(TasksOf(projects, waitOnly)) && Ordered(TasksOf(projects, waitOnly))
  {
    var tasks := TasksOf(projects, waitOnly);
    forall i, k | 0 <= i < |tasks| && 0 <= k < |Barriers(tasks[i])|
      ensures ListedBefore(tasks, Barriers(tasks[i])[k], i)
    {
      var b := Barriers(tasks[i])[k];
      PredecessorEarlier(projects, overlap, waitOnly, i, b);
      ListedBeforeIndex(projects, waitOnly, i, b);
    }
  }

  lemma PredecessorEarlier(
    projects: seq<Project>, overlap: (Path, Path) -> bool, waitOnly: map<Path, seq<Path>>, i: nat, b: nat)
    requires GraphOk(projects, overlap, waitOnly) && i < |projects|
    requires b in Barriers(TasksOf(projects, waitOnly)[i])
    ensures b < i
  {
    var p := projects[i].configPath;
    InGraphExactly(projects, projects[i].references, b);
    InGraphExactly(projects, Get(waitOnly, p), b);
    if b in Predecessors(projects, i) {
      var r := projects[b].configPath;
      assert r in projects[i].references;
      var k :| 0 <= k < |projects[i].references| && projects[i].references[k] == r;
      assert Listed(projects, r);
      EarlierIndex(projects, r, i);
    } else {
      assert b in InGraph(projects, Get(waitOnly, p));
      assert RowDone(projects, overlap, waitOnly, i);
      EarlierOverlapsExactly(projects, overlap, i, i, projects[b].configPath);
      EarlierIndex(projects, projects[b].configPath, i);
    }
  }

  // ----- overlapping projects never run together

  lemma OverlapIsBarrier(
    projects: seq<Project>, overlap: (Path, Path) -> bool, waitOnly: map<Path, seq<Path>>, e: nat, l: nat)
    requires GraphOk(projects, overlap, waitOnly) && e < l < |projects|
    requires overlap(projects[e].configPath, projects[l].configPath)
    ensures e in Barriers(TasksOf(projects, waitOnly)[l])
  {
    var p := projects[e].configPath;
    assert RowDone(projects, overlap, waitOnly, l);
    assert ProjectEarlier(projects, p, l);
    EarlierOverlapsExactly(projects, overlap, l, l, p);
    InGraphExactly(projects, Get(waitOnly, projects[l].configPath), e);
  }

  /** In every reachable state of a drain, two projects inside their builds do not overlap. */
  lemma OverlappingNeverBothRunning<O>(
    projects: seq<Project>, overlap: (Path, Path) -> bool, waitOnly: map<Path, seq<Path>>, builders: int, run: Run<O>,
    schedule: seq<nat>, v: nat, w: nat)
    requires GraphOk(projects, overlap, waitOnly)
    requires Feasible(TasksOf(projects, waitOnly), run, Init<O>(builders), schedule)
    requires
      var s := After(TasksOf(projects, waitOnly), run, Init<O>(builders), schedule);
      && v < |s.workers| && w < |s.workers| && s.workers[v].Running? && s.workers[w].Running?
      && s.workers[v].position < s.workers[w].position
    ensures
      var s := After(TasksOf(projects, waitOnly), run, Init<O>(builders), schedule);
      !overlap(projects[s.workers[v].position].configPath, projects[s.workers[w].position].configPath)
  {
    var tasks := TasksOf(projects, waitOnly);
    var s := After(tasks, run, Init<O>(builders), schedule);
    var e, l := s.workers[v].position, s.workers[w].position;
    TasksAreOrdered(projects, overlap, waitOnly);
    BarriersExclude(tasks, builders, run, schedule, v, w);
    if overlap(projects[e].configPath, projects[l].configPath) {
      OverlapIsBarrier(projects, overlap, waitOnly, e, l);
    }
  }

  /** So two projects inside their builds never have a file that both may write. */
  lemma RunningWriteApart<O>(
    projects: seq<Project>, caseSensitive: bool, writeRoots: WriteRoots, waitOnly: map<Path, seq<Path>>,
    builders: int, run: Run<O>, schedule: seq<nat>, v: nat, w: nat, file: Root)
    requires GraphOk(projects, OverlapOf(caseSensitive, writeRoots), waitOnly)
    requires forall i :: 0 <= i < |projects| ==> AllCanonical(RootsOf(writeRoots, projects[i].configPath))
    requires Feasible(TasksOf(projects, waitOnly), run, Init<O>(builders), schedule)
    requires
      var s := After(TasksOf(projects, waitOnly), run, Init<O>(builders), schedule);
      && v < |s.workers| && w < |s.workers| && s.workers[v].Running? && s.workers[w].Running?
      && s.workers[v].position < s.workers[w].position < |projects|
    ensures
      var s := After(TasksOf(projects, waitOnly), run, Init<O>(builders), schedule);
      var e, l := projects[s.workers[v].position].configPath, projects[s.workers[w].position].configPath;
      !(WritesTo(caseSensitive, RootsOf(writeRoots, e), file) && WritesTo(caseSensitive, RootsOf(writeRoots, l), file))
  {
    var s := After(TasksOf(projects, waitOnly), run, Init<O>(builders), schedule);
    var e, l := projects[s.workers[v].position].configPath, projects[s.workers[w].position].configPath;
    OverlappingNeverBothRunning(
      projects, OverlapOf(caseSensitive, writeRoots), waitOnly, builders, run, schedule, v, w);
    OverlapMeansSharedFile(caseSensitive, RootsOf(writeRoots, e), RootsOf(writeRoots, l));
  }

  // ----- the closure handed to the scheduler

  function ErrorAt(outcomes: map<nat, Outcome>, i: nat): bool {
    i in outcomes && outcomes[i].drained.err.Some?
  }

  /** The first predecessor that has an error. */
  function FirstFailed(predecessors: seq<nat>, outcomes: map<nat, Outcome>): (f: Option<nat>)
    ensures f.Some? ==> f.value in predecessors && ErrorAt(outcomes, f.value)
    ensures f.None? ==> forall b :: b in predecessors ==> !ErrorAt(outcomes, b)
  {
    if predecessors == [] then None
    else if ErrorAt(outcomes, predecessors[0]) then Some(predecessors[0])
    else FirstFailed(predecessors[1..], outcomes)
  }

  function BlockedMessage(project: Path, blocker: Path): string {
    "compile: project " + project + " blocked by failed dependency " + blocker
  }

  function RunProject(
    projects: seq<Project>, states: States, drainer: Drainer, i: nat, outcomes: map<nat, Outcome>): Outcome
    requires HasStates(projects, states) && i < |projects|
  {
    var project := projects[i];
    var state := states[project.configPath];
    if state.upToDate then Outcome(true, "", Drained(None, [], None, []))
    else match FirstFailed(Predecessors(projects, i), outcomes)
      case Some(b) =>
        Outcome(false, projects[b].configPath,
                Drained(None, [], Some(BlockedMessage(project.configPath, projects[b].configPath)), []))
      case None =>
        Outcome(false, "", drainer(project, state.forceFull))
  }

  function RunOf(projects: seq<Project>, states: States, drainer: Drainer): Run<Outcome>
    requires HasStates(projects, states)
  {
    (i: nat, outcomes: map<nat, Outcome>) =>
      if i < |projects| then RunProject(projects, states, drainer, i, outcomes)
      else Outcome(true, "", Drained(None, [], None, []))
  }

  lemma {:induction false} FirstFailedAgrees(predecessors: seq<nat>, m: map<nat, Outcome>, n: map<nat, Outcome>)
    requires AgreeOn(predecessors, m, n)
    ensures FirstFailed(predecessors, m) == FirstFailed(predecessors, n)
  {
    if predecessors != [] {
      assert predecessors[0] in predecessors;
      FirstFailedAgrees(predecessors[1..], m, n);
    }
  }

  lemma RunReadsOnlyPredecessors(
    projects: seq<Project>, states: States, drainer: Drainer, waitOnly: map<Path, seq<Path>>)
    requires HasStates(projects, states)
    ensures ReadsOnlyPredecessors(TasksOf(projects, waitOnly), RunOf(projects, states, drainer))
  {
    var tasks, run := TasksOf(projects, waitOnly), RunOf(projects, states, drainer);
    forall p, m: map<nat, Outcome>, n: map<nat, Outcome> | 0 <= p < |tasks| && AgreeOn(tasks[p].predecessors, m, n)
      ensures run(tasks[p].index, m) == run(tasks[p].index, n)
    {
      FirstFailedAgrees(tasks[p].predecessors, m, n);
    }
  }

  // ----- one left-to-right pass

  /** The outcomes of running the first `n` projects one after the other. */
  function Outcomes(projects: seq<Project>, states: States, drainer: Drainer, n: nat): map<nat, Outcome>
    requires HasStates(projects, states) && n <= |projects|
  {
    if n == 0 then map[]
    else
      var before := Outcomes(projects, states, drainer, n - 1);
      before[n - 1 := RunProject(projects, states, drainer, n - 1, before)]
  }

  lemma {:induction false} SequentialIsOutcomes(projects: seq<Project>, states: States, drainer: Drainer,
                                                waitOnly: map<Path, seq<Path>>, n: nat)
    requires HasStates(projects, states) && n <= |projects|
    ensures Sequential(TasksOf(projects, waitOnly), RunOf(projects, states, drainer), n) ==
      Outcomes(projects, states, drainer, n)
  {
    if n > 0 {
      SequentialIsOutcomes(projects, states, drainer, waitOnly, n - 1);
      assert TasksOf(projects, waitOnly)[n - 1].index == n - 1;
    }
  }

  /**
   Draining is independent of the schedule: every complete run of the scheduler, for every builder
   count, leaves each project the outcome of the left-to-right pass.
   */
  lemma DrainIsScheduleIndependent(
    projects: seq<Project>, overlap: (Path, Path) -> bool, waitOnly: map<Path, seq<Path>>, states: States,
    drainer: Drainer, builders: int, schedule: seq<nat>)
    requires GraphOk(projects, overlap, waitOnly) && HasStates(projects, states)
    requires Feasible(TasksOf(projects, waitOnly), RunOf(projects, states, drainer), Init<Outcome>(builders), schedule)
    requires
      var tasks, run := TasksOf(projects, waitOnly), RunOf(projects, states, drainer);
      Stuck(tasks, After(tasks, run, Init<Outcome>(builders), schedule))
    ensures
      var tasks, run := TasksOf(projects, waitOnly), RunOf(projects, states, drainer);
      After(tasks, run, Init<Outcome>(builders), schedule).outcomes == Outcomes(projects, states, drainer, |projects|)
  {
    var tasks, run := TasksOf(projects, waitOnly), RunOf(projects, states, drainer);
    TasksAreOrdered(projects, overlap, waitOnly);
    RunReadsOnlyPredecessors(projects, states, drainer, waitOnly);
    EveryRunCompletes(tasks, builders, run, schedule);
    ScheduleIndependence(tasks, builders, run, schedule);
    SequentialIsOutcomes(projects, states, drainer, waitOnly, |projects|);
  }

  // ----- what the outcomes mean

  lemma {:induction false} OutcomeAt(projects: seq<Project>, states: States, drainer: Drainer, n: nat, i: nat)
    requires HasStates(projects, states) && i < n <= |projects|
    ensures i in Outcomes(projects, states, drainer, n)
    ensures Outcomes(projects, states, drainer, n)[i] ==
            RunProject(projects, states, drainer, i, Outcomes(projects, states, drainer, i))
  {
    if i < n - 1 { OutcomeAt(projects, states, drainer, n - 1, i); }
  }

  /** What each project's own closure saw is the final table. */
  lemma OutcomeOfFinal(projects: seq<Project>, overlap: (Path, Path) -> bool, waitOnly: map<Path, seq<Path>>,
                       states: States, drainer: Drainer, i: nat)
    requires GraphOk(projects, overlap, waitOnly) && HasStates(projects, states) && i < |projects|
    ensures i in Outcomes(projects, states, drainer, |projects|)
    ensures Outcomes(projects, states, drainer, |projects|)[i] ==
            RunProject(projects, states, drainer, i, Outcomes(projects, states, drainer, |projects|))
  {
    var final, before := Outcomes(projects, states, drainer, |projects|), Outcomes(projects, states, drainer, i);
    OutcomeAt(projects, states, drainer, |projects|, i);
    forall b | b in Predecessors(projects, i) ensures b in final && b in before && final[b] == before[b] {
      assert b in Barriers(TasksOf(projects, waitOnly)[i]);
      PredecessorEarlier(projects, overlap, waitOnly, i, b);
      OutcomeAt(projects, states, drainer, |projects|, b);
      OutcomeAt(projects, states, drainer, i, b);
    }
    FirstFailedAgrees(Predecessors(projects, i), final, before);
  }

  /** The reference graph of the listed projects. */
  function ProjectGraph(projects: seq<Project>): Graph<Path> {
    map p | p in (set i | 0 <= i < |projects| :: projects[i].configPath) :: ReferencesOf(projects, p)
  }

  function ReferencesOf(projects: seq<Project>, p: Path): seq<Path> {
    var i := IndexOf(projects, p, |projects|);
    if i < |projects| then projects[i].references else []
  }

  lemma GraphEdges(projects: seq<Project>, i: nat)
    requires DistinctProjects(projects) && i < |projects|
    ensures Succ(ProjectGraph(projects), projects[i].configPath) == projects[i].references
  {
    assert IndexOf(projects, projects[i].configPath, |projects|) == i;
  }

  /** Every listed reference of an up-to-date project is up to date. */
  ghost predicate UpToDateClosed(projects: seq<Project>, states: States)
    requires HasStates(projects, states)
  {
    forall i, j :: 0 <= i < |projects| && 0 <= j < |projects| && projects[j].configPath in projects[i].references ==>
      (states[projects[i].configPath].upToDate ==> states[projects[j].configPath].upToDate)
  }

  /** A project that would have to build, and whose own build fails. */
  ghost predicate OwnFailure(projects: seq<Project>, states: States, drainer: Drainer, j: nat)
    requires HasStates(projects, states) && j < |projects|
  {
    var state := states[projects[j].configPath];
    !state.upToDate && drainer(projects[j], state.forceFull).err.Some?
  }

  ghost predicate ReachesOwnFailure(projects: seq<Project>, states: States, drainer: Drainer, i: nat)
    requires HasStates(projects, states) && i < |projects|
  {
    exists j :: 0 <= j < |projects| && OwnFailure(projects, states, drainer, j)
                && Reaches(ProjectGraph(projects), projects[i].configPath, projects[j].configPath)
  }

  /**
   A project ends a drain with an error exactly when it references, directly or through other
   listed projects, a project that is out of date and whose own build fails.
   */
  lemma ErrorExactlyWhenReachingFailure(
    projects: seq<Project>, overlap: (Path, Path) -> bool, waitOnly: map<Path, seq<Path>>, states: States,
    drainer: Drainer, i: nat)
    requires GraphOk(projects, overlap, waitOnly) && HasStates(projects, states) && UpToDateClosed(projects, states)
    requires i < |projects|
    ensures ErrorAt(Outcomes(projects, states, drainer, |projects|), i) <==>
      ReachesOwnFailure(projects, states, drainer, i)
  {
    if ErrorAt(Outcomes(projects, states, drainer, |projects|), i) {
      ErrorHasCause(projects, overlap, waitOnly, states, drainer, i);
    }
    if ReachesOwnFailure(projects, states, drainer, i) {
      var j :| 0 <= j < |projects| && OwnFailure(projects, states, drainer, j)
               && Reaches(ProjectGraph(projects), projects[i].configPath, projects[j].configPath);
      var walk :| IsWalk(ProjectGraph(projects), walk, projects[i].configPath, projects[j].configPath);
      FailurePropagates(projects, overlap, waitOnly, states, drainer, i, j, walk);
    }
  }

  lemma {:induction false} ErrorHasCause(
    projects: seq<Project>, overlap: (Path, Path) -> bool, waitOnly: map<Path, seq<Path>>, states: States,
    drainer: Drainer, i: nat)
    requires GraphOk(projects, overlap, waitOnly) && HasStates(projects, states)
    requires i < |projects| && ErrorAt(Outcomes(projects, states, drainer, |projects|), i)
    ensures ReachesOwnFailure(projects, states, drainer, i)
    decreases i
  {
    var g, final := ProjectGraph(projects), Outcomes(projects, states, drainer, |projects|);
    OutcomeOfFinal(projects, overlap, waitOnly, states, drainer, i);
    var failed := FirstFailed(Predecessors(projects, i), final);
    if failed.Some? {
      var b := failed.value;
      assert b in Barriers(TasksOf(projects, waitOnly)[i]);
      PredecessorEarlier(projects, overlap, waitOnly, i, b);
      ErrorHasCause(projects, overlap, waitOnly, states, drainer, b);
      var j :| 0 <= j < |projects| && OwnFailure(projects, states, drainer, j)
               && Reaches(g, projects[b].configPath, projects[j].configPath);
      GraphEdges(projects, i);
      InGraphExactly(projects, projects[i].references, b);
      EdgeThenReaches(g, projects[i].configPath, projects[b].configPath, projects[j].configPath);
    } else {
      ReachesSelf(g, projects[i].configPath);
      assert OwnFailure(projects, states, drainer, i);
    }
  }

  lemma {:induction false} FailurePropagates(projects: seq<Project>, overlap: (Path, Path) -> bool,
      waitOnly: map<Path, seq<Path>>, states: States, drainer: Drainer, i: nat, j: nat, walk: seq<Path>)
    requires GraphOk(projects, overlap, waitOnly) && HasStates(projects, states) && UpToDateClosed(projects, states)
    requires i < |projects| && j < |projects| && OwnFailure(projects, states, drainer, j)
    requires IsWalk(ProjectGraph(projects), walk, projects[i].configPath, projects[j].configPath)
    ensures !states[projects[i].configPath].upToDate
    ensures ErrorAt(Outcomes(projects, states, drainer, |projects|), i)
    decreases |walk|
  {
    OutcomeOfFinal(projects, overlap, waitOnly, states, drainer, i);
    if |walk| == 1 {
      assert projects[i].configPath == projects[j].configPath;
    } else {
      GraphEdges(projects, i);
      assert walk[1] in projects[i].references;
      var b := MiddleIsListed(projects, walk, projects[j].configPath);
      FailurePropagates(projects, overlap, waitOnly, states, drainer, b, j, walk[1..]);
      InGraphExactly(projects, projects[i].references, b);
    }
  }

  /** The second node of a walk between listed projects is listed. */
  lemma MiddleIsListed(projects: seq<Project>, walk: seq<Path>, last: Path) returns (b: nat)
    requires |walk| >= 2 && IsWalk(ProjectGraph(projects), walk, walk[0], last) && Listed(projects, last)
    ensures b < |projects| && projects[b].configPath == walk[1]
    ensures IsWalk(ProjectGraph(projects), walk[1..], walk[1], last)
  {
    if |walk| == 2 {
      b :| 0 <= b < |projects| && projects[b].configPath == last;
    } else {
      assert walk[2] in Succ(ProjectGraph(projects), walk[1]);
      b :| 0 <= b < |projects| && projects[b].configPath == walk[1];
    }
  }

  // ----- the state update

  function NextState(s: ProjectState, o: Outcome): ProjectState {
    if o.skip then s
    else if o.drained.err.None? then ProjectState(o.drained.result, true, "", None, false)
    else if o.blockedBy != "" then s.(result := o.drained.result, blockedBy := o.blockedBy, err := o.drained.err)
    else s.(result := o.drained.result, err := o.drained.err)
  }

  /** The states after the first `n` projects' outcomes have been recorded. */
  function DrainStates(projects: seq<Project>, states: States, outcomes: map<nat, Outcome>, n: nat): (after: States)
    requires n <= |projects| && HasStates(projects, states)
    requires forall i :: 0 <= i < |projects| ==> i in outcomes
    ensures HasStates(projects, after) && after.Keys == states.Keys
  {
    if n == 0 then states
    else
      var before := DrainStates(projects, states, outcomes, n - 1);
      before[projects[n - 1].configPath := NextState(before[projects[n - 1].configPath], outcomes[n - 1])]
  }

  lemma {:induction false} StateAfterDrain(
    projects: seq<Project>, states: States, outcomes: map<nat, Outcome>, n: nat, i: nat)
    requires n <= |projects| && HasStates(projects, states) && DistinctProjects(projects) && i < |projects|
    requires forall k :: 0 <= k < |projects| ==> k in outcomes
    ensures DrainStates(projects, states, outcomes, n)[projects[i].configPath] ==
            if i < n then NextState(states[projects[i].configPath], outcomes[i]) else states[projects[i].configPath]
  {
    if n > 0 { StateAfterDrain(projects, states, outcomes, n - 1, i); }
  }

  function AfterDrain(projects: seq<Project>, states: States, drainer: Drainer): (after: States)
    requires HasStates(projects, states)
    ensures HasStates(projects, after) && after.Keys == states.Keys
  {
    AllHaveOutcomes(projects, states, drainer);
    DrainStates(projects, states, Outcomes(projects, states, drainer, |projects|), |projects|)
  }

  lemma AllHaveOutcomes(projects: seq<Project>, states: States, drainer: Drainer)
    requires HasStates(projects, states)
    ensures forall i :: 0 <= i < |projects| ==> i in Outcomes(projects, states, drainer, |projects|)
  {
    forall i | 0 <= i < |projects| ensures i in Outcomes(projects, states, drainer, |projects|) {
      OutcomeAt(projects, states, drainer, |projects|, i);
    }
  }

  /** After a drain a project is up to date unless it reaches an own failure. */
  lemma UpToDateAfterDrain(projects: seq<Project>, overlap: (Path, Path) -> bool, waitOnly: map<Path, seq<Path>>,
                           states: States, drainer: Drainer, i: nat)
    requires GraphOk(projects, overlap, waitOnly) && HasStates(projects, states) && UpToDateClosed(projects, states)
    requires i < |projects|
    ensures AfterDrain(projects, states, drainer)[projects[i].configPath].upToDate <==>
            !ReachesOwnFailure(projects, states, drainer, i)
  {
    AllHaveOutcomes(projects, states, drainer);
    StateAfterDrain(projects, states, Outcomes(projects, states, drainer, |projects|), |projects|, i);
    OutcomeOfFinal(projects, overlap, waitOnly, states, drainer, i);
    ErrorExactlyWhenReachingFailure(projects, overlap, waitOnly, states, drainer, i);
  }

  lemma DrainKeepsClosed(projects: seq<Project>, overlap: (Path, Path) -> bool, waitOnly: map<Path, seq<Path>>,
                         states: States, drainer: Drainer)
    requires GraphOk(projects, overlap, waitOnly) && HasStates(projects, states) && UpToDateClosed(projects, states)
    ensures UpToDateClosed(projects, AfterDrain(projects, states, drainer))
  {
    var after := AfterDrain(projects, states, drainer);
    forall i, j | 0 <= i < |projects| && 0 <= j < |projects| && projects[j].configPath in projects[i].references
                  && after[projects[i].configPath].upToDate
      ensures after[projects[j].configPath].upToDate
    {
      UpToDateAfterDrain(projects, overlap, waitOnly, states, drainer, i);
      UpToDateAfterDrain(projects, overlap, waitOnly, states, drainer, j);
      if ReachesOwnFailure(projects, states, drainer, j) {
        var k :| 0 <= k < |projects| && OwnFailure(projects, states, drainer, k)
                 && Reaches(ProjectGraph(projects), projects[j].configPath, projects[k].configPath);
        GraphEdges(projects, i);
        EdgeThenReaches(ProjectGraph(projects), projects[i].configPath, projects[j].configPath, projects[k].configPath);
      }
    }
  }
}
