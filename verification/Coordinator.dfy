/**
 SolutionCoordinator of internal/compile/solution.go: the states it keeps between drains, Drain and
 Invalidate, and what holds over every sequence of the two.
 */
module Coordinator {
  import opened Wrappers
  import opened Graphs
  import opened SolutionGraph
  import opened Drains

  // ----- Invalidate on values

  ghost predicate IsDirect(projects: seq<Project>, paths: seq<Path>, p: Path) {
    p in paths && Listed(projects, p)
  }

  /** `p` references one of the named projects, directly or through others, or is one of them. */
  ghost predicate Stale(projects: seq<Project>, paths: seq<Path>, p: Path) {
    exists d :: IsDirect(projects, paths, d) && Reaches(ProjectGraph(projects), p, d)
  }

  ghost function InvalidatedState(projects: seq<Project>, paths: seq<Path>, p: Path, s: ProjectState): ProjectState {
    if !Stale(projects, paths, p) then s
    else s.(upToDate := false, blockedBy := "", err := None,
            forceFull := s.forceFull || !IsDirect(projects, paths, p))
  }

  ghost function AfterInvalidate(projects: seq<Project>, states: States, paths: seq<Path>): (after: States)
    requires HasStates(projects, states)
    ensures HasStates(projects, after) && after.Keys == states.Keys
  {
    map p | p in states :: if Listed(projects, p) then InvalidatedState(projects, paths, p, states[p]) else states[p]
  }

  /**
   What an invalidation of `paths` does to the state of `p`: a listed project that reaches a named one is cleared, and
   forced to a full build unless it is named itself; every other state stays as it was.
   */
  ghost predicate Invalidated(
    projects: seq<Project>, paths: seq<Path>, p: Path, before: ProjectState, after: ProjectState)
  {
    if Listed(projects, p) && Stale(projects, paths, p) then
      && !after.upToDate && after.blockedBy == "" && after.err == None && after.result == before.result
      && (after.forceFull <==> before.forceFull || p !in paths)
    else after == before
  }

  ghost predicate AllInvalidated(projects: seq<Project>, before: States, after: States, paths: seq<Path>) {
    after.Keys == before.Keys && forall p :: p in before ==> Invalidated(projects, paths, p, before[p], after[p])
  }

  lemma InvalidateExactly(projects: seq<Project>, states: States, paths: seq<Path>)
    requires HasStates(projects, states)
    ensures AllInvalidated(projects, states, AfterInvalidate(projects, states, paths), paths)
  {
  }

  lemma StaleSpreads(projects: seq<Project>, paths: seq<Path>, i: nat, r: Path)
    requires DistinctProjects(projects) && i < |projects| && r in projects[i].references && Stale(projects, paths, r)
    ensures Stale(projects, paths, projects[i].configPath)
  {
    var d :| IsDirect(projects, paths, d) && Reaches(ProjectGraph(projects), r, d);
    GraphEdges(projects, i);
    EdgeThenReaches(ProjectGraph(projects), projects[i].configPath, r, d);
  }

  lemma InvalidateKeepsClosed(projects: seq<Project>, states: States, paths: seq<Path>)
    requires DistinctProjects(projects) && HasStates(projects, states) && UpToDateClosed(projects, states)
    ensures UpToDateClosed(projects, AfterInvalidate(projects, states, paths))
  {
    var after := AfterInvalidate(projects, states, paths);
    forall i, j | 0 <= i < |projects| && 0 <= j < |projects| && projects[j].configPath in projects[i].references
                  && after[projects[i].configPath].upToDate
      ensures after[projects[j].configPath].upToDate
    {
      assert Listed(projects, projects[i].configPath) && Listed(projects, projects[j].configPath);
      if Stale(projects, paths, projects[j].configPath) {
        StaleSpreads(projects, paths, i, projects[j].configPath);
      }
    }
  }

  // ----- whole histories

  /** Each drain may meet a different world, so it brings its own drainer. */
  datatype Op = DrainOp(drainer: Drainer) | InvalidateOp(paths: seq<Path>)

  ghost function ApplyOp(projects: seq<Project>, states: States, op: Op): (after: States)
    requires HasStates(projects, states)
    ensures HasStates(projects, after)
  {
    match op
    case DrainOp(drainer) => AfterDrain(projects, states, drainer)
    case InvalidateOp(paths) => AfterInvalidate(projects, states, paths)
  }

  /** The states after the first `n` operations. */
  ghost function History(projects: seq<Project>, states: States, ops: seq<Op>, n: nat): (after: States)
    requires HasStates(projects, states) && n <= |ops|
    ensures HasStates(projects, after)
  {
    if n == 0 then states else ApplyOp(projects, History(projects, states, ops, n - 1), ops[n - 1])
  }

  function FreshState(): ProjectState {
    ProjectState(None, false, "", None, false)
  }

  function Paths(projects: seq<Project>): set<Path> {
    set i | 0 <= i < |projects| :: projects[i].configPath
  }

  function FreshStates(projects: seq<Project>): (states: States)
    ensures HasStates(projects, states) && states.Keys == Paths(projects)
  {
    map p | p in Paths(projects) :: FreshState()
  }

  lemma OpKeepsClosed(projects: seq<Project>, overlap: (Path, Path) -> bool, waitOnly: map<Path, seq<Path>>,
                      states: States, op: Op, after: States)
    requires GraphOk(projects, overlap, waitOnly) && HasStates(projects, states) && UpToDateClosed(projects, states)
    requires after == ApplyOp(projects, states, op)
    ensures UpToDateClosed(projects, after)
  {
    match op
    case DrainOp(drainer) => DrainKeepsClosed(projects, overlap, waitOnly, states, drainer);
    case InvalidateOp(paths) => InvalidateKeepsClosed(projects, states, paths);
  }

  /**
   Over every sequence of Drain and Invalidate the up-to-date projects are closed under listed
   references, so skipping one never hides a dependency that failed.
   */
  lemma UpToDateAlwaysClosed(projects: seq<Project>, overlap: (Path, Path) -> bool,
                             waitOnly: map<Path, seq<Path>>, ops: seq<Op>, n: nat)
    requires GraphOk(projects, overlap, waitOnly) && n <= |ops|
    ensures UpToDateClosed(projects, History(projects, FreshStates(projects), ops, n))
  {
    FreshIsClosed(projects);
    HistoryKeepsClosed(projects, overlap, waitOnly, FreshStates(projects), ops, n);
  }

  lemma FreshIsClosed(projects: seq<Project>)
    ensures UpToDateClosed(projects, FreshStates(projects))
  {
    var states := FreshStates(projects);
    forall i | 0 <= i < |projects| ensures !states[projects[i].configPath].upToDate {
      assert projects[i].configPath in Paths(projects);
    }
  }

  lemma {:induction false} HistoryKeepsClosed(projects: seq<Project>, overlap: (Path, Path) -> bool,
                                              waitOnly: map<Path, seq<Path>>, states: States, ops: seq<Op>, n: nat)
    requires GraphOk(projects, overlap, waitOnly) && n <= |ops|
    requires HasStates(projects, states) && UpToDateClosed(projects, states)
    ensures UpToDateClosed(projects, History(projects, states, ops, n))
  {
    if n > 0 {
      HistoryKeepsClosed(projects, overlap, waitOnly, states, ops, n - 1);
      OpKeepsClosed(projects, overlap, waitOnly, History(projects, states, ops, n - 1), ops[n - 1],
                    History(projects, states, ops, n));
    }
  }

  /** A project that is up to date reaches no project that the next drain would leave with an error. */
  lemma SkippedHidesNothing(projects: seq<Project>, overlap: (Path, Path) -> bool, waitOnly: map<Path, seq<Path>>,
                            states: States, drainer: Drainer, i: nat, j: nat)
    requires GraphOk(projects, overlap, waitOnly) && HasStates(projects, states) && UpToDateClosed(projects, states)
    requires i < |projects| && j < |projects|
    requires states[projects[i].configPath].upToDate
    requires Reaches(ProjectGraph(projects), projects[i].configPath, projects[j].configPath)
    ensures !ErrorAt(Outcomes(projects, states, drainer, |projects|), j)
  {
    OutcomeOfFinal(projects, overlap, waitOnly, states, drainer, i);
    ErrorExactlyWhenReachingFailure(projects, overlap, waitOnly, states, drainer, i);
    if ErrorAt(Outcomes(projects, states, drainer, |projects|), j) {
      ErrorExactlyWhenReachingFailure(projects, overlap, waitOnly, states, drainer, j);
      var k :| 0 <= k < |projects| && OwnFailure(projects, states, drainer, k)
               && Reaches(ProjectGraph(projects), projects[j].configPath, projects[k].configPath);
      ReachesTransitive(ProjectGraph(projects), projects[i].configPath, projects[j].configPath, projects[k].configPath);
    }
  }

  // ----- the force-full flag

  /** Operation `k` invalidated `p` because of another project. */
  ghost predicate MarkedAt(projects: seq<Project>, ops: seq<Op>, k: nat, p: Path)
    requires k < |ops|
  {
    ops[k].InvalidateOp? && Stale(projects, ops[k].paths, p) && !IsDirect(projects, ops[k].paths, p)
  }

  /** Operation `k` was a drain in which project `i` was built without error. */
  ghost predicate SucceedsAt(projects: seq<Project>, states: States, ops: seq<Op>, k: nat, i: nat)
    requires HasStates(projects, states) && k < |ops| && i < |projects|
  {
    && ops[k].DrainOp?
    && var before := History(projects, states, ops, k);
       && !before[projects[i].configPath].upToDate
       && !ErrorAt(Outcomes(projects, before, ops[k].drainer, |projects|), i)
  }

  /** Some operation marked the project and no later one built it. */
  ghost predicate OwesFullBuild(projects: seq<Project>, states: States, ops: seq<Op>, n: nat, i: nat)
    requires HasStates(projects, states) && n <= |ops| && i < |projects|
  {
    exists k :: 0 <= k < n && MarkedAt(projects, ops, k, projects[i].configPath)
      && forall m :: k < m < n ==> !SucceedsAt(projects, states, ops, m, i)
  }

  lemma ForceFullStep(projects: seq<Project>, ops: seq<Op>, k: nat, i: nat)
    requires DistinctProjects(projects) && k < |ops| && i < |projects|
    ensures
      var before := History(projects, FreshStates(projects), ops, k);
      var after := History(projects, FreshStates(projects), ops, k + 1);
      after[projects[i].configPath].forceFull <==>
        MarkedAt(projects, ops, k, projects[i].configPath) ||
        (before[projects[i].configPath].forceFull && !SucceedsAt(projects, FreshStates(projects), ops, k, i))
  {
    var before := History(projects, FreshStates(projects), ops, k);
    assert Listed(projects, projects[i].configPath);
    if ops[k].DrainOp? {
      var final := Outcomes(projects, before, ops[k].drainer, |projects|);
      AllHaveOutcomes(projects, before, ops[k].drainer);
      OutcomeAt(projects, before, ops[k].drainer, |projects|, i);
      StateAfterDrain(projects, before, final, |projects|, i);
    }
  }

  /**
   A project is forced to build fully exactly when it was invalidated through a dependency and has not
   been built since.
   */
  lemma {:induction false} ForceFullExactlyWhenOwed(projects: seq<Project>, ops: seq<Op>, n: nat, i: nat)
    requires DistinctProjects(projects) && n <= |ops| && i < |projects|
    ensures History(projects, FreshStates(projects), ops, n)[projects[i].configPath].forceFull <==>
            OwesFullBuild(projects, FreshStates(projects), ops, n, i)
  {
    if n > 0 {
      ForceFullExactlyWhenOwed(projects, ops, n - 1, i);
      ForceFullStep(projects, ops, n - 1, i);
      OwedStep(projects, FreshStates(projects), ops, n - 1, i);
    }
  }

  lemma OwedStep(projects: seq<Project>, states: States, ops: seq<Op>, k: nat, i: nat)
    requires HasStates(projects, states) && k < |ops| && i < |projects|
    ensures OwesFullBuild(projects, states, ops, k + 1, i) <==>
              MarkedAt(projects, ops, k, projects[i].configPath) ||
              (OwesFullBuild(projects, states, ops, k, i) && !SucceedsAt(projects, states, ops, k, i))
  {
    if MarkedAt(projects, ops, k, projects[i].configPath) {
      assert OwesFullBuild(projects, states, ops, k + 1, i);
    }
    if OwesFullBuild(projects, states, ops, k, i) && !SucceedsAt(projects, states, ops, k, i) {
      var j :| 0 <= j < k && MarkedAt(projects, ops, j, projects[i].configPath)
               && forall m :: j < m < k ==> !SucceedsAt(projects, states, ops, m, i);
      assert forall m :: j < m < k + 1 ==> !SucceedsAt(projects, states, ops, m, i);
    }
    if OwesFullBuild(projects, states, ops, k + 1, i) && !MarkedAt(projects, ops, k, projects[i].configPath) {
      var j :| 0 <= j < k + 1 && MarkedAt(projects, ops, j, projects[i].configPath)
               && forall m :: j < m < k + 1 ==> !SucceedsAt(projects, states, ops, m, i);
      assert j < k;
      assert !SucceedsAt(projects, states, ops, k, i);
    }
  }

  // ----- the up-to-date flag

  /** Operation `k` invalidated `p`, or a project it reaches. */
  ghost predicate StaleAt(projects: seq<Project>, ops: seq<Op>, k: nat, p: Path)
    requires k < |ops|
  {
    ops[k].InvalidateOp? && Stale(projects, ops[k].paths, p)
  }

  /** Some operation built the project and no later one made it stale. */
  ghost predicate BuiltSince(projects: seq<Project>, states: States, ops: seq<Op>, n: nat, i: nat)
    requires HasStates(projects, states) && n <= |ops| && i < |projects|
  {
    exists k :: 0 <= k < n && SucceedsAt(projects, states, ops, k, i)
                && forall m :: k < m < n ==> !StaleAt(projects, ops, m, projects[i].configPath)
  }

  lemma UpToDateStep(projects: seq<Project>, from: States, ops: seq<Op>, k: nat, i: nat)
    requires DistinctProjects(projects) && HasStates(projects, from) && k < |ops| && i < |projects|
    ensures
      History(projects, from, ops, k + 1)[projects[i].configPath].upToDate <==>
        SucceedsAt(projects, from, ops, k, i) ||
        (History(projects, from, ops, k)[projects[i].configPath].upToDate
         && !StaleAt(projects, ops, k, projects[i].configPath))
  {
    var before := History(projects, from, ops, k);
    assert Listed(projects, projects[i].configPath);
    if ops[k].DrainOp? {
      AllHaveOutcomes(projects, before, ops[k].drainer);
      OutcomeAt(projects, before, ops[k].drainer, |projects|, i);
      StateAfterDrain(projects, before, Outcomes(projects, before, ops[k].drainer, |projects|), |projects|, i);
    }
  }

  lemma {:induction false} UpToDateFrom(projects: seq<Project>, from: States, ops: seq<Op>, n: nat, i: nat)
    requires DistinctProjects(projects) && HasStates(projects, from) && n <= |ops| && i < |projects|
    requires !from[projects[i].configPath].upToDate
    ensures
      History(projects, from, ops, n)[projects[i].configPath].upToDate <==> BuiltSince(projects, from, ops, n, i)
  {
    if n > 0 {
      UpToDateFrom(projects, from, ops, n - 1, i);
      UpToDateStep(projects, from, ops, n - 1, i);
      BuiltStep(projects, from, ops, n - 1, i);
    }
  }

  /**
   Over every history a project is up to date exactly when some drain built it without error and no later
   invalidation named it or a project it reaches.
   */
  lemma UpToDateExactlyWhenBuilt(projects: seq<Project>, ops: seq<Op>, n: nat, i: nat)
    requires DistinctProjects(projects) && n <= |ops| && i < |projects|
    ensures History(projects, FreshStates(projects), ops, n)[projects[i].configPath].upToDate <==>
            BuiltSince(projects, FreshStates(projects), ops, n, i)
  {
    assert projects[i].configPath in Paths(projects);
    UpToDateFrom(projects, FreshStates(projects), ops, n, i);
  }

  lemma BuiltStep(projects: seq<Project>, states: States, ops: seq<Op>, k: nat, i: nat)
    requires HasStates(projects, states) && k < |ops| && i < |projects|
    ensures BuiltSince(projects, states, ops, k + 1, i) <==>
              SucceedsAt(projects, states, ops, k, i) ||
              (BuiltSince(projects, states, ops, k, i) && !StaleAt(projects, ops, k, projects[i].configPath))
  {
    var p := projects[i].configPath;
    if SucceedsAt(projects, states, ops, k, i) { assert BuiltSince(projects, states, ops, k + 1, i); }
    if BuiltSince(projects, states, ops, k, i) && !StaleAt(projects, ops, k, p) {
      var j :| 0 <= j < k && SucceedsAt(projects, states, ops, j, i)
               && forall m :: j < m < k ==> !StaleAt(projects, ops, m, p);
      assert forall m :: j < m < k + 1 ==> !StaleAt(projects, ops, m, p);
    }
    if BuiltSince(projects, states, ops, k + 1, i) && !SucceedsAt(projects, states, ops, k, i) {
      var j :| 0 <= j < k + 1 && SucceedsAt(projects, states, ops, j, i)
               && forall m :: j < m < k + 1 ==> !StaleAt(projects, ops, m, p);
      assert j < k;
      assert !StaleAt(projects, ops, k, p);
    }
  }

  /** A drain right after an invalidation skips exactly what was up to date and reaches no named project. */
  lemma SkippedAfterInvalidate(projects: seq<Project>, ops: seq<Op>, n: nat, i: nat)
    requires DistinctProjects(projects) && n + 1 < |ops| && i < |projects|
    requires ops[n].InvalidateOp? && ops[n + 1].DrainOp?
    ensures
      var before := History(projects, FreshStates(projects), ops, n);
      var outcomes :=
        Outcomes(projects, History(projects, FreshStates(projects), ops, n + 1), ops[n + 1].drainer, |projects|);
      && i in outcomes
      && (outcomes[i].skip <==>
            before[projects[i].configPath].upToDate && !Stale(projects, ops[n].paths, projects[i].configPath))
  {
    var now := History(projects, FreshStates(projects), ops, n + 1);
    UpToDateStep(projects, FreshStates(projects), ops, n, i);
    OutcomeAt(projects, now, ops[n + 1].drainer, |projects|, i);
  }

  // ----- BlockedBy is not always about the last drain

  /** `r` is a listed project that the drain leaves with an error. */
  ghost predicate FailsIn(projects: seq<Project>, states: States, drainer: Drainer, r: Path)
    requires HasStates(projects, states)
  {
    exists j :: 0 <= j < |projects| && projects[j].configPath == r && ReachesOwnFailure(projects, states, drainer, j)
  }

  ghost predicate NoneFails(projects: seq<Project>, states: States, drainer: Drainer, references: seq<Path>)
    requires HasStates(projects, states)
  {
    forall k :: 0 <= k < |references| ==> !FailsIn(projects, states, drainer, references[k])
  }

  /** `name` is the first of the references that the drain leaves with an error, or empty when there is none. */
  ghost predicate IsBlocker(
    projects: seq<Project>, states: States, drainer: Drainer, references: seq<Path>, name: Path)
    requires HasStates(projects, states)
  {
    if NoneFails(projects, states, drainer, references) then name == ""
    else exists k :: 0 <= k < |references| && name == references[k] && FailsIn(projects, states, drainer, name)
                     && NoneFails(projects, states, drainer, references[..k])
  }

  ghost predicate AllNamed(projects: seq<Project>) {
    forall i :: 0 <= i < |projects| ==> projects[i].configPath != ""
  }

  /** No project is up to date and still names a blocker. */
  ghost predicate NoBlockedUpToDate(projects: seq<Project>, states: States)
    requires HasStates(projects, states)
  {
    forall i :: 0 <= i < |projects| ==>
      states[projects[i].configPath].upToDate ==> states[projects[i].configPath].blockedBy == ""
  }

  lemma {:induction false} HistoryNoBlockedUpToDate(projects: seq<Project>, ops: seq<Op>, n: nat)
    requires DistinctProjects(projects) && n <= |ops|
    ensures NoBlockedUpToDate(projects, History(projects, FreshStates(projects), ops, n))
  {
    forall i | 0 <= i < |projects|
      ensures
        var s := History(projects, FreshStates(projects), ops, n)[projects[i].configPath];
        s.upToDate ==> s.blockedBy == ""
    {
      if n > 0 {
        HistoryNoBlockedUpToDate(projects, ops, n - 1);
        OpNoBlockedUpToDate(projects, History(projects, FreshStates(projects), ops, n - 1), ops[n - 1], i);
      } else {
        assert projects[i].configPath in Paths(projects);
      }
    }
  }

  lemma OpNoBlockedUpToDate(projects: seq<Project>, states: States, op: Op, i: nat)
    requires DistinctProjects(projects) && HasStates(projects, states) && i < |projects|
    requires NoBlockedUpToDate(projects, states)
    ensures var s := ApplyOp(projects, states, op)[projects[i].configPath]; s.upToDate ==> s.blockedBy == ""
  {
    assert Listed(projects, projects[i].configPath);
    if op.DrainOp? {
      AllHaveOutcomes(projects, states, op.drainer);
      OutcomeAt(projects, states, op.drainer, |projects|, i);
      StateAfterDrain(projects, states, Outcomes(projects, states, op.drainer, |projects|), |projects|, i);
    }
  }

  lemma ReferenceFailsExactly(
    projects: seq<Project>, overlap: (Path, Path) -> bool, waitOnly: map<Path, seq<Path>>,
    states: States, drainer: Drainer, r: Path)
    requires GraphOk(projects, overlap, waitOnly) && HasStates(projects, states) && UpToDateClosed(projects, states)
    ensures
      var j := IndexOf(projects, r, |projects|);
      FailsIn(projects, states, drainer, r) <==>
      j < |projects| && ErrorAt(Outcomes(projects, states, drainer, |projects|), j)
  {
    var j := IndexOf(projects, r, |projects|);
    if j < |projects| { ErrorExactlyWhenReachingFailure(projects, overlap, waitOnly, states, drainer, j); }
    if FailsIn(projects, states, drainer, r) {
      var k :| 0 <= k < |projects| && projects[k].configPath == r && ReachesOwnFailure(projects, states, drainer, k);
      assert k == j;
    }
  }

  /** The name of the project that FirstFailed finds, or empty. */
  function NameOf(projects: seq<Project>, found: Option<nat>): Path
    requires found.Some? ==> found.value < |projects|
  {
    if found.Some? then projects[found.value].configPath else ""
  }

  lemma {:induction false} FirstFailedIsBlocker(
    projects: seq<Project>, overlap: (Path, Path) -> bool, waitOnly: map<Path, seq<Path>>,
    states: States, drainer: Drainer, references: seq<Path>)
    requires GraphOk(projects, overlap, waitOnly) && HasStates(projects, states) && UpToDateClosed(projects, states)
    ensures
      var found := FirstFailed(InGraph(projects, references), Outcomes(projects, states, drainer, |projects|));
      && (found.None? <==> NoneFails(projects, states, drainer, references))
      && IsBlocker(projects, states, drainer, references, NameOf(projects, found))
    decreases |references|
  {
    if references != [] {
      var r, rest := references[0], references[1..];
      ReferenceFailsExactly(projects, overlap, waitOnly, states, drainer, r);
      FirstFailedIsBlocker(projects, overlap, waitOnly, states, drainer, rest);
      FirstFailedHead(projects, Outcomes(projects, states, drainer, |projects|), references);
      if FailsIn(projects, states, drainer, r) {
        assert references[..0] == [];
      } else {
        BlockerOfRest(projects, states, drainer, references,
          NameOf(projects, FirstFailed(InGraph(projects, rest), Outcomes(projects, states, drainer, |projects|))));
      }
    }
  }

  lemma FirstFailedHead(projects: seq<Project>, outcomes: map<nat, Outcome>, references: seq<Path>)
    requires references != []
    ensures
      var j := IndexOf(projects, references[0], |projects|);
      FirstFailed(InGraph(projects, references), outcomes) ==
      if j < |projects| && ErrorAt(outcomes, j) then Some(j)
      else FirstFailed(InGraph(projects, references[1..]), outcomes)
  {
    var j, rest := IndexOf(projects, references[0], |projects|), InGraph(projects, references[1..]);
    if j < |projects| {
      assert InGraph(projects, references) == [j] + rest && ([j] + rest)[1..] == rest;
    } else {
      assert InGraph(projects, references) == [] + rest == rest;
    }
  }

  lemma BlockerOfRest(projects: seq<Project>, states: States, drainer: Drainer, references: seq<Path>, name: Path)
    requires HasStates(projects, states) && references != [] && !FailsIn(projects, states, drainer, references[0])
    requires IsBlocker(projects, states, drainer, references[1..], name)
    ensures NoneFails(projects, states, drainer, references) <==> NoneFails(projects, states, drainer, references[1..])
    ensures IsBlocker(projects, states, drainer, references, name)
  {
    var rest := references[1..];
    assert forall k :: 0 < k < |references| ==> references[k] == rest[k - 1];
    if !NoneFails(projects, states, drainer, rest) {
      var k :| 0 <= k < |rest| && name == rest[k] && FailsIn(projects, states, drainer, name)
               && NoneFails(projects, states, drainer, rest[..k]);
      assert references[k + 1] == name && FailsIn(projects, states, drainer, references[k + 1]);
      var before := references[..k + 1];
      forall m | 0 <= m < |before| ensures !FailsIn(projects, states, drainer, before[m]) {
        if m > 0 { assert before[m] == rest[..k][m - 1]; }
      }
      assert NoneFails(projects, states, drainer, references[..k + 1]);
    } else {
      forall k | 0 <= k < |references| ensures !FailsIn(projects, states, drainer, references[k]) {
        if k > 0 { assert references[k] == rest[k - 1]; }
      }
    }
  }

  /** Was blocked before, is not blocked now, and fails on its own. */
  ghost predicate KeepsOldBlocker(projects: seq<Project>, states: States, drainer: Drainer, i: nat)
    requires HasStates(projects, states) && i < |projects|
  {
    && states[projects[i].configPath].blockedBy != ""
    && NoneFails(projects, states, drainer, projects[i].references)
    && OwnFailure(projects, states, drainer, i)
  }

  /** What a drain records as the blocker of a project. */
  lemma BlockerRecorded(
    projects: seq<Project>, overlap: (Path, Path) -> bool, waitOnly: map<Path, seq<Path>>,
    states: States, drainer: Drainer, i: nat)
    requires GraphOk(projects, overlap, waitOnly) && AllNamed(projects) && i < |projects|
    requires HasStates(projects, states) && UpToDateClosed(projects, states) && NoBlockedUpToDate(projects, states)
    ensures
      var found := FirstFailed(Predecessors(projects, i), Outcomes(projects, states, drainer, |projects|));
      AfterDrain(projects, states, drainer)[projects[i].configPath].blockedBy ==
      if found.None? && OwnFailure(projects, states, drainer, i) then states[projects[i].configPath].blockedBy
      else NameOf(projects, found)
  {
    var final := Outcomes(projects, states, drainer, |projects|);
    AllHaveOutcomes(projects, states, drainer);
    StateAfterDrain(projects, states, final, |projects|, i);
    OutcomeOfFinal(projects, overlap, waitOnly, states, drainer, i);
    if states[projects[i].configPath].upToDate {
      UpToDateUnblocked(projects, overlap, waitOnly, states, drainer, i);
    }
  }

  lemma UpToDateUnblocked(
    projects: seq<Project>, overlap: (Path, Path) -> bool, waitOnly: map<Path, seq<Path>>,
    states: States, drainer: Drainer, i: nat)
    requires GraphOk(projects, overlap, waitOnly) && i < |projects|
    requires HasStates(projects, states) && UpToDateClosed(projects, states)
    requires states[projects[i].configPath].upToDate
    ensures FirstFailed(Predecessors(projects, i), Outcomes(projects, states, drainer, |projects|)).None?
  {
    var final := Outcomes(projects, states, drainer, |projects|);
    forall b | b in Predecessors(projects, i) ensures !ErrorAt(final, b) {
      InGraphExactly(projects, projects[i].references, b);
      assert states[projects[b].configPath].upToDate;
      OutcomeOfFinal(projects, overlap, waitOnly, states, drainer, b);
    }
  }

  /**
   After every drain of every history, a project names as its blocker the first of its references that this drain
   left with an error, or none, exactly when it is not the case that it named one before, none of its references
   reaches a failing project, and its own build fails.
   */
  lemma BlockerHonestExactly(
    projects: seq<Project>, overlap: (Path, Path) -> bool, waitOnly: map<Path, seq<Path>>, ops: seq<Op>, n: nat, i: nat)
    requires GraphOk(projects, overlap, waitOnly) && AllNamed(projects)
    requires n < |ops| && ops[n].DrainOp? && i < |projects|
    ensures
      var before := History(projects, FreshStates(projects), ops, n);
      var after := History(projects, FreshStates(projects), ops, n + 1);
      IsBlocker(
        projects, before, ops[n].drainer, projects[i].references, after[projects[i].configPath].blockedBy) <==>
      !KeepsOldBlocker(projects, before, ops[n].drainer, i)
  {
    var before, drainer := History(projects, FreshStates(projects), ops, n), ops[n].drainer;
    UpToDateAlwaysClosed(projects, overlap, waitOnly, ops, n);
    HistoryNoBlockedUpToDate(projects, ops, n);
    BlockerRecorded(projects, overlap, waitOnly, before, drainer, i);
    FirstFailedIsBlocker(projects, overlap, waitOnly, before, drainer, projects[i].references);
  }

  function FailsOnly(path: Path): Drainer {
    (p: Project, full: bool) => Drained(None, [], if p.configPath == path then Some("failed") else None, [])
  }

  /** Two drains after which a project still names a blocker that succeeded. */
  lemma StaleBlockerExample()
    ensures
      var a, b := Project("/a", [], false), Project("/b", ["/a"], false);
      var states := AfterDrain([a, b], AfterDrain([a, b], FreshStates([a, b]), FailsOnly("/a")), FailsOnly("/b"));
      && "/a" in states && states["/a"].upToDate && states["/a"].err == None
      && "/b" in states && states["/b"].blockedBy == "/a" && states["/b"].err == Some("failed")
  {
    var a, b := Project("/a", [], false), Project("/b", ["/a"], false);
    var s0 := FreshStates([a, b]);
    assert [a, b][0] == a && [a, b][1] == b;
    PairBlocks(a, b, s0, FailsOnly("/a"));
    PairRecovers(a, b, AfterDrain([a, b], s0, FailsOnly("/a")), FailsOnly("/b"));
  }

  /** Two projects, the second referencing the first. */
  ghost predicate IsPair(a: Project, b: Project) {
    a.configPath != "" && a.configPath != b.configPath && a.references == [] && b.references == [a.configPath]
  }

  ghost predicate NoneUpToDate(a: Project, b: Project, states: States) {
    && a.configPath in states && !states[a.configPath].upToDate
    && b.configPath in states && !states[b.configPath].upToDate
  }

  /** The first one fails, and the second one names it. */
  lemma PairBlocks(a: Project, b: Project, states: States, drainer: Drainer)
    requires IsPair(a, b) && NoneUpToDate(a, b, states)
    requires drainer(a, states[a.configPath].forceFull).err.Some?
    ensures
      var after := AfterDrain([a, b], states, drainer);
      NoneUpToDate(a, b, after) && after[b.configPath].blockedBy == a.configPath
  {
    PredecessorsOfPair(a, b);
    PairDrained(a, b, states, drainer);
  }

  /** The first one succeeds and the second one fails; what it names stays. */
  lemma PairRecovers(a: Project, b: Project, states: States, drainer: Drainer)
    requires IsPair(a, b) && NoneUpToDate(a, b, states)
    requires drainer(a, states[a.configPath].forceFull).err.None?
    requires drainer(b, states[b.configPath].forceFull).err.Some?
    ensures
      var after := AfterDrain([a, b], states, drainer);
      && a.configPath in after && after[a.configPath].upToDate && after[a.configPath].err == None
      && b.configPath in after && after[b.configPath].blockedBy == states[b.configPath].blockedBy
      && after[b.configPath].err == drainer(b, states[b.configPath].forceFull).err
  {
    PredecessorsOfPair(a, b);
    PairDrained(a, b, states, drainer);
  }

  lemma PredecessorsOfPair(a: Project, b: Project)
    requires IsPair(a, b)
    ensures Predecessors([a, b], 0) == [] && Predecessors([a, b], 1) == [0]
  {
    var projects := [a, b];
    assert IndexOf(projects, a.configPath, 0) == 0;
    assert IndexOf(projects, a.configPath, 1) == 0;
    assert IndexOf(projects, a.configPath, 2) == 0;
    assert [a.configPath][1..] == [];
    assert InGraph(projects, []) == [];
    assert InGraph(projects, [a.configPath]) == [0] + [];
  }

  /** What a drain of the two projects does to their states. */
  lemma PairDrained(a: Project, b: Project, states: States, drainer: Drainer)
    requires IsPair(a, b) && HasStates([a, b], states)
    ensures
      var after := AfterDrain([a, b], states, drainer);
      var oa := RunProject([a, b], states, drainer, 0, map[]);
      && HasStates([a, b], after) && after[a.configPath] == NextState(states[a.configPath], oa)
      && after[b.configPath] == NextState(states[b.configPath], RunProject([a, b], states, drainer, 1, map[0 := oa]))
  {
    var projects := [a, b];
    var final := Outcomes(projects, states, drainer, 2);
    assert Outcomes(projects, states, drainer, 0) == map[];
    assert Outcomes(projects, states, drainer, 1) == map[0 := RunProject(projects, states, drainer, 0, map[])];
    AllHaveOutcomes(projects, states, drainer);
    OutcomeAt(projects, states, drainer, 2, 0);
    OutcomeAt(projects, states, drainer, 2, 1);
    StateAfterDrain(projects, states, final, 2, 0);
    StateAfterDrain(projects, states, final, 2, 1);
    assert projects[0] == a && projects[1] == b;
  }
}
