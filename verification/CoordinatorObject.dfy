/**
 The SolutionCoordinator object of internal/compile/solution.go, with Drain and Invalidate in the form
 the source gives them, tied to the functions of Drains and Coordinator.
 */
module CoordinatorObject {
  import opened Wrappers
  import opened Sequences
  import opened Graphs
  import opened SolutionGraph
  import opened CrossProject
  import opened Scheduler
  import opened SchedulerRuns
  import opened Drains
  import opened Coordinator
  import opened DrainReports

  /** The first write that fails, or the number of writes. */
  function FirstUnsaved(writes: seq<string>, saves: string -> bool): (k: nat)
    ensures k <= |writes| && (forall i :: 0 <= i < k ==> saves(writes[i])) && (k < |writes| ==> !saves(writes[k]))
  {
    if writes == [] || !saves(writes[0]) then 0 else 1 + FirstUnsaved(writes[1..], saves)
  }

  const PERSIST_ERROR: string := "persist solution build state: "

  /** Of the writes that are due, those before the first that fails are done, none if a project had an error. */
  ghost predicate Persisted(
    due: seq<string>, first: Option<string>, saves: string -> bool, before: seq<string>, persisted: seq<string>,
    pending: seq<string>, err: Option<string>)
  {
    var k := if first.Some? then 0 else FirstUnsaved(due, saves);
    && persisted == before + due[..k] && pending == due[k..]
    && err == if first.Some? || k == |due| then first else Some(PERSIST_ERROR + due[k])
  }

  /** What the built projects have put off is due after what was pending, and settled as the first error allows. */
  ghost predicate Settled(
    outcomes: map<nat, Outcome>, n: nat, saves: string -> bool, was: seq<string>, before: seq<string>,
    persisted: seq<string>, pending: seq<string>, err: Option<string>)
  {
    exists more, first ::
      && InPieces(more, n, PutsOff(outcomes)) && IsFirstError(outcomes, n, first)
      && Persisted(was + more, first, saves, before, persisted, pending, err)
  }

  // ----- the task table, built the way Drain builds it

  ghost predicate IndexesOk(projects: seq<Project>, index: map<Path, nat>) {
    forall p :: if p in index then index[p] < |projects| && index[p] == IndexOf(projects, p, |projects|)
                else IndexOf(projects, p, |projects|) == |projects|
  }

  method IndexByConfigPath(projects: seq<Project>) returns (index: map<Path, nat>)
    requires DistinctProjects(projects)
    ensures IndexesOk(projects, index)
  {
    index := map[];
    var i := 0;
    while i < |projects|
      invariant 0 <= i <= |projects|
      invariant forall p :: p in index ==> index[p] < i && projects[index[p]].configPath == p
      invariant forall j :: 0 <= j < i ==> projects[j].configPath in index
    {
      index := index[projects[i].configPath := i];
      i := i + 1;
    }
  }

  lemma Looked(projects: seq<Project>, index: map<Path, nat>, p: Path)
    requires IndexesOk(projects, index)
    ensures IfListed(projects, p) == if p in index then [index[p]] else []
  {
  }

  lemma {:induction false} InGraphAppend(projects: seq<Project>, paths: seq<Path>, p: Path)
    ensures InGraph(projects, paths + [p]) == InGraph(projects, paths) + IfListed(projects, p)
  {
    if paths == [] {
      assert ([] + [p])[1..] == [];
      assert InGraph(projects, []) == [];
    } else {
      assert (paths + [p])[1..] == paths[1..] + [p];
      InGraphAppend(projects, paths[1..], p);
    }
  }

  method CollectIndices(projects: seq<Project>, index: map<Path, nat>, paths: seq<Path>) returns (indices: seq<nat>)
    requires IndexesOk(projects, index)
    ensures indices == InGraph(projects, paths)
  {
    indices := [];
    var k := 0;
    while k < |paths|
      invariant 0 <= k <= |paths|
      invariant indices == InGraph(projects, paths[..k])
    {
      InGraphAppend(projects, paths[..k], paths[k]);
      assert paths[..k + 1] == paths[..k] + [paths[k]];
      Looked(projects, index, paths[k]);
      if paths[k] in index {
        indices := indices + [index[paths[k]]];
      }
      k := k + 1;
    }
    assert paths[..|paths|] == paths;
  }

  method BuildTasks(projects: seq<Project>, waitOnly: map<Path, seq<Path>>) returns (tasks: seq<Task>)
    requires DistinctProjects(projects)
    ensures tasks == TasksOf(projects, waitOnly)
  {
    var index := IndexByConfigPath(projects);
    tasks := [];
    var i := 0;
    while i < |projects|
      invariant 0 <= i <= |projects|
      invariant tasks == TasksOf(projects, waitOnly)[..i]
    {
      var predecessors := CollectIndices(projects, index, projects[i].references);
      var waits := CollectIndices(projects, index, Get(waitOnly, projects[i].configPath));
      tasks := tasks + [Task(i, predecessors, waits)];
      i := i + 1;
    }
  }

  // ----- reverse references

  ghost predicate Imports(projects: seq<Project>, n: nat, q: Path, r: Path)
    requires n <= |projects|
  {
    exists i :: 0 <= i < n && projects[i].configPath == q && r in projects[i].references
  }

  method AddReverse(given: map<Path, seq<Path>>, project: Project) returns (reverse: map<Path, seq<Path>>)
    ensures forall r, q :: q in Get(reverse, r) <==>
      q in Get(given, r) || (q == project.configPath && r in project.references)
  {
    reverse := given;
    var k := 0;
    while k < |project.references|
      invariant 0 <= k <= |project.references|
      invariant forall r, q :: q in Get(reverse, r) <==>
        q in Get(given, r) || (q == project.configPath && r in project.references[..k])
    {
      var r := project.references[k];
      assert project.references[..k + 1] == project.references[..k] + [r];
      reverse := reverse[r := Get(reverse, r) + [project.configPath]];
      k := k + 1;
    }
    assert project.references[..|project.references|] == project.references;
  }

  method ReverseReferences(projects: seq<Project>) returns (reverse: map<Path, seq<Path>>)
    ensures forall r, q :: q in Get(reverse, r) <==> Imports(projects, |projects|, q, r)
  {
    reverse := map[];
    var i := 0;
    while i < |projects|
      invariant 0 <= i <= |projects|
      invariant forall r, q :: q in Get(reverse, r) <==> Imports(projects, i, q, r)
    {
      var before := reverse;
      reverse := AddReverse(before, projects[i]);
      forall r, q ensures q in Get(reverse, r) <==> Imports(projects, i + 1, q, r) {
        ImportsStep(projects, i, q, r);
      }
      i := i + 1;
    }
  }

  lemma ImportsStep(projects: seq<Project>, i: nat, q: Path, r: Path)
    requires i < |projects|
    ensures Imports(projects, i + 1, q, r) <==>
            Imports(projects, i, q, r) || (q == projects[i].configPath && r in projects[i].references)
  {
    if Imports(projects, i + 1, q, r) {
      var j :| 0 <= j < i + 1 && projects[j].configPath == q && r in projects[j].references;
      if j < i { assert Imports(projects, i, q, r); }
    }
    if q == projects[i].configPath && r in projects[i].references { assert Imports(projects, i + 1, q, r); }
    if Imports(projects, i, q, r) {
      var j :| 0 <= j < i && projects[j].configPath == q && r in projects[j].references;
      assert Imports(projects, i + 1, q, r);
    }
  }

  // ----- the worklist of Invalidate

  ghost predicate StaleListed(projects: seq<Project>, paths: seq<Path>, p: Path) {
    Listed(projects, p) && Stale(projects, paths, p)
  }

  /** `importer` references `p`, so it is stale when `p` is. */
  lemma ImporterIsStale(projects: seq<Project>, paths: seq<Path>, importer: Path, p: Path)
    requires DistinctProjects(projects) && Imports(projects, |projects|, importer, p) && Stale(projects, paths, p)
    ensures StaleListed(projects, paths, importer)
  {
    var i :| 0 <= i < |projects| && projects[i].configPath == importer && p in projects[i].references;
    StaleSpreads(projects, paths, i, p);
  }

  lemma DirectIsStale(projects: seq<Project>, paths: seq<Path>, d: Path)
    requires IsDirect(projects, paths, d)
    ensures StaleListed(projects, paths, d)
  {
    ReachesSelf(ProjectGraph(projects), d);
  }

  lemma {:induction false} SeenHoldsStale(
    projects: seq<Project>, paths: seq<Path>, seen: set<Path>, walk: seq<Path>, p: Path, d: Path)
    requires DistinctProjects(projects) && IsDirect(projects, paths, d) && Listed(projects, p)
    requires IsWalk(ProjectGraph(projects), walk, p, d)
    requires forall x :: IsDirect(projects, paths, x) ==> x in seen
    requires forall x, q :: x in seen && Imports(projects, |projects|, q, x) ==> q in seen
    ensures p in seen
    decreases |walk|
  {
    if |walk| > 1 {
      var b := MiddleIsListed(projects, walk, d);
      SeenHoldsStale(projects, paths, seen, walk[1..], walk[1], d);
      var i :| 0 <= i < |projects| && projects[i].configPath == p;
      GraphEdges(projects, i);
      assert walk[1] in Succ(ProjectGraph(projects), walk[0]);
      assert Imports(projects, |projects|, p, walk[1]);
    }
  }

  lemma SeenIsStale(projects: seq<Project>, paths: seq<Path>, seen: set<Path>)
    requires DistinctProjects(projects)
    requires forall x :: x in seen ==> StaleListed(projects, paths, x)
    requires forall x :: IsDirect(projects, paths, x) ==> x in seen
    requires forall x, q :: x in seen && Imports(projects, |projects|, q, x) ==> q in seen
    ensures forall p :: p in seen <==> StaleListed(projects, paths, p)
  {
    forall p | StaleListed(projects, paths, p) ensures p in seen {
      var d :| IsDirect(projects, paths, d) && Reaches(ProjectGraph(projects), p, d);
      var walk :| IsWalk(ProjectGraph(projects), walk, p, d);
      SeenHoldsStale(projects, paths, seen, walk, p, d);
    }
  }

  /** What is seen or queued is stale; the direct projects and the importers of what is seen are among it. */
  ghost predicate Spreading(projects: seq<Project>, paths: seq<Path>, seen: set<Path>, queue: seq<Path>) {
    && (forall x :: x in seen || x in queue ==> StaleListed(projects, paths, x))
    && (forall x :: IsDirect(projects, paths, x) ==> x in seen || x in queue)
    && (forall x, q :: x in seen && Imports(projects, |projects|, q, x) ==> q in seen || q in queue)
  }

  lemma SpreadStart(projects: seq<Project>, paths: seq<Path>, start: seq<Path>)
    requires DistinctProjects(projects) && forall p :: p in start <==> IsDirect(projects, paths, p)
    ensures Spreading(projects, paths, {}, start)
  {
    forall d | IsDirect(projects, paths, d)
      ensures StaleListed(projects, paths, d)
    {
      DirectIsStale(projects, paths, d);
    }
  }

  lemma SpreadPast(projects: seq<Project>, paths: seq<Path>, seen: set<Path>, queue: seq<Path>)
    requires Spreading(projects, paths, seen, queue) && queue != [] && queue[0] in seen
    ensures Spreading(projects, paths, seen, queue[1..])
  {
    assert forall x :: x in queue ==> x == queue[0] || x in queue[1..];
  }

  lemma SpreadOn(projects: seq<Project>, paths: seq<Path>, seen: set<Path>, queue: seq<Path>, importers: seq<Path>)
    requires DistinctProjects(projects) && Spreading(projects, paths, seen, queue) && queue != []
    requires forall q :: q in importers <==> Imports(projects, |projects|, q, queue[0])
    ensures Spreading(projects, paths, seen + {queue[0]}, queue[1..] + importers)
    ensures StaleListed(projects, paths, queue[0])
  {
    assert forall x :: x in queue ==> x == queue[0] || x in queue[1..];
    assert StaleListed(projects, paths, queue[0]);
    forall q | q in importers ensures StaleListed(projects, paths, q) { ImporterIsStale(projects, paths, q, queue[0]); }
  }

  method SpreadBackwards(
    projects: seq<Project>, reverse: map<Path, seq<Path>>, ghost paths: seq<Path>, start: seq<Path>)
    returns (seen: set<Path>)
    requires DistinctProjects(projects)
    requires forall r, q :: q in Get(reverse, r) <==> Imports(projects, |projects|, q, r)
    requires forall p :: p in start <==> IsDirect(projects, paths, p)
    ensures forall p :: p in seen <==> StaleListed(projects, paths, p)
  {
    seen := {};
    var queue := start;
    SpreadStart(projects, paths, start);
    while |queue| > 0
      invariant Spreading(projects, paths, seen, queue)
      decreases Paths(projects) - seen, |queue|
    {
      var path := queue[0];
      if path in seen {
        SpreadPast(projects, paths, seen, queue);
        queue := queue[1..];
      } else {
        SpreadOn(projects, paths, seen, queue, Get(reverse, path));
        assert path in Paths(projects);
        seen, queue := seen + {path}, queue[1..] + Get(reverse, path);
      }
    }
    SeenIsStale(projects, paths, seen);
  }

  /** The stale projects among the first `n`, in graph order. */
  ghost function StaleInOrder(projects: seq<Project>, paths: seq<Path>, n: nat): seq<Path>
    requires n <= |projects|
  {
    if n == 0 then []
    else StaleInOrder(projects, paths, n - 1) +
         (if Stale(projects, paths, projects[n - 1].configPath) then [projects[n - 1].configPath] else [])
  }

  /** `p` is listed before `q`. */
  ghost predicate Before(projects: seq<Project>, p: Path, q: Path) {
    exists i, j :: 0 <= i < j < |projects| && projects[i].configPath == p && projects[j].configPath == q
  }

  ghost predicate InGraphOrder(projects: seq<Project>, paths: seq<Path>) {
    forall a, b :: 0 <= a < b < |paths| ==> Before(projects, paths[a], paths[b])
  }

  lemma {:induction false} StaleAmong(projects: seq<Project>, paths: seq<Path>, n: nat)
    requires n <= |projects|
    ensures InGraphOrder(projects, StaleInOrder(projects, paths, n))
    ensures forall p :: p in StaleInOrder(projects, paths, n) <==>
      ProjectEarlier(projects, p, n) && Stale(projects, paths, p)
  {
    if n > 0 {
      var before, q := StaleInOrder(projects, paths, n - 1), projects[n - 1].configPath;
      StaleAmong(projects, paths, n - 1);
      forall p | p in before ensures Before(projects, p, q) {
        var i :| 0 <= i < n - 1 && projects[i].configPath == p;
      }
      forall p ensures ProjectEarlier(projects, p, n) <==> ProjectEarlier(projects, p, n - 1) || p == q {
        EarlierNext(projects, p, n - 1);
      }
    }
  }

  lemma EarlierNext(projects: seq<Project>, p: Path, n: nat)
    requires n < |projects|
    ensures ProjectEarlier(projects, p, n + 1) <==> ProjectEarlier(projects, p, n) || p == projects[n].configPath
  {
    if ProjectEarlier(projects, p, n) {
      var i :| 0 <= i < n && projects[i].configPath == p;
    }
  }

  lemma StaleListedInOrder(projects: seq<Project>, paths: seq<Path>)
    ensures InGraphOrder(projects, StaleInOrder(projects, paths, |projects|))
    ensures forall p :: p in StaleInOrder(projects, paths, |projects|) <==> StaleListed(projects, paths, p)
  {
    StaleAmong(projects, paths, |projects|);
  }

  /** Project `j` has the state an invalidation of `paths` gives it. */
  ghost predicate MarkedState(projects: seq<Project>, before: States, after: States, paths: seq<Path>, j: nat)
    requires j < |projects| && HasStates(projects, before) && HasStates(projects, after)
  {
    var p := projects[j].configPath;
    Invalidated(projects, paths, p, before[p], after[p])
  }

  lemma MarkedIsInvalidated(projects: seq<Project>, before: States, after: States, paths: seq<Path>)
    requires HasStates(projects, before) && HasStates(projects, after) && after.Keys == before.Keys == Paths(projects)
    requires forall j :: 0 <= j < |projects| ==> MarkedState(projects, before, after, paths, j)
    ensures after == AfterInvalidate(projects, before, paths) && AllInvalidated(projects, before, after, paths)
  {
    var wanted := AfterInvalidate(projects, before, paths);
    InvalidateExactly(projects, before, paths);
    forall p | p in before ensures after[p] == wanted[p] {
      assert p in Paths(projects);
      var j :| 0 <= j < |projects| && projects[j].configPath == p;
      assert MarkedState(projects, before, after, paths, j);
      assert Invalidated(projects, paths, p, before[p], wanted[p]);
    }
    assert after == wanted;
  }

  ghost predicate ValidStates(
    projects: seq<Project>, overlap: (Path, Path) -> bool, waitOnly: map<Path, seq<Path>>, states: States)
  {
    && GraphOk(projects, overlap, waitOnly)
    && HasStates(projects, states) && states.Keys == Paths(projects)
    && UpToDateClosed(projects, states)
  }

  // ----- the object

  class SolutionCoordinator {
    const projects: seq<Project>
    const waitOnly: map<Path, seq<Path>>
    const builders: int
    ghost const overlap: (Path, Path) -> bool
    var states: States
    var pending: seq<string>     // the drainer's persists
    var persisted: seq<string>   // what has been written, in order

    ghost predicate Valid()
      reads this
    {
      ValidStates(projects, overlap, waitOnly, states)
    }

    constructor (
      projects: seq<Project>, ghost overlap: (Path, Path) -> bool, waitOnly: map<Path, seq<Path>>, builders: int)
      requires GraphOk(projects, overlap, waitOnly)
      ensures Valid() && states == FreshStates(projects) && pending == persisted == []
      ensures this.projects == projects && this.waitOnly == waitOnly && this.overlap == overlap
    {
      this.projects := projects;
      this.overlap := overlap;
      this.waitOnly := waitOnly;
      this.builders := builders;
      states, pending, persisted := FreshStates(projects), [], [];
      FreshIsClosed(projects);
    }

    /** The projects of one drain; what they put off is only added to what is pending. */
    method DrainProjects(drainer: Drainer)
      returns (
        result: BuildResult, firstErr: Option<string>, ghost more: seq<string>, ghost outcomes: map<nat, Outcome>)
      requires Valid()
      modifies this`states, this`pending
      ensures Valid()
      ensures states == AfterDrain(projects, old(states), drainer)
      ensures IsDrain(projects, old(states), states, drainer, outcomes, result)
      ensures IsFirstError(outcomes, |projects|, firstErr)
      ensures pending == old(pending) + more && InPieces(more, |projects|, PutsOff(outcomes))
    {
      var tasks := BuildTasks(projects, waitOnly);
      TasksAreOrdered(projects, overlap, waitOnly);
      RunReadsOnlyPredecessors(projects, states, drainer, waitOnly);
      SequentialIsOutcomes(projects, states, drainer, waitOnly, |projects|);
      AllHaveOutcomes(projects, states, drainer);
      OutcomesFit(projects, overlap, waitOnly, states, drainer);
      DrainKeepsClosed(projects, overlap, waitOnly, states, drainer);
      var table := RunSolutionTasks(tasks, builders, RunOf(projects, states, drainer));
      result, firstErr, more := RecordOutcomes(table);
      outcomes := table;
    }

    /**
     One drain. What the built projects have put off is written only after a drain without errors, in order and up to
     the first write that fails; nothing put off is dropped or written twice.
     */
    method Drain(drainer: Drainer, saves: string -> bool)
      returns (result: BuildResult, err: Option<string>, ghost outcomes: map<nat, Outcome>)
      requires Valid()
      modifies this
      ensures Valid()
      ensures states == AfterDrain(projects, old(states), drainer)
      ensures IsDrain(projects, old(states), states, drainer, outcomes, result)
      ensures Settled(outcomes, |projects|, saves, old(pending), old(persisted), persisted, pending, err)
    {
      var first;
      ghost var more;
      result, first, more, outcomes := DrainProjects(drainer);
      err := PersistUnless(first, saves);
    }

    /** The writes are done only without an error. */
    method PersistUnless(first: Option<string>, saves: string -> bool) returns (err: Option<string>)
      modifies this`pending, this`persisted
      ensures Persisted(old(pending), first, saves, old(persisted), persisted, pending, err)
    {
      err := first;
      if first.None? { err := Persist(saves); }
    }

    /** internal/compile/solution_drain.go: persist. */
    method Persist(saves: string -> bool) returns (err: Option<string>)
      modifies this`pending, this`persisted
      ensures
        var k := FirstUnsaved(old(pending), saves);
        && persisted == old(persisted) + old(pending)[..k] && pending == old(pending)[k..]
        && err == if k == |old(pending)| then None else Some(PERSIST_ERROR + old(pending)[k])
    {
      ghost var due, before := pending, persisted;
      var index := 0;
      while index < |pending|
        invariant 0 <= index <= |pending| && pending == due && persisted == before + due[..index]
        invariant index + FirstUnsaved(due[index..], saves) == FirstUnsaved(due, saves)
      {
        assert due[index..][1..] == due[index + 1..];
        if !saves(pending[index]) {
          err := Some(PERSIST_ERROR + pending[index]);
          pending := pending[index..];
          return;
        }
        persisted := persisted + [pending[index]];
        index := index + 1;
      }
      pending := [];
      err := None;
    }

    /** One turn of the loop after the scheduler has returned. */
    method RecordOutcome(project: Project, o: Outcome, result0: BuildResult, firstErr0: Option<string>)
      returns (result: BuildResult, firstErr: Option<string>)
      requires project.configPath in states
      modifies this`states, this`pending
      ensures states == old(states)[project.configPath := NextState(old(states)[project.configPath], o)]
      ensures pending == old(pending) + if o.skip then [] else o.drained.persists
      ensures result == MergeOutcome(result0, project, o)
      ensures firstErr == if !o.skip && o.drained.err.Some? && firstErr0.None? then o.drained.err else firstErr0
    {
      firstErr := firstErr0;
      result := MergeOutcome(result0, project, o);
      if !o.skip {
        pending := pending + o.drained.persists;
        states := states[project.configPath := NextState(states[project.configPath], o)];
        if o.drained.err.Some? && firstErr.None? { firstErr := o.drained.err; }
      }
    }

    /** The part of Drain after the scheduler has returned. */
    method RecordOutcomes(outcomes: map<nat, Outcome>)
      returns (result: BuildResult, firstErr: Option<string>, ghost more: seq<string>)
      requires HasStates(projects, states) && forall i :: 0 <= i < |projects| ==> i in outcomes
      modifies this`states, this`pending
      ensures states == DrainStates(projects, old(states), outcomes, |projects|)
      ensures DistinctProjects(projects) ==> AllRecorded(projects, old(states), states, outcomes)
      ensures Reports(projects, outcomes, |projects|, result)
      ensures IsFirstError(outcomes, |projects|, firstErr)
      ensures pending == old(pending) + more && InPieces(more, |projects|, PutsOff(outcomes))
    {
      ghost var before, was := states, pending;
      result, firstErr, more := EmptyResult(), None, [];
      NothingReported(projects, outcomes);
      var i := 0;
      while i < |projects|
        invariant 0 <= i <= |projects|
        invariant states == DrainStates(projects, before, outcomes, i)
        invariant pending == was + more && SoFar(projects, outcomes, i, result, firstErr, more)
      {
        more := SoFarNext(projects, outcomes, i, result, firstErr, was, more);
        DrainStatesNext(projects, before, outcomes, i);
        result, firstErr := RecordOutcome(projects[i], outcomes[i], result, firstErr);
        i := i + 1;
      }
      if DistinctProjects(projects) { DrainStatesRecorded(projects, before, outcomes); }
    }

    method Invalidate(paths: seq<Path>) returns (result: seq<Path>)
      requires Valid()
      modifies this`states
      ensures Valid()
      ensures states == AfterInvalidate(projects, old(states), paths)
      ensures AllInvalidated(projects, old(states), states, paths)
      ensures InGraphOrder(projects, result) && forall p :: p in result <==> StaleListed(projects, paths, p)
    {
      var reverse := ReverseReferences(projects);
      var direct := DirectPaths(paths);
      var seen := SpreadBackwards(projects, reverse, paths, direct);
      InvalidateKeepsClosed(projects, states, paths);
      ghost var before := states;
      result := MarkStale(paths, direct, seen);
      MarkedIsInvalidated(projects, before, states, paths);
    }

    /** The loop of Invalidate that clears the states. */
    method MarkStale(ghost paths: seq<Path>, direct: seq<Path>, seen: set<Path>) returns (result: seq<Path>)
      requires DistinctProjects(projects) && HasStates(projects, states)
      requires forall p :: p in direct <==> IsDirect(projects, paths, p)
      requires forall p :: p in seen <==> StaleListed(projects, paths, p)
      modifies this`states
      ensures states.Keys == old(states.Keys) && HasStates(projects, states)
      ensures forall j :: 0 <= j < |projects| ==> MarkedState(projects, old(states), states, paths, j)
      ensures InGraphOrder(projects, result) && forall p :: p in result <==> StaleListed(projects, paths, p)
    {
      ghost var before := states;
      result := [];
      var i := 0;
      while i < |projects|
        invariant 0 <= i <= |projects|
        invariant HasStates(projects, states) && states.Keys == before.Keys
        invariant forall j :: 0 <= j < i ==> MarkedState(projects, before, states, paths, j)
        invariant forall j :: i <= j < |projects| ==> states[projects[j].configPath] == before[projects[j].configPath]
        invariant result == StaleInOrder(projects, paths, i)
      {
        var p := projects[i].configPath;
        assert Listed(projects, p);
        ghost var now := states;
        if p in seen {
          var state := states[p].(upToDate := false, blockedBy := "", err := None);
          if p !in direct {
            state := state.(forceFull := true);
          }
          states := states[p := state];
          result := result + [p];
        }
        assert MarkedState(projects, before, states, paths, i);
        forall j | 0 <= j < i ensures MarkedState(projects, before, states, paths, j) {
          assert MarkedState(projects, before, now, paths, j);
        }
        i := i + 1;
      }
      StaleListedInOrder(projects, paths);
    }

    /** The named paths that are projects of the solution. */
    method DirectPaths(paths: seq<Path>) returns (queue: seq<Path>)
      requires Valid()
      ensures forall p :: p in queue <==> IsDirect(projects, paths, p)
    {
      queue := [];
      var k := 0;
      while k < |paths|
        invariant 0 <= k <= |paths|
        invariant forall p :: p in queue <==> p in paths[..k] && p in states
      {
        assert paths[..k + 1] == paths[..k] + [paths[k]];
        if paths[k] in states {
          queue := queue + [paths[k]];
        }
        k := k + 1;
      }
      assert paths[..|paths|] == paths;
      forall p ensures p in states <==> Listed(projects, p) {
        if p in states { assert p in Paths(projects); }
      }
    }
  }
}
