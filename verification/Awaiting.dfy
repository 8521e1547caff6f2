/**
 What is finished before a task starts: internal/compile/solution_scheduler.go, with the references that
 internal/compile/solution.go turns into barriers.
 */
module Awaiting {
  import opened Graphs
  import opened Scheduler
  import opened SchedulerRuns
  import opened SolutionGraph
  import opened Drains

  // ----- the barriers as a graph

  ghost function PositionOf(tasks: seq<Task>, i: nat): (p: nat)
    requires IsIndex(tasks, i)
    ensures p < |tasks| && tasks[p].index == i
  {
    var p :| 0 <= p < |tasks| && tasks[p].index == i;
    p
  }

  ghost function BarrierGraph(tasks: seq<Task>): Graph<nat> {
    map i | i in (set p | 0 <= p < |tasks| :: tasks[p].index) :: Barriers(tasks[PositionOf(tasks, i)])
  }

  lemma BarrierEdges(tasks: seq<Task>, p: nat)
    requires DistinctIndices(tasks) && p < |tasks|
    ensures Succ(BarrierGraph(tasks), tasks[p].index) == Barriers(tasks[p])
  {
    assert IsIndex(tasks, tasks[p].index);
    assert PositionOf(tasks, tasks[p].index) == p;
  }

  /** Task `i` waits for task `j`, directly or through others. */
  ghost predicate Awaits(tasks: seq<Task>, i: nat, j: nat) {
    ReachesByEdge(BarrierGraph(tasks), i, j)
  }

  // ----- what is awaited is finished

  /** A task that has started has all its barriers finished, and a finished task has started. */
  ghost predicate StartedInOrder<O>(tasks: seq<Task>, s: State<O>) {
    && (forall p :: 0 <= p < |tasks| && tasks[p].index in s.log ==> BarriersClosed(tasks, s, p, |Barriers(tasks[p])|))
    && (forall i :: i in s.closed ==> i in s.log)
  }

  lemma StartedHeld<O>(tasks: seq<Task>, s: State<O>, p: nat)
    requires Inv(tasks, s) && p < |tasks| && HeldAt(s, p) && DistinctIndices(tasks)
    ensures tasks[p].index !in s.closed
    ensures tasks[p].index in s.log ==> BarriersClosed(tasks, s, p, |Barriers(tasks[p])|)
  {
    var w :| 0 <= w < |s.workers| && Holds(s.workers[w]) && s.workers[w].position == p;
    assert WorkerOk(tasks, s, w);
  }

  lemma InvStartsInOrder<O>(tasks: seq<Task>, s: State<O>)
    requires Inv(tasks, s) && DistinctIndices(tasks)
    ensures StartedInOrder(tasks, s)
  {
    forall p | 0 <= p < |tasks|
      ensures tasks[p].index in s.log ==> BarriersClosed(tasks, s, p, |Barriers(tasks[p])|)
      ensures tasks[p].index in s.closed ==> tasks[p].index in s.log
    {
      assert PositionOk(tasks, s, p);
      if HeldAt(s, p) { StartedHeld(tasks, s, p); }
    }
    forall i | i in s.closed ensures i in s.log {
      assert IsIndex(tasks, i);
      var p :| 0 <= p < |tasks| && tasks[p].index == i;
    }
  }

  lemma BarrierOfStarted<O>(tasks: seq<Task>, s: State<O>, i: nat, b: nat)
    requires DistinctIndices(tasks) && StartedInOrder(tasks, s) && i in s.log && b in Succ(BarrierGraph(tasks), i)
    ensures b in s.closed
  {
    var p := PositionOf(tasks, i);
    BarrierEdges(tasks, p);
    var k :| 0 <= k < |Barriers(tasks[p])| && Barriers(tasks[p])[k] == b;
  }

  lemma {:induction false} AwaitedIsFinished<O>(tasks: seq<Task>, s: State<O>, i: nat, j: nat, walk: seq<nat>)
    requires DistinctIndices(tasks) && StartedInOrder(tasks, s) && i in s.log
    requires |walk| > 1 && IsWalk(BarrierGraph(tasks), walk, i, j)
    ensures j in s.closed
    decreases |walk|
  {
    assert walk[1] in Succ(BarrierGraph(tasks), walk[0]);
    BarrierOfStarted(tasks, s, i, walk[1]);
    if |walk| > 2 { AwaitedIsFinished(tasks, s, walk[1], j, walk[1..]); }
  }

  lemma EdgeWalk(g: Graph<nat>, i: nat, j: nat) returns (walk: seq<nat>)
    requires ReachesByEdge(g, i, j)
    ensures |walk| > 1 && IsWalk(g, walk, i, j)
  {
    var c :| c in Succ(g, i) && Reaches(g, c, j);
    var rest :| IsWalk(g, rest, c, j);
    walk := [i] + rest;
    LongerWalk(g, i, rest, j);
  }

  lemma LongerWalk(g: Graph<nat>, i: nat, rest: seq<nat>, j: nat)
    requires rest != [] && rest[0] in Succ(g, i) && IsWalk(g, rest, rest[0], j)
    ensures IsWalk(g, [i] + rest, i, j)
  {
    var walk := [i] + rest;
    forall k | 0 <= k < |walk| - 1 ensures walk[k + 1] in Succ(g, walk[k]) {
      if k > 0 { assert walk[k] == rest[k - 1] && rest[k - 1 + 1] in Succ(g, rest[k - 1]); }
    }
  }

  // ----- what is not awaited need not be

  /** Task `p` is not `e` and does not wait for it. */
  ghost predicate Avoids(tasks: seq<Task>, p: nat, e: nat)
    requires p < |tasks|
  {
    tasks[p].index != e && !Awaits(tasks, tasks[p].index, e)
  }

  /** All positions are claimed, those from `n` on still wait, and exactly those below `n` that avoid `e` are
      finished. */
  ghost predicate AvoidedUpTo<O>(tasks: seq<Task>, s: State<O>, e: nat, n: nat)
    requires n <= |tasks|
  {
    && |s.workers| == |tasks| && PositionsInRange(tasks, s.workers)
    && (forall k :: n <= k < |tasks| ==> s.workers[k] == Waiting(k, 0))
    && (forall i :: i in s.closed <==> exists p :: 0 <= p < n && tasks[p].index == i && Avoids(tasks, p, e))
  }

  lemma {:induction false} AllClaim<O>(tasks: seq<Task>, run: Run<O>, n: nat) returns (schedule: seq<nat>)
    requires 0 < |tasks| && n <= |tasks|
    ensures Feasible(tasks, run, Init<O>(|tasks|), schedule)
    ensures
      var s := After(tasks, run, Init<O>(|tasks|), schedule);
      && |s.workers| == |tasks| && s.next == n && s.closed == {}
      && (forall k :: 0 <= k < n ==> s.workers[k] == Waiting(k, 0))
      && (forall k :: n <= k < |tasks| ==> s.workers[k] == Idle)
  {
    if n == 0 {
      schedule := [];
    } else {
      var before := AllClaim(tasks, run, n - 1);
      var s := After(tasks, run, Init<O>(|tasks|), before);
      OneStep(tasks, run, s, n - 1);
      AppendSchedules(tasks, run, Init<O>(|tasks|), before, [n - 1]);
      schedule := before + [n - 1];
    }
  }

  lemma OneStep<O>(tasks: seq<Task>, run: Run<O>, s: State<O>, w: nat)
    requires PositionsInRange(tasks, s.workers) && Enabled(tasks, s, w)
    ensures Feasible(tasks, run, s, [w]) && After(tasks, run, s, [w]) == Step(tasks, run, s, w)
  {
    assert [w][1..] == [];
    assert Feasible(tasks, run, Step(tasks, run, s, w), []);
  }

  /** A worker passes barriers that are closed. */
  lemma {:induction false} Passes<O>(tasks: seq<Task>, run: Run<O>, s: State<O>, w: nat, p: nat, k: nat)
    returns (schedule: seq<nat>)
    requires PositionsInRange(tasks, s.workers) && w < |s.workers| && s.workers[w] == Waiting(p, k) && p < |tasks|
    requires k <= |Barriers(tasks[p])| && forall b :: b in Barriers(tasks[p]) ==> b in s.closed
    ensures Feasible(tasks, run, s, schedule)
    ensures After(tasks, run, s, schedule) == s.(workers := s.workers[w := Waiting(p, |Barriers(tasks[p])|)])
    decreases |Barriers(tasks[p])| - k
  {
    if k == |Barriers(tasks[p])| {
      schedule := [];
      assert s.workers == s.workers[w := Waiting(p, k)];
    } else {
      assert Barriers(tasks[p])[k] in Barriers(tasks[p]);
      OneStep(tasks, run, s, w);
      var t := Step(tasks, run, s, w);
      assert t == s.(workers := s.workers[w := Waiting(p, k + 1)]);
      var rest := Passes(tasks, run, t, w, p, k + 1);
      AppendSchedules(tasks, run, s, [w], rest);
      schedule := [w] + rest;
    }
  }

  /** A worker passes its barriers and starts its task. */
  lemma Starts<O>(tasks: seq<Task>, run: Run<O>, s: State<O>, w: nat, p: nat) returns (schedule: seq<nat>)
    requires PositionsInRange(tasks, s.workers) && w < |s.workers| && s.workers[w] == Waiting(p, 0) && p < |tasks|
    requires forall b :: b in Barriers(tasks[p]) ==> b in s.closed
    ensures Feasible(tasks, run, s, schedule)
    ensures
      After(tasks, run, s, schedule) == s.(workers := s.workers[w := Running(p)], log := s.log + [tasks[p].index])
  {
    var passes := Passes(tasks, run, s, w, p, 0);
    var t := s.(workers := s.workers[w := Waiting(p, |Barriers(tasks[p])|)]);
    OneStep(tasks, run, t, w);
    AppendSchedules(tasks, run, s, passes, [w]);
    schedule := passes + [w];
  }

  /** ... and then finishes it. */
  lemma Finishes<O>(tasks: seq<Task>, run: Run<O>, s: State<O>, w: nat, p: nat) returns (schedule: seq<nat>)
    requires PositionsInRange(tasks, s.workers) && w < |s.workers| && s.workers[w] == Waiting(p, 0) && p < |tasks|
    requires forall b :: b in Barriers(tasks[p]) ==> b in s.closed
    ensures Feasible(tasks, run, s, schedule)
    ensures
      var t := After(tasks, run, s, schedule);
      && t.closed == s.closed + {tasks[p].index} && |t.workers| == |s.workers|
      && forall k :: 0 <= k < |s.workers| && k != w ==> t.workers[k] == s.workers[k]
  {
    var starts := Starts(tasks, run, s, w, p);
    var t := After(tasks, run, s, starts);
    OneStep(tasks, run, t, w);
    var u := Step(tasks, run, t, w);
    OneStep(tasks, run, u, w);
    AppendSchedules(tasks, run, t, [w], [w]);
    AppendSchedules(tasks, run, s, starts, [w] + [w]);
    schedule := starts + ([w] + [w]);
  }

  /** The barriers of a task that does not wait for `e` avoid `e`, and come earlier. */
  lemma BarrierAvoids(tasks: seq<Task>, p: nat, e: nat, b: nat)
    requires DistinctIndices(tasks) && Ordered(tasks) && p < |tasks| && b in Barriers(tasks[p])
    requires !Awaits(tasks, tasks[p].index, e)
    ensures exists q :: 0 <= q < p && tasks[q].index == b && Avoids(tasks, q, e)
  {
    var g := BarrierGraph(tasks);
    BarrierEdges(tasks, p);
    var k :| 0 <= k < |Barriers(tasks[p])| && Barriers(tasks[p])[k] == b;
    assert ListedBefore(tasks, b, p);
    var q :| 0 <= q < p && tasks[q].index == b;
    if b == e {
      EdgeReaches(g, tasks[p].index, e);
    } else if Awaits(tasks, b, e) {
      var c :| c in Succ(g, b) && Reaches(g, c, e);
      EdgeThenReaches(g, b, c, e);
    }
    assert Avoids(tasks, q, e);
  }

  lemma AvoidedNext<O>(tasks: seq<Task>, s: State<O>, t: State<O>, e: nat, n: nat)
    requires n < |tasks| && AvoidedUpTo(tasks, s, e, n)
    requires |t.workers| == |tasks| && PositionsInRange(tasks, t.workers)
    requires forall k :: n < k < |tasks| ==> t.workers[k] == s.workers[k]
    requires t.closed == if Avoids(tasks, n, e) then s.closed + {tasks[n].index} else s.closed
    ensures AvoidedUpTo(tasks, t, e, n + 1)
  {
    forall i ensures i in t.closed <==> exists p :: 0 <= p < n + 1 && tasks[p].index == i && Avoids(tasks, p, e) {
      if i in s.closed {
        var p :| 0 <= p < n && tasks[p].index == i && Avoids(tasks, p, e);
        assert 0 <= p < n + 1;
      }
      if p :| 0 <= p < n + 1 && tasks[p].index == i && Avoids(tasks, p, e) {
        if p < n { assert i in s.closed; }
      }
    }
  }

  lemma {:induction false} AvoidingRun<O>(tasks: seq<Task>, run: Run<O>, e: nat, n: nat) returns (schedule: seq<nat>)
    requires DistinctIndices(tasks) && Ordered(tasks) && 0 < |tasks| && n <= |tasks|
    ensures Feasible(tasks, run, Init<O>(|tasks|), schedule)
    ensures AvoidedUpTo(tasks, After(tasks, run, Init<O>(|tasks|), schedule), e, n)
  {
    if n == 0 {
      schedule := AllClaim(tasks, run, |tasks|);
    } else {
      var p := n - 1;
      var before := AvoidingRun(tasks, run, e, p);
      var s := After(tasks, run, Init<O>(|tasks|), before);
      if Avoids(tasks, p, e) {
        forall b | b in Barriers(tasks[p]) ensures b in s.closed { BarrierAvoids(tasks, p, e, b); }
        var more := Finishes(tasks, run, s, p, p);
        AppendSchedules(tasks, run, Init<O>(|tasks|), before, more);
        schedule := before + more;
        AvoidedNext(tasks, s, After(tasks, run, s, more), e, p);
      } else {
        schedule := before;
        AvoidedNext(tasks, s, s, e, p);
      }
    }
  }

  /** A run in which `p` starts although `e`, which it does not wait for, is not finished. */
  lemma StartsTooEarly<O>(tasks: seq<Task>, run: Run<O>, p: nat, e: nat) returns (schedule: seq<nat>)
    requires DistinctIndices(tasks) && Ordered(tasks) && p < |tasks| && !Awaits(tasks, tasks[p].index, e)
    ensures Feasible(tasks, run, Init<O>(|tasks|), schedule)
    ensures
      var s := After(tasks, run, Init<O>(|tasks|), schedule);
      tasks[p].index in s.log && e !in s.closed
  {
    var before := AvoidingRun(tasks, run, e, p);
    var s := After(tasks, run, Init<O>(|tasks|), before);
    forall b | b in Barriers(tasks[p]) ensures b in s.closed { BarrierAvoids(tasks, p, e, b); }
    var more := Starts(tasks, run, s, p, p);
    AppendSchedules(tasks, run, Init<O>(|tasks|), before, more);
    schedule := before + more;
    assert (s.log + [tasks[p].index])[|s.log|] == tasks[p].index;
  }

  /** In every run, `j` is finished before `i` starts. */
  ghost predicate FinishedFirst<O>(tasks: seq<Task>, run: Run<O>, i: nat, j: nat) {
    forall builders: int, schedule: seq<nat> :: Feasible(tasks, run, Init<O>(builders), schedule) ==>
      var s := After(tasks, run, Init<O>(builders), schedule);
      i in s.log ==> j in s.closed
  }

  /** For every builder count and schedule, a task is finished before another one starts exactly when that one waits for
      it, directly or through others. */
  lemma FinishedFirstExactly<O>(tasks: seq<Task>, run: Run<O>, p: nat, j: nat)
    requires DistinctIndices(tasks) && Ordered(tasks) && p < |tasks|
    ensures FinishedFirst(tasks, run, tasks[p].index, j) <==> Awaits(tasks, tasks[p].index, j)
  {
    var i := tasks[p].index;
    if Awaits(tasks, i, j) {
      var walk := EdgeWalk(BarrierGraph(tasks), i, j);
      forall builders: int, schedule: seq<nat> | Feasible(tasks, run, Init<O>(builders), schedule)
        ensures var s := After(tasks, run, Init<O>(builders), schedule); i in s.log ==> j in s.closed
      {
        var s := After(tasks, run, Init<O>(builders), schedule);
        InvInit<O>(tasks, builders);
        RunsKeepInv(tasks, run, Init<O>(builders), schedule);
        InvStartsInOrder(tasks, s);
        if i in s.log { AwaitedIsFinished(tasks, s, i, j, walk); }
      }
    } else {
      var schedule := StartsTooEarly(tasks, run, p, j);
    }
  }

  // ----- projects

  /** Project `i` references `j`, or comes after it and may write the same file. */
  ghost predicate WaitsDirectly(projects: seq<Project>, overlap: (Path, Path) -> bool, i: nat, j: nat) {
    && i < |projects| && j < |projects|
    && (projects[j].configPath in projects[i].references
        || (j < i && overlap(projects[j].configPath, projects[i].configPath)))
  }

  ghost predicate IsWaitChain(
    projects: seq<Project>, overlap: (Path, Path) -> bool, chain: seq<nat>, i: nat, j: nat)
  {
    && |chain| > 1 && chain[0] == i && chain[|chain| - 1] == j
    && forall k :: 0 <= k < |chain| - 1 ==> WaitsDirectly(projects, overlap, chain[k], chain[k + 1])
  }

  lemma BarrierExactly(
    projects: seq<Project>, overlap: (Path, Path) -> bool, waitOnly: map<Path, seq<Path>>, i: nat, j: nat)
    requires GraphOk(projects, overlap, waitOnly) && i < |projects|
    ensures j in Barriers(TasksOf(projects, waitOnly)[i]) <==> WaitsDirectly(projects, overlap, i, j)
  {
    InGraphExactly(projects, projects[i].references, j);
    InGraphExactly(projects, CrossProject.Get(waitOnly, projects[i].configPath), j);
    assert CrossProject.RowDone(projects, overlap, waitOnly, i);
    if j < |projects| {
      CrossProject.EarlierOverlapsExactly(projects, overlap, i, i, projects[j].configPath);
      EarlierExactly(projects, i, j);
    }
  }

  lemma EarlierExactly(projects: seq<Project>, i: nat, j: nat)
    requires DistinctProjects(projects) && i <= |projects| && j < |projects|
    ensures ProjectEarlier(projects, projects[j].configPath, i) <==> j < i
  {
    if ProjectEarlier(projects, projects[j].configPath, i) {
      var k :| 0 <= k < i && projects[k].configPath == projects[j].configPath;
    }
  }

  lemma ChainIsWalk(
    projects: seq<Project>, overlap: (Path, Path) -> bool, waitOnly: map<Path, seq<Path>>, chain: seq<nat>,
    i: nat, j: nat)
    requires GraphOk(projects, overlap, waitOnly) && |chain| > 1
    ensures
      IsWaitChain(projects, overlap, chain, i, j) <==>
      IsWalk(BarrierGraph(TasksOf(projects, waitOnly)), chain, i, j)
  {
    var tasks := TasksOf(projects, waitOnly);
    var g := BarrierGraph(tasks);
    TasksAreOrdered(projects, overlap, waitOnly);
    forall k | 0 <= k < |chain| - 1
      ensures WaitsDirectly(projects, overlap, chain[k], chain[k + 1]) <==> chain[k + 1] in Succ(g, chain[k])
    {
      if chain[k] < |projects| {
        BarrierExactly(projects, overlap, waitOnly, chain[k], chain[k + 1]);
        BarrierEdges(tasks, chain[k]);
      } else {
        NoSuchTask(tasks, chain[k]);
      }
    }
  }

  lemma NoSuchTask(tasks: seq<Task>, i: nat)
    requires i >= |tasks| && forall p :: 0 <= p < |tasks| ==> tasks[p].index == p
    ensures Succ(BarrierGraph(tasks), i) == []
  {
  }

  /** Some chain of references between projects and of overlaps leads from `i` to `j`. */
  ghost predicate WaitsThrough(projects: seq<Project>, overlap: (Path, Path) -> bool, i: nat, j: nat) {
    exists chain :: IsWaitChain(projects, overlap, chain, i, j)
  }

  /** In every drain a project is finished before another one starts exactly when a chain of references between projects
      and of overlaps leads to it; references that pass through a coordinator config do not count. */
  lemma ProjectFinishedFirstExactly<O>(
    projects: seq<Project>, overlap: (Path, Path) -> bool, waitOnly: map<Path, seq<Path>>, run: Run<O>, i: nat, j: nat)
    requires GraphOk(projects, overlap, waitOnly) && i < |projects|
    ensures FinishedFirst(TasksOf(projects, waitOnly), run, i, j) <==> WaitsThrough(projects, overlap, i, j)
  {
    TasksAreOrdered(projects, overlap, waitOnly);
    FinishedFirstExactly(TasksOf(projects, waitOnly), run, i, j);
    AwaitsIsChain(projects, overlap, waitOnly, i, j);
  }

  lemma AwaitsIsChain(
    projects: seq<Project>, overlap: (Path, Path) -> bool, waitOnly: map<Path, seq<Path>>, i: nat, j: nat)
    requires GraphOk(projects, overlap, waitOnly)
    ensures Awaits(TasksOf(projects, waitOnly), i, j) <==> WaitsThrough(projects, overlap, i, j)
  {
    var g := BarrierGraph(TasksOf(projects, waitOnly));
    if ReachesByEdge(g, i, j) {
      var walk := EdgeWalk(g, i, j);
      ChainIsWalk(projects, overlap, waitOnly, walk, i, j);
    }
    if WaitsThrough(projects, overlap, i, j) {
      var chain :| IsWaitChain(projects, overlap, chain, i, j);
      ChainIsWalk(projects, overlap, waitOnly, chain, i, j);
      WalkStartsByEdge(g, chain, i, j);
    }
  }

  lemma WalkStartsByEdge(g: Graph<nat>, walk: seq<nat>, i: nat, j: nat)
    requires IsWalk(g, walk, i, j) && |walk| > 1
    ensures ReachesByEdge(g, i, j)
  {
    assert walk[1] in Succ(g, walk[0]);
    assert IsWalk(g, walk[1..], walk[1], j);
  }

  /** Project `i` references project `j`, directly or through any configs. */
  ghost predicate IsReferenced(configs: Configs, projects: seq<Project>, i: nat, j: nat)
    requires i < |projects|
  {
    j < |projects| && ReachesByEdge(References(configs), projects[i].configPath, projects[j].configPath)
  }

  /** Every project that project `i` references is finished before it starts. */
  ghost predicate ReferencedFirst<O>(
    configs: Configs, projects: seq<Project>, waitOnly: map<Path, seq<Path>>, run: Run<O>, i: nat)
    requires i < |projects|
  {
    forall j: nat :: IsReferenced(configs, projects, i, j) ==> FinishedFirst(TasksOf(projects, waitOnly), run, i, j)
  }

  /** That holds exactly when each of them is also led to by a chain between projects. */
  lemma ReferencedFirstExactly<O>(
    configs: Configs, projects: seq<Project>, overlap: (Path, Path) -> bool, waitOnly: map<Path, seq<Path>>,
    run: Run<O>, i: nat)
    requires GraphOk(projects, overlap, waitOnly) && i < |projects|
    ensures
      ReferencedFirst(configs, projects, waitOnly, run, i) <==>
      forall j: nat :: IsReferenced(configs, projects, i, j) ==> WaitsThrough(projects, overlap, i, j)
  {
    forall j | 0 <= j < |projects|
      ensures FinishedFirst(TasksOf(projects, waitOnly), run, i, j) <==> WaitsThrough(projects, overlap, i, j)
    {
      ProjectFinishedFirstExactly(projects, overlap, waitOnly, run, i, j);
    }
  }

  /** "/p" references the coordinator "/c", which references "/q", and nothing overlaps: some drain starts "/p" before
      "/q" is finished. */
  lemma CoordinatorGapExample<O>(run: Run<O>)
    ensures
      var configs: Configs :=
        map["/p" := Config(["/c"], false), "/c" := Config(["/q"], true), "/q" := Config([], false)];
      var projects := [Project("/q", [], false), Project("/p", ["/c"], false)];
      && GraphOk(projects, (a, b) => false, map[])
      && IsReferenced(configs, projects, 1, 0) && !ReferencedFirst(configs, projects, map[], run, 1)
  {
    var configs: Configs :=
      map["/p" := Config(["/c"], false), "/c" := Config(["/q"], true), "/q" := Config([], false)];
    var projects := [Project("/q", [], false), Project("/p", ["/c"], false)];
    var overlap := (a: Path, b: Path) => false;
    GapGraph(configs);
    GapProjects(projects, overlap);
    WaitsForNothing(projects, overlap, 1, 0);
    ProjectFinishedFirstExactly(projects, overlap, map[], run, 1, 0);
  }

  lemma WaitsForNothing(projects: seq<Project>, overlap: (Path, Path) -> bool, i: nat, j: nat)
    requires forall k: nat :: !WaitsDirectly(projects, overlap, i, k)
    ensures !WaitsThrough(projects, overlap, i, j)
  {
    forall chain ensures !IsWaitChain(projects, overlap, chain, i, j) {
      assert |chain| > 1 ==> !WaitsDirectly(projects, overlap, i, chain[1]);
    }
  }

  lemma GapGraph(configs: Configs)
    requires configs == map["/p" := Config(["/c"], false), "/c" := Config(["/q"], true), "/q" := Config([], false)]
    ensures ReachesByEdge(References(configs), "/p", "/q")
  {
    var g := References(configs);
    assert Succ(g, "/p") == ["/c"] && Succ(g, "/c") == ["/q"];
    EdgeReaches(g, "/c", "/q");
  }

  lemma GapProjects(projects: seq<Project>, overlap: (Path, Path) -> bool)
    requires projects == [Project("/q", [], false), Project("/p", ["/c"], false)] && forall a, b :: !overlap(a, b)
    ensures GraphOk(projects, overlap, map[])
  {
    assert !Listed(projects, "/c");
    forall i | 0 <= i < |projects| ensures CrossProject.RowDone(projects, overlap, map[], i) {
      NoOverlaps(projects, overlap, i, i);
    }
  }

  lemma {:induction false} NoOverlaps(projects: seq<Project>, overlap: (Path, Path) -> bool, i: nat, n: nat)
    requires n <= i < |projects| && forall a, b :: !overlap(a, b)
    ensures CrossProject.EarlierOverlaps(projects, overlap, i, n) == []
  {
    if n > 0 { NoOverlaps(projects, overlap, i, n - 1); }
  }
}
