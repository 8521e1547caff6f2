/**
 The task scheduler of internal/compile/solution_scheduler.go as a state machine.

 Each builder goroutine is a `Worker`.  The shared state is the claim counter, the set of
 closed done-channels and the outcome table.  One step is one synchronisation point of one
 goroutine: claiming a position, receiving from one done-channel, starting `run`,
 storing its outcome, closing the task's own channel.  A schedule is the sequence of workers
 that step; every interleaving of the goroutines is a schedule.
 */
module Scheduler {
  import opened Sequences

  datatype Task = Task(index: nat, predecessors: seq<nat>, waitOnly: seq<nat>)

  datatype Worker =
    | Idle                                    // about to claim
    | Waiting(position: nat, passed: nat)     // claimed; `passed` barriers received so far
    | Running(position: nat)                  // inside run
    | Recorded(position: nat)                 // outcome stored, own channel not yet closed
    | Exited

  /** `log` is the history of calls of `run`, by task index. */
  datatype State<O> = State(next: nat, closed: set<nat>, outcomes: map<nat, O>,
                            workers: seq<Worker>, log: seq<nat>)

  /** What a task's `run` returns, given the outcome table it can see while it runs. */
  type Run<!O> = (nat, map<nat, O>) -> O

  function Barriers(t: Task): seq<nat> {
    t.predecessors + t.waitOnly
  }

  function EffectiveBuilders(builders: int): (n: nat)
    ensures n > 0
  {
    if builders <= 0 then 4 else builders
  }

  function Init<O>(builders: int): State<O> {
    State(0, {}, map[], seq(EffectiveBuilders(builders), i => Idle), [])
  }

  // ----- steps

  predicate PositionsInRange(tasks: seq<Task>, workers: seq<Worker>) {
    forall w :: 0 <= w < |workers| && Holds(workers[w]) ==> workers[w].position < |tasks|
  }

  predicate Holds(k: Worker) {
    k.Waiting? || k.Running? || k.Recorded?
  }

  predicate Enabled<O>(tasks: seq<Task>, s: State<O>, w: nat)
    requires PositionsInRange(tasks, s.workers)
  {
    w < |s.workers| &&
    match s.workers[w]
    case Idle => true
    case Waiting(p, k) => k < |Barriers(tasks[p])| ==> Barriers(tasks[p])[k] in s.closed
    case Running(p) => true
    case Recorded(p) => true
    case Exited => false
  }

  function Step<O>(tasks: seq<Task>, run: Run<O>, s: State<O>, w: nat): (t: State<O>)
    requires PositionsInRange(tasks, s.workers) && Enabled(tasks, s, w)
    ensures PositionsInRange(tasks, t.workers) && |t.workers| == |s.workers|
  {
    match s.workers[w]
    case Idle =>
      s.(next := s.next + 1,
         workers := s.workers[w := if s.next < |tasks| then Waiting(s.next, 0) else Exited])
    case Waiting(p, k) =>
      if k < |Barriers(tasks[p])| then
        s.(workers := s.workers[w := Waiting(p, k + 1)])
      else
        s.(workers := s.workers[w := Running(p)], log := s.log + [tasks[p].index])
    case Running(p) =>
      s.(outcomes := s.outcomes[tasks[p].index := run(tasks[p].index, s.outcomes)],
         workers := s.workers[w := Recorded(p)])
    case Recorded(p) =>
      s.(closed := s.closed + {tasks[p].index}, workers := s.workers[w := Idle])
  }

  /** Every step of `schedule` is enabled when it is taken. */
  predicate Feasible<O>(tasks: seq<Task>, run: Run<O>, s: State<O>, schedule: seq<nat>)
    requires PositionsInRange(tasks, s.workers)
    decreases |schedule|
  {
    schedule == [] ||
    (Enabled(tasks, s, schedule[0]) && Feasible(tasks, run, Step(tasks, run, s, schedule[0]), schedule[1..]))
  }

  function After<O>(tasks: seq<Task>, run: Run<O>, s: State<O>, schedule: seq<nat>): (t: State<O>)
    requires PositionsInRange(tasks, s.workers)
    requires Feasible(tasks, run, s, schedule)
    ensures PositionsInRange(tasks, t.workers) && |t.workers| == |s.workers|
    decreases |schedule|
  {
    if schedule == [] then s
    else After(tasks, run, Step(tasks, run, s, schedule[0]), schedule[1..])
  }

  ghost predicate Stuck<O>(tasks: seq<Task>, s: State<O>)
    requires PositionsInRange(tasks, s.workers)
  {
    forall w :: 0 <= w < |s.workers| ==> !Enabled(tasks, s, w)
  }

  ghost predicate AllExited<O>(s: State<O>) {
    forall w :: 0 <= w < |s.workers| ==> s.workers[w].Exited?
  }

  // ----- what callers must supply

  ghost predicate DistinctIndices(tasks: seq<Task>) {
    forall p, q :: 0 <= p < q < |tasks| ==> tasks[p].index != tasks[q].index
  }

  ghost predicate ListedBefore(tasks: seq<Task>, b: nat, p: nat)
    requires p <= |tasks|
  {
    exists q :: 0 <= q < p && tasks[q].index == b
  }

  /** Every barrier of every task is the index of a task at an earlier position. */
  ghost predicate Ordered(tasks: seq<Task>) {
    forall p, k :: 0 <= p < |tasks| && 0 <= k < |Barriers(tasks[p])| ==> ListedBefore(tasks, Barriers(tasks[p])[k], p)
  }

  // ----- the invariant

  ghost predicate HeldAt<O>(s: State<O>, p: nat) {
    exists w :: 0 <= w < |s.workers| && Holds(s.workers[w]) && s.workers[w].position == p
  }

  ghost predicate BarriersClosed<O>(tasks: seq<Task>, s: State<O>, p: nat, k: nat)
    requires p < |tasks|
  {
    k <= |Barriers(tasks[p])| && forall j :: 0 <= j < k ==> Barriers(tasks[p])[j] in s.closed
  }

  ghost predicate WorkerOk<O>(tasks: seq<Task>, s: State<O>, w: nat)
    requires w < |s.workers|
  {
    match s.workers[w]
    case Idle => true
    case Waiting(p, k) => p < |tasks| && p < s.next && BarriersClosed(tasks, s, p, k)
                          && tasks[p].index !in s.closed && tasks[p].index !in s.outcomes && tasks[p].index !in s.log
    case Running(p) => p < |tasks| && p < s.next && BarriersClosed(tasks, s, p, |Barriers(tasks[p])|)
                       && tasks[p].index !in s.closed && tasks[p].index !in s.outcomes && tasks[p].index in s.log
    case Recorded(p) => p < |tasks| && p < s.next && BarriersClosed(tasks, s, p, |Barriers(tasks[p])|)
                        && tasks[p].index !in s.closed && tasks[p].index in s.outcomes && tasks[p].index in s.log
    case Exited => s.next >= |tasks|
  }

  /** A position no worker holds is either unclaimed or finished. */
  ghost predicate PositionOk<O>(tasks: seq<Task>, s: State<O>, p: nat)
    requires p < |tasks|
  {
    && (p >= s.next ==>
      !HeldAt(s, p) && tasks[p].index !in s.closed && tasks[p].index !in s.outcomes && tasks[p].index !in s.log)
    && (p < s.next && !HeldAt(s, p) ==>
          tasks[p].index in s.closed && tasks[p].index in s.outcomes && tasks[p].index in s.log
          && BarriersClosed(tasks, s, p, |Barriers(tasks[p])|))
  }

  ghost predicate OneHolderEach(workers: seq<Worker>) {
    forall v, w :: 0 <= v < w < |workers| && Holds(workers[v]) && Holds(workers[w]) ==>
      workers[v].position != workers[w].position
  }

  ghost predicate IsIndex(tasks: seq<Task>, i: nat) {
    exists p :: 0 <= p < |tasks| && tasks[p].index == i
  }

  ghost predicate OnlyIndices<O>(tasks: seq<Task>, s: State<O>) {
    && (forall i :: i in s.outcomes ==> IsIndex(tasks, i))
    && (forall i :: i in s.closed ==> IsIndex(tasks, i))
    && (forall i :: i in s.log ==> IsIndex(tasks, i))
  }

  ghost predicate Inv<O>(tasks: seq<Task>, s: State<O>) {
    && |s.workers| > 0
    && (forall w :: 0 <= w < |s.workers| ==> WorkerOk(tasks, s, w))
    && (forall p :: 0 <= p < |tasks| ==> PositionOk(tasks, s, p))
    && OneHolderEach(s.workers)
    && OnlyIndices(tasks, s)
    && Distinct(s.log)
  }

  lemma InvInit<O>(tasks: seq<Task>, builders: int)
    ensures Inv(tasks, Init<O>(builders))
  {
  }

  /** Replacing worker `w` changes who is held only at the two positions involved. */
  lemma HeldAfter<O>(s: State<O>, t: State<O>, w: nat, q: nat)
    requires w < |s.workers| && |t.workers| == |s.workers|
    requires t.workers == s.workers[w := t.workers[w]]
    requires OneHolderEach(s.workers)
    ensures !(Holds(s.workers[w]) && s.workers[w].position == q) && !(Holds(t.workers[w]) && t.workers[w].position == q)
            ==> (HeldAt(t, q) <==> HeldAt(s, q))
    ensures Holds(t.workers[w]) && t.workers[w].position == q ==> HeldAt(t, q)
    ensures Holds(s.workers[w]) && s.workers[w].position == q ==> HeldAt(s, q)
    ensures Holds(s.workers[w]) && s.workers[w].position == q && !Holds(t.workers[w]) ==> !HeldAt(t, q)
  {
    if HeldAt(s, q) && !(Holds(s.workers[w]) && s.workers[w].position == q) {
      var v :| 0 <= v < |s.workers| && Holds(s.workers[v]) && s.workers[v].position == q;
      assert t.workers[v] == s.workers[v];
    }
    if HeldAt(t, q) && !(Holds(t.workers[w]) && t.workers[w].position == q) {
      var v :| 0 <= v < |t.workers| && Holds(t.workers[v]) && t.workers[v].position == q;
      assert s.workers[v] == t.workers[v];
    }
  }

  lemma InvStep<O>(tasks: seq<Task>, run: Run<O>, s: State<O>, w: nat)
    requires DistinctIndices(tasks) && Inv(tasks, s)
    requires PositionsInRange(tasks, s.workers) && Enabled(tasks, s, w)
    ensures Inv(tasks, Step(tasks, run, s, w))
  {
    var t := Step(tasks, run, s, w);
    assert WorkerOk(tasks, s, w);
    forall p | 0 <= p < |tasks| ensures PositionOk(tasks, t, p) { PositionKept(tasks, run, s, w, p); }
    forall v | 0 <= v < |t.workers| ensures WorkerOk(tasks, t, v) { WorkerKept(tasks, run, s, w, v); }
    HoldersKept(tasks, run, s, w);
  }

  lemma PositionKept<O>(tasks: seq<Task>, run: Run<O>, s: State<O>, w: nat, p: nat)
    requires DistinctIndices(tasks) && Inv(tasks, s) && p < |tasks|
    requires PositionsInRange(tasks, s.workers) && Enabled(tasks, s, w)
    ensures PositionOk(tasks, Step(tasks, run, s, w), p)
  {
    assert WorkerOk(tasks, s, w) && PositionOk(tasks, s, p);
    HeldAfter(s, Step(tasks, run, s, w), w, p);
  }

  lemma WorkerKept<O>(tasks: seq<Task>, run: Run<O>, s: State<O>, w: nat, v: nat)
    requires DistinctIndices(tasks) && Inv(tasks, s) && v < |s.workers|
    requires PositionsInRange(tasks, s.workers) && Enabled(tasks, s, w)
    ensures WorkerOk(tasks, Step(tasks, run, s, w), v)
  {
    assert WorkerOk(tasks, s, v) && WorkerOk(tasks, s, w);
    if s.next < |tasks| { assert PositionOk(tasks, s, s.next); }
  }

  lemma HoldersKept<O>(tasks: seq<Task>, run: Run<O>, s: State<O>, w: nat)
    requires Inv(tasks, s) && PositionsInRange(tasks, s.workers) && Enabled(tasks, s, w)
    ensures OneHolderEach(Step(tasks, run, s, w).workers)
  {
    forall v | 0 <= v < |s.workers| && Holds(s.workers[v]) ensures s.workers[v].position < s.next {
      assert WorkerOk(tasks, s, v);
    }
  }

  // ----- progress: the least claimed, unfinished position can always step

  lemma BlockedHasEnabledBelow<O>(tasks: seq<Task>, s: State<O>, w: nat) returns (v: nat)
    requires DistinctIndices(tasks) && Ordered(tasks) && Inv(tasks, s) && PositionsInRange(tasks, s.workers)
    requires w < |s.workers| && Holds(s.workers[w])
    ensures Enabled(tasks, s, v)
    decreases s.workers[w].position
  {
    v := w;
    if !Enabled(tasks, s, w) {
      assert WorkerOk(tasks, s, w);
      var p, k := s.workers[w].position, s.workers[w].passed;
      assert ListedBefore(tasks, Barriers(tasks[p])[k], p);
      var q :| 0 <= q < p && tasks[q].index == Barriers(tasks[p])[k];
      assert PositionOk(tasks, s, q);
      assert HeldAt(s, q);
      var u :| 0 <= u < |s.workers| && Holds(s.workers[u]) && s.workers[u].position == q;
      v := BlockedHasEnabledBelow(tasks, s, u);
    }
  }

  lemma Progress<O>(tasks: seq<Task>, s: State<O>)
    requires DistinctIndices(tasks) && Ordered(tasks) && Inv(tasks, s) && PositionsInRange(tasks, s.workers)
    ensures Stuck(tasks, s) <==> AllExited(s)
  {
    if !AllExited(s) {
      var w :| 0 <= w < |s.workers| && !s.workers[w].Exited?;
      if Holds(s.workers[w]) {
        var v := BlockedHasEnabledBelow(tasks, s, w);
      } else {
        assert Enabled(tasks, s, w);
      }
    }
  }

  // ----- every step uses up exactly one unit of a fixed amount of work

  function WorkAt(tasks: seq<Task>, from: nat): nat
    decreases |tasks| - from
  {
    if from >= |tasks| then 0 else |Barriers(tasks[from])| + 4 + WorkAt(tasks, from + 1)
  }

  function WorkerWork(tasks: seq<Task>, k: Worker): nat {
    match k
    case Idle => 1
    case Waiting(p, passed) =>
      4 + if p < |tasks| && passed <= |Barriers(tasks[p])| then |Barriers(tasks[p])| - passed else 0
    case Running(_) => 3
    case Recorded(_) => 2
    case Exited => 0
  }

  function WorkersWork(tasks: seq<Task>, workers: seq<Worker>): seq<nat> {
    seq(|workers|, i requires 0 <= i < |workers| => WorkerWork(tasks, workers[i]))
  }

  function Work<O>(tasks: seq<Task>, s: State<O>): nat {
    WorkAt(tasks, s.next) + Sum(WorkersWork(tasks, s.workers))
  }

  lemma StepUsesOneUnit<O>(tasks: seq<Task>, run: Run<O>, s: State<O>, w: nat)
    requires Inv(tasks, s) && PositionsInRange(tasks, s.workers) && Enabled(tasks, s, w)
    ensures Work(tasks, Step(tasks, run, s, w)) + 1 == Work(tasks, s)
  {
    var t := Step(tasks, run, s, w);
    var a, b := WorkersWork(tasks, s.workers), WorkersWork(tasks, t.workers);
    assert WorkerOk(tasks, s, w);
    assert b == a[w := WorkerWork(tasks, t.workers[w])];
    SumUpdate(a, w, WorkerWork(tasks, t.workers[w]));
  }

  /** The length of every complete run. */
  function TotalSteps(tasks: seq<Task>, builders: int): nat {
    WorkAt(tasks, 0) + EffectiveBuilders(builders)
  }

  // ----- the reference: one left-to-right pass

  function Sequential<O>(tasks: seq<Task>, run: Run<O>, k: nat): map<nat, O>
    requires k <= |tasks|
  {
    if k == 0 then map[]
    else
      var before := Sequential(tasks, run, k - 1);
      before[tasks[k - 1].index := run(tasks[k - 1].index, before)]
  }

  /** `run` of a task looks only at the outcomes of its predecessors. */
  ghost predicate ReadsOnlyPredecessors<O(!new)>(tasks: seq<Task>, run: Run<O>) {
    forall p, m: map<nat, O>, n: map<nat, O> ::
      0 <= p < |tasks| && AgreeOn(tasks[p].predecessors, m, n) ==> run(tasks[p].index, m) == run(tasks[p].index, n)
  }

  ghost predicate AgreeOn<O>(keys: seq<nat>, m: map<nat, O>, n: map<nat, O>) {
    forall b :: b in keys ==> b in m && b in n && m[b] == n[b]
  }

  lemma {:induction false} SequentialEntry<O>(tasks: seq<Task>, run: Run<O>, k: nat, p: nat)
    requires DistinctIndices(tasks) && p < k <= |tasks|
    ensures tasks[p].index in Sequential(tasks, run, k)
    ensures Sequential(tasks, run, k)[tasks[p].index] == run(tasks[p].index, Sequential(tasks, run, p))
  {
    if p < k - 1 { SequentialEntry(tasks, run, k - 1, p); }
  }

  lemma {:induction false} SequentialKeys<O>(tasks: seq<Task>, run: Run<O>, k: nat, i: nat)
    requires k <= |tasks|
    ensures i in Sequential(tasks, run, k) ==> ListedBefore(tasks, i, k)
  {
    if k > 0 && i in Sequential(tasks, run, k) {
      if i == tasks[k - 1].index {
        assert ListedBefore(tasks, i, k);
      } else {
        SequentialKeys(tasks, run, k - 1, i);
      }
    }
  }

  /** Every stored outcome is the one the left-to-right pass stores. */
  ghost predicate OutcomesSequential<O>(tasks: seq<Task>, run: Run<O>, s: State<O>) {
    var final := Sequential(tasks, run, |tasks|);
    forall i :: i in s.outcomes ==> i in final && s.outcomes[i] == final[i]
  }

  lemma ClosedHasOutcome<O>(tasks: seq<Task>, s: State<O>, q: nat)
    requires DistinctIndices(tasks) && Inv(tasks, s) && q < |tasks| && tasks[q].index in s.closed
    ensures tasks[q].index in s.outcomes && !HeldAt(s, q)
  {
    assert PositionOk(tasks, s, q);
    forall w | 0 <= w < |s.workers| && Holds(s.workers[w]) ensures s.workers[w].position != q {
      assert WorkerOk(tasks, s, w);
    }
  }

  lemma StepKeepsOutcomesSequential<O(!new)>(tasks: seq<Task>, run: Run<O>, s: State<O>, w: nat)
    requires DistinctIndices(tasks) && Ordered(tasks) && ReadsOnlyPredecessors(tasks, run)
    requires Inv(tasks, s) && OutcomesSequential(tasks, run, s)
    requires PositionsInRange(tasks, s.workers) && Enabled(tasks, s, w)
    ensures OutcomesSequential(tasks, run, Step(tasks, run, s, w))
  {
    if s.workers[w].Running? {
      var p := s.workers[w].position;
      assert WorkerOk(tasks, s, w);
      SequentialEntry(tasks, run, |tasks|, p);
      forall b | b in tasks[p].predecessors
        ensures b in s.outcomes && b in Sequential(tasks, run, p) && s.outcomes[b] == Sequential(tasks, run, p)[b]
      {
        var k :| 0 <= k < |tasks[p].predecessors| && tasks[p].predecessors[k] == b;
        assert Barriers(tasks[p])[k] == b;
        assert ListedBefore(tasks, b, p);
        var q :| 0 <= q < p && tasks[q].index == b;
        ClosedHasOutcome(tasks, s, q);
        SequentialEntry(tasks, run, |tasks|, q);
        SequentialEntry(tasks, run, p, q);
      }
      assert AgreeOn(tasks[p].predecessors, s.outcomes, Sequential(tasks, run, p));
    }
  }

  // ----- whole runs

  lemma {:induction false} RunsKeepInv<O>(tasks: seq<Task>, run: Run<O>, s: State<O>, schedule: seq<nat>)
    requires DistinctIndices(tasks) && Inv(tasks, s) && PositionsInRange(tasks, s.workers)
    requires Feasible(tasks, run, s, schedule)
    ensures Inv(tasks, After(tasks, run, s, schedule))
    ensures Work(tasks, After(tasks, run, s, schedule)) + |schedule| == Work(tasks, s)
    decreases |schedule|
  {
    if schedule != [] {
      InvStep(tasks, run, s, schedule[0]);
      StepUsesOneUnit(tasks, run, s, schedule[0]);
      RunsKeepInv(tasks, run, Step(tasks, run, s, schedule[0]), schedule[1..]);
    }
  }

  lemma {:induction false} RunsKeepOutcomes<O(!new)>(tasks: seq<Task>, run: Run<O>, s: State<O>, schedule: seq<nat>)
    requires DistinctIndices(tasks) && Ordered(tasks) && ReadsOnlyPredecessors(tasks, run)
    requires Inv(tasks, s) && OutcomesSequential(tasks, run, s) && PositionsInRange(tasks, s.workers)
    requires Feasible(tasks, run, s, schedule)
    ensures OutcomesSequential(tasks, run, After(tasks, run, s, schedule))
    decreases |schedule|
  {
    if schedule != [] {
      InvStep(tasks, run, s, schedule[0]);
      StepKeepsOutcomesSequential(tasks, run, s, schedule[0]);
      RunsKeepOutcomes(tasks, run, Step(tasks, run, s, schedule[0]), schedule[1..]);
    }
  }

  lemma WorkInit<O>(tasks: seq<Task>, builders: int)
    ensures Work(tasks, Init<O>(builders)) == TotalSteps(tasks, builders)
  {
    SumConst(WorkersWork(tasks, Init<O>(builders).workers), 1);
  }

  function Indices(tasks: seq<Task>): seq<nat> {
    seq(|tasks|, p requires 0 <= p < |tasks| => tasks[p].index)
  }

  lemma ExitedMeansDone<O>(tasks: seq<Task>, s: State<O>)
    requires DistinctIndices(tasks) && Inv(tasks, s) && AllExited(s)
    ensures multiset(s.log) == multiset(Indices(tasks))
    ensures forall i :: i in s.closed <==> i in Indices(tasks)
    ensures forall i :: i in s.outcomes <==> i in Indices(tasks)
    ensures Work(tasks, s) == 0
  {
    assert WorkerOk(tasks, s, 0);
    forall p | 0 <= p < |tasks|
      ensures tasks[p].index in s.closed && tasks[p].index in s.outcomes && tasks[p].index in s.log
    {
      assert PositionOk(tasks, s, p);
    }
    forall i ensures i in Indices(tasks) <==> IsIndex(tasks, i) {
      if IsIndex(tasks, i) {
        var p :| 0 <= p < |tasks| && tasks[p].index == i;
        assert Indices(tasks)[p] == i;
      }
    }
    DistinctSameElements(s.log, Indices(tasks));
    SumAllZero(WorkersWork(tasks, s.workers));
  }

  /**
   For every builder count and every interleaving: a run can always be continued until
   all workers have returned, it is never longer than `TotalSteps`, and when it is over it has
   taken exactly that many steps, `run` was called exactly once for each task and every
   done-channel is closed.
   */
  lemma EveryRunCompletes<O>(tasks: seq<Task>, builders: int, run: Run<O>, schedule: seq<nat>)
    requires DistinctIndices(tasks) && Ordered(tasks)
    requires Feasible(tasks, run, Init<O>(builders), schedule)
    ensures |schedule| <= TotalSteps(tasks, builders)
    ensures
      var s := After(tasks, run, Init<O>(builders), schedule);
      if |schedule| < TotalSteps(tasks, builders)
      then !Stuck(tasks, s)
      else AllExited(s) && multiset(s.log) == multiset(Indices(tasks)) && forall i :: i in s.closed <==>
        i in Indices(tasks)
  {
    InvInit<O>(tasks, builders);
    RunsKeepInv(tasks, run, Init<O>(builders), schedule);
    WorkInit<O>(tasks, builders);
    var s := After(tasks, run, Init<O>(builders), schedule);
    Progress(tasks, s);
    if AllExited(s) {
      ExitedMeansDone(tasks, s);
    } else {
      var w :| 0 <= w < |s.workers| && Enabled(tasks, s, w);
      StepUsesOneUnit(tasks, run, s, w);
    }
  }

  /** The outcome table of a complete run is that of the left-to-right pass, whatever the schedule. */
  lemma ScheduleIndependence<O(!new)>(tasks: seq<Task>, builders: int, run: Run<O>, schedule: seq<nat>)
    requires DistinctIndices(tasks) && Ordered(tasks) && ReadsOnlyPredecessors(tasks, run)
    requires Feasible(tasks, run, Init<O>(builders), schedule) && |schedule| == TotalSteps(tasks, builders)
    ensures After(tasks, run, Init<O>(builders), schedule).outcomes == Sequential(tasks, run, |tasks|)
  {
    InvInit<O>(tasks, builders);
    RunsKeepInv(tasks, run, Init<O>(builders), schedule);
    RunsKeepOutcomes(tasks, run, Init<O>(builders), schedule);
    EveryRunCompletes(tasks, builders, run, schedule);
    var s := After(tasks, run, Init<O>(builders), schedule);
    ExitedMeansDone(tasks, s);
    FinalOutcomes(tasks, run, s);
  }

  lemma FinalOutcomes<O>(tasks: seq<Task>, run: Run<O>, s: State<O>)
    requires DistinctIndices(tasks) && Inv(tasks, s) && AllExited(s) && OutcomesSequential(tasks, run, s)
    ensures s.outcomes == Sequential(tasks, run, |tasks|)
  {
    ExitedMeansDone(tasks, s);
    var final := Sequential(tasks, run, |tasks|);
    forall i | i in final ensures i in s.outcomes {
      SequentialKeys(tasks, run, |tasks|, i);
      var p :| 0 <= p < |tasks| && tasks[p].index == i;
      assert Indices(tasks)[p] == i;
    }
  }

  /** A task never runs while one of its barriers is unfinished. */
  lemma BarriersExclude<O>(tasks: seq<Task>, builders: int, run: Run<O>, schedule: seq<nat>, v: nat, w: nat)
    requires DistinctIndices(tasks)
    requires Feasible(tasks, run, Init<O>(builders), schedule)
    requires
      var s := After(tasks, run, Init<O>(builders), schedule);
      v < |s.workers| && w < |s.workers| && s.workers[v].Running? && s.workers[w].Running?
    ensures
      var s := After(tasks, run, Init<O>(builders), schedule);
      tasks[s.workers[v].position].index !in Barriers(tasks[s.workers[w].position])
  {
    InvInit<O>(tasks, builders);
    RunsKeepInv(tasks, run, Init<O>(builders), schedule);
    var s := After(tasks, run, Init<O>(builders), schedule);
    assert WorkerOk(tasks, s, v);
    assert WorkerOk(tasks, s, w);
  }
}
