/**
 `RunSolutionTasks` itself, and the exact condition under which it cannot hang.
 */
module SchedulerRuns {
  import opened Scheduler

  /**
   internal/compile/solution_scheduler.go: RunSolutionTasks.  The goroutines' interleaving is the
   nondeterministic choice of which enabled worker steps next.  Each step only ever uses up work, so
   the wait for all workers terminates, and no position is left over for the final close loop.
   */
  method RunSolutionTasks<O(!new)>(tasks: seq<Task>, builders: int, run: Run<O>) returns (outcomes: map<nat, O>)
    requires DistinctIndices(tasks) && Ordered(tasks) && ReadsOnlyPredecessors(tasks, run)
    ensures outcomes == Sequential(tasks, run, |tasks|)
    ensures forall i :: i in outcomes <==> i in Indices(tasks)
  {
    var s := Init<O>(builders);
    InvInit<O>(tasks, builders);
    while exists w :: 0 <= w < |s.workers| && Enabled(tasks, s, w)
      invariant PositionsInRange(tasks, s.workers)
      invariant Inv(tasks, s) && OutcomesSequential(tasks, run, s)
      decreases Work(tasks, s)
    {
      var w :| 0 <= w < |s.workers| && Enabled(tasks, s, w);
      InvStep(tasks, run, s, w);
      StepUsesOneUnit(tasks, run, s, w);
      StepKeepsOutcomesSequential(tasks, run, s, w);
      s := Step(tasks, run, s, w);
    }
    Progress(tasks, s);
    ExitedMeansDone(tasks, s);
    FinalOutcomes(tasks, run, s);
    outcomes := s.outcomes;
  }

  // ----- the ordering precondition is necessary

  lemma {:induction false} AppendSchedules<O>(tasks: seq<Task>, run: Run<O>, s: State<O>, a: seq<nat>, b: seq<nat>)
    requires PositionsInRange(tasks, s.workers) && Feasible(tasks, run, s, a)
    requires Feasible(tasks, run, After(tasks, run, s, a), b)
    ensures Feasible(tasks, run, s, a + b)
    ensures After(tasks, run, s, a + b) == After(tasks, run, After(tasks, run, s, a), b)
    decreases |a|
  {
    if a == [] {
      assert a + b == b;
    } else {
      assert (a + b)[0] == a[0] && (a + b)[1..] == a[1..] + b;
      AppendSchedules(tasks, run, Step(tasks, run, s, a[0]), a[1..], b);
    }
  }

  /** The single worker has finished exactly the first `p` tasks. */
  ghost predicate SoloAt<O>(tasks: seq<Task>, s: State<O>, p: nat)
    requires p <= |tasks|
  {
    s.workers == [Idle] && s.next == p && forall i :: i in s.closed <==> ListedBefore(tasks, i, p)
  }

  ghost predicate OrderedAt(tasks: seq<Task>, p: nat)
    requires p < |tasks|
  {
    forall k :: 0 <= k < |Barriers(tasks[p])| ==> ListedBefore(tasks, Barriers(tasks[p])[k], p)
  }

  lemma {:induction false} SoloPasses<O>(tasks: seq<Task>, run: Run<O>, s: State<O>, p: nat, k: nat, stop: nat)
    returns (schedule: seq<nat>)
    requires p < |tasks| && k <= stop <= |Barriers(tasks[p])|
    requires s.workers == [Waiting(p, k)]
    requires forall j :: k <= j < stop ==> Barriers(tasks[p])[j] in s.closed
    ensures PositionsInRange(tasks, s.workers) && Feasible(tasks, run, s, schedule)
    ensures After(tasks, run, s, schedule) == s.(workers := [Waiting(p, stop)])
    decreases stop - k
  {
    if k == stop {
      schedule := [];
    } else {
      assert PositionsInRange(tasks, s.workers) && Enabled(tasks, s, 0);
      var t := Step(tasks, run, s, 0);
      assert t == s.(workers := [Waiting(p, k + 1)]);
      var rest := SoloPasses(tasks, run, t, p, k + 1, stop);
      schedule := [0] + rest;
      assert schedule[1..] == rest;
    }
  }

  /** From a claimed position with every barrier closed, the single worker finishes the task. */
  lemma SoloFinishes<O>(tasks: seq<Task>, run: Run<O>, s: State<O>, p: nat)
    requires p < |tasks| && s.workers == [Waiting(p, |Barriers(tasks[p])|)]
    ensures PositionsInRange(tasks, s.workers) && Feasible(tasks, run, s, [0, 0, 0])
    ensures
      var t := After(tasks, run, s, [0, 0, 0]);
      t.workers == [Idle] && t.next == s.next && t.closed == s.closed + {tasks[p].index}
  {
    var s1 := Step(tasks, run, s, 0);
    var s2 := Step(tasks, run, s1, 0);
    var s3 := Step(tasks, run, s2, 0);
    assert [0, 0, 0][1..] == [0, 0] && [0, 0][1..] == [0] && [0][1..] == [];
    assert Feasible(tasks, run, s3, []);
    assert Feasible(tasks, run, s2, [0]);
    assert Feasible(tasks, run, s1, [0, 0]);
    assert After(tasks, run, s2, [0]) == s3;
    assert After(tasks, run, s1, [0, 0]) == s3;
  }

  lemma ListedBeforeNext(tasks: seq<Task>, i: nat, q: nat)
    requires q < |tasks|
    ensures ListedBefore(tasks, i, q + 1) <==> ListedBefore(tasks, i, q) || i == tasks[q].index
  {
    if ListedBefore(tasks, i, q + 1) && i != tasks[q].index {
      var r :| 0 <= r < q + 1 && tasks[r].index == i;
      assert ListedBefore(tasks, i, q);
    }
    if ListedBefore(tasks, i, q) {
      var r :| 0 <= r < q && tasks[r].index == i;
      assert ListedBefore(tasks, i, q + 1);
    }
    if i == tasks[q].index { assert ListedBefore(tasks, i, q + 1); }
  }

  /** The single worker claims the next position, passes its barriers and finishes its task. */
  lemma SoloStep<O>(tasks: seq<Task>, run: Run<O>, s: State<O>, q: nat) returns (schedule: seq<nat>)
    requires q < |tasks| && SoloAt(tasks, s, q) && OrderedAt(tasks, q)
    ensures PositionsInRange(tasks, s.workers) && Feasible(tasks, run, s, schedule)
    ensures
      var t := After(tasks, run, s, schedule);
      t.workers == [Idle] && t.next == q + 1 && t.closed == s.closed + {tasks[q].index}
  {
    var claimed := SoloClaims(tasks, run, s, q);
    var passes := SoloPasses(tasks, run, claimed, q, 0, |Barriers(tasks[q])|);
    SoloFinishes(tasks, run, claimed.(workers := [Waiting(q, |Barriers(tasks[q])|)]), q);
    AppendSchedules(tasks, run, claimed, passes, [0, 0, 0]);
    AppendSchedules(tasks, run, s, [0], passes + [0, 0, 0]);
    schedule := [0] + (passes + [0, 0, 0]);
  }

  lemma {:induction false} SoloReaches<O>(tasks: seq<Task>, run: Run<O>, p: nat) returns (schedule: seq<nat>)
    requires p <= |tasks| && forall q :: 0 <= q < p ==> OrderedAt(tasks, q)
    ensures Feasible(tasks, run, Init<O>(1), schedule)
    ensures SoloAt(tasks, After(tasks, run, Init<O>(1), schedule), p)
  {
    if p == 0 {
      schedule := [];
      assert Init<O>(1).workers == [Idle];
    } else {
      var before := SoloReaches(tasks, run, p - 1);
      var s := After(tasks, run, Init<O>(1), before);
      assert OrderedAt(tasks, p - 1);
      var step := SoloStep(tasks, run, s, p - 1);
      AppendSchedules(tasks, run, Init<O>(1), before, step);
      schedule := before + step;
      forall i ensures ListedBefore(tasks, i, p) <==> ListedBefore(tasks, i, p - 1) || i == tasks[p - 1].index {
        ListedBeforeNext(tasks, i, p - 1);
      }
    }
  }

  lemma SoloClaims<O>(tasks: seq<Task>, run: Run<O>, s: State<O>, q: nat) returns (claimed: State<O>)
    requires q < |tasks| && SoloAt(tasks, s, q)
    ensures PositionsInRange(tasks, s.workers) && Feasible(tasks, run, s, [0]) && After(tasks, run, s, [0]) == claimed
    ensures claimed == s.(next := q + 1, workers := [Waiting(q, 0)])
  {
    claimed := Step(tasks, run, s, 0);
    assert [0][1..] == [];
    assert Feasible(tasks, run, claimed, []);
  }

  /** With one builder, a barrier that is not listed earlier leaves the run waiting for ever. */
  lemma OneBuilderHangs<O>(tasks: seq<Task>, run: Run<O>) returns (schedule: seq<nat>)
    requires !Ordered(tasks)
    ensures Feasible(tasks, run, Init<O>(1), schedule)
    ensures Stuck(tasks, After(tasks, run, Init<O>(1), schedule))
    ensures !AllExited(After(tasks, run, Init<O>(1), schedule))
  {
    var p := FirstUnordered(tasks, 0);
    var before := SoloReaches(tasks, run, p);
    var s := After(tasks, run, Init<O>(1), before);
    var claimed := SoloClaims(tasks, run, s, p);
    var k := FirstUnlisted(tasks, p, 0);
    var passes := SoloPasses(tasks, run, claimed, p, 0, k);
    AppendSchedules(tasks, run, s, [0], passes);
    AppendSchedules(tasks, run, Init<O>(1), before, [0] + passes);
    schedule := before + ([0] + passes);
    var t := After(tasks, run, Init<O>(1), schedule);
    assert t.workers == [Waiting(p, k)];
    assert t.workers[0].Waiting?;
  }

  lemma {:induction false} FirstUnordered(tasks: seq<Task>, from: nat) returns (p: nat)
    requires !Ordered(tasks) && from <= |tasks| && forall q :: 0 <= q < from ==> OrderedAt(tasks, q)
    ensures p < |tasks| && !OrderedAt(tasks, p) && forall q :: 0 <= q < p ==> OrderedAt(tasks, q)
    decreases |tasks| - from
  {
    if from == |tasks| {
      forall p, k | 0 <= p < |tasks| && 0 <= k < |Barriers(tasks[p])|
        ensures ListedBefore(tasks, Barriers(tasks[p])[k], p)
      {
        assert OrderedAt(tasks, p);
      }
      assert false;
    } else if OrderedAt(tasks, from) {
      p := FirstUnordered(tasks, from + 1);
    } else {
      p := from;
    }
  }

  lemma {:induction false} FirstUnlisted(tasks: seq<Task>, p: nat, from: nat) returns (k: nat)
    requires p < |tasks| && !OrderedAt(tasks, p) && from <= |Barriers(tasks[p])|
    requires forall j :: 0 <= j < from ==> ListedBefore(tasks, Barriers(tasks[p])[j], p)
    ensures k < |Barriers(tasks[p])| && !ListedBefore(tasks, Barriers(tasks[p])[k], p)
    ensures forall j :: 0 <= j < k ==> ListedBefore(tasks, Barriers(tasks[p])[j], p)
    decreases |Barriers(tasks[p])| - from
  {
    if from == |Barriers(tasks[p])| {
      assert false;
    } else if ListedBefore(tasks, Barriers(tasks[p])[from], p) {
      k := FirstUnlisted(tasks, p, from + 1);
    } else {
      k := from;
    }
  }

  ghost predicate NeverHangs<O>(tasks: seq<Task>, run: Run<O>) {
    forall builders: int, schedule: seq<nat> ::
      Feasible(tasks, run, Init<O>(builders), schedule) && Stuck(tasks, After(tasks, run, Init<O>(builders), schedule))
      ==> AllExited(After(tasks, run, Init<O>(builders), schedule))
  }

  /** The scheduler is free of deadlock for every builder count exactly when barriers are listed first. */
  lemma NeverHangsExactlyWhenOrdered<O>(tasks: seq<Task>, run: Run<O>)
    requires DistinctIndices(tasks)
    ensures NeverHangs(tasks, run) <==> Ordered(tasks)
  {
    if Ordered(tasks) {
      forall builders: int, schedule: seq<nat> |
        && Feasible(tasks, run, Init<O>(builders), schedule)
        && Stuck(tasks, After(tasks, run, Init<O>(builders), schedule))
        ensures AllExited(After(tasks, run, Init<O>(builders), schedule))
      {
        EveryRunCompletes(tasks, builders, run, schedule);
      }
    } else {
      var schedule := OneBuilderHangs(tasks, run);
    }
  }
}
