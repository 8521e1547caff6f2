/**
 The deployment engine as it runs: internal/deploy/plan.go: BuildPlan and internal/deploy/apply.go: Apply,
 with the state that Apply changes in place and the file it saves after every change.
 */
module DeployEngine {
  import opened Sequences
  import opened SortedStrings
  import opened TopoOrder
  import opened TopoSorting
  import opened Deploy

  datatype Plan =
    Plan(steps: seq<Step>, creates: nat, updates: nat, deletes: nat, blockedDeletes: nat, noops: nat)

  datatype Planning = Planned(plan: Plan) | Unsortable(why: Sorting)

  /** Each tally is the number of steps with its operation. */
  ghost predicate Tallied(p: Plan) {
    && p.creates == |With(p.steps, Create)| && p.updates == |With(p.steps, Update)|
    && p.noops == |With(p.steps, Noop)| && p.deletes == |With(p.steps, Delete)|
    && p.blockedDeletes == |With(p.steps, BlockedDelete)|
  }

  function Appended(p: Plan, s: Step): Plan {
    var q := p.(steps := p.steps + [s]);
    match s.op
    case Create => q.(creates := p.creates + 1)
    case Update => q.(updates := p.updates + 1)
    case Noop => q.(noops := p.noops + 1)
    case Delete => q.(deletes := p.deletes + 1)
    case BlockedDelete => q.(blockedDeletes := p.blockedDeletes + 1)
  }

  lemma AppendedTallied(p: Plan, s: Step)
    requires Tallied(p)
    ensures Tallied(Appended(p, s))
  {
    WithMore(p.steps, s, Create);
    WithMore(p.steps, s, Update);
    WithMore(p.steps, s, Noop);
    WithMore(p.steps, s, Delete);
    WithMore(p.steps, s, BlockedDelete);
  }

  /** The desired resources, in order; `desired` collects their keys. */
  method PlanLive(hash: Hash, st: State, ordered: seq<Resource>) returns (plan: Plan, desired: set<Key>)
    ensures Tallied(plan) && plan.steps == LiveSteps(hash, st, ordered)
    ensures forall k :: k in desired <==> IsKey(ordered, k)
  {
    plan, desired := Plan([], 0, 0, 0, 0, 0), {};
    var i := 0;
    while i < |ordered|
      invariant 0 <= i <= |ordered|
      invariant Tallied(plan) && plan.steps == LiveSteps(hash, st, ordered[..i])
      invariant forall k :: k in desired <==> IsKey(ordered[..i], k)
    {
      var r := ordered[i];
      ghost var before := desired;
      desired := desired + {r.key};
      KeysGrow(ordered, i, before);
      AppendedTallied(plan, LiveStep(hash, st, r));
      plan := Appended(plan, LiveStep(hash, st, r));
      LiveMore(hash, st, ordered, i);
      i := i + 1;
    }
    assert ordered[..i] == ordered;
  }

  lemma LiveMore(hash: Hash, st: State, ordered: seq<Resource>, i: nat)
    requires i < |ordered|
    ensures LiveSteps(hash, st, ordered[..i + 1]) ==
      LiveSteps(hash, st, ordered[..i]) + [LiveStep(hash, st, ordered[i])]
  {
  }

  lemma KeysGrow(ordered: seq<Resource>, i: nat, before: set<Key>)
    requires i < |ordered| && forall k :: k in before <==> IsKey(ordered[..i], k)
    ensures forall k :: k in before + {ordered[i].key} <==> IsKey(ordered[..i + 1], k)
  {
    forall k ensures k in before + {ordered[i].key} <==> IsKey(ordered[..i + 1], k) {
      if k in before {
        var j :| 0 <= j < |ordered[..i]| && ordered[..i][j].key == k;
        assert ordered[..i + 1][j].key == k;
      }
      if k == ordered[i].key { assert ordered[..i + 1][i].key == k; }
      if IsKey(ordered[..i + 1], k) && k != ordered[i].key {
        var j :| 0 <= j < |ordered[..i + 1]| && ordered[..i + 1][j].key == k;
        assert ordered[..i][j].key == k;
      }
    }
  }

  /** The state keys that are not desired, in whatever order the map yields them. */
  method CollectGone(st: State, desired: set<Key>) returns (gone: seq<Key>)
    ensures Distinct(gone) && forall k :: k in gone <==> k in st && k !in desired
  {
    gone := [];
    var todo := st.Keys;
    while todo != {}
      invariant todo <= st.Keys && Distinct(gone)
      invariant forall k :: k in gone <==> k in st.Keys - todo && k !in desired
      decreases |todo|
    {
      var key :| key in todo;
      if key !in desired { gone := gone + [key]; }
      todo := todo - {key};
    }
  }

  method PlanGone(live: Plan, gone: seq<Key>, allowDeletes: bool) returns (plan: Plan)
    requires Tallied(live)
    ensures Tallied(plan) && plan.steps == live.steps + GoneSteps(allowDeletes, gone)
  {
    plan := live;
    var i := 0;
    while i < |gone|
      invariant 0 <= i <= |gone|
      invariant Tallied(plan) && plan.steps == live.steps + GoneSteps(allowDeletes, gone[..i])
    {
      AppendedTallied(plan, GoneStep(allowDeletes, gone[i]));
      plan := Appended(plan, GoneStep(allowDeletes, gone[i]));
      assert GoneSteps(allowDeletes, gone[..i + 1]) ==
        GoneSteps(allowDeletes, gone[..i]) + [GoneStep(allowDeletes, gone[i])];
      i := i + 1;
    }
    assert gone[..i] == gone;
  }

  lemma SortedGone(gone: seq<Key>, ordered: seq<Resource>, st: State)
    requires Distinct(gone) && forall k :: k in gone <==> k in Gone(ordered, st)
    ensures Sort(gone) == SetSeq(Gone(ordered, st))
  {
    SortSorts(gone);
    assert (set k | k in gone) == Gone(ordered, st);
    SetSeqSorted(Gone(ordered, st));
    SortedUnique(Sort(gone), SetSeq(Gone(ordered, st)), Gone(ordered, st));
  }

  /** The resources in the order of the sort, which is a function of the resources. */
  ghost predicate InOrder(resources: seq<Resource>, ordered: seq<Resource>) {
    && multiset(ordered) == multiset(resources) && DependenciesFirst(ordered) && DistinctKeys(ordered)
    && (forall k :: k in LevelOrder(GraphOf(resources), {}) ==> k in ByKey(resources))
    && ordered == Listing(ByKey(resources), LevelOrder(GraphOf(resources), {}))
  }

  /** Planning again visits the resources in the same order, however the configuration lists them. */
  lemma SameOrderAgain(resources: seq<Resource>, again: seq<Resource>, a: seq<Resource>, b: seq<Resource>)
    requires DistinctKeys(resources) && multiset(resources) == multiset(again)
    requires InOrder(resources, a) && InOrder(again, b)
    ensures a == b
  {
    OrderIndependentOfInput(resources, again);
  }

  /** The live part of a plan has its dependencies first, so the propagation of failures applies to it. */
  lemma LivePartIsLive(hash: Hash, st: State, resources: seq<Resource>, ordered: seq<Resource>)
    requires InOrder(resources, ordered)
    ensures Live(LiveSteps(hash, st, ordered))
  {
    var steps := LiveSteps(hash, st, ordered);
    forall i | 0 <= i < |steps| ensures DepsBefore(steps, i) {
      forall d | d in steps[i].deps ensures exists j :: 0 <= j < i && steps[j].key == d {
        assert d in ordered[i].deps;
        var j :| 0 <= j < i && ordered[j].key == d;
        assert steps[j].key == d;
      }
    }
  }

  /** A run of a plan that has not left its live part is a run of the live part. */
  lemma RunOfPrefix(env: Env, st: State, steps: seq<Step>, more: seq<Step>, ps: seq<Progress>)
    requires IsRun(env, st, steps + more, ps) && |ps| <= |steps| + 1
    ensures IsRun(env, st, steps, ps)
  {
    forall i | 0 <= i < |ps| - 1 ensures StepFrom(env, steps, ps, i) {
      assert StepFrom(env, steps + more, ps, i);
    }
  }

  /**
   A plan exists exactly when the resources can be sorted. It visits them dependencies first and then the
   state entries that are gone, in key order, and its tallies count its steps.
   */
  method BuildPlan(hash: Hash, resources: seq<Resource>, st: State, allowDeletes: bool) returns (r: Planning)
    ensures r.Planned? <==> DistinctKeys(resources) && DepsPresent(resources) && Acyclic(GraphOf(resources))
    ensures r.Planned? ==> Tallied(r.plan)
    ensures
      r.Planned? ==>
        exists ordered ::
          && InOrder(resources, ordered) && r.plan.steps == PlanSteps(hash, st, ordered, allowDeletes)
          && Plans(hash, st, ordered, allowDeletes, r.plan.steps)
  {
    var sorted := TopoSort(resources);
    if !sorted.Ordered? { return Unsortable(sorted); }
    var ordered := sorted.resources;
    PermutedKeysDistinct(resources, ordered);
    assert InOrder(resources, ordered);
    var plan, desired := PlanLive(hash, st, ordered);
    var gone := CollectGone(st, desired);
    SortedGone(gone, ordered, st);
    plan := PlanGone(plan, Sort(gone), allowDeletes);
    PlanStepsPlan(hash, st, ordered, allowDeletes);
    r := Planned(plan);
  }

  // ----- apply

  datatype StepResult = StepResult(step: Step, status: Status)

  datatype Report =
    Report(results: seq<StepResult>, created: nat, updated: nat, deleted: nat, noops: nat, failed: nat, skipped: nat)

  function Statuses(r: Report): seq<Status> {
    seq(|r.results|, i requires 0 <= i < |r.results| => r.results[i].status)
  }

  /** The positions of the results with this status. */
  ghost function Ended(r: Report, status: Status): set<nat> {
    set i: nat | i < |r.results| && r.results[i].status == status
  }

  /** The positions of the applied steps with this operation. */
  ghost function Done(r: Report, op: Op): set<nat> {
    set i: nat | i < |r.results| && r.results[i].status == Applied && r.results[i].step.op == op
  }

  /** Each count is the number of results it counts. */
  ghost predicate Honest(r: Report) {
    && r.created == |Done(r, Create)| && r.updated == |Done(r, Update)| && r.deleted == |Done(r, Delete)|
    && r.noops == |Ended(r, Unchanged)| && r.failed == |Ended(r, Failed)| && r.skipped == |Ended(r, Skipped)|
  }

  /** Adds the outcome of a step and counts it. */
  function Record(r: Report, step: Step, s: Status): (after: Report)
    ensures after.results == r.results + [StepResult(step, s)] && Statuses(after) == Statuses(r) + [s]
  {
    var next := r.(results := r.results + [StepResult(step, s)]);
    match s
    case Unchanged => next.(noops := r.noops + 1)
    case Failed => next.(failed := r.failed + 1)
    case Skipped => next.(skipped := r.skipped + 1)
    case Applied =>
      if step.op == Create then next.(created := r.created + 1)
      else if step.op == Update then next.(updated := r.updated + 1)
      else next.(deleted := r.deleted + 1)
  }

  lemma EndedMore(r: Report, after: Report, step: Step, s: Status, status: Status)
    requires after.results == r.results + [StepResult(step, s)]
    ensures |Ended(after, status)| == |Ended(r, status)| + if s == status then 1 else 0
  {
    var n: nat, a, b := |r.results|, Ended(r, status), Ended(after, status);
    forall i: nat ensures i in b <==> i in a || (i == n && s == status) {
      if i < n { assert after.results[i] == r.results[i]; }
    }
    assert n !in a;
    assert b == if s == status then a + {n} else a;
  }

  lemma DoneMore(r: Report, after: Report, step: Step, s: Status, op: Op)
    requires after.results == r.results + [StepResult(step, s)]
    ensures |Done(after, op)| == |Done(r, op)| + if s == Applied && step.op == op then 1 else 0
  {
    var n: nat, a, b := |r.results|, Done(r, op), Done(after, op);
    forall i: nat ensures i in b <==> i in a || (i == n && s == Applied && step.op == op) {
      if i < n { assert after.results[i] == r.results[i]; }
    }
    assert n !in a;
    assert b == if s == Applied && step.op == op then a + {n} else a;
  }

  lemma RecordHonest(r: Report, step: Step, s: Status)
    requires Honest(r) && (s == Applied ==> step.op == Create || step.op == Update || step.op == Delete)
    ensures Honest(Record(r, step, s))
  {
    var after := Record(r, step, s);
    DoneMore(r, after, step, s, Create);
    DoneMore(r, after, step, s, Update);
    DoneMore(r, after, step, s, Delete);
    EndedMore(r, after, step, s, Unchanged);
    EndedMore(r, after, step, s, Failed);
    EndedMore(r, after, step, s, Skipped);
  }

  /** At most a result of `s` was added. */
  ghost predicate Follows(r: Report, after: Report, s: Step) {
    after.results == r.results || exists status :: after.results == r.results + [StepResult(s, status)]
  }

  /** Whether one of the dependencies already failed, as internal/deploy/apply.go: failedDep looks it up. */
  method FindFailedDep(deps: seq<Key>, failed: set<Key>) returns (bad: bool)
    ensures bad <==> FailedDep(deps, failed)
  {
    var i := 0;
    while i < |deps|
      invariant 0 <= i <= |deps|
      invariant forall j :: 0 <= j < i ==> deps[j] !in failed
    {
      if deps[i] in failed { return true; }
      i := i + 1;
    }
    bad := false;
  }

  /** The results are those of the first steps, in order. */
  ghost predicate OfSteps(r: Report, steps: seq<Step>) {
    |r.results| <= |steps| && forall i :: 0 <= i < |r.results| ==> r.results[i].step == steps[i]
  }

  /** The recorded state in memory and in its file. */
  class Deployment {
    var state: State
    var file: State

    constructor (loaded: State)
      ensures state == loaded && file == loaded
    {
      state, file := loaded, loaded;
    }

    /** Saves the state after step `i`; the save can fail. */
    method Save(env: Env, i: nat) returns (ok: bool)
      modifies this`file
      ensures ok == env.saves(i) && file == if ok then state else old(file)
    {
      ok := env.saves(i);
      if ok { file := state; }
    }

    /** A create or update step: skipped below a failure, aborting without a provider, failing, or applied and saved. */
    method ApplyChange(env: Env, s: Step, i: nat, failed0: set<Key>, report0: Report)
      returns (failed: set<Key>, report: Report, aborted: bool)
      requires Changes(s) && Honest(report0)
      modifies this
      ensures Honest(report) && Follows(report0, report, s)
      ensures Progress(state, file, failed, Statuses(report), aborted) ==
              Advance(env, Progress(old(state), old(file), failed0, Statuses(report0), false), s, i)
    {
      failed, report, aborted := failed0, report0, false;
      var bad := FindFailedDep(s.deps, failed);
      if bad {
        RecordHonest(report, s, Skipped);
        failed, report := failed + {s.key}, Record(report, s, Skipped);
        return;
      }
      if s.kind !in env.providers { return failed, report, true; }
      match env.act(i)
      case Fails =>
        RecordHonest(report, s, Failed);
        failed, report := failed + {s.key}, Record(report, s, Failed);
      case Returns(outputs) =>
        state := state[s.key := Entry(s.hash, PriorOutputs(state, s.key) + outputs)];
        var ok := Save(env, i);
        if !ok { return failed, report, true; }
        RecordHonest(report, s, Applied);
        report := Record(report, s, Applied);
    }

    /** A delete step: without a provider for the kind the entry is forgotten without a call. */
    method ApplyDelete(env: Env, s: Step, i: nat, failed0: set<Key>, report0: Report)
      returns (failed: set<Key>, report: Report, aborted: bool)
      requires s.op == Delete && Honest(report0)
      modifies this
      ensures Honest(report) && Follows(report0, report, s)
      ensures Progress(state, file, failed, Statuses(report), aborted) ==
              Advance(env, Progress(old(state), old(file), failed0, Statuses(report0), false), s, i)
    {
      failed, report, aborted := failed0, report0, false;
      if s.kind in env.providers && env.act(i).Fails? {
        RecordHonest(report, s, Failed);
        failed, report := failed + {s.key}, Record(report, s, Failed);
        return;
      }
      state := state - {s.key};
      var ok := Save(env, i);
      if !ok { return failed, report, true; }
      RecordHonest(report, s, Applied);
      report := Record(report, s, Applied);
    }

    method ApplyStep(env: Env, s: Step, i: nat, failed0: set<Key>, report0: Report)
      returns (failed: set<Key>, report: Report, aborted: bool)
      requires Honest(report0)
      modifies this
      ensures Honest(report) && Follows(report0, report, s)
      ensures Progress(state, file, failed, Statuses(report), aborted) ==
              Advance(env, Progress(old(state), old(file), failed0, Statuses(report0), false), s, i)
    {
      failed, report, aborted := failed0, report0, false;
      match s.op
      case Noop =>
        RecordHonest(report, s, Unchanged);
        report := Record(report, s, Unchanged);
      case Create => failed, report, aborted := ApplyChange(env, s, i, failed, report);
      case Update => failed, report, aborted := ApplyChange(env, s, i, failed, report);
      case Delete => failed, report, aborted := ApplyDelete(env, s, i, failed, report);
      case BlockedDelete => aborted := true;
    }

    /**
     Applies a plan. With blocked deletes nothing happens; otherwise the state, its file, the outcome of every
     step and the error are those of a complete run `ps` of the plan.
     */
    method Apply(plan: Plan, env: Env) returns (report: Report, error: bool, ghost ps: seq<Progress>)
      requires state == file
      modifies this
      ensures plan.blockedDeletes > 0 ==> error && state == old(state) && file == old(file) && Statuses(report) == []
      ensures
        plan.blockedDeletes == 0 ==>
          && IsRun(env, old(state), plan.steps, ps) && Complete(plan.steps, ps)
          && state == Last(ps).state && file == Last(ps).saved
          && Statuses(report) == Last(ps).statuses && error == Last(ps).aborted
      ensures plan.blockedDeletes == 0 ==> AllRecorded(env, old(state), plan.steps, ps)
      ensures Honest(report) && OfSteps(report, plan.steps)
      ensures !error ==> state == file
    {
      report, error, ps := Report([], 0, 0, 0, 0, 0, 0), false, [Progress(state, file, {}, [], false)];
      if plan.blockedDeletes > 0 { return report, true, ps; }
      var failed, i := {}, 0;
      while i < |plan.steps| && !error
        invariant 0 <= i <= |plan.steps| && |ps| == i + 1
        invariant
          Underway(env, old(state), plan.steps, ps, report, Progress(state, file, failed, Statuses(report), error))
      {
        ghost var before, p := report, Last(ps);
        failed, report, error := ApplyStep(env, plan.steps[i], i, failed, report);
        ghost var q := Progress(state, file, failed, Statuses(report), error);
        ps := StillUnderway(env, old(state), plan.steps, ps, before, p, report, q);
        i := i + 1;
      }
      if !error { InMemoryIsSaved(env, old(state), plan.steps, ps, |ps| - 1); }
      RunRecordsAll(env, old(state), plan.steps, ps);
    }
  }

  /** The run so far, where it has got to and what is reported of it. */
  ghost predicate Underway(
    env: Env, st: State, steps: seq<Step>, ps: seq<Progress>, report: Report, p: Progress)
  {
    && IsRun(env, st, steps, ps) && Last(ps) == p && p.statuses == Statuses(report)
    && Honest(report) && OfSteps(report, steps) && (!p.aborted ==> |report.results| == |ps| - 1)
  }

  lemma StillUnderway(
    env: Env, st: State, steps: seq<Step>, ps: seq<Progress>, before: Report, p: Progress, report: Report,
    q: Progress) returns (longer: seq<Progress>)
    requires Underway(env, st, steps, ps, before, p) && |ps| <= |steps| && !p.aborted
    requires q == Advance(env, p, steps[|ps| - 1], |ps| - 1) && q.statuses == Statuses(report)
    requires Honest(report) && Follows(before, report, steps[|ps| - 1])
    ensures longer == ps + [q] && Underway(env, st, steps, longer, report, q)
  {
    AdvanceGrows(env, p, steps[|ps| - 1], |ps| - 1);
    longer := Longer(env, st, steps, ps, q);
  }

  /** A run with the next step. */
  lemma Longer(env: Env, st: State, steps: seq<Step>, ps: seq<Progress>, p: Progress) returns (longer: seq<Progress>)
    requires IsRun(env, st, steps, ps) && |ps| <= |steps| && !Last(ps).aborted
    requires p == Advance(env, Last(ps), steps[|ps| - 1], |ps| - 1)
    ensures IsRun(env, st, steps, longer) && longer == ps + [p]
  {
    longer := ps + [p];
    forall i | 0 <= i < |longer| - 1 ensures StepFrom(env, steps, longer, i) {
      if i < |ps| - 1 { assert StepFrom(env, steps, ps, i); }
    }
  }

  // ----- whole plans

  lemma RunSoFar(env: Env, st: State, steps: seq<Step>, ps: seq<Progress>, n: nat)
    requires IsRun(env, st, steps, ps) && n < |ps|
    ensures IsRun(env, st, steps, ps[..n + 1])
  {
    var part := ps[..n + 1];
    forall i | 0 <= i < n ensures StepFrom(env, steps, part, i) { assert StepFrom(env, steps, ps, i); }
  }

  /** What the turn of a live step that does not abort reports. */
  predicate Reports(env: Env, p: Progress, s: Step, i: nat, status: Status) {
    match status
    case Unchanged => s.op == Noop
    case Skipped => Changes(s) && FailedDep(s.deps, p.failed)
    case Failed => Changes(s) && !FailedDep(s.deps, p.failed) && env.act(i).Fails?
    case Applied => Changes(s) && !FailedDep(s.deps, p.failed) && env.act(i).Returns?
  }

  lemma AdvanceReports(env: Env, p: Progress, s: Step, i: nat)
    requires Changes(s) || s.op == Noop
    ensures
      var q := Advance(env, p, s, i);
      !q.aborted ==> exists status :: q.statuses == p.statuses + [status] && Reports(env, p, s, i, status)
  {
  }

  lemma AdvanceGrows(env: Env, p: Progress, s: Step, i: nat)
    ensures
      var q := Advance(env, p, s, i);
      p.statuses <= q.statuses && (!q.aborted && !p.aborted ==> |q.statuses| == |p.statuses| + 1)
  {
  }

  /** One status for each step until an abort, and none of them changes later. */
  lemma {:induction false} StatusesSettle(env: Env, st: State, steps: seq<Step>, ps: seq<Progress>, i: nat, n: nat)
    requires IsRun(env, st, steps, ps) && i <= n < |ps|
    ensures ps[i].statuses <= ps[n].statuses && (!ps[n].aborted ==> |ps[n].statuses| == n)
    decreases n
  {
    if n > 0 {
      StatusesSettle(env, st, steps, ps, if i < n then i else n - 1, n - 1);
      assert StepFrom(env, steps, ps, n - 1);
      AdvanceGrows(env, ps[n - 1], steps[n - 1], n - 1);
    }
  }

  lemma StatusReported(env: Env, st: State, steps: seq<Step>, ps: seq<Progress>, i: nat)
    requires IsRun(env, st, steps, ps) && i + 1 < |ps| && !ps[i + 1].aborted
    requires Changes(steps[i]) || steps[i].op == Noop
    ensures i < |Last(ps).statuses| && Reports(env, ps[i], steps[i], i, Last(ps).statuses[i])
  {
    assert StepFrom(env, steps, ps, i);
    StatusesSettle(env, st, steps, ps, i, i);
    AdvanceReports(env, ps[i], steps[i], i);
    var status :| ps[i + 1].statuses == ps[i].statuses + [status] && Reports(env, ps[i], steps[i], i, status);
    StatusesSettle(env, st, steps, ps, i + 1, |ps| - 1);
    assert ps[i + 1].statuses[i] == status;
  }

  /** A dependency that is below a failure itself. */
  ghost predicate DependsOnFailure(env: Env, live: seq<Step>, i: nat) {
    exists j :: 0 <= j < |live| && Edge(live, i, j) && Changes(live[j]) && BelowFailure(env, live, j)
  }

  lemma FailedDepExactly(env: Env, st: State, live: seq<Step>, ps: seq<Progress>, i: nat)
    requires IsRun(env, st, live, ps) && Live(live) && i < |live| && i < |ps| && !ps[i].aborted
    ensures FailedDep(live[i].deps, ps[i].failed) <==> DependsOnFailure(env, live, i)
  {
    if FailedDep(live[i].deps, ps[i].failed) {
      var d :| 0 <= d < |live[i].deps| && live[i].deps[d] in ps[i].failed;
      FailedIsStep(env, st, live, ps, i, live[i].deps[d]);
      var j :| 0 <= j < i && live[j].key == live[i].deps[d] && live[j].op != Noop;
      FailureIsBelow(env, st, live, ps, i, j);
      assert Edge(live, i, j);
    }
    if DependsOnFailure(env, live, i) {
      var j :| 0 <= j < |live| && Edge(live, i, j) && Changes(live[j]) && BelowFailure(env, live, j);
      var path :| ChainToFailure(env, live, path, j);
      assert DepsBefore(live, i);
      assert j < i;
      BelowFails(env, st, live, ps, i, path, j);
      var d :| 0 <= d < |live[i].deps| && live[i].deps[d] == live[j].key;
    }
  }

  /** What the report says of a live step. */
  ghost predicate TellsFailures(env: Env, live: seq<Step>, i: nat, status: Status)
    requires i < |live|
  {
    match status
    case Unchanged => live[i].op == Noop
    case Applied => Changes(live[i]) && !BelowFailure(env, live, i)
    case Skipped => Changes(live[i]) && DependsOnFailure(env, live, i)
    case Failed => Changes(live[i]) && !DependsOnFailure(env, live, i) && env.act(i).Fails?
  }

  /**
   In every run of a plan that BuildPlan makes, whatever it deletes and wherever it is aborted, each live step it got
   past is reported unchanged if nothing was to be done, skipped exactly when a dependency of it leads through
   changed dependencies to a call that fails, failed exactly when only its own call fails, and applied otherwise.
   */
  lemma PlanFailsExactlyBelow(
    hash: Hash, env: Env, st: State, resources: seq<Resource>, ordered: seq<Resource>, allow: bool, ps: seq<Progress>,
    i: nat)
    requires InOrder(resources, ordered) && IsRun(env, st, PlanSteps(hash, st, ordered, allow), ps)
    requires i < |ordered| && i + 1 < |ps| && !ps[i + 1].aborted
    ensures i < |Last(ps).statuses| && TellsFailures(env, LiveSteps(hash, st, ordered), i, Last(ps).statuses[i])
  {
    var live, gone := LiveSteps(hash, st, ordered), GoneSteps(allow, SetSeq(Gone(ordered, st)));
    LivePartIsLive(hash, st, resources, ordered);
    RunSoFar(env, st, live + gone, ps, i + 1);
    RunOfPrefix(env, st, live, gone, ps[..i + 2]);
    assert (live + gone)[i] == live[i];
    StatusReported(env, st, live + gone, ps, i);
    assert StepFrom(env, live + gone, ps, i);
    FailedDepExactly(env, st, live, ps[..i + 2], i);
    if Changes(live[i]) {
      FailedExactlyBelow(env, st, live, ps[..i + 2], i);
      FailsExactly(env, st, live, ps[..i + 2], i + 1, i);
    }
  }

  /**
   After a run of a plan that BuildPlan makes in which every call and save succeeds, planning again finds nothing to
   do exactly when every entry that left the config has a slash in its key.
   */
  lemma PlanConvergesExactly(hash: Hash, env: Env, st: State, ordered: seq<Resource>, ps: seq<Progress>)
    requires DistinctKeys(ordered) && SlashedResources(ordered)
    requires AllSucceed(env, PlanSteps(hash, st, ordered, true))
    requires IsRun(env, st, PlanSteps(hash, st, ordered, true), ps)
    requires Complete(PlanSteps(hash, st, ordered, true), ps)
    ensures !HasChanges(PlanSteps(hash, Last(ps).saved, ordered, true)) <==> GoneSlashed(ordered, st)
  {
    var file := Last(ps).saved;
    PlanIsPlan(hash, st, ordered, true);
    PlanIsPlan(hash, file, ordered, true);
    SuccessConvergesExactly(
      hash, env, st, ordered, PlanSteps(hash, st, ordered, true), SetSeq(Gone(ordered, st)), ps,
      PlanSteps(hash, file, ordered, true), SetSeq(Gone(ordered, file)));
  }
}
