/**
 Exactly when planning again after an interrupted deployment asks for what is left: internal/deploy/plan.go and
 internal/deploy/apply.go.
 */
module Replanning {
  import opened TopoOrder
  import opened Deploy

  // ----- a run that is never aborted

  function Kinds(steps: seq<Step>): set<string> {
    set i | 0 <= i < |steps| :: steps[i].kind
  }

  /** Every provider is there and every save succeeds; the call of step `bad` fails. */
  function Failing(steps: seq<Step>, bad: nat): Env {
    Env(Kinds(steps), (i: nat) => if i == bad then Fails else Returns(map[]), (i: nat) => true)
  }

  function RunTo(env: Env, st: State, steps: seq<Step>, n: nat): (ps: seq<Progress>)
    requires n <= |steps|
    ensures |ps| == n + 1
  {
    if n == 0 then [Progress(st, st, {}, [], false)]
    else
      var before := RunTo(env, st, steps, n - 1);
      before + [Advance(env, Last(before), steps[n - 1], n - 1)]
  }

  ghost predicate NoneBlocked(steps: seq<Step>) {
    forall i :: 0 <= i < |steps| ==> steps[i].op != BlockedDelete
  }

  lemma NoAbort(steps: seq<Step>, bad: nat, p: Progress, i: nat)
    requires NoneBlocked(steps) && i < |steps| && !p.aborted
    ensures !Advance(Failing(steps, bad), p, steps[i], i).aborted
  {
    assert steps[i].kind in Kinds(steps);
  }

  lemma {:induction false} FullRun(st: State, steps: seq<Step>, bad: nat, n: nat)
    requires NoneBlocked(steps) && n <= |steps|
    ensures
      var ps := RunTo(Failing(steps, bad), st, steps, n);
      IsRun(Failing(steps, bad), st, steps, ps) && !Last(ps).aborted
    decreases n
  {
    if n > 0 {
      var env := Failing(steps, bad);
      FullRun(st, steps, bad, n - 1);
      var before, ps := RunTo(env, st, steps, n - 1), RunTo(env, st, steps, n);
      NoAbort(steps, bad, Last(before), n - 1);
      forall i | 0 <= i < |ps| - 1 ensures StepFrom(env, steps, ps, i) {
        if i < n - 1 { assert StepFrom(env, steps, before, i); }
      }
    }
  }

  // ----- a key that a delete removes

  /** After step `i` only deletes name its key. */
  ghost predicate OnlyDeletesAfter(steps: seq<Step>, i: nat)
    requires i < |steps|
  {
    forall j :: i <= j < |steps| && steps[j].key == steps[i].key ==> steps[j].op == Delete
  }

  lemma {:induction false} StaysDeleted(
    files: seq<State>, applied: seq<bool>, steps: seq<Step>, act: nat -> Outcome, i: nat, n: nat)
    requires Files(files, applied, steps, act) && i < n < |files| && applied[i] && OnlyDeletesAfter(steps, i)
    ensures steps[i].key !in files[n]
    decreases n
  {
    assert FileStep(files[n - 1], files[n], steps[n - 1], act(n - 1), applied[n - 1]);
    assert FileStepAt(files[n - 1], files[n], steps[n - 1], act(n - 1), applied[n - 1], steps[i].key);
    if i < n - 1 { StaysDeleted(files, applied, steps, act, i, n - 1); }
  }

  /** The delete step at `i` of a full run takes its key out of the file for good. */
  lemma DeleteRemoves(env: Env, st: State, steps: seq<Step>, ps: seq<Progress>, i: nat)
    requires IsRun(env, st, steps, ps) && |ps| == |steps| + 1 && i < |steps| && OnlyDeletesAfter(steps, i)
    requires AppliedAt(env, steps, ps, i)
    ensures steps[i].key !in Last(ps).saved
  {
    RunFiles(env, st, steps, ps);
    StaysDeleted(FilesOf(ps), AppliedOf(env, steps, ps), steps, env.act, i, |ps| - 1);
  }

  /** A full run in which every delete but that of step `bad` is applied. */
  lemma RunFailing(st: State, steps: seq<Step>, bad: nat) returns (env: Env, ps: seq<Progress>)
    requires NoneBlocked(steps)
    ensures IsRun(env, st, steps, ps) && |ps| == |steps| + 1
    ensures forall i :: 0 <= i < |steps| && steps[i].op == Delete ==> (AppliedAt(env, steps, ps, i) <==> i != bad)
    ensures bad >= |steps| ==> AllSucceed(env, steps)
  {
    env, ps := Failing(steps, bad), RunTo(Failing(steps, bad), st, steps, |steps|);
    FullRun(st, steps, bad, |steps|);
    assert forall i :: 0 <= i < |steps| ==> steps[i].kind in Kinds(steps);
    if bad >= |steps| { AllSucceedThen(steps, bad); }
  }

  // ----- plans with deletes

  lemma PlanNoneBlocked(hash: Hash, st: State, ordered: seq<Resource>, steps: seq<Step>, gone: seq<Key>)
    requires IsPlan(hash, st, ordered, true, steps, gone)
    ensures NoneBlocked(steps) && forall i :: |ordered| <= i < |steps| ==> OnlyDeletesAfter(steps, i)
  {
    forall i | |ordered| <= i < |steps| ensures steps[i].op == Delete {
      GoneStepAt(hash, st, ordered, true, steps, gone, i);
    }
  }

  /** The entry without a slash whose delete step names `key`. */
  lemma Clobbering(hash: Hash, st: State, ordered: seq<Resource>, steps: seq<Step>, gone: seq<Key>, key: Key)
    returns (i: nat)
    requires IsPlan(hash, st, ordered, true, steps, gone) && Clobbered(ordered, st, key)
    ensures |ordered| <= i < |steps| && steps[i].key == key && '/' !in gone[i - |ordered|]
  {
    var k :| k in Gone(ordered, st) && '/' !in k && k + "/" == key;
    var m := GoneAt(hash, st, ordered, steps, gone, k);
    i := |ordered| + m;
    SlashedStepAt(hash, st, ordered, true, steps, gone, i);
  }

  lemma GoneAt(hash: Hash, st: State, ordered: seq<Resource>, steps: seq<Step>, gone: seq<Key>, k: Key) returns (m: nat)
    requires IsPlan(hash, st, ordered, true, steps, gone) && k in Gone(ordered, st)
    ensures m < |gone| && gone[m] == k
  {
    assert k in gone;
    m :| 0 <= m < |gone| && gone[m] == k;
  }

  // ----- resources

  ghost predicate AlwaysResumes(hash: Hash, st: State, ordered: seq<Resource>, steps: seq<Step>, j: nat)
    requires j < |ordered| && j < |steps|
  {
    forall env, ps :: IsRun(env, st, steps, ps) ==> Resumes(hash, env, st, ordered, steps, ps, j)
  }

  lemma ClobberedDoesNotResume(
    hash: Hash, st: State, ordered: seq<Resource>, steps: seq<Step>, gone: seq<Key>, j: nat)
    requires IsPlan(hash, st, ordered, true, steps, gone) && j < |ordered| && Clobbered(ordered, st, ordered[j].key)
    ensures !AlwaysResumes(hash, st, ordered, steps, j)
  {
    var i := Clobbering(hash, st, ordered, steps, gone, ordered[j].key);
    PlanNoneBlocked(hash, st, ordered, steps, gone);
    GoneStepAt(hash, st, ordered, true, steps, gone, i);
    var env, ps := RunFailing(st, steps, |steps|);
    DeleteRemoves(env, st, steps, ps, i);
    SuccessApplies(env, st, steps, ps, |steps|);
    assert steps[j].op == OpFor(hash, st, ordered[j]);
    assert !Resumes(hash, env, st, ordered, steps, ps, j);
  }

  lemma AllSucceedThen(steps: seq<Step>, bad: nat)
    requires NoneBlocked(steps) && bad >= |steps|
    ensures AllSucceed(Failing(steps, bad), steps)
  {
    forall i | 0 <= i < |steps| ensures Succeeds(Failing(steps, bad), steps[i], i) {
      assert steps[i].kind in Kinds(steps);
    }
  }

  /** Planning again resumes a resource after every run exactly when deletes are not allowed, or no entry without a
      slash left the config whose delete step names the resource. */
  lemma ResumesExactly(
    hash: Hash, st: State, ordered: seq<Resource>, allow: bool, steps: seq<Step>, gone: seq<Key>, j: nat)
    requires IsPlan(hash, st, ordered, allow, steps, gone) && DistinctKeys(ordered) && j < |ordered|
    ensures AlwaysResumes(hash, st, ordered, steps, j) <==> !(allow && Clobbered(ordered, st, ordered[j].key))
  {
    if allow && Clobbered(ordered, st, ordered[j].key) {
      ClobberedDoesNotResume(hash, st, ordered, steps, gone, j);
    } else {
      forall env, ps | IsRun(env, st, steps, ps) ensures Resumes(hash, env, st, ordered, steps, ps, j) {
        ReplanResumes(hash, env, st, ordered, allow, steps, gone, ps, j);
      }
    }
  }

  // ----- entries that are gone

  ghost predicate AlwaysDeletesAgain(st: State, ordered: seq<Resource>, steps: seq<Step>, gone: seq<Key>, i: nat)
    requires i < |gone| && |steps| == |ordered| + |gone|
  {
    forall env, ps :: IsRun(env, st, steps, ps) ==> DeletesAgain(env, ordered, steps, gone, ps, i)
  }

  lemma UnslashedIsForgotten(hash: Hash, st: State, ordered: seq<Resource>, steps: seq<Step>, gone: seq<Key>, i: nat)
    requires IsPlan(hash, st, ordered, true, steps, gone) && i < |gone| && '/' !in gone[i]
    ensures !AlwaysDeletesAgain(st, ordered, steps, gone, i)
  {
    PlanNoneBlocked(hash, st, ordered, steps, gone);
    GoneStepAt(hash, st, ordered, true, steps, gone, |ordered| + i);
    var env, ps := RunFailing(st, steps, |steps|);
    Untouched(hash, env, st, ordered, true, steps, gone, ps, gone[i]);
    assert !DeletesAgain(env, ordered, steps, gone, ps, i);
  }

  lemma ClobberedIsDeletedTwice(
    hash: Hash, st: State, ordered: seq<Resource>, steps: seq<Step>, gone: seq<Key>, i: nat)
    requires IsPlan(hash, st, ordered, true, steps, gone) && i < |gone|
    requires '/' in gone[i] && Clobbered(ordered, st, gone[i])
    ensures !AlwaysDeletesAgain(st, ordered, steps, gone, i)
  {
    var own := |ordered| + i;
    var other := Clobbering(hash, st, ordered, steps, gone, gone[i]);
    assert other != own;
    PlanNoneBlocked(hash, st, ordered, steps, gone);
    GoneStepAt(hash, st, ordered, true, steps, gone, own);
    GoneStepAt(hash, st, ordered, true, steps, gone, other);
    var env, ps := RunFailing(st, steps, own);
    DeleteRemoves(env, st, steps, ps, other);
    assert !DeletesAgain(env, ordered, steps, gone, ps, i);
  }

  /** An entry that is gone is planned for deletion again after every run exactly until its own step was applied, if
      and only if deletes are not allowed, or its key has a slash and no entry without one has a delete step that
      names it. */
  lemma DeletesAgainExactly(
    hash: Hash, st: State, ordered: seq<Resource>, allow: bool, steps: seq<Step>, gone: seq<Key>, i: nat)
    requires IsPlan(hash, st, ordered, allow, steps, gone) && DistinctKeys(ordered) && i < |gone|
    ensures
      AlwaysDeletesAgain(st, ordered, steps, gone, i) <==>
      !allow || ('/' in gone[i] && !Clobbered(ordered, st, gone[i]))
  {
    if !allow || ('/' in gone[i] && !Clobbered(ordered, st, gone[i])) {
      forall env, ps | IsRun(env, st, steps, ps) ensures DeletesAgain(env, ordered, steps, gone, ps, i) {
        ReplanDeletes(hash, env, st, ordered, allow, steps, gone, ps, i);
      }
    } else if '/' !in gone[i] {
      UnslashedIsForgotten(hash, st, ordered, steps, gone, i);
    } else {
      ClobberedIsDeletedTwice(hash, st, ordered, steps, gone, i);
    }
  }

  // ----- an entry without a slash

  /** No resources and one state entry, "k": a fully successful deployment leaves it, and planning again deletes
      again. */
  lemma UnslashedExample(hash: Hash, entry: Entry)
    ensures
      var st: State := map["k" := entry];
      var steps := [GoneStep(true, "k")];
      var ps := RunTo(Failing(steps, 1), st, steps, 1);
      && IsPlan(hash, st, [], true, steps, ["k"]) && AllSucceed(Failing(steps, 1), steps)
      && IsRun(Failing(steps, 1), st, steps, ps) && Complete(steps, ps)
      && "k" in Last(ps).saved && IsPlan(hash, Last(ps).saved, [], true, steps, ["k"]) && HasChanges(steps)
  {
    var st: State := map["k" := entry];
    var steps := [GoneStep(true, "k")];
    var ps := RunTo(Failing(steps, 1), st, steps, 1);
    FullRun(st, steps, 1, 1);
    AllSucceedThen(steps, 1);
    OneEntryPlan(hash, st, steps);
    Untouched(hash, Failing(steps, 1), st, [], true, steps, ["k"], ps, "k");
    OnlyK(Failing(steps, 1), st, steps, ps);
    OneEntryPlan(hash, Last(ps).saved, steps);
    HasChangesMeans(steps);
    assert steps[0].op == Delete;
  }

  lemma OneEntryPlan(hash: Hash, st: State, steps: seq<Step>)
    requires st.Keys == {"k"} && steps == [GoneStep(true, "k")]
    ensures IsPlan(hash, st, [], true, steps, ["k"]) && Gone([], st) == {"k"} && '/' !in "k"
  {
    assert !IsKey([], "k");
    assert ["k"][0] == "k";
  }

  /** Nothing is added to the file. */
  lemma OnlyK(env: Env, st: State, steps: seq<Step>, ps: seq<Progress>)
    requires IsRun(env, st, steps, ps) && |steps| == 1 && steps[0].op == Delete && st.Keys == {"k"}
    requires "k" in Last(ps).saved
    ensures Last(ps).saved.Keys == {"k"}
  {
    RunFiles(env, st, steps, ps);
    forall k | k in Last(ps).saved ensures k == "k" {
      KeyOrigin(FilesOf(ps), AppliedOf(env, steps, ps), steps, env.act, |ps| - 1, k);
    }
  }
}
