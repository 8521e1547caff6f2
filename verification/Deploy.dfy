/**
 Planning and applying a deployment, on values: internal/deploy/plan.go and internal/deploy/apply.go.

 Providers, the network and the state file are an `Env`: which kinds have a provider, how each step's call
 ends, and whether the save after it succeeds.
 */
module Deploy {
  import opened Sequences
  import opened SortedStrings
  import opened TopoOrder

  // ----- state keys

  datatype Ref = Ref(kind: string, name: string)

  function KeyOf(r: Ref): Key {
    r.kind + "/" + r.name
  }

  /** The position of the first '/', or the length when there is none. */
  function SlashAt(key: Key): (i: nat)
    ensures i <= |key| && (i < |key| ==> key[i] == '/') && '/' !in key[..i]
  {
    if key == "" || key[0] == '/' then 0
    else
      assert key[..1 + SlashAt(key[1..])] == [key[0]] + key[1..][..SlashAt(key[1..])];
      1 + SlashAt(key[1..])
  }

  /** internal/deploy/plan.go: parseStateKey. */
  function ParseStateKey(key: Key): Ref {
    var i := SlashAt(key);
    if i < |key| then Ref(key[..i], key[i + 1..]) else Ref(key, "")
  }

  /** A key comes back from its parsed form exactly when it contains a slash. */
  lemma ParseRoundTrip(key: Key)
    ensures KeyOf(ParseStateKey(key)) == key <==> '/' in key
    ensures '/' !in key ==> KeyOf(ParseStateKey(key)) == key + "/"
    ensures '/' in KeyOf(ParseStateKey(key))
  {
    var i := SlashAt(key);
    if i < |key| {
      assert key == key[..i] + "/" + key[i + 1..];
      assert '/' in key;
    } else {
      assert key[..i] == key;
      var back := KeyOf(ParseStateKey(key));
      assert back == key + "/";
      assert back[|key|] == '/';
    }
  }

  // ----- plans

  datatype Entry = Entry(hash: string, outputs: map<string, string>)
  type State = map<Key, Entry>

  datatype Op = Create | Update | Noop | Delete | BlockedDelete

  /** A planned action; `deps` are the dependencies of the step's resource. */
  datatype Step = Step(op: Op, kind: string, key: Key, deps: seq<Key>, hash: string)

  type Hash = string -> string

  function OpFor(hash: Hash, st: State, r: Resource): Op {
    if r.key !in st then Create else if st[r.key].hash == hash(r.inputs) then Noop else Update
  }

  function LiveStep(hash: Hash, st: State, r: Resource): Step {
    Step(OpFor(hash, st, r), r.kind, r.key, r.deps, hash(r.inputs))
  }

  function LiveSteps(hash: Hash, st: State, ordered: seq<Resource>): seq<Step> {
    seq(|ordered|, i requires 0 <= i < |ordered| => LiveStep(hash, st, ordered[i]))
  }

  /** The state entries that are no longer in the config. */
  ghost function Gone(ordered: seq<Resource>, st: State): set<Key> {
    set k | k in st && !IsKey(ordered, k)
  }

  function GoneStep(allowDeletes: bool, key: Key): Step {
    Step(if allowDeletes then Delete else BlockedDelete, ParseStateKey(key).kind, KeyOf(ParseStateKey(key)), [], "")
  }

  function GoneSteps(allowDeletes: bool, gone: seq<Key>): seq<Step> {
    seq(|gone|, i requires 0 <= i < |gone| => GoneStep(allowDeletes, gone[i]))
  }

  /** The steps internal/deploy/plan.go: BuildPlan makes of a sorted configuration. */
  ghost function PlanSteps(hash: Hash, st: State, ordered: seq<Resource>, allowDeletes: bool): seq<Step> {
    LiveSteps(hash, st, ordered) + GoneSteps(allowDeletes, SetSeq(Gone(ordered, st)))
  }

  /** The step of a resource: a create exactly without an entry, nothing exactly for an entry with the same hash. */
  ghost predicate PlansResource(hash: Hash, st: State, r: Resource, s: Step) {
    && s.kind == r.kind && s.key == r.key && s.deps == r.deps && s.hash == hash(r.inputs)
    && (s.op == Create <==> r.key !in st)
    && (s.op == Noop <==> r.key in st && st[r.key].hash == hash(r.inputs))
    && (s.op == Update <==> r.key in st && st[r.key].hash != hash(r.inputs))
  }

  /** The step of an entry that left the config; without a slash in its key, it names another key. */
  ghost predicate PlansGone(allowDeletes: bool, key: Key, s: Step) {
    && s.op == (if allowDeletes then Delete else BlockedDelete) && s.deps == [] && s.hash == ""
    && s.key == (if '/' in key then key else key + "/")
    && '/' !in s.kind && s.kind + "/" <= s.key
  }

  /** The resources in their order, and then the entries that left the config in the order of their keys. */
  ghost predicate Plans(hash: Hash, st: State, ordered: seq<Resource>, allowDeletes: bool, steps: seq<Step>) {
    exists gone ::
      && |steps| == |ordered| + |gone| && Sorted(gone) && (forall k :: k in gone <==> k in st && !IsKey(ordered, k))
      && (forall i :: 0 <= i < |ordered| ==> PlansResource(hash, st, ordered[i], steps[i]))
      && (forall i :: 0 <= i < |gone| ==> PlansGone(allowDeletes, gone[i], steps[|ordered| + i]))
  }

  lemma GoneStepPlans(allowDeletes: bool, key: Key)
    ensures PlansGone(allowDeletes, key, GoneStep(allowDeletes, key))
  {
    ParseRoundTrip(key);
    var ref := ParseStateKey(key);
    assert ref.kind + "/" <= KeyOf(ref);
    assert '/' !in ref.kind by { if SlashAt(key) == |key| { assert key[..SlashAt(key)] == key; } }
  }

  lemma PlanStepsPlan(hash: Hash, st: State, ordered: seq<Resource>, allowDeletes: bool)
    ensures Plans(hash, st, ordered, allowDeletes, PlanSteps(hash, st, ordered, allowDeletes))
  {
    SetSeqSorted(Gone(ordered, st));
    StepsPlan(hash, st, ordered, allowDeletes, SetSeq(Gone(ordered, st)));
  }

  lemma StepsPlan(hash: Hash, st: State, ordered: seq<Resource>, allowDeletes: bool, gone: seq<Key>)
    requires Sorted(gone) && forall k :: k in gone <==> k in Gone(ordered, st)
    ensures Plans(hash, st, ordered, allowDeletes, LiveSteps(hash, st, ordered) + GoneSteps(allowDeletes, gone))
  {
    var steps := LiveSteps(hash, st, ordered) + GoneSteps(allowDeletes, gone);
    forall i | 0 <= i < |ordered| ensures PlansResource(hash, st, ordered[i], steps[i]) {
      assert steps[i] == LiveStep(hash, st, ordered[i]);
    }
    forall i | 0 <= i < |gone| ensures PlansGone(allowDeletes, gone[i], steps[|ordered| + i]) {
      assert steps[|ordered| + i] == GoneStep(allowDeletes, gone[i]);
      GoneStepPlans(allowDeletes, gone[i]);
    }
  }

  function Count(steps: seq<Step>, op: Op): nat {
    if steps == [] then 0 else (if steps[|steps| - 1].op == op then 1 else 0) + Count(steps[..|steps| - 1], op)
  }

  /** internal/deploy/plan.go: HasChanges, from the tallies. */
  predicate HasChanges(steps: seq<Step>) {
    Count(steps, Create) + Count(steps, Update) + Count(steps, Delete) > 0
  }

  /** The positions of the steps with this operation. */
  ghost function With(steps: seq<Step>, op: Op): set<nat> {
    set i: nat | i < |steps| && steps[i].op == op
  }

  lemma WithMore(steps: seq<Step>, s: Step, op: Op)
    ensures |With(steps + [s], op)| == |With(steps, op)| + if s.op == op then 1 else 0
  {
    var n: nat, a, b := |steps|, With(steps, op), With(steps + [s], op);
    forall i: nat ensures i in b <==> i in a || (i == n && s.op == op) {
      if i < n { assert (steps + [s])[i] == steps[i]; }
    }
    assert n !in a;
    assert b == if s.op == op then a + {n} else a;
  }

  lemma {:induction false} CountZero(steps: seq<Step>, op: Op)
    ensures Count(steps, op) == 0 <==> forall i :: 0 <= i < |steps| ==> steps[i].op != op
  {
    if steps != [] {
      var init := steps[..|steps| - 1];
      CountZero(init, op);
      assert forall i :: 0 <= i < |init| ==> init[i] == steps[i];
    }
  }

  lemma HasChangesMeans(steps: seq<Step>)
    ensures HasChanges(steps) <==>
            exists i :: 0 <= i < |steps| && (steps[i].op == Create || steps[i].op == Update || steps[i].op == Delete)
  {
    CountZero(steps, Create);
    CountZero(steps, Update);
    CountZero(steps, Delete);
  }

  // ----- apply

  datatype Outcome = Fails | Returns(outputs: map<string, string>)
  datatype Status = Applied | Unchanged | Failed | Skipped

  datatype Env = Env(providers: set<string>, act: nat -> Outcome, saves: nat -> bool)

  /** `state` is the in-memory state, `saved` the contents of the state file. */
  datatype Progress = Progress(state: State, saved: State, failed: set<Key>, statuses: seq<Status>, aborted: bool)

  predicate FailedDep(deps: seq<Key>, failed: set<Key>) {
    exists i :: 0 <= i < |deps| && deps[i] in failed
  }

  function PriorOutputs(st: State, key: Key): map<string, string> {
    if key in st then st[key].outputs else map[]
  }

  /** A state change followed by its save. */
  function Commit(env: Env, p: Progress, next: State, i: nat): Progress {
    if env.saves(i) then p.(state := next, saved := next, statuses := p.statuses + [Applied])
    else p.(state := next, aborted := true)
  }

  function Refuse(p: Progress, key: Key, status: Status): Progress {
    p.(failed := p.failed + {key}, statuses := p.statuses + [status])
  }

  /** One turn of the loop of internal/deploy/apply.go: Apply. */
  function Advance(env: Env, p: Progress, s: Step, i: nat): Progress {
    match s.op
    case Noop => p.(statuses := p.statuses + [Unchanged])
    case Create | Update =>
      if FailedDep(s.deps, p.failed) then Refuse(p, s.key, Skipped)
      else if s.kind !in env.providers then p.(aborted := true)
      else (match env.act(i)
            case Fails => Refuse(p, s.key, Failed)
            case Returns(outputs) =>
              Commit(env, p, p.state[s.key := Entry(s.hash, PriorOutputs(p.state, s.key) + outputs)], i))
    case Delete =>
      if s.kind in env.providers && env.act(i).Fails? then Refuse(p, s.key, Failed)
      else Commit(env, p, p.state - {s.key}, i)
    case BlockedDelete => p.(aborted := true)
  }

  /** A run of a plan so far, one `Progress` for every number of steps taken; an abort ends it, and a crash can. */
  ghost predicate IsRun(env: Env, st: State, steps: seq<Step>, ps: seq<Progress>) {
    && 1 <= |ps| <= |steps| + 1 && ps[0] == Progress(st, st, {}, [], false)
    && forall i :: 0 <= i < |ps| - 1 ==> StepFrom(env, steps, ps, i)
  }

  ghost predicate StepFrom(env: Env, steps: seq<Step>, ps: seq<Progress>, i: nat) {
    && i < |steps| && i + 1 < |ps| && !ps[i].aborted && ps[i + 1] == Advance(env, ps[i], steps[i], i)
  }

  function Last(ps: seq<Progress>): Progress
    requires ps != []
  {
    ps[|ps| - 1]
  }

  /** The step can be carried out from `p`: its dependencies, its provider, its call and the save are all right. */
  predicate CarriesOut(env: Env, p: Progress, s: Step, i: nat) {
    && env.saves(i)
    && match s.op
       case Noop => false
       case Create | Update => !FailedDep(s.deps, p.failed) && s.kind in env.providers && env.act(i).Returns?
       case Delete => !(s.kind in env.providers && env.act(i).Fails?)
       case BlockedDelete => false
  }

  /** Step `i` was carried out in the run, and its effect is in the state file. */
  predicate AppliedAt(env: Env, steps: seq<Step>, ps: seq<Progress>, i: nat)
    requires i < |steps|
  {
    i + 1 < |ps| && CarriesOut(env, ps[i], steps[i], i)
  }

  // ----- what the state file holds after any number of steps

  ghost predicate DistinctStepKeys(steps: seq<Step>) {
    forall i, j :: 0 <= i < j < |steps| ==> steps[i].key != steps[j].key
  }

  ghost predicate SameEntry(a: State, b: State, k: Key) {
    (k in a <==> k in b) && (k in a ==> a[k] == b[k])
  }

  lemma AdvanceKeepsSaved(env: Env, p: Progress, s: Step, i: nat)
    requires p.state == p.saved
    ensures
      var q := Advance(env, p, s, i);
      !q.aborted ==> q.state == q.saved
  {
  }

  /** The state in memory and the file agree until an abort. */
  lemma {:induction false} InMemoryIsSaved(env: Env, st: State, steps: seq<Step>, ps: seq<Progress>, n: nat)
    requires IsRun(env, st, steps, ps) && n < |ps| && !ps[n].aborted
    ensures ps[n].state == ps[n].saved
  {
    if n > 0 {
      assert StepFrom(env, steps, ps, n - 1);
      InMemoryIsSaved(env, st, steps, ps, n - 1);
      AdvanceKeepsSaved(env, ps[n - 1], steps[n - 1], n - 1);
    }
  }

  /** What `after` holds of the outputs at `k`: those returned, and those from before that were not returned. */
  ghost predicate OutputsKept(before: State, after: Entry, k: Key, returned: map<string, string>, o: string) {
    if o in returned then o in after.outputs && after.outputs[o] == returned[o]
    else if k in before && o in before[k].outputs then o in after.outputs && after.outputs[o] == before[k].outputs[o]
    else o !in after.outputs
  }

  /** A delete removes the entry; a create or update leaves the hash of the inputs and the outputs the call returned. */
  ghost predicate Effect(before: State, after: State, s: Step, called: Outcome) {
    if s.op == Delete then s.key !in after
    else
      && s.key in after && after[s.key].hash == s.hash && called.Returns?
      && forall o :: OutputsKept(before, after[s.key], s.key, called.outputs, o)
  }

  /** What a step may do to the file: its own effect at its own key if it was applied, and nothing else. */
  ghost predicate FileStep(before: State, after: State, s: Step, called: Outcome, applied: bool) {
    forall k :: FileStepAt(before, after, s, called, applied, k)
  }

  ghost predicate FileStepAt(before: State, after: State, s: Step, called: Outcome, applied: bool, k: Key) {
    if applied && s.key == k then Effect(before, after, s, called) else SameEntry(before, after, k)
  }

  /** One turn of the loop, on a state that is in the file. */
  lemma AdvanceSaves(env: Env, p: Progress, s: Step, i: nat, k: Key)
    requires p.state == p.saved
    ensures FileStepAt(p.saved, Advance(env, p, s, i).saved, s, env.act(i), CarriesOut(env, p, s, i), k)
  {
  }

  /** The file after every number of steps, and which steps were applied. */
  ghost predicate Files(files: seq<State>, applied: seq<bool>, steps: seq<Step>, act: nat -> Outcome) {
    && 1 <= |files| <= |steps| + 1 && |applied| == |steps|
    && (forall i :: 0 <= i < |files| - 1 ==> FileStep(files[i], files[i + 1], steps[i], act(i), applied[i]))
    && (forall i :: |files| - 1 <= i < |steps| ==> !applied[i])
  }

  ghost function FilesOf(ps: seq<Progress>): seq<State> {
    seq(|ps|, i requires 0 <= i < |ps| => ps[i].saved)
  }

  ghost function AppliedOf(env: Env, steps: seq<Step>, ps: seq<Progress>): seq<bool> {
    seq(|steps|, i requires 0 <= i < |steps| => AppliedAt(env, steps, ps, i))
  }

  lemma RunFiles(env: Env, st: State, steps: seq<Step>, ps: seq<Progress>)
    requires IsRun(env, st, steps, ps)
    ensures Files(FilesOf(ps), AppliedOf(env, steps, ps), steps, env.act) && FilesOf(ps)[0] == st
    ensures FilesOf(ps)[|ps| - 1] == Last(ps).saved
  {
    forall i | 0 <= i < |ps| - 1
      ensures FileStep(ps[i].saved, ps[i + 1].saved, steps[i], env.act(i), AppliedAt(env, steps, ps, i))
    {
      assert StepFrom(env, steps, ps, i);
      InMemoryIsSaved(env, st, steps, ps, i);
      var before, after, s, applied := ps[i].saved, ps[i + 1].saved, steps[i], AppliedAt(env, steps, ps, i);
      forall k ensures FileStepAt(before, after, s, env.act(i), applied, k) { AdvanceSaves(env, ps[i], s, i, k); }
    }
  }

  /** At a key that no step has, nothing happens. */
  lemma {:induction false} OtherKeysStay(
    files: seq<State>, applied: seq<bool>, steps: seq<Step>, act: nat -> Outcome, n: nat, k: Key)
    requires Files(files, applied, steps, act) && n < |files| && forall i :: 0 <= i < n ==> steps[i].key != k
    ensures SameEntry(files[0], files[n], k)
  {
    if n > 0 {
      OtherKeysStay(files, applied, steps, act, n - 1, k);
      assert FileStep(files[n - 1], files[n], steps[n - 1], act(n - 1), applied[n - 1]);
      assert FileStepAt(files[n - 1], files[n], steps[n - 1], act(n - 1), applied[n - 1], k);
    }
  }

  lemma EffectFrom(start: State, before: State, after: State, s: Step, called: Outcome)
    requires SameEntry(start, before, s.key) && Effect(before, after, s, called)
    ensures Effect(start, after, s, called)
  {
    if s.op != Delete {
      forall o ensures OutputsKept(start, after[s.key], s.key, called.outputs, o) {
        assert OutputsKept(before, after[s.key], s.key, called.outputs, o);
      }
    }
  }

  lemma EffectStays(start: State, before: State, after: State, s: Step, called: Outcome)
    requires Effect(start, before, s, called) && SameEntry(before, after, s.key)
    ensures Effect(start, after, s, called)
  {
  }

  /** No other step with the key of step `i` was applied. */
  ghost predicate OnlyOne(steps: seq<Step>, applied: seq<bool>, i: nat)
    requires i < |steps| == |applied|
  {
    forall j :: 0 <= j < |steps| && j != i && steps[j].key == steps[i].key ==> !applied[j]
  }

  /** At the key of step `i`, if no other step was applied there, the file holds that step's effect once it was applied,
      and the original entry until then. */
  lemma {:induction false} FileAfter(
    files: seq<State>, applied: seq<bool>, steps: seq<Step>, act: nat -> Outcome, n: nat, i: nat)
    requires Files(files, applied, steps, act) && i < |steps| && n < |files| && OnlyOne(steps, applied, i)
    ensures
      if i < n && applied[i] then Effect(files[0], files[n], steps[i], act(i))
      else SameEntry(files[0], files[n], steps[i].key)
  {
    if n > 0 {
      FileAfter(files, applied, steps, act, n - 1, i);
      assert FileStep(files[n - 1], files[n], steps[n - 1], act(n - 1), applied[n - 1]);
      assert FileStepAt(files[n - 1], files[n], steps[n - 1], act(n - 1), applied[n - 1], steps[i].key);
      if n - 1 == i && applied[i] {
        EffectFrom(files[0], files[n - 1], files[n], steps[i], act(i));
      } else if i < n - 1 && applied[i] {
        EffectStays(files[0], files[n - 1], files[n], steps[i], act(i));
      }
    }
  }

  /** In the file a run leaves, an applied step whose key no other applied step has shows its effect on the entry. */
  lemma RunRecords(env: Env, st: State, steps: seq<Step>, ps: seq<Progress>, i: nat)
    requires IsRun(env, st, steps, ps) && i < |steps| && OnlyOne(steps, AppliedOf(env, steps, ps), i)
    ensures
      if AppliedAt(env, steps, ps, i) then Effect(st, Last(ps).saved, steps[i], env.act(i))
      else SameEntry(st, Last(ps).saved, steps[i].key)
  {
    RunFiles(env, st, steps, ps);
    FileAfter(FilesOf(ps), AppliedOf(env, steps, ps), steps, env.act, |ps| - 1, i);
  }

  /** What the file of a run holds at the keys of its steps. */
  ghost predicate AllRecorded(env: Env, st: State, steps: seq<Step>, ps: seq<Progress>)
    requires ps != []
  {
    forall i :: 0 <= i < |steps| && OnlyOne(steps, AppliedOf(env, steps, ps), i) ==>
      if AppliedAt(env, steps, ps, i) then Effect(st, Last(ps).saved, steps[i], env.act(i))
      else SameEntry(st, Last(ps).saved, steps[i].key)
  }

  lemma RunRecordsAll(env: Env, st: State, steps: seq<Step>, ps: seq<Progress>)
    requires IsRun(env, st, steps, ps)
    ensures AllRecorded(env, st, steps, ps)
  {
    forall i | 0 <= i < |steps| && OnlyOne(steps, AppliedOf(env, steps, ps), i)
      ensures
        if AppliedAt(env, steps, ps, i) then Effect(st, Last(ps).saved, steps[i], env.act(i))
        else SameEntry(st, Last(ps).saved, steps[i].key)
    {
      RunRecords(env, st, steps, ps, i);
    }
  }

  /** The step's call goes through from `p`, whatever becomes of the save. */
  predicate GoesThrough(env: Env, p: Progress, s: Step, i: nat) {
    match s.op
    case Noop => false
    case Create | Update => !FailedDep(s.deps, p.failed) && s.kind in env.providers && env.act(i).Returns?
    case Delete => s.kind !in env.providers || env.act(i).Returns?
    case BlockedDelete => false
  }

  /**
   An abort leaves the file as it was before the last step. The state in memory is the same, unless the step went
   through and its save failed: then it has the effect of that step.
   */
  lemma AbortLeaves(env: Env, st: State, steps: seq<Step>, ps: seq<Progress>)
    requires IsRun(env, st, steps, ps) && Last(ps).aborted
    ensures |ps| >= 2 && Last(ps).saved == ps[|ps| - 2].saved
    ensures
      var i: nat, before := |ps| - 2, ps[|ps| - 2];
      if GoesThrough(env, before, steps[i], i)
      then !env.saves(i) && FileStep(before.saved, Last(ps).state, steps[i], env.act(i), true)
      else Last(ps).state == before.saved
  {
    var i: nat := |ps| - 2;
    assert StepFrom(env, steps, ps, i);
    InMemoryIsSaved(env, st, steps, ps, i);
    AbortStep(env, ps[i], steps[i], i);
  }

  lemma AbortStep(env: Env, p: Progress, s: Step, i: nat)
    requires p.state == p.saved && !p.aborted && Advance(env, p, s, i).aborted
    ensures
      var q := Advance(env, p, s, i);
      && q.saved == p.saved
      && if GoesThrough(env, p, s, i) then !env.saves(i) && FileStep(p.saved, q.state, s, env.act(i), true)
         else q.state == p.saved
  {
  }

  /** A key of the file was there from the start or is that of a step that is not a deletion. */
  lemma {:induction false} KeyOrigin(
    files: seq<State>, applied: seq<bool>, steps: seq<Step>, act: nat -> Outcome, n: nat, k: Key)
    requires Files(files, applied, steps, act) && n < |files| && k in files[n]
    ensures k in files[0] || exists i :: 0 <= i < n && steps[i].key == k && steps[i].op != Delete
  {
    if n > 0 {
      assert FileStep(files[n - 1], files[n], steps[n - 1], act(n - 1), applied[n - 1]);
      if k in files[n - 1] {
        KeyOrigin(files, applied, steps, act, n - 1, k);
      } else {
        assert FileStepAt(files[n - 1], files[n], steps[n - 1], act(n - 1), applied[n - 1], k);
      }
    }
  }

  // ----- plans of a sorted configuration

  /** Resource keys are "<kind>/<name>" texts. */
  ghost predicate SlashedResources(ordered: seq<Resource>) {
    forall i :: 0 <= i < |ordered| ==> '/' in ordered[i].key
  }

  ghost predicate GoneSlashed(ordered: seq<Resource>, st: State) {
    forall k :: k in Gone(ordered, st) ==> '/' in k
  }

  /** A plan, with the keys it deletes after the live steps. */
  ghost predicate IsPlan(hash: Hash, st: State, ordered: seq<Resource>, allow: bool, steps: seq<Step>, gone: seq<Key>) {
    && |steps| == |ordered| + |gone| && Distinct(gone) && (forall k :: k in gone <==> k in Gone(ordered, st))
    && (forall i :: 0 <= i < |ordered| ==> steps[i] == LiveStep(hash, st, ordered[i]))
    && (forall i :: 0 <= i < |gone| ==> steps[|ordered| + i] == GoneStep(allow, gone[i]))
  }

  lemma PlanIsPlan(hash: Hash, st: State, ordered: seq<Resource>, allow: bool)
    ensures IsPlan(hash, st, ordered, allow, PlanSteps(hash, st, ordered, allow), SetSeq(Gone(ordered, st)))
  {
    StepsArePlan(hash, st, ordered, allow, SetSeq(Gone(ordered, st)));
  }

  lemma StepsArePlan(hash: Hash, st: State, ordered: seq<Resource>, allow: bool, gone: seq<Key>)
    requires Distinct(gone) && forall k :: k in gone <==> k in Gone(ordered, st)
    ensures IsPlan(hash, st, ordered, allow, LiveSteps(hash, st, ordered) + GoneSteps(allow, gone), gone)
  {
  }

  lemma GoneStepAt(
    hash: Hash, st: State, ordered: seq<Resource>, allow: bool, steps: seq<Step>, gone: seq<Key>, i: nat)
    requires IsPlan(hash, st, ordered, allow, steps, gone) && |ordered| <= i < |steps|
    ensures gone[i - |ordered|] in Gone(ordered, st) && '/' in steps[i].key && !Changes(steps[i]) && steps[i].op != Noop
    ensures GoneSlashed(ordered, st) ==> steps[i].key == gone[i - |ordered|] && !IsKey(ordered, steps[i].key)
    ensures allow ==> steps[i].op == Delete
  {
    var k := gone[i - |ordered|];
    assert k in gone;
    ParseRoundTrip(k);
    assert steps[|ordered| + (i - |ordered|)] == GoneStep(allow, k);
  }

  /** An entry without a slash left the config, and its delete step names this key. */
  ghost predicate Clobbered(ordered: seq<Resource>, st: State, key: Key) {
    exists k :: k in Gone(ordered, st) && '/' !in k && k + "/" == key
  }

  /** Step `i` is that of a resource, or of an entry that it names. */
  ghost predicate NamesItsKey(ordered: seq<Resource>, gone: seq<Key>, i: nat) {
    i < |ordered| || (i < |ordered| + |gone| && '/' in gone[i - |ordered|])
  }

  lemma SlashedStepAt(
    hash: Hash, st: State, ordered: seq<Resource>, allow: bool, steps: seq<Step>, gone: seq<Key>, i: nat)
    requires IsPlan(hash, st, ordered, allow, steps, gone) && |ordered| <= i < |steps|
    ensures steps[i].key == if '/' in gone[i - |ordered|] then gone[i - |ordered|] else gone[i - |ordered|] + "/"
  {
    ParseRoundTrip(gone[i - |ordered|]);
    assert steps[|ordered| + (i - |ordered|)] == GoneStep(allow, gone[i - |ordered|]);
  }

  /** Where a step names its key, another step with that key is the delete of an entry without a slash. */
  lemma PlanOnlyOne(
    hash: Hash, env: Env, st: State, ordered: seq<Resource>, allow: bool, steps: seq<Step>, gone: seq<Key>,
    ps: seq<Progress>, i: nat)
    requires IsPlan(hash, st, ordered, allow, steps, gone) && DistinctKeys(ordered)
    requires i < |steps| && NamesItsKey(ordered, gone, i) && (allow ==> !Clobbered(ordered, st, steps[i].key))
    ensures OnlyOne(steps, AppliedOf(env, steps, ps), i)
  {
    if i >= |ordered| {
      SlashedStepAt(hash, st, ordered, allow, steps, gone, i);
      GoneStepAt(hash, st, ordered, allow, steps, gone, i);
    }
    forall j | 0 <= j < |steps| && j != i && steps[j].key == steps[i].key ensures !AppliedAt(env, steps, ps, j) {
      if j >= |ordered| {
        SlashedStepAt(hash, st, ordered, allow, steps, gone, j);
        GoneStepAt(hash, st, ordered, allow, steps, gone, j);
      }
    }
  }

  /**
   After any number of steps, under any pattern of failures, planning the same resources again asks for
   nothing where the step was applied or was not needed, and for the original operation everywhere else.
   */
  ghost predicate Resumes(
    hash: Hash, env: Env, st: State, ordered: seq<Resource>, steps: seq<Step>, ps: seq<Progress>, j: nat)
    requires j < |ordered| && j < |steps| && ps != []
  {
    OpFor(hash, Last(ps).saved, ordered[j]) ==
      if OpFor(hash, st, ordered[j]) == Noop || AppliedAt(env, steps, ps, j) then Noop
      else OpFor(hash, st, ordered[j])
  }

  lemma ReplanResumes(
    hash: Hash, env: Env, st: State, ordered: seq<Resource>, allow: bool, steps: seq<Step>, gone: seq<Key>,
    ps: seq<Progress>, j: nat)
    requires IsPlan(hash, st, ordered, allow, steps, gone) && DistinctKeys(ordered) && IsRun(env, st, steps, ps)
    requires j < |ordered| && (allow ==> !Clobbered(ordered, st, ordered[j].key))
    ensures Resumes(hash, env, st, ordered, steps, ps, j)
  {
    PlanOnlyOne(hash, env, st, ordered, allow, steps, gone, ps, j);
    RunFiles(env, st, steps, ps);
    FileAfter(FilesOf(ps), AppliedOf(env, steps, ps), steps, env.act, |ps| - 1, j);
    OpAfter(hash, st, ordered[j], Last(ps).saved, steps[j], env.act(j));
  }

  /** The operation asked for next, from what the file holds at the resource's key. */
  lemma OpAfter(hash: Hash, st: State, r: Resource, file: State, s: Step, called: Outcome)
    requires s == LiveStep(hash, st, r)
    ensures Effect(st, file, s, called) ==> OpFor(hash, file, r) == Noop
    ensures SameEntry(st, file, r.key) ==> OpFor(hash, file, r) == OpFor(hash, st, r)
  {
  }

  /** An entry that was to be deleted is still to be deleted until its own step was applied. */
  ghost predicate DeletesAgain(
    env: Env, ordered: seq<Resource>, steps: seq<Step>, gone: seq<Key>, ps: seq<Progress>, i: nat)
    requires i < |gone| && |steps| == |ordered| + |gone| && ps != []
  {
    gone[i] in Gone(ordered, Last(ps).saved) <==> !AppliedAt(env, steps, ps, |ordered| + i)
  }

  lemma ReplanDeletes(
    hash: Hash, env: Env, st: State, ordered: seq<Resource>, allow: bool, steps: seq<Step>, gone: seq<Key>,
    ps: seq<Progress>, i: nat)
    requires IsPlan(hash, st, ordered, allow, steps, gone) && DistinctKeys(ordered) && IsRun(env, st, steps, ps)
    requires i < |gone| && (allow ==> '/' in gone[i] && !Clobbered(ordered, st, gone[i]))
    ensures DeletesAgain(env, ordered, steps, gone, ps, i)
  {
    if '/' in gone[i] {
      SlashedDeletesAgain(hash, env, st, ordered, allow, steps, gone, ps, i);
    } else {
      BlockedDeletesAgain(hash, env, st, ordered, steps, gone, ps, i);
    }
  }

  lemma SlashedDeletesAgain(
    hash: Hash, env: Env, st: State, ordered: seq<Resource>, allow: bool, steps: seq<Step>, gone: seq<Key>,
    ps: seq<Progress>, i: nat)
    requires IsPlan(hash, st, ordered, allow, steps, gone) && DistinctKeys(ordered) && IsRun(env, st, steps, ps)
    requires i < |gone| && '/' in gone[i] && (allow ==> !Clobbered(ordered, st, gone[i]))
    ensures DeletesAgain(env, ordered, steps, gone, ps, i)
  {
    var n := |ordered| + i;
    SlashedGone(hash, st, ordered, allow, steps, gone, n);
    PlanOnlyOne(hash, env, st, ordered, allow, steps, gone, ps, n);
    StillGone(env, st, steps, ordered, ps, n);
  }

  lemma SlashedGone(
    hash: Hash, st: State, ordered: seq<Resource>, allow: bool, steps: seq<Step>, gone: seq<Key>, n: nat)
    requires IsPlan(hash, st, ordered, allow, steps, gone)
    requires |ordered| <= n < |steps| && '/' in gone[n - |ordered|]
    ensures NamesItsKey(ordered, gone, n) && steps[n].key == gone[n - |ordered|]
    ensures steps[n].key in Gone(ordered, st) && (steps[n].op == Delete || steps[n].op == BlockedDelete)
  {
    SlashedStepAt(hash, st, ordered, allow, steps, gone, n);
    assert gone[n - |ordered|] in gone;
    assert steps[|ordered| + (n - |ordered|)] == GoneStep(allow, gone[n - |ordered|]);
  }

  lemma BlockedDeletesAgain(
    hash: Hash, env: Env, st: State, ordered: seq<Resource>, steps: seq<Step>, gone: seq<Key>, ps: seq<Progress>,
    i: nat)
    requires IsPlan(hash, st, ordered, false, steps, gone) && IsRun(env, st, steps, ps)
    requires i < |gone| && '/' !in gone[i]
    ensures DeletesAgain(env, ordered, steps, gone, ps, i)
  {
    GoneStepAt(hash, st, ordered, false, steps, gone, |ordered| + i);
    Untouched(hash, env, st, ordered, false, steps, gone, ps, gone[i]);
  }

  lemma StillGone(env: Env, st: State, steps: seq<Step>, ordered: seq<Resource>, ps: seq<Progress>, j: nat)
    requires IsRun(env, st, steps, ps) && j < |steps| && steps[j].key in Gone(ordered, st)
    requires OnlyOne(steps, AppliedOf(env, steps, ps), j)
    requires steps[j].op == Delete || steps[j].op == BlockedDelete
    ensures steps[j].key in Gone(ordered, Last(ps).saved) <==> !AppliedAt(env, steps, ps, j)
  {
    RunFiles(env, st, steps, ps);
    FileAfter(FilesOf(ps), AppliedOf(env, steps, ps), steps, env.act, |ps| - 1, j);
  }

  /** An entry without a slash is never removed, because the step that should remove it names another key. */
  lemma Untouched(
    hash: Hash, env: Env, st: State, ordered: seq<Resource>, allow: bool, steps: seq<Step>, gone: seq<Key>,
    ps: seq<Progress>, g: Key)
    requires IsPlan(hash, st, ordered, allow, steps, gone) && IsRun(env, st, steps, ps)
    requires g in Gone(ordered, st) && '/' !in g
    ensures g in Gone(ordered, Last(ps).saved)
  {
    forall i | 0 <= i < |steps| ensures steps[i].key != g {
      if i >= |ordered| { GoneStepAt(hash, st, ordered, allow, steps, gone, i); }
    }
    RunFiles(env, st, steps, ps);
    OtherKeysStay(FilesOf(ps), AppliedOf(env, steps, ps), steps, env.act, |ps| - 1, g);
  }

  /** No run puts anything else into the list of deletions. */
  lemma NothingElseGone(
    hash: Hash, env: Env, st: State, ordered: seq<Resource>, steps: seq<Step>, gone: seq<Key>,
    ps: seq<Progress>, k: Key)
    requires IsPlan(hash, st, ordered, true, steps, gone) && IsRun(env, st, steps, ps)
    requires k in Gone(ordered, Last(ps).saved)
    ensures k in Gone(ordered, st)
  {
    RunFiles(env, st, steps, ps);
    KeyOrigin(FilesOf(ps), AppliedOf(env, steps, ps), steps, env.act, |ps| - 1, k);
    if k !in st {
      var i :| 0 <= i < |ps| - 1 && steps[i].key == k && steps[i].op != Delete;
      if i >= |ordered| { GoneStepAt(hash, st, ordered, true, steps, gone, i); }
    }
  }

  /** Every key of the state file keeps the "<kind>/<name>" form when it started with it. */
  lemma SlashesPreserved(
    hash: Hash, env: Env, st: State, ordered: seq<Resource>, allow: bool, steps: seq<Step>, gone: seq<Key>,
    ps: seq<Progress>, k: Key)
    requires IsPlan(hash, st, ordered, allow, steps, gone) && SlashedResources(ordered) && IsRun(env, st, steps, ps)
    requires k in Last(ps).saved && '/' !in k
    ensures k in st
  {
    RunFiles(env, st, steps, ps);
    KeyOrigin(FilesOf(ps), AppliedOf(env, steps, ps), steps, env.act, |ps| - 1, k);
    if k !in st {
      var i :| 0 <= i < |ps| - 1 && steps[i].key == k && steps[i].op != Delete;
      if i >= |ordered| { GoneStepAt(hash, st, ordered, allow, steps, gone, i); }
    }
  }

  // ----- full success

  /** The step's call and save succeed, as far as it needs them. */
  predicate Succeeds(env: Env, s: Step, i: nat) {
    match s.op
    case Noop => true
    case Create | Update => s.kind in env.providers && env.act(i).Returns? && env.saves(i)
    case Delete => (s.kind in env.providers ==> env.act(i).Returns?) && env.saves(i)
    case BlockedDelete => false
  }

  ghost predicate AllSucceed(env: Env, steps: seq<Step>) {
    forall i :: 0 <= i < |steps| ==> Succeeds(env, steps[i], i)
  }

  /** The run has taken all steps, or was aborted. */
  predicate Complete(steps: seq<Step>, ps: seq<Progress>) {
    ps != [] && (|ps| == |steps| + 1 || Last(ps).aborted)
  }

  lemma AdvanceSucceeds(env: Env, p: Progress, s: Step, i: nat)
    requires p.failed == {} && !p.aborted && Succeeds(env, s, i)
    ensures !Advance(env, p, s, i).aborted && Advance(env, p, s, i).failed == {}
    ensures s.op != Noop ==> CarriesOut(env, p, s, i)
  {
  }

  lemma {:induction false} SuccessApplies(env: Env, st: State, steps: seq<Step>, ps: seq<Progress>, n: nat)
    requires IsRun(env, st, steps, ps) && n < |ps| && AllSucceed(env, steps)
    ensures !ps[n].aborted && ps[n].failed == {}
    ensures forall i :: 0 <= i < n && steps[i].op != Noop ==> AppliedAt(env, steps, ps, i)
  {
    if n > 0 {
      SuccessApplies(env, st, steps, ps, n - 1);
      assert StepFrom(env, steps, ps, n - 1);
      AdvanceSucceeds(env, ps[n - 1], steps[n - 1], n - 1);
    }
  }

  /**
   When every call and save succeeds, planning again finds nothing to do exactly when every state entry that
   left the config has a slash in its key.
   */
  lemma SuccessConvergesExactly(
    hash: Hash, env: Env, st: State, ordered: seq<Resource>, steps: seq<Step>, gone: seq<Key>,
    ps: seq<Progress>, again: seq<Step>, goneAgain: seq<Key>)
    requires IsPlan(hash, st, ordered, true, steps, gone) && DistinctKeys(ordered) && SlashedResources(ordered)
    requires AllSucceed(env, steps) && IsRun(env, st, steps, ps) && Complete(steps, ps)
    requires IsPlan(hash, Last(ps).saved, ordered, true, again, goneAgain)
    ensures !HasChanges(again) <==> GoneSlashed(ordered, st)
  {
    HasChangesMeans(again);
    if GoneSlashed(ordered, st) {
      NothingGoneLeft(hash, env, st, ordered, steps, gone, ps);
      forall j | 0 <= j < |again| ensures again[j].op == Noop {
        if j < |ordered| {
          NothingLiveLeft(hash, env, st, ordered, steps, gone, ps, j);
        } else {
          GoneStepAt(hash, Last(ps).saved, ordered, true, again, goneAgain, j);
        }
      }
    } else {
      var g :| g in Gone(ordered, st) && '/' !in g;
      Untouched(hash, env, st, ordered, true, steps, gone, ps, g);
      var i :| 0 <= i < |goneAgain| && goneAgain[i] == g;
      assert again[|ordered| + i].op == Delete;
    }
  }

  lemma NothingLiveLeft(
    hash: Hash, env: Env, st: State, ordered: seq<Resource>, steps: seq<Step>, gone: seq<Key>,
    ps: seq<Progress>, j: nat)
    requires IsPlan(hash, st, ordered, true, steps, gone) && DistinctKeys(ordered) && GoneSlashed(ordered, st)
    requires AllSucceed(env, steps) && IsRun(env, st, steps, ps) && Complete(steps, ps) && j < |ordered|
    ensures OpFor(hash, Last(ps).saved, ordered[j]) == Noop
  {
    SuccessApplies(env, st, steps, ps, |ps| - 1);
    ReplanResumes(hash, env, st, ordered, true, steps, gone, ps, j);
    assert steps[j].op == OpFor(hash, st, ordered[j]);
  }

  lemma NothingGoneLeft(
    hash: Hash, env: Env, st: State, ordered: seq<Resource>, steps: seq<Step>, gone: seq<Key>, ps: seq<Progress>)
    requires IsPlan(hash, st, ordered, true, steps, gone) && DistinctKeys(ordered) && GoneSlashed(ordered, st)
    requires AllSucceed(env, steps) && IsRun(env, st, steps, ps) && Complete(steps, ps)
    ensures Gone(ordered, Last(ps).saved) == {}
  {
    SuccessApplies(env, st, steps, ps, |ps| - 1);
    forall k ensures k !in Gone(ordered, Last(ps).saved) {
      if k in Gone(ordered, Last(ps).saved) {
        NothingElseGone(hash, env, st, ordered, steps, gone, ps, k);
        var i :| 0 <= i < |gone| && gone[i] == k;
        GoneStepAt(hash, st, ordered, true, steps, gone, |ordered| + i);
        ReplanDeletes(hash, env, st, ordered, true, steps, gone, ps, i);
      }
    }
  }

  // ----- failures and their dependents

  predicate Changes(s: Step) {
    s.op == Create || s.op == Update
  }

  ghost predicate DepsBefore(steps: seq<Step>, i: nat)
    requires i < |steps|
  {
    forall d :: d in steps[i].deps ==> exists j :: 0 <= j < i && steps[j].key == d
  }

  /** The live part of a plan, with dependencies before their dependents. */
  ghost predicate Live(steps: seq<Step>) {
    && DistinctStepKeys(steps)
    && (forall i :: 0 <= i < |steps| ==> Changes(steps[i]) || steps[i].op == Noop)
    && (forall i :: 0 <= i < |steps| ==> DepsBefore(steps, i))
  }

  ghost predicate Edge(steps: seq<Step>, i: nat, j: nat) {
    i < |steps| && j < |steps| && steps[j].key in steps[i].deps
  }

  /** Changed resources, each a dependency of the one before. */
  ghost predicate Chain(steps: seq<Step>, path: seq<nat>) {
    && path != []
    && (forall p :: 0 <= p < |path| ==> path[p] < |steps| && Changes(steps[path[p]]))
    && (forall p :: 0 <= p < |path| - 1 ==> Edge(steps, path[p], path[p + 1]))
  }

  ghost predicate ChainToFailure(env: Env, steps: seq<Step>, path: seq<nat>, i: nat) {
    Chain(steps, path) && path[0] == i && env.act(path[|path| - 1]).Fails?
  }

  ghost predicate BelowFailure(env: Env, steps: seq<Step>, i: nat) {
    exists path :: ChainToFailure(env, steps, path, i)
  }

  lemma AdvanceFailed(env: Env, p: Progress, s: Step, i: nat)
    ensures p.failed <= Advance(env, p, s, i).failed <= p.failed + {s.key}
    ensures s.op == Noop ==> Advance(env, p, s, i).failed == p.failed
  {
  }

  /** A changed step that does not abort fails for one of two reasons, and is carried out otherwise. */
  lemma AdvanceOutcome(env: Env, p: Progress, s: Step, i: nat)
    requires Changes(s) && s.key !in p.failed && !Advance(env, p, s, i).aborted && !p.aborted
    ensures s.key in Advance(env, p, s, i).failed <==> FailedDep(s.deps, p.failed) || env.act(i).Fails?
    ensures CarriesOut(env, p, s, i) <==> s.key !in Advance(env, p, s, i).failed
  {
  }

  /** Whether a step failed is settled when it is its turn. */
  lemma {:induction false} FailedSettled(env: Env, st: State, steps: seq<Step>, ps: seq<Progress>, n: nat, i: nat)
    requires IsRun(env, st, steps, ps) && DistinctStepKeys(steps) && i < |steps| && n < |ps|
    ensures n <= i ==> steps[i].key !in ps[n].failed
    ensures i < n ==> (steps[i].key in ps[n].failed <==> steps[i].key in ps[i + 1].failed)
  {
    if n > 0 {
      FailedSettled(env, st, steps, ps, n - 1, i);
      assert StepFrom(env, steps, ps, n - 1);
      AdvanceFailed(env, ps[n - 1], steps[n - 1], n - 1);
    }
  }

  lemma {:induction false} FailedIsStep(env: Env, st: State, steps: seq<Step>, ps: seq<Progress>, n: nat, k: Key)
    requires IsRun(env, st, steps, ps) && n < |ps| && k in ps[n].failed
    ensures exists j :: 0 <= j < n && steps[j].key == k && steps[j].op != Noop
  {
    if n > 0 {
      assert StepFrom(env, steps, ps, n - 1);
      AdvanceFailed(env, ps[n - 1], steps[n - 1], n - 1);
      if k in ps[n - 1].failed { FailedIsStep(env, st, steps, ps, n - 1, k); }
    }
  }

  /** In a run that gets past a changed step without an abort, the step failed for one of two reasons or was applied. */
  lemma FailsExactly(env: Env, st: State, steps: seq<Step>, ps: seq<Progress>, n: nat, i: nat)
    requires IsRun(env, st, steps, ps) && DistinctStepKeys(steps) && i < n < |ps| && !ps[n].aborted && Changes(steps[i])
    ensures steps[i].key in ps[n].failed <==> FailedDep(steps[i].deps, ps[i].failed) || env.act(i).Fails?
    ensures AppliedAt(env, steps, ps, i) <==> steps[i].key !in ps[n].failed
  {
    FailedSettled(env, st, steps, ps, n, i);
    FailedSettled(env, st, steps, ps, i, i);
    assert StepFrom(env, steps, ps, i);
    if i + 1 < n { assert StepFrom(env, steps, ps, i + 1); }
    AdvanceOutcome(env, ps[i], steps[i], i);
  }

  lemma ChainLonger(env: Env, steps: seq<Step>, path: seq<nat>, i: nat, j: nat)
    requires ChainToFailure(env, steps, path, j) && Edge(steps, i, j) && Changes(steps[i])
    ensures BelowFailure(env, steps, i)
  {
    assert ChainToFailure(env, steps, [i] + path, i);
  }

  lemma ChainShorter(env: Env, steps: seq<Step>, path: seq<nat>, i: nat)
    requires ChainToFailure(env, steps, path, i) && |path| > 1
    ensures Edge(steps, i, path[1]) && ChainToFailure(env, steps, path[1..], path[1])
  {
    var rest := path[1..];
    assert Edge(steps, path[0], path[1]);
    forall p | 0 <= p < |rest| - 1 ensures Edge(steps, rest[p], rest[p + 1]) {
      assert Edge(steps, path[p + 1], path[p + 2]);
    }
  }

  lemma {:induction false} FailureIsBelow(env: Env, st: State, steps: seq<Step>, ps: seq<Progress>, n: nat, i: nat)
    requires IsRun(env, st, steps, ps) && Live(steps) && i < n < |ps| && Changes(steps[i]) && !ps[n].aborted
    requires steps[i].key in ps[n].failed
    ensures BelowFailure(env, steps, i)
    decreases i
  {
    FailsExactly(env, st, steps, ps, n, i);
    if FailedDep(steps[i].deps, ps[i].failed) {
      var d :| 0 <= d < |steps[i].deps| && steps[i].deps[d] in ps[i].failed;
      FailedIsStep(env, st, steps, ps, i, steps[i].deps[d]);
      var j :| 0 <= j < i && steps[j].key == steps[i].deps[d] && steps[j].op != Noop;
      assert StepFrom(env, steps, ps, i);
      FailureIsBelow(env, st, steps, ps, i, j);
      var path :| ChainToFailure(env, steps, path, j);
      ChainLonger(env, steps, path, i, j);
    } else {
      assert ChainToFailure(env, steps, [i], i);
    }
  }

  lemma {:induction false} BelowFails(
    env: Env, st: State, steps: seq<Step>, ps: seq<Progress>, n: nat, path: seq<nat>, i: nat)
    requires IsRun(env, st, steps, ps) && Live(steps) && i < n < |ps| && !ps[n].aborted
    requires ChainToFailure(env, steps, path, i)
    ensures steps[i].key in ps[n].failed
    decreases |path|
  {
    FailsExactly(env, st, steps, ps, n, i);
    if |path| > 1 {
      var j := path[1];
      ChainShorter(env, steps, path, i);
      assert DepsBefore(steps, i);
      assert StepFrom(env, steps, ps, i);
      assert j < i;
      BelowFails(env, st, steps, ps, i, path[1..], j);
    }
  }

  /**
   In a run that is not aborted, a changed resource ends failed or skipped exactly when a chain of changed
   dependencies leads from it to one whose own call fails; every other changed resource is applied.
   */
  lemma FailedExactlyBelow(env: Env, st: State, steps: seq<Step>, ps: seq<Progress>, i: nat)
    requires IsRun(env, st, steps, ps) && Live(steps) && i + 1 < |ps| && Changes(steps[i]) && !Last(ps).aborted
    ensures steps[i].key in Last(ps).failed <==> BelowFailure(env, steps, i)
    ensures AppliedAt(env, steps, ps, i) <==> !BelowFailure(env, steps, i)
  {
    var n := |ps| - 1;
    FailsExactly(env, st, steps, ps, n, i);
    if BelowFailure(env, steps, i) {
      var path :| ChainToFailure(env, steps, path, i);
      BelowFails(env, st, steps, ps, n, path, i);
    } else if steps[i].key in ps[n].failed {
      FailureIsBelow(env, st, steps, ps, n, i);
    }
  }
}
