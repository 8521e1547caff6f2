/**
 The coalescing compile gate of cmd/rotor/solution_watch.go, as a state machine over its atomic sections.

 Any number of watch callbacks add events and trigger the gate, any number of callers drain it, and the gate
 spawns goroutines that run the compile cycle. Every lock section is one step; steps interleave freely.
 */
module CompileGate {
  import opened Sequences

  /** One occurrence of a change to a path, a config file or not; the watch buffer holds the paths of the occurrences in
      `buffer`. */
  datatype Event = Event(path: string, config: bool, occurrence: nat)

  /** A spawned goroutine: about to run, inside the cycle before or after it takes the events, past it, or gone. */
  datatype Phase = ToRun | Begun | Taken | Ran | Gone

  /** A caller of Drain: outside it, about to look, or waiting for a channel to be closed. */
  datatype Drainer = Outside | Looking | Waiting(channel: nat)

  /**
   `held[p]` are the events callback `p` has buffered since its last trigger. `adds` counts the events, `triggers`
   the triggers and `covered` those that came before the last run began. Channels are numbered in order of creation.
   `batch` holds what the active run has taken, `acted` what runs have built for, and `dropped` what they gave up.
   */
  datatype State = State(
    running: bool, pending: bool, done: nat, channels: nat, closed: set<nat>,
    runners: seq<Phase>, drainers: seq<Drainer>,
    buffer: set<Event>, held: seq<set<Event>>, adds: nat, triggers: nat, covered: nat,
    batch: set<Event>, acted: set<Event>, dropped: set<Event>)

  datatype Step =
    | Add(p: nat, path: string, config: bool)
    | Trigger(p: nat)
    | BeginRun(r: nat)
    | Take(r: nat)
    | EndRun(r: nat, reloads: bool)
    | Finish(r: nat)
    | CallDrain(d: nat)
    | Look(d: nat)
    | Wake(d: nat)

  predicate Enabled(s: State, step: Step) {
    match step
    case Add(p, _, _) => p < |s.held|
    case Trigger(p) => p < |s.held|
    case BeginRun(r) => r < |s.runners| && s.runners[r] == ToRun
    case Take(r) => r < |s.runners| && s.runners[r] == Begun
    case EndRun(r, _) => r < |s.runners| && s.runners[r] == Taken
    case Finish(r) => r < |s.runners| && s.runners[r] == Ran
    case CallDrain(d) => d < |s.drainers| && s.drainers[d] == Outside
    case Look(d) => d < |s.drainers| && s.drainers[d] == Looking
    case Wake(d) => d < |s.drainers| && s.drainers[d].Waiting? && s.drainers[d].channel in s.closed
  }

  function AfterTrigger(s: State): State {
    if s.running then s.(pending := true)
    else s.(running := true, done := s.channels, channels := s.channels + 1, runners := s.runners + [ToRun])
  }

  function AfterFinish(s: State, r: nat): State
    requires r < |s.runners|
  {
    if s.pending then s.(pending := false, runners := s.runners[r := ToRun])
    else s.(running := false, closed := s.closed + {s.done}, runners := s.runners[r := Gone])
  }

  predicate HasConfig(batch: set<Event>) {
    exists e :: e in batch && e.config
  }

  /** The rest of the cycle: with a config event it reloads first, and gives up all it has taken if that fails. */
  function AfterRun(s: State, reloads: bool): State {
    if HasConfig(s.batch) && !reloads then s.(batch := {}, dropped := s.dropped + s.batch)
    else s.(batch := {}, acted := s.acted + s.batch)
  }

  function Next(s: State, step: Step): State
    requires Enabled(s, step)
  {
    match step
    case Add(p, path, config) =>
      var e := Event(path, config, s.adds);
      s.(buffer := s.buffer + {e}, held := s.held[p := s.held[p] + {e}], adds := s.adds + 1)
    case Trigger(p) => AfterTrigger(s.(held := s.held[p := {}], triggers := s.triggers + 1))
    case BeginRun(r) => s.(runners := s.runners[r := Begun], covered := s.triggers)
    case Take(r) => s.(runners := s.runners[r := Taken], buffer := {}, batch := s.buffer)
    case EndRun(r, reloads) => AfterRun(s.(runners := s.runners[r := Ran]), reloads)
    case Finish(r) => AfterFinish(s, r)
    case CallDrain(d) => s.(drainers := s.drainers[d := Looking])
    case Look(d) => s.(drainers := s.drainers[d := if s.running then Waiting(s.done) else Outside])
    case Wake(d) => s.(drainers := s.drainers[d := Looking])
  }

  predicate Initial(s: State) {
    && !s.running && !s.pending && s.channels == 0 && s.closed == {} && s.runners == [] && s.buffer == {}
    && s.batch == {} && s.acted == {} && s.dropped == {}
    && s.adds == s.triggers == s.covered == 0
    && (forall d :: 0 <= d < |s.drainers| ==> s.drainers[d] == Outside)
    && (forall p :: 0 <= p < |s.held| ==> s.held[p] == {})
  }

  /** A run of the system: each step is enabled and leads to the next state. */
  ghost predicate IsRun(states: seq<State>, steps: seq<Step>) {
    && |states| == |steps| + 1 && Initial(states[0])
    && forall i :: 0 <= i < |steps| ==> Enabled(states[i], steps[i]) && states[i + 1] == Next(states[i], steps[i])
  }

  // ----- the invariant

  predicate Alive(s: State, r: nat) {
    r < |s.runners| && s.runners[r] != Gone
  }

  /** One goroutine is alive while the gate is running, the one spawned last, and none otherwise. */
  ghost predicate OneRunner(s: State) {
    && (s.pending ==> s.running)
    && (s.running ==> s.runners != [] && Alive(s, |s.runners| - 1))
    && (forall r :: Alive(s, r) ==> s.running && r == |s.runners| - 1)
  }

  /** While running, exactly the channel of this generation is open; otherwise none is. */
  ghost predicate ChannelsOk(s: State) {
    && (s.running ==> s.done < s.channels)
    && (forall c :: c in s.closed <==> 0 <= c < s.channels && !(s.running && c == s.done))
  }

  ghost predicate DrainersOk(s: State) {
    forall d :: 0 <= d < |s.drainers| && s.drainers[d].Waiting? ==> s.drainers[d].channel < s.channels
  }

  /** A run will begin from here without another trigger. */
  predicate RunToCome(s: State) {
    s.running && s.runners != [] && (s.pending || s.runners[|s.runners| - 1] == ToRun)
  }

  /** The events in the buffer will be taken without another trigger. */
  predicate TakeToCome(s: State) {
    RunToCome(s) || (s.running && s.runners != [] && s.runners[|s.runners| - 1] == Begun)
  }

  predicate IsHeld(s: State, e: Event) {
    exists p :: 0 <= p < |s.held| && e in s.held[p]
  }

  ghost predicate NoLostTrigger(s: State) {
    s.covered <= s.triggers && (s.covered < s.triggers ==> RunToCome(s))
  }

  ghost predicate NoLostEvent(s: State) {
    forall e :: e in s.buffer ==> IsHeld(s, e) || TakeToCome(s)
  }

  /** Every event is numbered, and held by one callback at most. */
  ghost predicate EventsNumbered(s: State) {
    && (forall p, e :: 0 <= p < |s.held| && e in s.held[p] ==> e.occurrence < s.adds)
    && (forall p, q, e :: 0 <= p < |s.held| && 0 <= q < |s.held| && e in s.held[p] && e in s.held[q] ==> p == q)
  }

  /** Only a run that has taken its events has a batch. */
  ghost predicate BatchHeld(s: State) {
    s.batch != {} ==> s.runners != [] && s.runners[|s.runners| - 1] == Taken
  }

  ghost predicate Inv(s: State) {
    && OneRunner(s) && ChannelsOk(s) && DrainersOk(s) && NoLostTrigger(s) && NoLostEvent(s) && EventsNumbered(s)
    && BatchHeld(s)
  }

  predicate ByRunner(step: Step) {
    step.BeginRun? || step.Take? || step.EndRun? || step.Finish?
  }

  /** Only the goroutine spawned last takes steps, and only while the gate is running. */
  lemma OnlyLastActs(s: State, step: Step)
    requires OneRunner(s) && Enabled(s, step) && ByRunner(step)
    ensures s.running && step.r == |s.runners| - 1
  {
    assert Alive(s, step.r);
  }

  lemma OneRunnerKept(s: State, step: Step)
    requires OneRunner(s) && Enabled(s, step)
    ensures OneRunner(Next(s, step))
  {
    var t := Next(s, step);
    if ByRunner(step) { OnlyLastActs(s, step); }
    forall r: nat | Alive(t, r) ensures t.running && r == |t.runners| - 1 {
      if r < |s.runners| && s.runners[r] == t.runners[r] { assert Alive(s, r); }
    }
    if t.running && s.running { assert Alive(s, |s.runners| - 1); }
  }

  lemma ChannelsKept(s: State, step: Step)
    requires OneRunner(s) && ChannelsOk(s) && DrainersOk(s) && Enabled(s, step)
    ensures ChannelsOk(Next(s, step)) && DrainersOk(Next(s, step))
  {
    if ByRunner(step) { OnlyLastActs(s, step); }
  }

  lemma EventsNumberedKept(s: State, step: Step)
    requires EventsNumbered(s) && Enabled(s, step)
    ensures EventsNumbered(Next(s, step))
  {
  }

  lemma NoLostEventKept(s: State, step: Step)
    requires Inv(s) && Enabled(s, step)
    ensures NoLostEvent(Next(s, step))
  {
    var t := Next(s, step);
    if ByRunner(step) { OnlyLastActs(s, step); }
    forall e | e in t.buffer ensures IsHeld(t, e) || TakeToCome(t) {
      if step.Add? && e == Event(step.path, step.config, s.adds) {
        assert e in t.held[step.p];
      } else if IsHeld(s, e) && !step.Trigger? {
        var p :| 0 <= p < |s.held| && e in s.held[p];
        assert e in t.held[p];
      }
    }
  }

  lemma BatchHeldKept(s: State, step: Step)
    requires Inv(s) && Enabled(s, step)
    ensures BatchHeld(Next(s, step))
  {
    if ByRunner(step) { OnlyLastActs(s, step); }
    assert !s.running && s.runners != [] ==> !Alive(s, |s.runners| - 1);
  }

  lemma InvStep(s: State, step: Step)
    requires Inv(s) && Enabled(s, step)
    ensures Inv(Next(s, step))
  {
    if ByRunner(step) { OnlyLastActs(s, step); }
    OneRunnerKept(s, step);
    ChannelsKept(s, step);
    EventsNumberedKept(s, step);
    NoLostEventKept(s, step);
    BatchHeldKept(s, step);
  }

  /** The invariant holds in every state of every run. */
  lemma {:induction false} InvAlways(states: seq<State>, steps: seq<Step>, i: nat)
    requires IsRun(states, steps) && i < |states|
    ensures Inv(states[i])
  {
    if i > 0 {
      InvAlways(states, steps, i - 1);
      InvStep(states[i - 1], steps[i - 1]);
    }
  }

  // ----- what the gate promises

  ghost predicate InCycle(s: State, r: nat) {
    r < |s.runners| && (s.runners[r] == Begun || s.runners[r] == Taken)
  }

  /** In every interleaving at most one run of the cycle is active, and no channel is closed twice. */
  lemma AtMostOneRun(states: seq<State>, steps: seq<Step>, i: nat, a: nat, b: nat)
    requires IsRun(states, steps) && i < |states|
    ensures InCycle(states[i], a) && InCycle(states[i], b) ==> a == b
    ensures i < |steps| && steps[i].Finish? && !states[i].pending ==> states[i].done !in states[i].closed
  {
    InvAlways(states, steps, i);
    assert InCycle(states[i], a) ==> Alive(states[i], a);
    assert InCycle(states[i], b) ==> Alive(states[i], b);
    if i < |steps| && steps[i].Finish? { OnlyLastActs(states[i], steps[i]); }
  }

  /** An idle gate has started a run after every trigger, and holds only events that were not triggered yet. */
  lemma IdleMeansTaken(states: seq<State>, steps: seq<Step>, i: nat)
    requires IsRun(states, steps) && i < |states| && !states[i].running
    ensures states[i].covered == states[i].triggers && !states[i].pending
    ensures forall e :: e in states[i].buffer ==> IsHeld(states[i], e)
    ensures forall r :: 0 <= r < |states[i].runners| ==> states[i].runners[r] == Gone
  {
    InvAlways(states, steps, i);
    forall r | 0 <= r < |states[i].runners| ensures states[i].runners[r] == Gone {
      assert !Alive(states[i], r);
    }
  }

  lemma NotHeldStays(s: State, step: Step, e: Event)
    requires Enabled(s, step) && !IsHeld(s, e) && e.occurrence < s.adds
    ensures !IsHeld(Next(s, step), e) && e.occurrence < Next(s, step).adds
  {
  }

  lemma TriggerReleases(s: State, p: nat, e: Event)
    requires EventsNumbered(s) && p < |s.held| && e in s.held[p]
    ensures !IsHeld(Next(s, Trigger(p)), e) && e.occurrence < Next(s, Trigger(p)).adds
  {
  }

  /** An event that callback `p` has triggered is not held any more, and never again. */
  lemma {:induction false} TriggeredNotHeld(states: seq<State>, steps: seq<Step>, k: nat, i: nat, p: nat, e: Event)
    requires IsRun(states, steps) && k < i < |states| && steps[k] == Trigger(p) && p < |states[k].held|
    requires e in states[k].held[p]
    ensures !IsHeld(states[i], e) && e.occurrence < states[i].adds
    decreases i
  {
    assert Enabled(states[i - 1], steps[i - 1]) && states[i - 1 + 1] == Next(states[i - 1], steps[i - 1]);
    if k < i - 1 {
      TriggeredNotHeld(states, steps, k, i - 1, p, e);
      NotHeldStays(states[i - 1], steps[i - 1], e);
    } else {
      InvAlways(states, steps, k);
      TriggerReleases(states[k], p, e);
    }
  }

  /** Once the gate is idle, every event that was triggered before has been taken out of the buffer. */
  lemma TriggeredIsTaken(states: seq<State>, steps: seq<Step>, k: nat, i: nat, p: nat, e: Event)
    requires IsRun(states, steps) && k < i < |states| && steps[k] == Trigger(p) && p < |states[k].held|
    requires e in states[k].held[p] && !states[i].running
    ensures e !in states[i].buffer
  {
    TriggeredNotHeld(states, steps, k, i, p, e);
    IdleMeansTaken(states, steps, i);
  }

  // ----- what becomes of an event

  /** Step `j` ended a run whose reload failed, with `e` and a config event in its batch. */
  ghost predicate GivenUpAt(states: seq<State>, steps: seq<Step>, j: nat, e: Event) {
    && j < |steps| && j < |states| && steps[j].EndRun? && !steps[j].reloads
    && e in states[j].batch && HasConfig(states[j].batch)
  }

  /** An event is in the buffer, with the active run, acted on, or dropped. */
  predicate Somewhere(s: State, e: Event) {
    e in s.buffer || e in s.batch || e in s.acted || e in s.dropped
  }

  /** Every event is in one place, those that a callback holds among them. */
  ghost predicate OnePlace(s: State) {
    && s.buffer !! s.batch && s.buffer !! s.acted && s.buffer !! s.dropped
    && s.batch !! s.acted && s.batch !! s.dropped && s.acted !! s.dropped
    && (forall e :: Somewhere(s, e) ==> e.occurrence < s.adds)
    && (forall e :: IsHeld(s, e) ==> Somewhere(s, e))
  }

  lemma SomewhereStep(s: State, step: Step, e: Event)
    requires BatchHeld(s) && OneRunner(s) && Enabled(s, step) && Somewhere(s, e)
    ensures Somewhere(Next(s, step), e)
  {
    if ByRunner(step) { OnlyLastActs(s, step); }
  }

  lemma HeldStep(s: State, step: Step, e: Event)
    requires Enabled(s, step) && IsHeld(Next(s, step), e)
    ensures IsHeld(s, e) || e in Next(s, step).buffer
  {
    var t := Next(s, step);
    var p :| 0 <= p < |t.held| && e in t.held[p];
    if e !in t.buffer { assert e in s.held[p]; }
  }

  lemma OnePlaceStep(s: State, step: Step)
    requires Inv(s) && OnePlace(s) && Enabled(s, step)
    ensures OnePlace(Next(s, step))
  {
    if ByRunner(step) { OnlyLastActs(s, step); }
    forall e | IsHeld(Next(s, step), e) ensures Somewhere(Next(s, step), e) {
      HeldStep(s, step, e);
      if IsHeld(s, e) { SomewhereStep(s, step, e); }
    }
  }

  lemma {:induction false} OnePlaceAlways(states: seq<State>, steps: seq<Step>, i: nat)
    requires IsRun(states, steps) && i < |states|
    ensures OnePlace(states[i])
  {
    if i > 0 {
      OnePlaceAlways(states, steps, i - 1);
      InvAlways(states, steps, i - 1);
      assert states[i - 1 + 1] == Next(states[i - 1], steps[i - 1]);
      OnePlaceStep(states[i - 1], steps[i - 1]);
    }
  }

  lemma {:induction false} StaysSomewhere(states: seq<State>, steps: seq<Step>, k: nat, i: nat, e: Event)
    requires IsRun(states, steps) && k <= i < |states| && Somewhere(states[k], e)
    ensures Somewhere(states[i], e)
    decreases i
  {
    if k < i {
      StaysSomewhere(states, steps, k, i - 1, e);
      InvAlways(states, steps, i - 1);
      assert Enabled(states[i - 1], steps[i - 1]) && states[i - 1 + 1] == Next(states[i - 1], steps[i - 1]);
      SomewhereStep(states[i - 1], steps[i - 1], e);
    }
  }

  lemma DroppedStep(s: State, step: Step, e: Event)
    requires Enabled(s, step)
    ensures e in Next(s, step).dropped <==>
      e in s.dropped || (step.EndRun? && !step.reloads && e in s.batch && HasConfig(s.batch))
  {
  }

  lemma {:induction false} DroppedExactly(states: seq<State>, steps: seq<Step>, i: nat, e: Event)
    requires IsRun(states, steps) && i < |states|
    ensures e in states[i].dropped <==> exists j: nat :: j < i && GivenUpAt(states, steps, j, e)
  {
    if i > 0 {
      DroppedExactly(states, steps, i - 1, e);
      assert Enabled(states[i - 1], steps[i - 1]) && states[i - 1 + 1] == Next(states[i - 1], steps[i - 1]);
      DroppedStep(states[i - 1], steps[i - 1], e);
      if e in states[i].dropped && e !in states[i - 1].dropped { assert GivenUpAt(states, steps, i - 1, e); }
    }
  }

  /** Once the gate is idle, an event that was triggered before has been acted on exactly when no run took it together
      with a config event and then failed to reload. */
  lemma ActedOnExactly(states: seq<State>, steps: seq<Step>, k: nat, i: nat, p: nat, e: Event)
    requires IsRun(states, steps) && k < i < |states| && steps[k] == Trigger(p) && p < |states[k].held|
    requires e in states[k].held[p] && !states[i].running
    ensures e in states[i].acted <==> !exists j: nat :: j < i && GivenUpAt(states, steps, j, e)
  {
    TriggeredIsTaken(states, steps, k, i, p, e);
    OnePlaceAlways(states, steps, k);
    StaysSomewhere(states, steps, k, i, e);
    OnePlaceAlways(states, steps, i);
    DroppedExactly(states, steps, i, e);
    InvAlways(states, steps, i);
    assert states[i].batch == {} by {
      if states[i].batch != {} { assert Alive(states[i], |states[i].runners| - 1); }
    }
  }

  lemma RunLonger(states: seq<State>, steps: seq<Step>, step: Step) returns (longer: seq<State>)
    requires IsRun(states, steps) && Enabled(states[|steps|], step)
    ensures IsRun(longer, steps + [step]) && longer == states + [Next(states[|steps|], step)]
  {
    longer := states + [Next(states[|steps|], step)];
    var more := steps + [step];
    forall i | 0 <= i < |more| ensures Enabled(longer[i], more[i]) && longer[i + 1] == Next(longer[i], more[i]) {
      if i < |steps| { assert states[i + 1] == Next(states[i], steps[i]); }
    }
  }

  /** A callback reports a change of a config and triggers the gate. */
  lemma Reported(path: string) returns (states: seq<State>, steps: seq<Step>)
    ensures IsRun(states, steps) && |steps| == 2
    ensures
      var e := Event(path, true, 0);
      states[2] == State(true, false, 0, 1, {}, [ToRun], [Outside], {e}, [{}], 1, 1, 0, {}, {}, {})
  {
    var e := Event(path, true, 0);
    var start := State(false, false, 0, 0, {}, [], [Outside], {}, [{}], 0, 0, 0, {}, {}, {});
    states := RunLonger([start], [], Add(0, path, true));
    var none: set<Event>, held: seq<set<Event>> := {}, [{}];
    assert none + {e} == {e} && held[0 := {e}] == [{e}];
    assert states[1] == State(false, false, 0, 0, {}, [], [Outside], {e}, [{e}], 1, 0, 0, {}, {}, {});
    states := RunLonger(states, [Add(0, path, true)], Trigger(0));
    steps := [Add(0, path, true), Trigger(0)];
    assert steps == [Add(0, path, true)] + [Trigger(0)];
  }

  /** The run takes the change, and its reload fails. */
  lemma DroppedExample(path: string) returns (states: seq<State>, steps: seq<Step>)
    ensures IsRun(states, steps) && |steps| == 6
    ensures
      var s, e := states[6], Event(path, true, 0);
      !s.running && e in s.dropped && e !in s.acted && e !in s.buffer && s.covered == s.triggers == 1
  {
    states, steps := Reported(path);
    states := RunLonger(states, steps, BeginRun(0));
    steps := steps + [BeginRun(0)];
    states := RunLonger(states, steps, Take(0));
    steps := steps + [Take(0)];
    states := RunLonger(states, steps, EndRun(0, false));
    steps := steps + [EndRun(0, false)];
    states := RunLonger(states, steps, Finish(0));
    steps := steps + [Finish(0)];
  }

  /** Drain comes back only by a look that finds the gate idle, with everything triggered before taken. */
  lemma DrainReturnsIdle(states: seq<State>, steps: seq<Step>, i: nat, d: nat)
    requires IsRun(states, steps) && i < |steps| && d < |states[i].drainers|
    requires states[i].drainers[d] != Outside
    requires d < |states[i + 1].drainers| && states[i + 1].drainers[d] == Outside
    ensures steps[i] == Look(d) && !states[i].running && states[i].covered == states[i].triggers
    ensures forall e :: e in states[i].buffer ==> IsHeld(states[i], e)
  {
    assert states[i + 1] == Next(states[i], steps[i]);
    IdleMeansTaken(states, steps, i);
  }

  /** No step between `k` and `i` begins a run. */
  ghost predicate NoneBegins(steps: seq<Step>, k: nat, i: nat) {
    forall j: nat :: k <= j < i && j < |steps| ==> !steps[j].BeginRun?
  }

  lemma {:induction false} CoveredStays(states: seq<State>, steps: seq<Step>, k: nat, i: nat)
    requires IsRun(states, steps) && k <= i < |states| && NoneBegins(steps, k, i)
    ensures states[i].covered == states[k].covered && states[k].triggers <= states[i].triggers
    decreases i
  {
    if k < i {
      CoveredStays(states, steps, k, i - 1);
      assert Enabled(states[i - 1], steps[i - 1]) && states[i - 1 + 1] == Next(states[i - 1], steps[i - 1]);
    }
  }

  /** Between a trigger and an idle gate a run begins. */
  lemma RunsAfterTrigger(states: seq<State>, steps: seq<Step>, k: nat, i: nat)
    requires IsRun(states, steps) && k < i < |states| && steps[k].Trigger? && !states[i].running
    ensures exists j: nat :: k < j < i && steps[j].BeginRun?
  {
    assert Enabled(states[k], steps[k]) && states[k + 1] == Next(states[k], steps[k]);
    InvAlways(states, steps, k);
    IdleMeansTaken(states, steps, i);
    if NoneBegins(steps, k + 1, i) { CoveredStays(states, steps, k + 1, i); }
  }

  /** A Drain of an idle gate comes back after one look. */
  lemma DrainOfIdle(s: State, d: nat) returns (states: seq<State>)
    requires Initial(s) && d < |s.drainers|
    ensures IsRun(states, [CallDrain(d), Look(d)]) && states[0] == s && states[1] != s && states[2] == s
  {
    states := RunLonger([s], [], CallDrain(d));
    states := RunLonger(states, [CallDrain(d)], Look(d));
    assert [CallDrain(d)] + [Look(d)] == [CallDrain(d), Look(d)];
    assert s.drainers[d := Looking][d] == Looking;
    assert s.drainers[d := Looking][d := Outside] == s.drainers;
  }

  /** Between a call of Drain and its caller being outside again, a look of that caller found the gate idle. */
  lemma {:induction false} DrainLooks(states: seq<State>, steps: seq<Step>, k: nat, i: nat, d: nat)
    requires IsRun(states, steps) && k < i < |states| && steps[k] == CallDrain(d) && d < |states[i].drainers|
    ensures
      states[i].drainers[d] != Outside || exists j: nat :: k < j < i && steps[j] == Look(d) && !states[j].running
    decreases i
  {
    assert Enabled(states[i - 1], steps[i - 1]) && states[i - 1 + 1] == Next(states[i - 1], steps[i - 1]);
    if k < i - 1 { DrainLooks(states, steps, k, i - 1, d); }
  }

  // ----- termination once the triggers stop

  predicate Internal(step: Step) {
    !step.Add? && !step.Trigger? && !step.CallDrain?
  }

  function PhaseRank(p: Phase): nat {
    match p
    case ToRun => 4
    case Begun => 3
    case Taken => 2
    case Ran => 1
    case Gone => 0
  }

  /** How far a Drain call is from returning, if nothing new is triggered. */
  function DrainRank(s: State, d: Drainer): nat {
    if d.Outside? then 0
    else if !s.running then (if d.Waiting? then 2 else 1)
    else if d.Looking? then 4
    else if d.channel == s.done then 3 else 5
  }

  function RunnerRank(s: State): nat {
    (if s.pending then 4 else 0) + if s.runners == [] then 0 else PhaseRank(s.runners[|s.runners| - 1])
  }

  function DrainRanks(s: State): seq<nat> {
    seq(|s.drainers|, d requires 0 <= d < |s.drainers| => DrainRank(s, s.drainers[d]))
  }

  function Measure(s: State): nat {
    RunnerRank(s) + Sum(DrainRanks(s))
  }

  predicate Settled(s: State) {
    !s.running && forall d :: 0 <= d < |s.drainers| ==> s.drainers[d] == Outside
  }

  lemma DrainRanksUpdate(s: State, t: State, d: nat)
    requires d < |s.drainers| == |t.drainers| && t.drainers == s.drainers[d := t.drainers[d]]
    requires t.running == s.running && t.done == s.done
    requires DrainRank(t, t.drainers[d]) < DrainRank(s, s.drainers[d])
    ensures Sum(DrainRanks(t)) < Sum(DrainRanks(s))
  {
    assert DrainRanks(t) == DrainRanks(s)[d := DrainRank(t, t.drainers[d])];
    SumUpdate(DrainRanks(s), d, DrainRank(t, t.drainers[d]));
  }

  lemma MeasureDrops(s: State, step: Step)
    requires Inv(s) && Enabled(s, step) && Internal(step)
    ensures Measure(Next(s, step)) < Measure(s)
  {
    var t := Next(s, step);
    if ByRunner(step) {
      OnlyLastActs(s, step);
      SumMonotone(DrainRanks(t), DrainRanks(s));
    } else {
      DrainRanksUpdate(s, t, step.d);
    }
  }

  /** The steps of the goroutines and of the callers inside Drain. */
  function Candidates(s: State): set<Step> {
    (set r | 0 <= r < |s.runners| :: BeginRun(r)) + (set r | 0 <= r < |s.runners| :: Take(r)) +
    (set r, b | 0 <= r < |s.runners| && b in {true, false} :: EndRun(r, b)) +
    (set r | 0 <= r < |s.runners| :: Finish(r)) +
    (set d | 0 <= d < |s.drainers| :: Look(d)) + (set d | 0 <= d < |s.drainers| :: Wake(d))
  }

  lemma CandidatesExactly(s: State, step: Step)
    requires Enabled(s, step)
    ensures Internal(step) <==> step in Candidates(s)
  {
  }

  /** Until the gate is idle and every Drain has returned, some goroutine or caller can take a step. */
  lemma Progress(s: State)
    requires Inv(s) && !Settled(s)
    ensures exists step :: Internal(step) && Enabled(s, step)
  {
    if s.running {
      var r := |s.runners| - 1;
      assert Alive(s, r);
      var phase := s.runners[r];
      var step := if phase == ToRun then BeginRun(r) else if phase == Begun then Take(r)
                  else if phase == Taken then EndRun(r, true) else Finish(r);
      assert Internal(step) && Enabled(s, step);
    } else {
      var d :| 0 <= d < |s.drainers| && s.drainers[d] != Outside;
      var step := if s.drainers[d].Looking? then Look(d) else Wake(d);
      assert Internal(step) && Enabled(s, step);
    }
  }

  /** The executed steps lead from `s` to `t`. */
  ghost predicate Leads(s: State, steps: seq<Step>, t: State)
    decreases |steps|
  {
    if steps == [] then s == t
    else Internal(steps[0]) && Enabled(s, steps[0]) && Leads(Next(s, steps[0]), steps[1..], t)
  }

  /** Without new triggers and calls, every schedule takes at most `Measure` steps; one that cannot go on has
      settled. */
  lemma {:induction false} EveryScheduleSettles(s: State, steps: seq<Step>, t: State)
    requires Inv(s) && Leads(s, steps, t)
    ensures Inv(t) && |steps| + Measure(t) <= Measure(s)
    ensures (forall step :: Internal(step) ==> !Enabled(t, step)) ==> Settled(t)
    decreases |steps|
  {
    if steps == [] {
      if !Settled(t) { Progress(t); }
    } else {
      InvStep(s, steps[0]);
      MeasureDrops(s, steps[0]);
      EveryScheduleSettles(Next(s, steps[0]), steps[1..], t);
    }
  }

  /** Runs the goroutines and callers in some order until none can go on. */
  method Settle(s: State) returns (t: State)
    requires Inv(s)
    ensures Inv(t) && Settled(t) && t.held == s.held && t.triggers == s.triggers
    ensures t.covered == s.triggers && forall e :: e in t.buffer ==> IsHeld(t, e)
  {
    t := s;
    while !Settled(t)
      invariant Inv(t) && t.held == s.held && t.triggers == s.triggers
      decreases Measure(t)
    {
      assert exists step :: step in Candidates(t) && Enabled(t, step) by {
        Progress(t);
        var next :| Internal(next) && Enabled(t, next);
        CandidatesExactly(t, next);
      }
      var step :| step in Candidates(t) && Enabled(t, step);
      CandidatesExactly(t, step);
      InvStep(t, step);
      MeasureDrops(t, step);
      t := Next(t, step);
    }
  }
}
