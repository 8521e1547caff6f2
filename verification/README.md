# Rotor core: a Dafny model

Rotor compiles TypeScript projects to Luau, one project or a whole solution at a time, and deploys the result. This
project models the parts of it where a mistake would be hard to see, and proves what they are relied on for.

- **Solution builds** (`Graphs`, `SolutionGraph`, `CrossProject`, `Scheduler`, `SchedulerRuns`, `Drains`, `Awaiting`,
  `Coordinator`, `DrainReports`, `CoordinatorObject`): the project graph, the wait-only edges between projects that may
  write the same file, the worker/counter/barrier protocol that builds projects in parallel, and the coordinator that
  drains and invalidates them. The scheduler is a state machine over the steps of its workers; a run is any interleaving.
- **Incremental builds** (`IncrementalManifest`, `IncrementalBuild`, `IncrementalRuns`, `IncrementalProject`): what is
  recompiled, what is written and what is recorded, over whole histories of builds and deleted outputs. The compiler, the
  path translator and the hash are parameters (`Toolchain`); `Sound` says what is assumed of them.
- **The transformer sidecar** (`Sidecar`, `SidecarObject`): the protocol that keeps a long-lived worker's copy of the
  sources in step with disk and overlays.
- **Deployment** (`SortedStrings`, `TopoOrder`, `TopoSorting`, `ResourceOrder`, `Deploy`, `DeployEngine`, `Replanning`):
  the levelled topological sort, the plan, and applying it under failures, aborts and crashes.
- **The compile gate** (`CompileGate`): coalescing of watch events, as a state machine over its lock sections.
- **Smaller kernels**: the `baseUrl` to `paths` rewrite (`PathText`, `Climbing`, `PathPatterns`, `BaseUrl`, `Rebasing`,
  `Tangles`, `PathsRewrite`, `RewriteExamples`), source-map text and composition (`Vlq`, `SourceMaps`,
  `SourceMapFormat`, `SourceTrace`),
  UTF-16 positions and remapped diagnostics (`Utf8`, `TextPositions`, `DiagnosticRemap`), globs (`Letters`, `Glob`,
  `GlobPaths`) and the token bucket (`TokenBucket`).

Code that updates things in place is modelled by classes and loops, each proved against a specification function; the
theorems are then about that function. `dafny verify dfyconfig.toml` checks everything.

## What turned out not to hold

- **A lost change in the sidecar.** Stamps are recorded while the listed files are scanned, before the request is
  complete. When a later file cannot be read, an earlier change is stamped but never shipped, and it stays lost until the
  file is edited again (`Sidecar.LostChangeExample`, `Sidecar.LostChangeStaysLost`). `Sidecar.FailedReadKeepsStepExactly`
  says, from what is known before the call, exactly when a failed scan does no harm, and `Sidecar.AlwaysInStepExactly`
  exactly which sessions stay in step throughout.
- **A stale blocker.** A project that was blocked and then fails on its own keeps naming its old blocker
  (`Coordinator.StaleBlockerExample`); over every history `Coordinator.BlockerHonestExactly` shows this to be the only way
  in which the recorded blocker is not the one of the last drain.
- **Unpersisted builds.** In a solution the manifests are written only after every project succeeded, but outputs are
  written before. If such a build is then undone in the sources, the next build skips the file because the old manifest
  records the hash it wants, and the wrong text stays (`IncrementalRuns.UnpersistedBuildIsNotUndone`, with the
  instance `IncrementalRuns.UnpersistedExample`), even with a forced full build.
  `IncrementalBuild.CorrectExactlyWhenUndisguised` is the exact condition.
- **References through a coordinator.** A coordinator config is dropped from the graph, and its references with it: a
  project that references one does not wait for the projects behind it (`Awaiting.CoordinatorGapExample`).
  `Awaiting.ProjectFinishedFirstExactly` says which projects a drain finishes first under every schedule, and
  `Awaiting.ReferencedFirstExactly` when these are all the referenced ones.
- **Events dropped by a failed reload.** The watch cycle takes its events before it reloads a changed config, and
  returns without them when the reload fails (`CompileGate.DroppedExample`). `CompileGate.ActedOnExactly` shows this to
  be the only way in which an event that was triggered is not acted on once the gate is idle.
- **State keys without a slash.** The delete step of a state entry whose key `k` has no '/' names the key `k/`. The
  entry is never deleted (`Replanning.UnslashedExample`), and if `k/` is another key, that one is deleted instead.
  `Deploy.SuccessConvergesExactly` shows the first to be the only way a fully successful deployment leaves work;
  `Replanning.ResumesExactly` and `Replanning.DeletesAgainExactly` say exactly which resources and entries planning
  again picks up correctly after every run.
- **`baseUrl`.** The comment at internal/compile/sanitize.go:197 calls the rewrite equivalent. It fails in six ways:
  - the root directory and texts like `.//x` are read as another directory (`BaseUrl.PrefixNamesBaseExactly`);
  - a text that climbs above its star, like `*/../b`, or that cleaning turns absolute or relative, names other places
    (`RewriteExamples.ClimbExample`; exactly these, among texts without a backslash: `Tangles.SlashesExactly`);
  - a backslash separates components for the resolver but not for cleaning, so that `a\b/../c` becomes `c`
    (`RewriteExamples.BackslashExample`; `Rebasing.RebaseExactly` is the condition for all texts, and
    `Tangles.UntangledMeansSame` shows that it needs a ".." behind a part with a backslash in it);
  - a match that makes a relative text absolute was looked up at the root and is now looked up under the base directory
    (`Rebasing.MatchKeptExactly`, `RewriteExamples.AbsoluteMatchExample`);
  - a pattern that starts with a star loses its substitutions to the added `"*"` (`PathsRewrite.StarSuffixLost`,
    `RewriteExamples.StarSuffixExample`);
  - patterns that tie are decided by their order, and the written file sorts them (`PathsRewrite.SortedPick`,
    `RewriteExamples.TieExample`).

  With the first three excluded, `PathsRewrite.LookupPreservedExactly` says exactly when a whole lookup is preserved.
- **Trace order.** The comment at internal/compile/source_trace.go:46 says that decoding preserves the order of
  generated positions. It preserves the order of lines only; with columns listed backwards the binary search can miss
  (`SourceTrace.UnsortedTraceExample`).
- **Globs.** On a name with a literal '*' some pattern is always matched wrongly (`Glob.AgreesExactly`).

The comment at internal/deploy/graph.go:288-290 says that each dependency level is sorted by kind and name, while the
code sorts key texts. The two orders differ for kinds like `a` and `a-b` (`ResourceOrder.DashedKindExample`), exactly
when one kind goes on from the other with a character up to '/' (`ResourceOrder.OrdersAgreeExactly`); none of the ten
kinds does, so the comment holds (`ResourceOrder.LevelsByKindAndName`).

## Model

| member | source | states |
|---|---|---|
| Scheduler.InvStep | internal/compile/solution_scheduler.go:36-56 | every step of a worker keeps the protocol's invariant: claimed positions are distinct, exactly the finished tasks' barriers are closed, and the log holds each started task once |
| Scheduler.Progress | internal/compile/solution_scheduler.go:36-56 | with barriers listed earlier, a reachable state in which no worker can step is one in which all have exited: the least claimed, unfinished position can always step |
| Scheduler.StepUsesOneUnit | internal/compile/solution_scheduler.go:36-56 | every step uses exactly one unit of a fixed budget, so all runs have the same length |
| Scheduler.EveryRunCompletes | internal/compile/solution_scheduler.go:17-65 | for every builder count and interleaving, no run is longer than the budget, a shorter one can go on, and a full one has run every task exactly once and closed every barrier |
| Scheduler.FinalOutcomes | internal/compile/solution_scheduler.go:36-65 | in a final state the outcome table is that of one left-to-right pass |
| Scheduler.ScheduleIndependence | internal/compile/solution_scheduler.go:17-65 | the outcome table of a complete run does not depend on the schedule or the builder count when tasks read only their predecessors' outcomes |
| Scheduler.BarriersExclude | internal/compile/solution_scheduler.go:46-53 | in every reachable state, a running task is not a barrier of another running task |
| SchedulerRuns.RunSolutionTasks | internal/compile/solution_scheduler.go:17-65 | any interleaved execution ends and returns the sequential outcomes of exactly the given tasks |
| SchedulerRuns.OneBuilderHangs | internal/compile/solution_scheduler.go:17-65 | with one builder, a barrier that is not listed earlier leads to a state where the worker waits for ever |
| SchedulerRuns.NeverHangsExactlyWhenOrdered | internal/compile/solution_scheduler.go:17-65 | the scheduler is free of deadlock for every builder count exactly when every barrier is listed earlier |
| SolutionGraph.SolutionCycleError | internal/compile/solution.go:383-394 | the reported paths are a real cycle of references through the stack, starting at the repeated path |
| SolutionGraph.ReferenceWalk.Visit | internal/compile/solution.go:55-102 | an error is a reachable cycle or a reachable unreadable config; otherwise everything below the path is visited after its references and the stack is as before |
| SolutionGraph.ReferenceWalk.VisitReferences | internal/compile/solution.go:88-97 | after the loop every reference of the path on top of the stack is visited |
| SolutionGraph.PostOrderWalk.Visit | internal/compile/solution.go:364-381 | the listing grows to hold the path, each path once, after all paths it references |
| SolutionGraph.BuildSolutionGraph | internal/compile/solution.go:49-120 | success exactly when every reachable config is readable and no cycle is reachable; then the projects are the reachable non-coordinators, once each, after all they transitively reference; with readable configs a cycle is reported exactly when one is reachable |
| SolutionGraph.KeptIsSolutionGraph | internal/compile/solution.go:112-119 | dropping the coordinators keeps the order and the transitive references |
| CrossProject.ContainsIsPrefix | internal/compile/crossproject.go:136-143 | the relative-path test holds exactly when the root's components start the path's, where names are not case sensitive up to the case of letters |
| CrossProject.OverlapMeansSharedFile | internal/compile/crossproject.go:125-134 | two lists of write roots overlap exactly when some file lies under a root of each in this sense |
| CrossProject.OverlapSymmetric | internal/compile/crossproject.go:125-134 | overlap does not depend on which project comes first |
| CrossProject.EarlierOverlapsExactly | internal/compile/crossproject.go:111-123 | a project waits exactly for the earlier projects it overlaps |
| CrossProject.DeriveWaitOnlyDependencies | internal/compile/crossproject.go:111-123 | every project's entry lists exactly the earlier overlapping projects, in graph order |
| Drains.BuiltGraphIsOk | internal/compile/solution.go:144-156 | the graph and the wait-only table together meet what the drain relies on |
| Drains.TasksAreOrdered | internal/compile/solution.go:164-177 | every predecessor and wait-only index of the task table is an earlier position, which discharges the scheduler's precondition |
| Drains.OverlappingNeverBothRunning | internal/compile/solution.go:172-176 | in every reachable state of a drain two running projects do not overlap |
| Drains.RunningWriteApart | internal/compile/crossproject.go:111-143 | so no file lies under the write roots of two running projects |
| Drains.RunReadsOnlyPredecessors | internal/compile/solution.go:188-217 | the closure given to the scheduler depends only on the outcomes of in-graph references |
| Drains.DrainIsScheduleIndependent | internal/compile/solution.go:158-266 | for any builder count and interleaving, each project's outcome equals that of one left-to-right pass |
| Drains.OutcomeOfFinal | internal/compile/solution.go:188-217 | each recorded outcome is what the closure computes from the final table |
| Drains.ErrorExactlyWhenReachingFailure | internal/compile/solution.go:192-216 | a project ends with an error exactly when it is, or reaches through references, a project that was built and failed by itself |
| Drains.UpToDateAfterDrain | internal/compile/solution.go:219-256 | after a drain a project is up to date exactly when it reaches no such failure |
| Drains.DrainKeepsClosed | internal/compile/solution.go:219-256 | a drain keeps the up-to-date projects closed under in-graph references |
| DrainReports.OutcomesFit | internal/compile/solution.go:188-217 | a project is skipped exactly when it is up to date; otherwise it gets what the drainer returns if no reference of it reaches a failing project, and else nothing but the message that the first such reference blocks it |
| DrainReports.ReportNext | internal/compile/solution.go:219-266 | one more outcome in the merged result: an output lies at the directory of its config plus its path and the last project in graph order wins; what was emitted and the diagnostics, error messages included, follow in graph order; a flag is set exactly when some built project set it |
| DrainReports.DrainStatesRecorded | internal/compile/solution.go:219-256 | the result, error, blocker and flags recorded for each project from its outcome; no other state changes |
| Awaiting.FinishedFirstExactly | internal/compile/solution_scheduler.go:17-65 | for every builder count and schedule, one task is finished before another starts exactly when a chain of barriers leads from the second to the first |
| Awaiting.ProjectFinishedFirstExactly | internal/compile/solution.go:158-217 | in every drain a project is finished before another starts exactly when a chain of references between graph projects and of overlaps leads to it |
| Awaiting.ReferencedFirstExactly | internal/compile/solution.go:112-177 | every project that a project references, through coordinators too, is finished before it starts exactly when such a chain leads to each of them |
| Awaiting.CoordinatorGapExample | internal/compile/solution.go:112-177 | a project that references a second one through a coordinator, and a drain that starts it before the second is finished |
| Coordinator.InvalidateKeepsClosed | internal/compile/solution.go:277-325 | an invalidation keeps the up-to-date projects closed under in-graph references |
| Coordinator.InvalidateExactly | internal/compile/solution.go:307-323 | after an invalidation a listed project is up to date exactly when it was and reaches no named one; one that does has no blocker and no error and is forced to a full build unless named; every other state is unchanged |
| Coordinator.UpToDateExactlyWhenBuilt | internal/compile/solution.go:158-325 | over every history a project is up to date exactly when some drain built it without error and no later invalidation named it or a project it reaches |
| Coordinator.SkippedAfterInvalidate | internal/compile/solution.go:192-325 | a drain right after an invalidation skips exactly the projects that were up to date and reach no named one |
| Coordinator.UpToDateAlwaysClosed | internal/compile/solution.go:158-325 | over every sequence of drains and invalidations the up-to-date projects are closed under in-graph references |
| Coordinator.SkippedHidesNothing | internal/compile/solution.go:192-203 | a skipped project reaches no project that the same drain leaves with an error |
| Coordinator.ForceFullExactlyWhenOwed | internal/compile/solution.go:249-319 | over every history a project is forced to a full build exactly when it was invalidated through a reference, not directly, and has not succeeded since |
| Coordinator.BlockerHonestExactly | internal/compile/solution.go:192-254 | after every drain of every history, a project names as its blocker the first of its references that the drain leaves with an error, or none, exactly unless it named one before, no reference reaches a failing project and its own build fails |
| Coordinator.StaleBlockerExample | internal/compile/solution.go:233-254 | two drains after which a project still names a blocker that succeeded |
| CoordinatorObject.BuildTasks | internal/compile/solution.go:160-177 | the task table holds, for each project, the indices of its in-graph references and of its wait-only projects |
| CoordinatorObject.ReverseReferences | internal/compile/solution.go:278-283 | a path's entry holds exactly the projects that reference it |
| CoordinatorObject.SpreadBackwards | internal/compile/solution.go:296-305 | the worklist ends with exactly the listed projects that reach a direct one |
| CoordinatorObject.SolutionCoordinator.Drain | internal/compile/solution.go:158-266 | outcomes as above for every project, recorded in the states and merged into the result as above; the writes the built projects put off, in graph order, are done in order after a drain without errors, up to the first that fails, and kept pending otherwise |
| CoordinatorObject.SolutionCoordinator.Persist | internal/compile/solution_drain.go:25-34 | the pending writes before the first that fails are done once, and the rest stay pending |
| CoordinatorObject.SolutionCoordinator.RecordOutcomes | internal/compile/solution.go:219-266 | for any outcome table: the states, the merged result, the error of the first project that has one, and the writes put off in graph order |
| CoordinatorObject.SolutionCoordinator.Invalidate | internal/compile/solution.go:277-325 | exactly the projects that reach a named one are cleared, forced to a full build unless named, and returned in graph order; every other state is unchanged |
| CoordinatorObject.SolutionCoordinator.MarkStale | internal/compile/solution.go:306-325 | the same for the loop over the projects, given what was found stale |
| IncrementalManifest.ReuseIsFresh | internal/compile/incremental_manifest.go:89-127 | reusing the recorded references when no file changed gives what a fresh analysis gives |
| IncrementalManifest.ChangedPaths | internal/compile/incremental_manifest.go:191-202 | exactly the changed, added and deleted paths |
| IncrementalManifest.AccumulateReverseDeps | internal/compile/incremental_manifest.go:240-249 | every file becomes an importer of exactly what it references, on top of what was there |
| IncrementalManifest.SpreadToImporters | internal/compile/incremental_manifest.go:211-229 | the worklist ends, although a deleted path can be queued twice, with exactly the current files that reach a change through old or new references |
| IncrementalManifest.SelectIncrementalSourceFiles | internal/compile/incremental_manifest.go:186-238 | returns, in source order, exactly the files that reach a changed, added or deleted file, or all without a comparable manifest |
| IncrementalBuild.WritesEffect | internal/compile/outputwriter.go:69-108 | after the write loop every output of a written source is on disk with its text, or was left because the recorded hash matched |
| IncrementalBuild.UnselectedIsRecorded | internal/compile/output.go:169-196 | the outputs of a source left out of the selection are on disk and the manifest records the hashes they should have |
| IncrementalBuild.BuildLeaves | internal/compile/output.go:102-417 | the text and the recorded hash a build leaves at every output of every source |
| IncrementalBuild.CorrectExactlyWhenUndisguised | internal/compile/output.go:102-417 | all outputs are correct after a build exactly when no output was changed behind a manifest that records the wanted hash |
| IncrementalBuild.BuildDescribes | internal/compile/output.go:366-417 | the manifest a build leaves describes the sources it built |
| IncrementalBuild.BuildKeepsMatching | internal/compile/output.go:366-417 | a build leaves every recorded hash that of the file on disk |
| IncrementalRuns.RunStaysOk | internal/compile/output.go:102-417 | over every run of builds and deletions of outputs, manifest and disk stay in agreement |
| IncrementalRuns.ScratchWritesExactly | internal/compile/output.go:102-417 | a build from an empty output tree writes exactly the outputs of the sources, with their texts |
| IncrementalRuns.EveryBuildAgreesWithScratch | internal/compile/output.go:102-417 | after every build of every run, each output equals what a from-scratch build of the current sources would write |
| IncrementalRuns.WriteOrderIrrelevant | internal/compile/output.go:286-344 | the order in which parallel write workers take the selected sources does not matter |
| IncrementalRuns.UnpersistedBuildIsNotUndone | internal/compile/solution_drain.go:13-34 | outputs of a build whose manifest was not written stay wrong after the sources are put back, whatever the options |
| IncrementalRuns.UnpersistedExample | internal/compile/solution_drain.go:13-34 | a toolchain that copies, one source and two texts, for which this happens |
| IncrementalProject.OutputWriter.Write | internal/compile/outputwriter.go:69-108 | what is on disk, what is recorded, whether it was written and the skip count after one write |
| IncrementalProject.OutputWriter.WriteSource | internal/compile/output.go:313-329 | a source's text and source map are written as the specification of one job says |
| IncrementalProject.RejectDuplicateOutputPaths | internal/compile/output.go:618-636 | accepted exactly when no two paths have the same key, the key being their absolute, cleaned and case-folded form |
| IncrementalProject.PruneMissingOutputs | internal/compile/incremental_manifest.go:169-175 | exactly the recorded outputs that are on disk remain |
| IncrementalProject.MissingInputs | internal/compile/output.go:179-188 | exactly the inputs that a recorded but missing output may come from |
| IncrementalProject.SelectFiles | internal/compile/output.go:169-196 | in source order, exactly the files that must be recompiled, are forced, or have a missing output |
| IncrementalProject.Project.Build | internal/compile/output.go:85-417 | a build is refused exactly for output paths with the same key; otherwise every output on disk is what the compiler makes of the current sources, and the store is fit for the next build |
| Sidecar.FailsExactly | internal/compile/sidecar.go:421-470 | a round trip is given up exactly when some listed file without overlay must be shipped and cannot be read |
| Sidecar.AnswerKeepsStepExactly | internal/compile/sidecar.go:409-508 | an answered round trip keeps session and worker in step exactly when no held overlay is dropped whose file cannot be read, unless its disk text is held already |
| Sidecar.RoundTripCoherent | internal/compile/sidecar.go:409-508 | after an answered round trip that keeps step, the worker holds for every listed file the overlay if there is one and the disk text otherwise, exactly when every listed file is there to be had |
| Sidecar.AlwaysInStepExactly | internal/compile/sidecar.go:409-574 | a session stays in step through any sequence of edits, overlays and failed scans exactly when each round trip forgets no overlay if it is sent and loses nothing if it is not |
| Sidecar.EveryTripCoherent | internal/compile/sidecar.go:409-574 | in such a session the worker sees the project as the caller does after every round trip that is sent, exactly when every listed file is there to be had |
| Sidecar.FailedReadKeepsStepExactly | internal/compile/sidecar.go:421-470 | after a scan that failed the session is still in step exactly when every held file that was overlaid, or is listed before the unreadable one and must be shipped, is held with its disk text |
| Sidecar.LostChangeStaysLost | internal/compile/sidecar.go:421-470 | a change that was stamped but not shipped is not shipped by the next successful trip either |
| Sidecar.LostChangeExample | internal/compile/sidecar.go:421-470 | a session in step and two trips, the first failing on its second file, after which the first file is out of date in the worker |
| Sidecar.DeletedOverlayStays | internal/compile/sidecar.go:472-508 | an overlaid file that was deleted keeps its overlay in the worker |
| SidecarObject.SidecarSession.RevertDroppedOverlays | internal/compile/sidecar.go:489-508 | ships the disk texts of exactly the dropped, readable overlays and stamps them |
| SidecarObject.SidecarSession.ShipOverlays | internal/compile/sidecar.go:428-438 | adds every overlay of the request and remembers their paths |
| SidecarObject.SidecarSession.ChangedFilesFor | internal/compile/sidecar.go:421-470 | the changes shipped, the failure and the state of the session are those of the specification |
| SidecarObject.SidecarSession.RoundTrip | internal/compile/sidecar.go:343-544 | a request that cannot be sent leaves the session in use with the stamps of the scan, one without an answer leaves it dead, and otherwise session and worker are those of the specification |
| SidecarObject.SidecarTable.TryOnce | internal/compile/sidecar.go:524-573 | how one attempt ends with and without a session, a readable request and an answer, and that a session without an answer is dropped |
| SidecarObject.SidecarTable.RunTransformerSidecar | internal/compile/sidecar.go:510-574 | how the call ends for every session, failed scan and pair of attempts; the session is in step afterwards exactly when the request was harmless to it or it was replaced, and then an answer is on the caller's texts exactly when every listed file is there to be had |
| TopoOrder.StuckExactly | internal/deploy/graph.go:319-348 | the keys the sort never reaches are exactly those from which a cycle can be reached |
| TopoOrder.AllDoneExactlyWhenAcyclic | internal/deploy/graph.go:319-348 | all keys are reached exactly when the graph has no cycle |
| TopoOrder.OrderIsSuccessorsFirst | internal/deploy/graph.go:319-338 | the levelled order lists every key once, after its dependencies |
| TopoSorting.IndexByKey | internal/deploy/graph.go:293-300 | the index of distinct keys, or a key that two resources share |
| TopoSorting.CountDependencies | internal/deploy/graph.go:302-315 | in-degrees and dependents of the whole graph, or a dependency that no resource has |
| TopoSorting.TopoSort | internal/deploy/graph.go:292-350 | succeeds exactly when keys are distinct, dependencies present and the graph acyclic; then the result is a permutation with dependencies first; the keys of a cycle error are exactly those that reach a cycle, sorted |
| TopoSorting.OrderIndependentOfInput | internal/deploy/graph.go:292-350 | listing the same resources in another order changes neither the result nor whether there is one |
| ResourceOrder.OrdersAgreeExactly | internal/deploy/graph.go:288-330 | for two kinds and all names, sorting key texts is sorting by kind and name exactly when neither kind goes on from the other with a character up to the slash |
| ResourceOrder.DashedKindExample | internal/deploy/graph.go:288-330 | kinds "a" and "a-b", which the two orders sort differently |
| ResourceOrder.LevelsByKindAndName | internal/deploy/graph.go:288-350 | in the result of a sort of resources of the ten kinds, an earlier one is on an earlier dependency level, or on the same level and before by kind and name |
| Deploy.ParseRoundTrip | internal/deploy/plan.go:118-125 | a key comes back from its parsed form exactly when it contains a slash |
| Deploy.HasChangesMeans | internal/deploy/plan.go:48-50 | a plan has changes exactly when it has a create, update or delete step |
| Deploy.PlanStepsPlan | internal/deploy/plan.go:57-116 | a resource's step is a create exactly without an entry, a no-op exactly for an entry with the hash of its inputs and an update otherwise, with the resource's kind, key, dependencies and hash; then come the entries that left the config in key order, as deletes or blocked deletes |
| Deploy.InMemoryIsSaved | internal/deploy/apply.go:145-170 | at every point of a run that was not aborted the state in memory is the one in the file |
| Deploy.FileAfter | internal/deploy/apply.go:101-178 | at the key of a step that no other applied step shares, the file holds that step's effect once it was applied and the original entry until then; the effect of a create or update is the hash of the inputs, each output the call returned, and the original outputs it did not return |
| Deploy.RunRecords | internal/deploy/apply.go:101-178 | the same for the file that any run leaves, from the state it started with |
| Deploy.AbortLeaves | internal/deploy/apply.go:145-180 | an abort leaves the file as before the last step, and the state in memory too unless the step went through and its save failed |
| Deploy.ReplanResumes | internal/deploy/apply.go:101-178 | after any number of steps under any failures, planning again gives no-op exactly for a resource applied or unchanged and the original operation otherwise, unless deletes are allowed and a delete of an entry without a slash names its key |
| Deploy.ReplanDeletes | internal/deploy/apply.go:156-172 | an entry that was to be deleted is planned for deletion again exactly until its step was applied, if deletes are not allowed or its key has a slash and no other delete names it |
| Replanning.ResumesExactly | internal/deploy/plan.go:95-125 | a resource resumes in this sense after every run, of every environment and length, exactly when deletes are not allowed or no entry without a slash left the config whose delete names the resource |
| Replanning.DeletesAgainExactly | internal/deploy/plan.go:95-125 | an entry is planned for deletion again exactly until its step was applied, after every run, exactly when deletes are not allowed, or its key has a slash and no delete of another entry names it |
| Replanning.UnslashedExample | internal/deploy/plan.go:118-125 | a state with the one key "k" and no resources: the delete succeeds, the entry stays, and planning again deletes again |
| Deploy.NothingElseGone | internal/deploy/apply.go:101-178 | no run adds to what planning again would delete |
| Deploy.SlashesPreserved | internal/deploy/apply.go:101-178 | no run puts a key without a slash into the file |
| Deploy.SuccessConvergesExactly | internal/deploy/plan.go:95-125 | after a fully successful run planning again finds no changes exactly when every entry that left the config has a slash in its key |
| Deploy.FailedExactlyBelow | internal/deploy/apply.go:108-132 | a changed resource fails or is skipped exactly when a chain of changed dependencies leads to one whose own call fails, and is applied otherwise |
| DeployEngine.BuildPlan | internal/deploy/plan.go:57-116 | a plan exists exactly when the resources can be sorted; its steps are those above, dependencies first, and each tally is the number of steps with its operation |
| DeployEngine.SameOrderAgain | internal/deploy/plan.go:57-61 | planning again visits the resources in the same order however the config lists them |
| DeployEngine.PlanFailsExactlyBelow | internal/deploy/apply.go:101-178 | in every run of a built plan, with its deletes and any abort, each resource the run got past is reported skipped exactly when a dependency leads through changed dependencies to a failing call, failed exactly when only its own call fails, unchanged if it was a no-op, and applied otherwise |
| DeployEngine.PlanConvergesExactly | internal/deploy/plan.go:57-125 | after a fully successful run of a built plan, building the plan again finds no changes exactly when every entry that left the config has a slash in its key |
| DeployEngine.FindFailedDep | internal/deploy/apply.go:185-195 | finds a failed direct dependency exactly when there is one |
| DeployEngine.Deployment.ApplyChange | internal/deploy/apply.go:108-154 | a create or update step ends skipped, aborted, failed, or applied and saved, as the specification of one turn says |
| DeployEngine.Deployment.ApplyDelete | internal/deploy/apply.go:156-172 | a delete step likewise; without a provider the entry is forgotten without a call |
| DeployEngine.Deployment.Apply | internal/deploy/apply.go:62-180 | refuses a plan with blocked deletes untouched; otherwise state, file, outcomes and error are those of a complete run, the file holds the effects above, the results are those of the first steps in order, each count is the number of results it counts (created, updated and deleted by operation), and without an error memory and file agree |
| CompileGate.InvStep | cmd/rotor/solution_watch.go:25-61 | every lock section keeps the gate's invariant |
| CompileGate.AtMostOneRun | cmd/rotor/solution_watch.go:25-48 | in every interleaving at most one run is active and no channel is closed twice |
| CompileGate.IdleMeansTaken | cmd/rotor/solution_watch.go:147-153 | when the gate is idle a run has begun after every trigger, and only occurrences of events not yet triggered are left in the buffer |
| CompileGate.RunsAfterTrigger | cmd/rotor/solution_watch.go:25-48 | between a trigger and an idle gate a run begins |
| CompileGate.TriggeredIsTaken | cmd/rotor/solution_watch.go:147-153 | an occurrence that was added and triggered before the gate is idle has been taken out of the buffer |
| CompileGate.ActedOnExactly | cmd/rotor/solution_watch.go:147-189 | an occurrence that was triggered before the gate is idle has been acted on exactly when no run took it together with a config event and then failed to reload |
| CompileGate.DroppedExample | cmd/rotor/solution_watch.go:147-189 | a callback reports a changed config and triggers the gate, the run takes the event and its reload fails: the gate is idle and the event is lost |
| CompileGate.DrainReturnsIdle | cmd/rotor/solution_watch.go:50-61 | Drain returns only by a look that finds the gate idle, with everything triggered before taken |
| CompileGate.DrainLooks | cmd/rotor/solution_watch.go:50-61 | a caller of Drain is back only after a look of its own that found the gate idle |
| CompileGate.DrainOfIdle | cmd/rotor/solution_watch.go:50-61 | a Drain of an idle gate comes back after one look and changes nothing |
| CompileGate.Progress | cmd/rotor/solution_watch.go:25-61 | until the gate is idle and every Drain has returned, some goroutine or caller can step |
| CompileGate.EveryScheduleSettles | cmd/rotor/solution_watch.go:25-61 | without new triggers every schedule is bounded, and one that cannot go on has left the gate idle and every Drain returned |
| CompileGate.Settle | cmd/rotor/solution_watch.go:34-61 | running the goroutines and callers in any order ends idle, with every triggered event taken |
| PathText.SplitClean | internal/compile/sanitize.go:244-253 | Go's path.Clean does not change the place a text names, nor whether it is rooted |
| BaseUrl.PrefixNamesBaseExactly | internal/compile/sanitize.go:221-231 | the prefix names the base directory for every config directory exactly when trimming keeps baseUrl absolute or relative |
| BaseUrl.RootBaseExample | internal/compile/sanitize.go:221-231 | the root as baseUrl becomes the config directory |
| Climbing.WalkShape | internal/compile/sanitize.go:244-253 | a path text leads up as often as its cleaned form starts with "..", or to the root, and then down the rest |
| PathPatterns.WalksAgreeExactly | tsgo/tspath/path.go:286-320 | two lists of components lead to the same place from every directory exactly when they are the same once cleaned |
| PathPatterns.SameFromExactly | tsgo/module/resolver.go:1266-1302 | two texts with a star lead from a directory to the same place, whatever the star stands for, exactly when they lead to the same star and go on alike after it |
| PathPatterns.SameEverywhereExactly | tsgo/module/resolver.go:1266-1302 | they do so from every directory exactly when the parts before the star are the same once cleaned and the rest goes on alike |
| Rebasing.RebasedPlace | internal/compile/sanitize.go:242-253 | where a rebased text that keeps its form leads, for every matched text, backslashes read as separators |
| Rebasing.RebaseExactly | internal/compile/sanitize.go:242-253 | a relative substitution, backslashes read as separators, keeps its place for every config directory and every match that leaves it relative, exactly when cleaning turns it neither absolute nor relative and keeps its form: where its star is reached and what follows it |
| Rebasing.MatchKeptExactly | internal/compile/sanitize.go:242-253 | for a text that keeps its form, a match keeps its place in every config directory exactly when it leaves the text relative, or the text climbs from an absolute base directory to the root |
| Rebasing.WildPlace | internal/compile/sanitize.go:231-284 | the added wildcard tries the name under the base directory |
| Tangles.UntangledThenSubst | internal/compile/sanitize.go:244-253 | cleaning before the star is replaced leads where replacing it first leads, if the parts after the star do not climb above it and no ".." takes more than one component away |
| Tangles.UntangledMeansSame | internal/compile/sanitize.go:244-253 | such a text keeps its form when it is rebased |
| Tangles.SlashesExactly | internal/compile/sanitize.go:242-253 | a relative substitution without a backslash keeps its place for every config directory and every match that leaves it relative, exactly when the parts after its star do not climb above it and cleaning turns it neither absolute nor relative |
| PathsRewrite.BestIsBest | tsgo/module/resolver.go:2023-2034 | the picked pattern is an exact key or a matching wildcard that no other beats |
| PathsRewrite.SortedPick | internal/compile/sanitize.go:185-189 | from the sorted keys of the written file the least of the patterns that no other beats is picked, and none exactly when none matches |
| PathsRewrite.OrderIrrelevantExactly | tsgo/core/pattern.go:41-52 | the picked pattern does not depend on the order of the keys exactly when no two patterns tie |
| PathsRewrite.DistinctPrefixesNoTie | tsgo/core/pattern.go:41-52 | patterns with distinct texts before their stars never tie |
| PathsRewrite.MatchedTextFits | tsgo/core/pattern.go:31-39 | a pattern with the matched text in place of its star is the name |
| PathsRewrite.RewritePreservesLookup | internal/compile/sanitize.go:192-284 | for any order of the keys, with or without ties, the places tried after the rewrite are those tried before it, in order, exactly when nothing was picked before or the substitutions of the pattern picked now lead, rebased, where those of the pattern picked before led |
| PathsRewrite.LookupPreservedExactly | internal/compile/sanitize.go:185-284 | with the keys sorted as in the written file, the places are the same in every config directory exactly when nothing was picked before, or the same pattern is picked and the name makes none of its relative substitutions absolute, or the added "*" replaces a pattern without substitutions, or another pattern leads to the same places |
| PathsRewrite.StarSuffixLost | internal/compile/sanitize.go:277-283 | where the best pattern starts with its star and "*" was not there, only the name under the base directory is tried |
| PathsRewrite.AbsoluteStays | internal/compile/sanitize.go:242-284 | a substitution that starts with a slash, a backslash or a drive letter and a colon comes out unchanged and in its place |
| RewriteExamples.ClimbExample | internal/compile/sanitize.go:242-253 | baseUrl "s" and the substitution "*/../b", which climbs above its star: some match is looked up in another place |
| RewriteExamples.BackslashExample | tsgo/tspath/path.go:599-609 | baseUrl "s" and the substitution a\b/../c: s/a/c was tried, now s/c is, although no part climbs above a star |
| RewriteExamples.AbsoluteMatchExample | internal/compile/sanitize.go:242-253 | baseUrl "s", the pattern "a*" for "*" and the name "a/x": the root was tried, now the base directory is |
| RewriteExamples.StarSuffixExample | internal/compile/sanitize.go:277-283 | baseUrl "s", the pattern "*c" for "x" and the name "bc": s/x was tried first, now "*" is picked |
| RewriteExamples.TieExample | internal/compile/sanitize.go:185-189 | baseUrl "s", the patterns "a*c" for "x" and "a*" for "y" in this order and the name "abc": s/x was tried first, now s/y is |
| PathsRewrite.InjectBaseURLPaths | internal/compile/sanitize.go:220-284 | every pattern gets its rebased substitutions and then the fallback, and the wildcard is added |
| Vlq.RoundTrip | internal/compile/source_trace.go:287-304 | reading back a written number gives the number and what followed it |
| Vlq.ValueIsIndex | tsgo/sourcemap/decoder.go:238-253 | a character has a value exactly when it is in the base64 alphabet, and it is its index there |
| Vlq.WrittenFormat | internal/compile/source_trace.go:287-304 | a number is written as digits of five bits, low ones first, with the continuation bit on all but the last, its lowest bit the sign and the others the magnitude |
| Vlq.ReadExactly | tsgo/sourcemap/decoder.go:200-236 | reading gives a number exactly when the text starts with such digits, and then the number they stand for and what follows them |
| Vlq.AppendVLQ | internal/compile/source_trace.go:287-304 | the loop appends the base64 digits of the signed number |
| Vlq.ReadVLQ | tsgo/sourcemap/decoder.go:200-236 | the shifting loop reads the number and stops behind it, and fails exactly on a malformed one |
| SourceMaps.TextRead | internal/compile/source_trace.go:254-285 | reading a written list gives it back with every line raised to the highest before it |
| SourceMaps.RoundTripExactly | internal/compile/source_trace.go:254-285 | a written list reads back as itself, segments without a source included, exactly when its generated lines never decrease |
| SourceMapFormat.TextFormat | internal/compile/source_trace.go:254-285 | a written text consists of its mappings in order: a semicolon per new line or a comma, the column relative to the mapping before on the line, and with a source the index 0 and the source position relative to the one written last |
| SourceMapFormat.ReadExactly | tsgo/sourcemap/decoder.go:85-198 | any text reads as a list of segments exactly when it consists of separators and groups of one, four or five numbers, each group followed by a separator or the end, whose running sums never become negative and are what the list says |
| SourceTrace.OriginalIsGreatest | internal/compile/source_trace.go:190-201 | on every trace the binary search finds a mapping where the trace turns from before to after the position, and on a sorted one the greatest mapping at or before it |
| SourceTrace.ReadInLineOrder | tsgo/sourcemap/decoder.go:85-165 | decoded mappings come in the order of their lines |
| SourceTrace.NewSourceTraceMap | internal/compile/source_trace.go:36-72 | the trace holds the mappings of the text that have a source, an error exactly for malformed text and coordinates beyond 32 bits; it is sorted if no column goes backwards within a line |
| SourceTrace.RewriteIsComposition | internal/compile/source_trace.go:203-244 | the rewritten map reads as the original one composed with the trace text, mapping by mapping, through the greatest trace mapping if no column of the trace goes backwards within a line |
| SourceTrace.UnsortedTraceExample | internal/compile/source_trace.go:46-48 | a text that decodes to columns in descending order, on which the search misses |
| SourceTrace.EncodeEmittedMappings | internal/compile/source_trace.go:254-285 | the loops with running deltas write the text of the list |
| SourceTrace.RewriteMappings | internal/compile/source_trace.go:203-244 | an error exactly for malformed mappings; otherwise the text of the composed list |
| Utf8.DecodeEncoded | internal/compile/source_trace.go:148-153 | decoding gives an encoded rune and its width back, whatever follows |
| Utf8.EncodeIsShortest | internal/compile/source_trace.go:148-153 | a valid rune is written as the shortest UTF-8 code that stands for it |
| Utf8.DecodeExactly | internal/compile/source_trace.go:148-153 | any bytes decode to the Unicode scalar value whose shortest code they start with, and to the error rune, one byte wide, if there is none |
| TextPositions.PositionAtBoundary | internal/compile/source_trace.go:134-155 | at every rune boundary of a valid text the position is the number of newlines before it and the number of UTF-16 code units since the last |
| TextPositions.OffsetExactly | internal/compile/source_trace.go:157-188 | on a valid text a position has an offset exactly when its line has a boundary that reaches the column, and it is the first such boundary |
| TextPositions.BoundaryRoundTrip | internal/compile/source_trace.go:137-188 | going to the position of any boundary and back returns to the boundary, at newlines and the end of the text too |
| TextPositions.InsidePairRoundsUp | internal/compile/source_trace.go:171-188 | a column inside a surrogate pair rounds up to the boundary after it |
| DiagnosticRemap.RemapLands | internal/compile/source_trace.go:91-120 | a diagnostic at a rune boundary lands on the boundary of the original text that its greatest trace mapping names, with its line, column and a span that fits, and stays as it is when there is no such mapping or boundary |
| DiagnosticRemap.Remap | internal/compile/source_trace.go:91-120 | a diagnostic moves to the target of its offset, on any bytes, or stays as it is |
| DiagnosticRemap.LineColIn | internal/compile/compile.go:328-342 | the loop computes the line and the column in bytes, from 1 |
| TextPositions.ToUtf16Position | internal/compile/source_trace.go:137-155 | the two loops compute the position, on any bytes |
| TextPositions.FindLine | internal/compile/source_trace.go:163-170 | the loop finds the start of the line, or that there is none |
| TextPositions.ToByteOffset | internal/compile/source_trace.go:159-188 | the loops compute the offset, on any bytes |
| Glob.AgreesExactly | internal/assets/glob.go:58-82 | the backtracking loop agrees with the meaning of '*' and '?' for every pattern exactly on the names without a literal star |
| Glob.RunMatchSegment | internal/assets/glob.go:58-82 | the loop ends, by a lexicographic measure, with the answer of the specification |
| GlobPaths.MatchesExactlyWhenCut | internal/assets/glob.go:36-54 | a path matches exactly when it can be cut up among the pattern's segments, "**" taking any stretch |
| GlobPaths.PathsMatchAsMeant | internal/assets/glob.go:36-82 | on names without literal stars whole paths match as '*', '?' and "**" mean |
| GlobPaths.MatchMeans | internal/assets/glob.go:20-82 | a name without a literal star matches exactly when its segments can be cut up among those of the pattern, "**" taking any stretch and every other segment one that it matches with letters compared up to case |
| GlobPaths.MatchIgnoresCase | internal/assets/glob.go:20-24 | neither the case of letters nor the kind of separators matters, in the pattern or in the name |
| GlobPaths.MatchBeginsWithStatic | internal/assets/glob.go:84-97 | every matching path begins with the pattern's static prefix, up to case |
| GlobPaths.MatchSegments | internal/assets/glob.go:38-54 | the loop with recursion for "**" computes the match |
| GlobPaths.StaticPrefix | internal/assets/glob.go:87-97 | the returned text splits into the leading segments without a star or question mark, up to the first that has one |
| TokenBucket.AlwaysFilled | internal/cloud/ratelimit.go:48-66 | in every run of turns by any callers the tokens stay between zero and the burst |
| TokenBucket.GrantsPaidFor | internal/cloud/ratelimit.go:48-66 | tokens left plus tokens granted never exceed the burst plus what has flowed in |
| TokenBucket.WindowBound | internal/cloud/ratelimit.go:36-67 | any window of length T holds at most burst + rate * T grants |
| TokenBucket.BurstAtOnce | internal/cloud/ratelimit.go:40-60 | a full bucket grants exactly its burst at one moment, so the bound is reached |
| TokenBucket.NeedExact | internal/cloud/ratelimit.go:61-63 | with nobody else taking a token, a later turn gets one exactly when it comes at least the computed time later |
| TokenBucket.Limiter.TryTake | internal/cloud/ratelimit.go:36-66 | one turn changes only the host's bucket, grants exactly when a token is there, and otherwise says how long to sleep; without a rate it grants and keeps nothing |
| TokenBucket.Limiter.WaitAlone | internal/cloud/ratelimit.go:36-67 | a lone caller that sleeps as told waits at most once |

## Left out

- The TypeScript checker, the transformer, the Luau renderer, the Rojo resolver and the path translator: functions assumed sound where a build needs them.
- Files, symbolic links, modification times, SHA-256, JSON and TOML: paths are texts or lists of components, a file is its text, a stamp is a value, the hash is injective.
- Option inheritance, timings, project metadata and the declaration, lock and companion files of a build.
- Failed and partly written builds, except for the unpersisted builds above.
- The presence index groups recorded outputs by directory; the model looks a path up directly.
- IncrementalProject.Project.Build: stale-output cleanup, declarations and the copy-files gate are not modelled, because they do not change which outputs of the current sources are right.
- Case-insensitive path keys in the manifest, the output writer and the sidecar; the sorted order of shipped changes, of which only the resulting texts are modelled.
- The Node worker: a map of texts that loads what it does not hold and is then changed only by what is shipped.
- `Reload` and the watch sets of the coordinator: old states carried onto a new graph are not covered.
- Hashing of resource inputs can fail in the source; here it cannot. Providers, cloud calls and a missing save callback are parameters of `Env`.
- IncrementalBuild.CorrectExactlyWhenUndisguised: assumes a sound toolchain, distinct output paths and a manifest that describes some earlier build, because the source has no check that could do without them.
- Sidecar.RoundTripCoherent: assumes that an edit changes the stamp, because the protocol has nothing else to tell a change by.
- PathsRewrite.LookupPreservedExactly: for a picked pattern whose own text is portable, and portable substitutions where the same pattern is picked before and after, because a text that is not portable can lead to the right place by chance; such texts have `Rebasing.RebaseExactly`, and `PathsRewrite.RewritePreservesLookup` asks nothing of the substitutions. Windows drives are read as ordinary first components.
- SourceTrace.RewriteIsComposition: for a trace with columns listed backwards it says only that the search stops where the trace turns, because which mapping that is depends on what the search happens to probe.
- CrossProject.ContainsIsPrefix: case folding is ASCII only, because no Unicode case table is modelled.
- DrainReports.ReportNext: the key of an output is the directory followed by its path as it is; filepath.Join also cleans it.
- GlobPaths.MatchBeginsWithStatic: case folding is ASCII only. Malformed `paths` entries are left as they are by the source and not modelled.
- TokenBucket.WindowBound: over reals; float rounding and truncation of durations are not modelled, nor are cancelled contexts.
- Fixed-width integers: coordinates, shifts and counters are unbounded.
- Command line, UI, code frames, init wizard, doctor, profiles and conformance harnesses.
