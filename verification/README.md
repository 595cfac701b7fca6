# Verified model of the autoscaling operator and its load generator

A Dafny 4.11 model of three parts of this repository, and proofs about whole runs of them.

- **The operator** (`go-operator/internal/controller`): a reconcile reads the WorkloadLifecycle resource,
  observes metrics and the target Deployment, decides by a hysteresis band in int32 arithmetic, updates the
  Deployment, emits events and tries to write the status. `Controller` holds the reconciler, the recorder and the
  API server as classes whose methods update them in place; `ReconcileStep` is the function they are proved to
  compute and `ReconcileLaws` what it means for its inputs; `Runs` composes reconciles, on the stored resource or on
  an older copy of it, with spec edits and with other writers of Deployments. What can go wrong (reading the resource,
  the metrics endpoint, reading or updating the Deployment, writing the status) is an argument of each reconcile.
  `EventLedger`, `StatusHistory`, `ReplicaControl`, `Flapping` and `Interleaving` hold the results.
- **The metrics text**: the stub's printer and the operator's parser, down to lines, fields and digits (`Text`,
  `Numerals`, `MetricsParser`, `MetricsStub`), and what they imply for the status schema (`EndToEnd`). Decimal
  literals are exact. Their conversion to a percentage is a parameter, and so is the reading of tokens that parse as
  floats without being decimal literals: results that do not fix them hold for any float64 rounding, any
  out-of-range conversion and any such token.
- **The load generator**: a request's token stream and a session's history (`ChatSession`), the session pool, the
  injector and the report (`SessionPool`), and order statistics (`Percentile`).

`dafny verify dfyconfig.toml` checks the whole project.

## What the proofs found

- The scaling cap is not safe at the largest legal MaxReplicas: at 2^31-1 a scale-up asks for -2^31 replicas
  (`Scaling.CapWrapsAtInt32Max`) and tries to record that as DesiredReplicas (`EndToEnd.AttemptIsValidIff`). A server
  that validates refuses both writes; then every reconcile under pressure fails and warns again, because the failure is
  never recorded (`EndToEnd.CapWarnsEveryTime`). `Scaling.AgreesWithIdealIff` says exactly when the machine rule is the
  intended clamp.
- The flapping bound holds whenever no scaling runs off an end of int32 (`Flapping.FlapBoundUnlessWrapped`). With a
  server that refuses negative counts that is always so (`Flapping.FlapBoundWhenNegativesRefused`). If the server
  stored whatever it is asked to, it would hold exactly for the specs and starts that leave room
  (`Flapping.FlapBoundHoldsIff`): not with MaxReplicas at 2^31-1, from any start.
- Each branch of the rule clamps on one side only, so a count outside the bounds need not land inside them
  (`Scaling.LandsInBoundsIff`). From above MaxReplicas, high usage scales down, and that event quotes the low
  threshold (`ReplicaControl.ScaleEventsOf`).
- The operator's README (line 84) says that the scale event after a scale failure already reports the recovery. When
  both observations succeed and the rule asks for no change, nothing reports it
  (`EventLedger.ScaleFailureLeftSilentlyIff`): a failed scale-up and then usage inside the band is such a run
  (`EventLedger.ScaleFailureCanEndInSilence`).
- A failure is announced wrongly exactly at a visit where the stored reason it read and the last real outcome disagree
  on it (`EventLedger.AnnouncedWronglyIff`), which takes a status write lost to a fault or, after a stale read, to a
  conflict. Each lost write adds or hides at most one Warning (`EventLedger.DedupDegradesGracefully`), attained on both
  sides by `EventLedger.DedupBoundIsTight` and `EventLedger.LostWritesHideEpisodes`.
- A missing Deployment is left without a Recovered event exactly when the next reconcile gets no metrics
  (`EventLedger.DeploymentLeftSilentlyIff`). If that outage is recorded, the recovery of the Deployment is never
  announced; if its status write is lost, it is (`EventLedger.CutShortEpisode`).
- The type comment wants the low threshold below the high one; nothing checks it, nor that MinReplicas is at most
  MaxReplicas. The results here assume neither unless they say so: with an inverted band the flapping bound keeps a
  width of one, and with inverted bounds it holds as it is.
- The comment on HTTPMetricsProvider describes a JSON endpoint; the code parses the Prometheus text, as modelled.
- The load generator's report raises when the injector finished a request before any session was collected
  (`SessionPool.ReportFailsIff`, `SessionPool.ReportCanFail`). Sessions that a wait returned as finished but that were
  not collected when the interrupt came are dropped (`SessionPool.LoadTest.Round`).
- A POST to the stub with a good usage and a bad count raises after the usage was changed
  (`MetricsStub.Stub.SetMetrics`).

## Model

| member | source | states |
|---|---|---|
| Controller.WorkloadLifecycleReconciler.Reconcile | go-operator/internal/controller/workloadlifecycle_controller.go:82-136 | one reconcile, whatever fails and however old the copy of the resource it read, leaves exactly the stored resource, Deployments, events and result of the step function on which all run theorems below are stated |
| Controller.WorkloadLifecycleReconciler.ObserveDeployment | go-operator/internal/controller/workloadlifecycle_controller.go:209-226 | returns a private copy of the stored Deployment with its version and its effective count (nil meaning one), or the read error |
| Controller.WorkloadLifecycleReconciler.MakeAdjustmentIfNeeded | go-operator/internal/controller/workloadlifecycle_controller.go:228-295 | holds, scales or fails, from copies that may be stale: events, status, stored Deployment and returned error agree on which |
| Controller.WorkloadLifecycleReconciler.RecordStatus | go-operator/internal/controller/workloadlifecycle_controller.go:153-187 | nil fields keep their value; both conditions and the reason are set in memory; the stored status changes only if the write neither fails nor conflicts |
| Controller.ApiServer.Update | go-operator/internal/controller/workloadlifecycle_controller.go:262-263 | a full Deployment update commits exactly when nothing failed and the version read is still the stored one, and otherwise says why not |
| ReconcileLaws.ResultLaw | go-operator/internal/controller/workloadlifecycle_controller.go:85-135 | what is returned for every input: nothing for a missing resource, the error of another failed read, and otherwise 15 seconds and the update's error exactly when both observations succeed, the rule asks for another count and the update fails |
| ReconcileLaws.DecisionLaw | go-operator/internal/controller/workloadlifecycle_controller.go:128-130 | the desired count recorded is the rule's for the count and usage observed, whether or not the update succeeds, and what is stored is that count exactly when it does |
| ReconcileLaws.OutcomeLaw | go-operator/internal/controller/workloadlifecycle_controller.go:89-293 | exactly which inputs lead to each outcome |
| ReconcileLaws.ReportLaw | go-operator/internal/controller/workloadlifecycle_controller.go:91-123 | the two condition statuses, the message, the usage and the scale time reported of each outcome |
| ReconcileLaws.EventLaw | go-operator/internal/controller/workloadlifecycle_controller.go:94-126 | the exact events of a reconcile, with kinds, details and order, by stored reason and inputs |
| ReconcileLaws.StoredLaw | go-operator/internal/controller/workloadlifecycle_controller.go:82-187 | what a reconcile changes in the stored objects and what it leaves: spec, generation, other Deployments |
| ReconcileLaws.StaleLaw | go-operator/internal/controller/workloadlifecycle_controller.go:82-187 | on an older copy it decides by that copy and never changes the stored resource |
| Scaling.AgreesWithIdealIff | go-operator/internal/controller/workloadlifecycle_controller.go:297-317 | the int32 rule equals the unbounded clamp exactly away from the two wrapping steps |
| Scaling.LandsInBoundsIff | go-operator/internal/controller/workloadlifecycle_controller.go:300-317 | exactly which counts and usages lead into the configured bounds, from any count |
| Scaling.CapWrapsAtInt32Max | go-operator/internal/controller/workloadlifecycle_controller.go:302-307 | a validated spec and an in-bounds count from which scaling up asks for the most negative int32 |
| Runs.StreamGrowsByLog | go-operator/internal/controller/workloadlifecycle_controller.go:82-136 | over any run the event stream is the old one followed by the events of its visits in order |
| Runs.RunOfConcat | go-operator/internal/controller/workloadlifecycle_controller.go:82-136 | runs and their traces compose at any cut |
| EventLedger.EventsOfVisit | go-operator/internal/controller/workloadlifecycle_controller.go:89-126 | the events of a reconcile follow from the stored reason and its outcome alone |
| EventLedger.TracesAreCoherent | go-operator/internal/controller/workloadlifecycle_controller.go:89-126 | in any run each visit announces what the reason it read and its outcome call for, and a visit that persists read the reason of the last persisted one |
| EventLedger.DedupDegradesGracefully | go-operator/internal/controller/workloadlifecycle_controller.go:89-122 | for each failure reason, Warnings and episodes differ by at most the number of lost status writes, under any faults, stale reads, edits and outside writes |
| EventLedger.OneWarningPerEpisode | go-operator/README.md:82 | with no failed status write, exactly one Warning per sustained failure |
| EventLedger.AnnouncedWronglyIff | go-operator/internal/controller/workloadlifecycle_controller.go:94-122 | a reconcile's Warning for a failure is missing or repeated exactly when the stored reason and the last real outcome disagree on that failure |
| EventLedger.WarningsExactly | go-operator/internal/controller/workloadlifecycle_controller.go:89-122 | summing that condition over a run's visits: Warnings are the episodes plus the repeated less the hidden ones; what a visit can have read is TracesAreCoherent's |
| EventLedger.DedupBoundIsTight | go-operator/internal/controller/workloadlifecycle_controller.go:94-102 | for every n a run with n lost writes and one episode emits n extra Warnings |
| EventLedger.LostWritesHideEpisodes | go-operator/internal/controller/workloadlifecycle_controller.go:94-122 | for every n a run with n lost writes hides n new episodes, none of them announced |
| EventLedger.MetricsLedger | go-operator/internal/controller/workloadlifecycle_controller.go:91-107 | Warnings minus recoveries of MetricsUnavailable track the stored reason, up to one per failed status write |
| EventLedger.MetricsLedgerExact | go-operator/internal/controller/workloadlifecycle_controller.go:91-107 | from a fresh resource with persisting writes the difference is one while metrics are unavailable and zero otherwise |
| EventLedger.MetricsEventsAlternate | go-operator/internal/controller/workloadlifecycle_controller.go:91-107 | with persisting writes the outage's Warnings and Recovered events strictly alternate in the log |
| EventLedger.DeploymentLedger | go-operator/internal/controller/workloadlifecycle_controller.go:109-126 | for TargetDeploymentNotFound the difference also counts the episodes cut short by a metrics failure, up to one per lost status write and one more per stale read |
| EventLedger.DeploymentLedgerExact | go-operator/internal/controller/workloadlifecycle_controller.go:109-126 | with persisting writes that ledger is exact |
| EventLedger.DeploymentLeftSilentlyIff | go-operator/internal/controller/workloadlifecycle_controller.go:91-126 | a missing Deployment is left without a Recovered event exactly when the next reconcile gets no metrics |
| EventLedger.CutShortEpisode | go-operator/internal/controller/workloadlifecycle_controller.go:91-126 | a run with one episode cut short: its recovery is never announced if the outage's status write persisted, and is announced if it was lost |
| EventLedger.OnlyObservationFailuresRecover | go-operator/README.md:83-84 | in no run does a Recovered event name anything but the two observation failures |
| EventLedger.ScaleFailureLeftSilentlyIff | go-operator/README.md:84 | a scale failure is left without any event exactly when both observations succeed and the rule asks for no change |
| EventLedger.ScaleFailureCanEndInSilence | go-operator/README.md:84 | a failed scale-up and then usage inside the band: one Warning, the second reconcile holds and emits nothing |
| StatusHistory.StatusIsPersistedFold | go-operator/internal/controller/workloadlifecycle_controller.go:153-187 | the stored status after any run is what the persisted visits made of it and nothing else |
| StatusHistory.StatusKeepsLastDefined | go-operator/internal/controller/workloadlifecycle_controller.go:138-166 | observed usage, desired count and scale time are those of the latest persisted fetch, decision and scale, however many failing reconciles lie between; the decision is the rule's for what that reconcile saw |
| StatusHistory.SetConditionLaw | go-operator/internal/controller/workloadlifecycle_controller.go:169-182 | setting a condition touches its own type only, keeps it single, and moves its time only when its status changes |
| StatusHistory.ConditionTiming | go-operator/README.md:85 | after any run each condition carries the last persisted reason, message and generation, and dates from the start of the current block of equal status |
| StatusHistory.EachConditionOnce | go-operator/internal/controller/workloadlifecycle_controller.go:169-182 | each condition occurs exactly once after any run with a persisted visit |
| StatusHistory.OneReconcileAgrees | go-operator/internal/controller/workloadlifecycle_controller.go:156-187 | from any state, a reconcile that persists its status leaves reason, conditions, desired count and Deployment in agreement |
| StatusHistory.StatusLaw | go-operator/internal/controller/workloadlifecycle_controller.go:153-187 | one persisted reconcile, field by field over its inputs: reason, usage, desired count, scale time, both conditions with message, generation and time, and every other condition kept |
| StatusHistory.StatusAgreesThroughout | go-operator/internal/controller/workloadlifecycle_controller.go:82-187 | that agreement holds over whole undisturbed runs, spec edits and failed reads included |
| ReplicaControl.RunCount | go-operator/internal/controller/workloadlifecycle_controller.go:209-295 | in runs of this controller alone the stored count follows the rule on effective reconciles and is untouched by the others |
| ReplicaControl.BoundsOverRuns | go-operator/internal/controller/workloadlifecycle_controller.go:257-317 | from inside the bounds every reachable count stays inside, nothing wraps, and each scale event is one replica in the direction of the side of the band its usage is on |
| ReplicaControl.ScaleEventsOf | go-operator/internal/controller/workloadlifecycle_controller.go:278-284 | a scale event reports the stored counts before and after, from any count |
| ReplicaControl.ConvergesUp | go-operator/README.md:43 | under pressure the count after n effective reconciles in closed form, failures only delaying it |
| ReplicaControl.ConvergesDown | go-operator/README.md:44 | under idleness likewise |
| ReplicaControl.SettledHolds | go-operator/internal/controller/workloadlifecycle_controller.go:234-248 | once settled, every later visit that reaches the Deployment holds and no scale is announced |
| ReplicaControl.ReachesMaxAndHolds | go-operator/README.md:43 | enough effective reconciles under pressure reach MaxReplicas exactly and it holds there silently |
| ReplicaControl.ReachesMinAndHolds | go-operator/README.md:44 | the same for MinReplicas |
| ReplicaControl.HigherLoadNeverFewerReplicas | go-operator/internal/controller/workloadlifecycle_controller.go:297-317 | of two runs with the same successes, pointwise higher usage and a higher start end at least as high |
| ReplicaControl.SameLoadGapNeverGrows | go-operator/internal/controller/workloadlifecycle_controller.go:297-317 | under equal usage and faults the gap between two counts never grows, so merged runs stay merged |
| Flapping.LogReversals | go-operator/internal/controller/workloadlifecycle_controller.go:257-293 | reversals read off the event log are reversals of the stored count |
| Flapping.FlapBound | go-operator/api/v1alpha1/workloadlifecycle_types.go:44-46 | for bounds and a start off the ends of int32, in either order, reversals among scale events times the band width are at most the observed usage's total variation, whatever fails |
| Flapping.FlapBoundUnlessWrapped | go-operator/api/v1alpha1/workloadlifecycle_types.go:44-46 | the same for any spec and any start over every run in which no scaling runs off an end of int32 |
| Flapping.FlapBoundWhenNegativesRefused | go-operator/api/v1alpha1/workloadlifecycle_types.go:44-56 | the same for any spec and any stored count when updates to negative counts fail |
| Flapping.FlapBoundHoldsIff | go-operator/internal/controller/workloadlifecycle_controller.go:300-317 | for every validated pair of bounds, in either order, and any thresholds, if the server stores any count: the bound holds for all runs exactly when the spec and the start leave room at the ends of int32 |
| Flapping.WrapsBreakTheBound | go-operator/internal/controller/workloadlifecycle_controller.go:300-317 | wherever they do not, a run that breaks it, with constant usage where the bounds are in order |
| Flapping.NoFlappingInsideTheBand | go-operator/README.md:45 | usage that varies less than the band width never reverses the direction, unless a scaling runs off an end of int32 |
| Flapping.FlapBoundIsTight | go-operator/api/v1alpha1/workloadlifecycle_types.go:44-46 | for every n a run attains the bound with n reversals |
| Interleaving.NoLostUpdates | go-operator/internal/controller/workloadlifecycle_controller.go:209-295 | under every schedule of any number of reconcilers, stale reads and outside writers, each committed scale replaced exactly the count it reports |
| Interleaving.CommitsIffUnchanged | go-operator/internal/controller/workloadlifecycle_controller.go:262-276 | an adjustment commits exactly when it wants a change, its update does not fail by itself and nothing at all was written since its read |
| Interleaving.UncontendedAdjustCommits | go-operator/internal/controller/workloadlifecycle_controller.go:209-295 | a reconciler that reads the latest version and adjusts while others only read commits exactly the rule's count and reports the count it replaced |
| Interleaving.GetLaw | go-operator/internal/controller/workloadlifecycle_controller.go:215-217 | a read hands out the version served and touches nothing else |
| Interleaving.AdjustLaw | go-operator/internal/controller/workloadlifecycle_controller.go:262-276 | an adjustment spends its copy, touches no other, and writes nothing unless it commits |
| Interleaving.Conservation | go-operator/internal/controller/workloadlifecycle_controller.go:209-317 | with shared bounds and no outside writer the stored count is initial plus scale-ups minus scale-downs, stays in bounds, and commits chain from count to count |
| Text.JoinOfSplit | go-operator/internal/controller/metrics_provider.go:72 | splitting into lines loses nothing and leaves no newline in a line |
| Text.SplitOfJoin | go-operator/internal/controller/metrics_provider.go:72 | the lines of joined newline-free lines are those lines |
| Text.FieldsOfWeave | go-operator/internal/controller/metrics_provider.go:73 | the fields of words separated by any blanks are those words |
| Text.WeaveOfFields | go-operator/internal/controller/metrics_provider.go:73 | every line is its fields separated by blanks |
| Text.IsSpaceIff | go-operator/internal/controller/metrics_provider.go:73 | the separators are exactly the white space characters of Unicode, written out |
| Text.FieldsOfPrintables | go-operator/internal/controller/metrics_provider.go:73 | two printable words apart by blanks, tabs, carriage returns, vertical tabs or form feeds, and surrounded by any, are the fields |
| Numerals.ScanIntIff | go-operator/internal/controller/metrics_provider.go:85 | integer numerals are exactly an optional sign and digits |
| Numerals.IntRoundTrip | go-operator/internal/controller/metrics_provider.go:85 | a printed integer parses back exactly when it fits in 64 bits and is an error otherwise |
| Numerals.ScanFloatSound | go-operator/internal/controller/metrics_provider.go:79 | what the float scanner accepts is a well-formed literal of exactly that text |
| Numerals.ScanFloatComplete | go-operator/internal/controller/metrics_provider.go:79 | every well-formed decimal literal is accepted with its parts |
| Numerals.ReprIsExact | go-operator/local-test/metrics-stub/app.py:15-16 | the printed usage, positional or scientific, is a well-formed literal of exactly the value |
| Numerals.FiguresLaw | go-operator/local-test/metrics-stub/app.py:15-16 | printing appends the figure 0 to 9 of the last digit and reading takes it off |
| Numerals.ReprLayout | go-operator/local-test/metrics-stub/app.py:15-16 | no exponent exactly for zero and magnitudes from 0.0001 up to 1e16, then a point and a figure after it, otherwise one figure before the point and a signed exponent of two figures or more |
| MetricsParser.ParsePrometheusMetrics | go-operator/internal/controller/metrics_provider.go:70-93 | the loop with in-place fields and early return computes the left fold of the lines' samples |
| MetricsParser.ParserMeaning | go-operator/internal/controller/metrics_provider.go:70-93 | parsing fails exactly when a known two-field line has a malformed number, with the first one's error, and otherwise yields what the last line with each name says, or zero |
| MetricsParser.SampleIff | go-operator/internal/controller/metrics_provider.go:73-90 | the parser's reading of a line is the one thing the line says: which literal the second of its two fields spells, or that it is ignored |
| MetricsParser.ParseOfConcat | go-operator/internal/controller/metrics_provider.go:72-92 | parsing one stretch after another composes |
| MetricsParser.IgnoredLinesDoNotMatter | go-operator/internal/controller/metrics_provider.go:74-76 | inserting or dropping an ignored line anywhere in a text changes nothing |
| MetricsParser.CommentsAreIgnored | go-operator/internal/controller/metrics_provider.go:74-90 | a line starting with a hash is ignored whatever follows |
| MetricsParser.SpacingDoesNotMatter | go-operator/internal/controller/metrics_provider.go:73 | blanks and tabs around and between the fields of a line change nothing in the parse of any text it stands in |
| MetricsParser.TabsAndReturnsDoNotMatter | go-operator/internal/controller/metrics_provider.go:73 | a line of two printable words reads the same whatever tabs, carriage returns and blanks are around and between them |
| MetricsStub.Stub.SetMetrics | go-operator/local-test/metrics-stub/app.py:21-38 | overwrites the given entries and keeps the others; a value that does not convert raises, a bad count only after the usage was written |
| MetricsStub.Stub.Metrics | go-operator/local-test/metrics-stub/app.py:13-19 | the rendered body parses back to the state |
| MetricsStub.RoundTrip | go-operator/local-test/metrics-stub/app.py:13-19 | for every decimal usage, every integer count and every float conversion, print then parse is the conversion of the exact usage and the 32-bit count, failing exactly beyond 64 bits or beyond any float64 |
| MetricsStub.TabbedRoundTrip | go-operator/internal/controller/metrics_provider.go:72-73 | the stub's lines with tabs and carriage returns read the same |
| MetricsStub.FirstBody | go-operator/local-test/metrics-stub/app.py:5-19 | the first body served, in figures |
| MetricsStub.ExactRoundTrip | go-operator/internal/controller/metrics_provider.go:83 | with exact arithmetic a usage in [0,1] comes back as its truncated percentage |
| EndToEnd.ParsedUsageIsPercentage | go-operator/internal/controller/metrics_provider.go:14-17 | a text whose usage samples are in [0,1] parses to 0..100 under any conversion monotone on [0,1] and exact at its ends |
| EndToEnd.EveryAttemptIsValid | go-operator/api/v1alpha1/workloadlifecycle_types.go:81-91 | over every run of such scrapes, of reconciles on stored or older good resources, valid edits and outside writes that keep counts positive, all below 2^31-1, each stored or attempted status is within its declared ranges and a set DesiredReplicas stays at least one |
| EndToEnd.AttemptIsValidIff | go-operator/internal/controller/workloadlifecycle_controller.go:302-307 | for any validated bounds in either order and any stored count an attempted status is valid exactly when the reconcile does not scale up from the largest int32 |
| EndToEnd.CapWarnsEveryTime | go-operator/internal/controller/workloadlifecycle_controller.go:262-276 | with a server that refuses negative counts and statuses outside the schema, n reconciles under pressure at the largest int32 change nothing stored and emit n ScaleFailed Warnings |
| EndToEnd.StubTextQualifies | go-operator/local-test/metrics-stub/app.py:13-19 | the stub's text is such a scrape whenever its usage is in [0,1] |
| ChatSession.RunInference | kv-inference/scripts/nebius-3-kv-expr/load_test_chunked_prefill.py:75-138 | tokens, reply and latencies, under any rounding, come from the lines before the first DONE; a broken line raises |
| ChatSession.InferenceMeaning | kv-inference/scripts/nebius-3-kv-expr/load_test_chunked_prefill.py:91-138 | what a request returns, said of the lines alone: the first end, the lines with text before it, the latencies from sending to the first of them and over the others, or the broken line's error |
| ChatSession.LatenciesAddUp | kv-inference/scripts/nebius-3-kv-expr/load_test_chunked_prefill.py:122-131 | on a nondecreasing clock latencies are nonnegative and add up to the whole duration, but for one rounding error per token |
| ChatSession.RunChatSession | kv-inference/scripts/nebius-3-kv-expr/load_test_chunked_prefill.py:145-167 | rows are turns 1..t with twice the turn of messages sent, t ending at the prompts, at the first stop seen or at an exception |
| ChatSession.PromptsArePrefix | kv-inference/scripts/nebius-3-kv-expr/load_test_chunked_prefill.py:149 | the turns sent are a prefix, of the length a nonnegative or a negative bound asks for |
| ChatSession.RequestsGrow | kv-inference/scripts/nebius-3-kv-expr/load_test_chunked_prefill.py:149-153 | each request extends the one before by exactly its reply and the next user text |
| ChatSession.EarlierRequestsArePrefixes | kv-inference/scripts/nebius-3-kv-expr/load_test_chunked_prefill.py:149-153 | every earlier request is a prefix of every later one |
| SessionPool.LoadTest.NewSession | kv-inference/scripts/nebius-3-kv-expr/load_test_chunked_prefill.py:251-254 | numbers sessions consecutively, each new to the pool |
| SessionPool.LoadTest.Collect | kv-inference/scripts/nebius-3-kv-expr/load_test_chunked_prefill.py:263-264 | appends a whole session or, when it raised, nothing |
| SessionPool.LoadTest.Round | kv-inference/scripts/nebius-3-kv-expr/load_test_chunked_prefill.py:260-265 | from loop head to loop head: exactly the sessions the wait returned are collected, exactly concurrency sessions are active and no other is missing; left early, the finished ones not reached stay missing; the injector's rows are those of the statements reached, in order |
| SessionPool.LoadTest.RunContinuous | kv-inference/scripts/nebius-3-kv-expr/load_test_chunked_prefill.py:256-272 | wherever the interrupt or a crash falls, collected and missing sessions partition 1..counter, at most concurrency are missing, only whole sessions are in the results, with exactly the rows injected before the statements reached, the interrupt stops at its statement, and every third statement at least collected one |
| SessionPool.LoadTest.RunOnce | kv-inference/scripts/nebius-3-kv-expr/load_test_chunked_prefill.py:266-272 | one round collects every session exactly once in completion order unless it is interrupted or one raises, with exactly the rows injected before the statements reached |
| SessionPool.EachSessionOnce | kv-inference/scripts/nebius-3-kv-expr/load_test_chunked_prefill.py:262-264 | each collected session's rows are gathered exactly once and no other session's |
| SessionPool.SessionsOwnTheirRows | kv-inference/scripts/nebius-3-kv-expr/load_test_chunked_prefill.py:145-167 | sessions that ran as modelled leave only rows under their own number |
| SessionPool.RunInjector | kv-inference/scripts/nebius-3-kv-expr/load_test_chunked_prefill.py:170-195 | one row per successful request, under its own increasing number, until the stop event is seen |
| SessionPool.ReportFailsIff | kv-inference/scripts/nebius-3-kv-expr/load_test_chunked_prefill.py:277-293 | the report raises exactly when there are injector rows and no chat rows |
| SessionPool.ReportCanFail | kv-inference/scripts/nebius-3-kv-expr/load_test_chunked_prefill.py:256-289 | results with one injected row and every session still missing, on which it raises |
| SessionPool.ReportIsAboutTheSessions | kv-inference/scripts/nebius-3-kv-expr/load_test_chunked_prefill.py:285-289 | the chat figures are order statistics of exactly the collected sessions, the other figures are there exactly if the injector appended rows and are those of exactly its rows, and nothing is reported exactly for no rows |
| Percentile.OrderStatistic | kv-inference/scripts/nebius-3-kv-expr/load_test_chunked_prefill.py:289 | the k-th sorted sample is the one value with at most k samples below and more than k at or below it |
| Percentile.P95IsOrderStatistic | kv-inference/scripts/nebius-3-kv-expr/load_test_chunked_prefill.py:289 | more than 95% of the samples are at most p95, no more than 95% are below it, and it is a sample no smaller than the median |
| Percentile.MedianHalves | kv-inference/scripts/nebius-3-kv-expr/load_test_chunked_prefill.py:289 | the median has half the samples on each side for both parities |
| Percentile.MedianIsMiddle | kv-inference/scripts/nebius-3-kv-expr/load_test_chunked_prefill.py:289 | the median is the mean of the two middle order statistics, which are one for an odd number of samples |

## Left out

- MetricsStub.ExactRoundTrip: the float64 product can fall just below an integer that the exact one reaches (0.29 becomes 28), so the exact percentage is stated for exact arithmetic; MetricsStub.RoundTrip and EndToEnd hold for any conversion.
- Numerals.ScanFloatComplete: is about decimal literals; hexadecimal literals, digit underscores, inf and nan are read by a parameter of the parser on which nothing is assumed.
- MetricsStub.Stub.SetMetrics: takes a finite decimal; a usage of inf or nan is not modelled.
- EndToEnd.ParsedUsageIsPercentage: a usage token that is not a decimal literal is assumed to read as 0..100 or not at all.
- Numerals.ReprIsExact: starts from the decimal digits Python prints; which digits are the shortest for a given float64 is not modelled.
- Percentile.P95IsOrderStatistic: the index is floor(19n/20) in exact arithmetic.
- SessionPool.LoadTest.RunContinuous: the interrupt arrives between statements of the loop, not inside one, and the endless loop is cut by it.
- Interleaving.Conservation: a Deployment that is deleted and created again is not part of the interleaving model; sequential runs allow it as an outside write.
- Clock readings are whatever the environment gives; their truncation to seconds in stored objects is left out.
- The API server rejects negative replica counts and statuses outside the schema; Flapping.FlapBoundWhenNegativesRefused and EndToEnd.CapWarnsEveryTime assume so, and the other results hold with or without it.
- Resource names and namespaces other than the target Deployment's name: one resource is modelled at a time.
- HTTP requests, caches, watches, requeueing and leader election: each read or write is one outcome; reconciles on a stale resource are modelled, and a stale Deployment read is an update that conflicts.
- Event and log text, table printing, argument and JSON parsing: no hard property.
- Shuffled prompts and any effect on the server's cache: not decided by this code.
- The other load scripts repeat these loops; infrastructure code has no state of its own.
