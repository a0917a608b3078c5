# CATMonitor, verified model

CATMonitor collects hardware metrics on servers with CPUs and Ascend NPUs and acts on them. This
project models, in Dafny, the parts of it that keep state over long runs, and the few pure
algorithms with a real theorem behind them, and proves what they guarantee. `dafny verify
dfyconfig.toml` checks the whole project.

Each component has the same layers: pure functions for one step, a class whose methods are the
source's own loops and field updates and are proved to take exactly that step, and lemmas about
every run of such steps. Time is an integer. A write, a command or a file operation is given its
outcome as an input, and changes nothing when it fails.

- **Stress jobs** (`StressReport`, `StressBenchmark`, `StressJobs`, `StressManager`). Managers in several
  processes share a report path: a kernel lock, a report file, a history file. `StressBenchmark` says how
  one benchmark ends, by deployment checks, time limit, cancellation, command and parse. `StressJobs` is a
  state machine over the managers' interleaved atomic steps, crashes included; the methods of `StressManager.Manager` are
  proved to be sequences of those steps, so what is proved of every interleaving holds around them.
- **Frequency governor** (`IdleMachine`, `FreqActuator`, `FreqController`, `FreqRuns`, `FreqReadings`). An
  idle machine with hysteresis and a paused clock, an actuator that saves, pins and restores (min, max)
  pairs, the control loop that joins them, and when it holds the cores down, told on the readings alone. Any write may fail and frequencies may be changed from
  outside.
- **NPU boost** (`TurboFormula`, `TurboController`). The quantised boost target, and a reconciler
  that boosts cards one by one but can only undo all boosts together.
- **Fault subscription** (`FaultDetector`, `FaultReadings`, `FaultRuns`, `FaultSeverity`, `FaultWrites`,
  `EventRing`, `Subscriptions`, `FaultDispatch`, `FaultHearing`). Which readings make which fault active,
  an edge-triggered event stream, a snapshot, what
  snapshot and stream show when writes interleave, a ring of recent events, debounce windows, the dispatch
  that joins them, and what a subscriber can conclude from what it is passed. Map iteration order is
  arbitrary throughout.
- **Metric catalogue** (`MetricCatalog`, `MetricListings`). The merge of the feature files, what an entry is
  once they are in, the feature scope, and the two gates that decide what is collected and what is kept.
- **Straggler output** (`StragglerKeys`, `StragglerSamples`, `StragglerAliases`, `StragglerBuffer`). The key
  under which each chip's samples are recorded, what the sample of a batch says, the names a field may be collected under, and a buffer that several
  flushes may empty at once.
- **Algorithms** (`NaturalOrder`, `CsvWriter`, `OutputBuffers`). Natural string order, the CSV file
  with readers for it and for its labels column, and the two bounded output buffers.

`ByteStrings`, `GoText` and `GoNumbers` hold Go's own string order, the few functions of its
`strings` package that are used, and its division and conversion; `Sequences` holds a fact about
permutations, `Queues` what can come out of several queues emptied in any interleaving.

## Where code and documentation differ

The model follows the code.

- `naturalLess` promises numeric order of digit runs. "1" sorts before "01" though both are one
  (`LeadingZeroBreaksNumericOrder`). Of two runs the shorter comes first, and of runs of one length the one
  of smaller value (`RunsByLengthThenValue`), which decides any two strings that differ there
  (`OrderIsByDifference`); a run is in numeric order with every run free of leading zeros exactly
  when it is free of them itself (`NumericOrderNeedsNoLeadingZero`).
- `ComputeTargetB` rounds and then clamps; its comment clamps first, which can give another value
  (`ClampingOrderMatters`). For a positive step the two agree for every value exactly when the
  maximum is a multiple of the step, and not negative unless the step is one
  (`ClampingCommutesExactlyForMultiples`).
- The comment on `Restore` says that min <= max never breaks (features/cpugov/actuator.go:154-157). It
  breaks, with the default target, when a held core has been moved above its saved ceiling
  (`RestoreBreaksOrder`); for cores and saved pairs in order a restore keeps the order under every pattern
  of failures exactly when no core's floor is above its saved ceiling (`RestoreKeepsOrderExactly`). A
  downclock of cores in order breaks it when the target exceeds a core's present ceiling, as an override
  can (`OverrideBreaksOrder`), and only then (`OrderKeptExactlyWithinCeilings`).
- Dry run of the NPU boost promises that no command is executed (internal/config/config.go:133). The
  shutdown hook does not ask for it and executes the clean command (`DryRunCleansAtShutdown`); the
  promise holds exactly for runs without a shutdown or with the hook configured off
  (`DryRunIssuesNothingExactly`).
- The fault snapshot says it keeps the highest severity. The last new fault of a device takes the slot,
  any recovery on the device empties it (`SlotAfterCycle`), though another fault may still be active
  (`RecoveryHidesOtherFault`), and a fault that persists while its severity changes leaves it as it was
  (`HealthChangeUnseen`). A card drop signalled by its error code is hidden by the warning about that code
  (`CardDropHidden`). After a cycle the slot of any device is as severe as its worst active fault, and
  empty if there is none, exactly so: of a device that lost a fault, when nothing stays active; of one
  that only gained, when the new fault whose rule comes last is critical or no active fault is; of an
  unchanged one, when the slot it had fits what its faults now show (`WorstShownExactly`). In every order
  of events: with all new faults critical instead of the last (`WorstShownInEveryOrderExactly`). The right
  slot of an unchanged device becomes wrong exactly when its health goes from one bad state to the other
  and nothing else on it is critical (`StaleExactlyByHealth`).
- Writes to the fault snapshot are not serialised: one collector's write can recover a fault before
  another has told of it, and then snapshot and dispatcher both end on a fault that is gone
  (`OverlappingWritesCanMislead`). However the writes under way come to their end, a device's slot ends
  sound exactly when the last event each of them still has for the device is a recovery or a fault that
  is active, or, if none has any, when it is sound already (`SlotSoundInTheEndExactly`); and the stream
  ends right about a fault under the like condition (`StreamRightInTheEndExactly`).
- A subscription's debounce is meant to hold back repeats. The key of its window does not tell fault from
  recovery, and recoveries are warnings, so a subscriber is right about the active faults it asks for in
  every run exactly when it has no debounce and takes warnings (`AlwaysRightExactly`); with a debounce and
  warnings, in runs whose events about one fault keep the window's distance (`RightWhenSpaced`).
- `boundedOutput` marks itself truncated also when one write fills it exactly (`ExactWriteIsMarked`,
  `MarkIsTrueExactly`).
- `newSubID` promises a stable id; ids repeat every ten thousand
  (`SubIdsRepeatExactlyEveryTenThousand`). `ShouldFire` on a subscription removed since it was matched
  writes to a nil map (`OfferAfterRemovalCrashes`, `CrashesExactlyOnRemoved`).
- `LoadFeatureOverrides` promises that the higher priority wins. Which priority value stays can depend on
  the order of the files when blank priorities mix with stated low ones
  (`BlankListingOrderMatters`, `OrderIrrelevantExactlyWhenSafe`). `Filter` keeps everything when no catalogue is loaded, though
  the pre-filter does not (`UncataloguedGatesAgreeExactly`), and unscoped the two gates differ
  (`UnscopedGatesDiffer`, `UnscopedSkipsKeptExactly`).
- `metricAliases` says that the first alias present wins. The last metric of the batch wins, whatever
  its alias (`SecondAliasWins`); the first alias gives the value in every order of the metrics exactly
  when no metric of a later alias, and no repeat of the first, carries a different one
  (`FirstAliasWinsExactly`). A card-level metric without a chip label lands on a chip of another card
  wherever cards have several chips (`CardLevelKeyExactly`), and when a second chip is first seen every
  chip that is not on card 0 changes its key (`KeySurvivesStrideExactly`, `OldKeyNamesAnother`).
- The labels column is not escaped inside: two labels can have the text of one
  (`UnescapedLabelsCollide`). A text is that of one set of labels alone exactly when at most one place in
  it, before its closing quote, reads equals sign and quote (`TextIsUniqueExactly`).
- Two flushes of the straggler buffer under way together can hand samples over out of order
  (`TwoFlushesCanReorder`); while the order has held, it is safe exactly when no two flushes still hold
  samples (`OrderSafeExactly`).

## Model

| member | source | states |
|---|---|---|
| `StressJobs.MutualExclusion` | features/stress/joblock_linux.go:16-42 | in every interleaving at most one job is active, and a manager has a job exactly when it holds the lock |
| `StressJobs.FilesChangeOnlyUnderLock` | features/stress/manager.go:140-183 | no step changes the report or history file unless its manager holds the lock |
| `StressJobs.StepOnFiles` | features/stress/manager.go:598-606 | what each step does to lock, report file and history file, for writes that succeed and writes that fail |
| `StressJobs.JobCanGoOn` | features/stress/manager.go:271-300 | a manager with a job always has a step to go on with, however its file operations turn out, and may crash at any time |
| `StressJobs.HistoryIsNewestFirst` | features/stress/manager.go:646-672 | whatever fails, crashes or interleaves, the history file is the newest-first list of the last hundred reports it took, one per job, each final and stripped of output |
| `StressJobs.EveryFinishedJobIsInHistory` | features/stress/manager.go:279-300 | while the history file can be read and written it lists the last hundred finished jobs, and a manager about to release the lock finds its job first |
| `StressJobs.ReportKeepsShape` | features/stress/manager.go:271-278 | a job's list always has distinct names and the shape results, at most one under way, not begun; when the job ends every entry has a result and the status is their join |
| `StressJobs.StartsExactlyWhenFree` | features/stress/manager.go:114-160 | in every interleaving an idle manager can start a job exactly when no manager has one, and is refused exactly when one has; a refusal changes nothing |
| `StressJobs.RefusalNamesTheHolder` | features/stress/manager.go:140-150 | a refused start is shown the job that holds the lock, unless that job has not written its first report |
| `StressJobs.CancelIsLocal` | features/stress/manager.go:230-239 | cancelling changes no file, no lock and no other manager, and nothing at all for another job's id |
| `StressBenchmark.StoppedForSureExactly` | features/stress/manager.go:338-425 | whatever script, clock and parser do, a benchmark ends unavailable, unsupported or cancelled exactly when a deployment check fails or its job was cancelled when the script was to start |
| `StressBenchmark.ResultExactly` | features/stress/manager.go:338-448 | which run has which of the six results, by platform, deployment checks, configured limit and override, cancellation, command and parse |
| `StressJobs.RunFitsCancel` | features/stress/manager.go:376-408 | a benchmark always ends with a result; begun under cancellation it is stopped, and it is reported cancelled only if its job was cancelled before or while it ran |
| `StressJobs.CancelStopsTheRest` | features/stress/manager.go:230-239 | after a cancel request, whatever else happens, no benchmark that begins later is reported healthy, unhealthy or at its time limit, and if any was still to begin the job does not end healthy |
| `StressJobs.NothingIsCancelledUnasked` | features/stress/manager.go:398-400 | in every interleaving without a cancel request for the job, no result of it and not the job itself is reported cancelled |
| `StressJobs.EarlierResultsAreNotCancelled` | features/stress/manager.go:271-276 | no benchmark that ended before the cancel request is reported cancelled |
| `StressJobs.CrashFreesTheLock` | features/stress/joblock_linux.go:13-27 | after the holder crashes the lock is free, both files are untouched, and no manager is active |
| `StressJobs.BenchmarkStepRewritesOneEntry` | features/stress/manager.go:515-554 | starting or finishing a benchmark rewrites that benchmark's entry and no other |
| `StressJobs.AppendedIsNewestFirst` | features/stress/manager.go:661-671 | filtering, prepending and cutting to a hundred turns the newest-first list of a log into that of the log with one more report |
| `StressJobs.WithoutJobKeepsTheRest` | features/stress/manager.go:663-666 | the filter drops exactly the reports of that job and keeps the order of the others |
| `StressJobs.ArchivedExactly` | features/stress/manager.go:647-656 | the history keeps a report as it is, but for the outputs and the mark that it can be cancelled |
| `StressJobs.PerformedIsReachable` | features/stress/manager.go:108-300 | what one manager's methods do is one of the interleavings, so all of the above holds before and after them |
| `StressManager.Manager.StartWithOptions` | features/stress/manager.go:108-183 | which answer each input has, with the order of the tests: started exactly if enabled, with no job, a request that can be run, `admitted`, `lockable`, a free lock and `persistOk`; the protocol steps, the fields and the file it leaves, and whose report a refusal returns |
| `StressManager.Manager.Run` | features/stress/manager.go:271-300 | takes exactly the job's protocol steps, for any runs of its benchmarks and any failing writes, and ends idle without the lock |
| `StressManager.Manager.SetBenchmark` | features/stress/manager.go:515-538 | takes the protocol's begin step on memory and report file |
| `StressManager.Manager.FinishBenchmark` | features/stress/manager.go:540-554 | takes the protocol's finish step on memory and report file |
| `StressManager.Manager.AppendHistoryFile` | features/stress/manager.go:646-672 | reads and rewrites the history file by the protocol's two steps, or by the first alone when the read fails |
| `StressManager.Manager.ReadHistoryFile` | features/stress/manager.go:674-687 | a missing file reads as an empty list, a failed read ends the history entry of the job |
| `StressManager.Manager.Cancel` | features/stress/manager.go:230-239 | takes the protocol's cancel step and says whether the id was that of its own active job |
| `StressManager.Prepend` | features/stress/manager.go:654-670 | the two loops with their early exit give the stripped report followed by the other jobs' reports, cut to a hundred |
| `StressReport.Select` | features/stress/manager.go:556-587 | the names asked for, each once, in the order first asked, all runnable; or the refusal of the first entry that cannot be run |
| `StressReport.SelectionExactly` | features/stress/manager.go:556-587 | a selection is made exactly of requests with an entry that is not blank, all such entries standing, blanks and capitals aside, for benchmarks that are supported, configured and enabled |
| `StressReport.AggregateReportStatus` | features/stress/manager.go:302-336 | the flag-keeping scan gives the join of the results in the chain healthy or time limit, unsupported, unavailable, cancelled, unhealthy |
| `StressReport.OverallExactly` | features/stress/manager.go:302-336 | which list of results has which overall status, by the statuses that occur in it |
| `StressReport.OverallFromWorstRank` | features/stress/manager.go:302-336 | the overall status is that of the worst rank which occurs |
| `StressReport.OverallIgnoresOrder` | features/stress/manager.go:302-336 | only which statuses occur matters, not their order or number |
| `StressReport.ReplacedAt` | features/stress/manager.go:521-535 | with distinct names the scan rewrites the one entry of that name and keeps all names |
| `IdleMachine.Machine.Tick` | features/cpugov/state.go:118-196 | one tick moves state, streak, idle time and clock as the transition function says |
| `IdleMachine.ConfirmedExactlyAfterWindow` | features/cpugov/state.go:118-173 | the machine is confirmed idle exactly when an observation lies behind it that was quiet and collected a whole window of idle time, and all has been quiet since; quiet means no busy NPU and never enough busy samples without an idle one between |
| `IdleMachine.ObservationBeginsExactly` | features/cpugov/state.go:134-137 | a sample begins an observation exactly if it is idle, with no busy NPU, and no such sample before it has been quiet up to it |
| `IdleMachine.LongIdleConfirms` | features/cpugov/state.go:139-146 | a window of idle samples with no busy NPU confirms from any state |
| `IdleMachine.ConfirmsExactlyAtWindow` | features/cpugov/state.go:139-146 | an observation ends in a confirmation exactly at the idle sample that completes the window |
| `IdleMachine.ObservationGoesOn` | features/cpugov/state.go:139-156 | an observation lasts exactly while it is quiet and short of the window, and its counters are then the busy streak and the idle time of the samples since it began |
| `IdleMachine.ConfirmationHolds` | features/cpugov/state.go:157-170 | a confirmation lasts exactly while it is quiet |
| `IdleMachine.NeverConfirmedEarly` | features/cpugov/state.go:119-125 | on a clock that never runs back, confirmation is at least the window after the observation began |
| `IdleMachine.BusyNpuOverrides` | features/cpugov/state.go:127-132 | after a busy NPU any confirmation rests on an observation begun later |
| `IdleMachine.StreakIsWorstWindow` | features/cpugov/state.go:147-156 | the streak counter is the greatest number of busy samples in a stretch up to now without an idle one, unknown samples not ending it |
| `IdleMachine.CountersRest` | features/cpugov/state.go:118-196 | on every run idle time is kept only while observing, the busy streak only while not active, and the clock is that of the last tick |
| `FreqActuator.Actuator.RefreshTarget` | features/cpugov/actuator.go:60-93 | resolves the target to the override within the hardware limits, else the minimum, and keeps it on failure |
| `FreqActuator.PinExactly` | features/cpugov/actuator.go:128-149 | pinning a core writes nothing that is already so, the floor first, and nothing more once a write has failed |
| `FreqActuator.UnpinExactly` | features/cpugov/actuator.go:163-184 | the same for giving a core back, with the ceiling first |
| `FreqActuator.DownclockOkExactly` | features/cpugov/actuator.go:100-152 | a downclock reports success exactly when frequency files, target and core list are there and no write that a listed core needs fails; the saved pairs are those from before the first downclock |
| `FreqActuator.RestoreOkExactly` | features/cpugov/actuator.go:158-188 | a restore reports success exactly when no write that a saved core needs fails, and only then forgets the saved pairs |
| `FreqActuator.Actuator.Downclock` | features/cpugov/actuator.go:100-152 | fields, frequencies and log of attempted writes after a downclock, for any failing writes |
| `FreqActuator.Actuator.Restore` | features/cpugov/actuator.go:158-188 | the same for a restore, in any order of the saved cores |
| `FreqController.Controller.OnCollect` | features/cpugov/controller.go:91-127 | stores the freshest CPU total and the process sum with its freshest time, and keeps what the batch does not mention |
| `FreqController.FreshestIsFirstOfLatest` | features/cpugov/controller.go:100-115 | the metric the scan keeps is the first of those with the latest time stamp, and there is one if any counts |
| `FreqController.TakenExactly` | features/cpugov/controller.go:100-115 | which CPU total and which process count of a batch are taken, by component, name, label and time stamp |
| `FreqController.ProcessesAddUp` | features/cpugov/controller.go:108-113 | the process counts of the NPUs add up, whole parts only |
| `FreqController.Controller.Start` | features/cpugov/controller.go:156-158 | the target refresh before the loop is the start-up event of a run |
| `FreqController.Controller.Tick` | features/cpugov/controller.go:177-233 | one control tick is one event of a run |
| `FreqController.Controller.Restore` | features/cpugov/controller.go:237-246 | the shutdown hook is the shutdown event of a run |
| `FreqRuns.OriginalsStaySaved` | features/cpugov/actuator.go:118-126 | from the first downclock on, however often restores fail and downclocks resume, the saved pairs are those just before it |
| `FreqRuns.LettingGoGivesBack` | features/cpugov/actuator.go:158-188 | when the cores are at last let go each has exactly the pair it had before the hold |
| `FreqRuns.LetGoRestores` | features/cpugov/actuator.go:158-188 | a restore that ends ok leaves saved cores at their saved pairs and does not touch any other core |
| `FreqRuns.HoldDownPins` | features/cpugov/actuator.go:128-151 | a downclock that ends ok leaves every listed core at min = max = target, whatever had drifted |
| `FreqRuns.ActiveIsApplied` | features/cpugov/controller.go:207-230 | in every run `active` equals `applied` |
| `FreqRuns.DryRunNeverWrites` | features/cpugov/controller.go:211-211 | in dry run no write is ever attempted |
| `FreqRuns.EveryWriteKeepsOrder` | features/cpugov/actuator.go:128-181 | in any run without outside changes and with targets within every ceiling, every single write leaves min <= max, whatever fails |
| `FreqRuns.OrderKeptExactlyWithinCeilings` | features/cpugov/actuator.go:130-148 | a first downclock keeps that order under every pattern of failures exactly when the target is within every core's ceiling |
| `FreqRuns.RestoreKeepsOrderExactly` | features/cpugov/actuator.go:154-181 | a restore keeps that order under every pattern of failures exactly when no saved core's floor is above its saved ceiling |
| `FreqRuns.RestoreBreaksOrder` | features/cpugov/actuator.go:154-181 | a run with the default target in which the first write of the restore puts a core's ceiling below its floor, with no write failing |
| `FreqRuns.OverrideBreaksOrder` | features/cpugov/actuator.go:73-90 | a run in which an override within the hardware limits raises a core's floor above its ceiling, with no write failing |
| `FreqRuns.HoldBeginsOnlyWhenIdle` | features/cpugov/controller.go:207-219 | a hold begins only outside dry run, on a fresh reading of no NPU process, with a whole quiet window behind it |
| `FreqReadings.HeldExactlyByReadings` | features/cpugov/controller.go:177-272 | after every control tick of every run, exactly when the cores are held: told on usages, process counts, time stamps, threshold, window and break, what the actuator can reach, and failing writes |
| `FreqReadings.ConfirmedByReadings` | features/cpugov/controller.go:254-272 | the machine is confirmed idle exactly when the readings start the idle clock, fill the window and stay calm |
| `FreqReadings.HoldBeginsOnReadings` | features/cpugov/controller.go:207-219 | a hold begins only outside dry run, on a fresh reading of no NPU process, with a calm window of idle readings behind it |
| `FreqReadings.BusyReadingsEndHold` | features/cpugov/controller.go:220-226 | as many fresh busy readings as the break, with no idle one among them, end the hold unless a needed write fails |
| `FreqReadings.IdleReadingsBeginHold` | features/cpugov/controller.go:207-219 | a window of fresh idle readings that see no NPU process begins a hold when the actuator can |
| `FreqReadings.HoldReachesTarget` | features/cpugov/actuator.go:60-152 | a hold that meets no failing write leaves every listed core at the target: the one known before, or the override if the hardware allows it, or the hardware minimum |
| `FreqRuns.BusyNpuLetsGo` | features/cpugov/controller.go:220-226 | a tick that sees an NPU process ends the hold unless some write failed |
| `TurboFormula.TargetsNearExactlyForNonNegativeBase` | features/nputurbo/formula.go:10-31 | every target is above the base, within the maximum, and the maximum or a multiple of the step within half a step and a half of the product, exactly when the base is not negative |
| `TurboFormula.TargetExactly` | features/nputurbo/formula.go:11-31 | when there is a target and which: the multiple of the step nearest to the rounded product, ties upward, or the maximum if that is less; none for a normal score or when either is not above the base |
| `TurboFormula.NegativeBaseIsOff` | features/nputurbo/formula.go:14-15 | an input for each negative base whose target is further off |
| `TurboFormula.ClampingOrderMatters` | features/nputurbo/formula.go:7-18 | a product, step and maximum on which the two orders differ |
| `TurboFormula.ClampingCommutesExactlyForMultiples` | features/nputurbo/formula.go:7-18 | rounding then clamping equals clamping then rounding for all values exactly when the maximum is a multiple of the step, and not negative unless the step is one |
| `TurboFormula.MonotoneExactlyForNonNegativeBase` | features/nputurbo/formula.go:10-23 | a slower card never gets a lower target, exactly when the base is not negative |
| `TurboController.Controller.Tick` | features/nputurbo/controller.go:103-173 | one tick changes memory, hardware and issued commands as the reconciliation says; a list that cannot be had, or dry run, changes nothing |
| `TurboController.Controller.Restore` | features/nputurbo/controller.go:91-100 | the shutdown hook issues one clean, if configured |
| `TurboController.Actuator.Boost` | features/nputurbo/actuator.go:65-86 | a boost is remembered exactly when the command succeeded |
| `TurboController.Actuator.RestoreAll` | features/nputurbo/actuator.go:92-112 | the memory is emptied exactly when the clean succeeded |
| `TurboController.MemoryMatchesHardware` | features/nputurbo/actuator.go:65-112 | in every run with any commands failing, the remembered boosts are what the commands issued so far, one after the other, have made of the hardware, all within range |
| `TurboController.ReconcileConverges` | features/nputurbo/controller.go:136-171 | from any state, a reconciliation without failures ends with exactly the wanted cards at the wanted targets |
| `TurboController.TickBoostsTheDeserving` | features/nputurbo/controller.go:98-173 | after a tick without failures outside dry run exactly the listed cards whose score gives a target are boosted, each to the one its last such entry gives |
| `TurboController.SettledNeedsNoCommand` | features/nputurbo/controller.go:155-158 | what is as wanted needs no command |
| `TurboController.TickSettles` | features/nputurbo/controller.go:103-173 | after a tick without failures the same list causes no further command |
| `TurboController.CleanOnlyAfterRecovery` | features/nputurbo/controller.go:136-142 | clean is issued exactly when a boosted card left the wanted set; otherwise no boost is lost and only new or changed cards are touched |
| `TurboController.FailedCleanIsRetried` | features/nputurbo/controller.go:145-146 | after a failed clean the next tick with the same list cleans again |
| `TurboController.EffectOfTick` | features/nputurbo/controller.go:142-171 | the commands of a tick, taken one by one, leave on the cards what the reconciliation counts on |
| `TurboController.DryRunIssuesNothingExactly` | features/nputurbo/controller.go:91-130 | in dry run no card is ever boosted and the only command is clean; a run issues none exactly when it has no shutdown or the hook is configured off |
| `TurboController.DryRunCleansAtShutdown` | features/nputurbo/controller.go:91-100 | in dry run with the hook on, starting and stopping executes the clean command |
| `TurboController.WantedIsLastBoost` | features/nputurbo/controller.go:114-119 | the wanted target of a card is that of the last row that boosts it, and no other card is wanted |
| `FaultDetector.Detector.Detect` | features/faultsub/detector.go:57-247 | afterwards exactly the faults the batch shows under the enabled rules are active, and the events are one per new fault and then one per fault gone, rightly stamped, in any order of devices but in the order of the rules for each device |
| `FaultReadings.ActiveExactly` | features/faultsub/detector.go:71-221 | after a batch a fault of a device is active exactly when its rule is on and the last reading of some name from the device, by its place in the batch, has the bad value or label |
| `FaultReadings.EventsExactly` | features/faultsub/detector.go:121-241 | a fault event for exactly what the readings show and the batch before did not, with its severity; a recovery for exactly what they no longer show |
| `FaultReadings.HealthyIsSilent` | features/faultsub/detector.go:139-221 | a device whose last readings are healthy has no active fault and nothing but recoveries |
| `FaultReadings.ReplayIsWhatReadingsShow` | features/faultsub/detector.go:110-246 | over any run the replayed stream is what the readings of the last batch show |
| `FaultReadings.CodeIsListed` | features/faultsub/detector.go:147-156 | the list holds the card-drop code exactly when it stands between commas, blanks aside, in any case |
| `FaultDetector.Detector.Group` | features/faultsub/detector.go:71-103 | each device gets, per metric name, the last metric of the batch |
| `FaultDetector.Detector.CardDropShown` | features/faultsub/detector.go:141-162 | the scan finds a card drop exactly when the metric says so or some listed code is the card-drop code |
| `FaultDetector.Detector.Recoveries` | features/faultsub/detector.go:225-241 | one recovery for each fault that was active and is not, and no other |
| `FaultRuns.StreamAlternates` | features/faultsub/detector.go:110-246 | over any run the events of each fault of each device strictly alternate, fault first, and it is active exactly when a fault came last |
| `FaultRuns.ReplayIsTheDetectorsState` | features/faultsub/detector.go:110-246 | adding on fault and removing on recovery gives exactly the detector's active set, which is what the last batch shows |
| `FaultRuns.BatchWithoutDevicesClears` | features/faultsub/detector.go:223-244 | a batch without NPU metrics recovers everything |
| `FaultRuns.CycleFlags` | features/faultsub/detector.go:121-241 | a cycle says of each fault exactly how it changed, in at most one event |
| `FaultRuns.SlotAfterCycle` | features/faultsub/storage.go:60-73 | a fault gone empties the device's slot, otherwise the last new fault takes it, otherwise it stays |
| `FaultSeverity.CardDropHidden` | features/faultsub/storage.go:70-72 | a batch after which the slot shows a warning while a critical card drop is active |
| `FaultSeverity.GainerShowsLastRule` | features/faultsub/storage.go:60-73 | the slot of a device that only gained faults shows the new fault whose rule comes last, with the severity it has |
| `FaultSeverity.WorstShownExactly` | features/faultsub/storage.go:70-72 | for every device, exactly when the slot is as severe as its worst active fault after a cycle: by what it lost, else by its last new fault, else by the slot it had |
| `FaultSeverity.WorstShownInEveryOrderExactly` | features/faultsub/storage.go:70-72 | the same in every order of events: of a device that only gained faults, exactly when all new faults are critical or no active one is |
| `FaultSeverity.StaleExactlyByHealth` | features/faultsub/detector.go:128-174 | a slot that was right stays so for a device that neither gains nor loses a fault, except exactly when its health changes between alarm and critical and nothing else on it is critical |
| `FaultSeverity.HealthChangeUnseen` | features/faultsub/detector.go:121-131 | two batches after which the slot shows the severity a fault had and no longer has, in either direction |
| `FaultRuns.SnapshotIsSound` | features/faultsub/storage.go:45-73 | with writes one after the other, every fault in the snapshot is active |
| `FaultRuns.RecoveryHidesOtherFault` | features/faultsub/storage.go:66-69 | a cycle after which a device with an active fault has no slot |
| `FaultRuns.SnapshotStaysCompleteExactly` | features/faultsub/storage.go:66-72 | a complete snapshot stays so over a cycle exactly when no device both loses a fault and still shows one |
| `FaultWrites.DeliveredSlotIsSound` | features/faultsub/storage.go:45-58 | in every interleaving of writes in which no two hold events for one device that are not yet in the snapshot, the slot of a device with all its events delivered shows an active fault or nothing |
| `FaultWrites.SlotSoundInTheEndExactly` | features/faultsub/storage.go:45-73 | from any state, every way of finishing the writes under way leaves the device's slot sound exactly when the last event each has for the device is a recovery or an active fault, or, if none has any, when it is sound now |
| `FaultWrites.StreamRightInTheEndExactly` | features/faultsub/storage.go:53-56 | from any state, every way of finishing leaves who replays the dispatched events right about a fault exactly when the last event each write has for it is true, or, if none has any, when the replay is right now |
| `FaultWrites.RunIsCoupled` | features/faultsub/storage.go:53-56 | in every run each write has handed to the dispatcher what it has put into the snapshot, or all but the last event |
| `FaultWrites.OverlappingWritesCanMislead` | features/faultsub/storage.go:45-58 | an interleaving of two writes after which snapshot and dispatched stream end on a fault and none is active |
| `Queues.EveryDrainEndsWellExactly` | features/faultsub/storage.go:53-56 | of lists worked off in any interleaving, the last element of interest is always good exactly when each list that has one ends well by itself |
| `FaultRuns.FaultStorage.Write` | features/faultsub/storage.go:45-58 | one write takes the detector through one cycle and the snapshot through its events, and keeps soundness |
| `EventRing.Dispatcher.Record` | features/faultsub/dispatcher.go:108-119 | one more event is retained, for any buffer size including 0 |
| `EventRing.Dispatcher.Events` | features/faultsub/dispatcher.go:124-147 | the wanted ones among the last `bufSize` events recorded, in the order recorded |
| `EventRing.Dispatcher.BufferHoldsLast` | features/faultsub/dispatcher.go:131-134 | the slot the reader computes for position i holds the i-th of the last events |
| `EventRing.WindowIndex` | features/faultsub/dispatcher.go:131-134 | the reader's start index, after any number of wrap-arounds, is that of the oldest retained event |
| `EventRing.FilteredKeepsWanted` | features/faultsub/dispatcher.go:135-144 | the filter keeps exactly the wanted events |
| `EventRing.FilteredConcat` | features/faultsub/dispatcher.go:132-145 | filtering respects concatenation, so order and multiplicity are kept |
| `EventRing.LastOfExactly` | features/faultsub/dispatcher.go:108-119 | a ring of n slots keeps the last n events, or all, in order |
| `FaultDispatch.EventDispatcher.Dispatch` | features/faultsub/dispatcher.go:60-80 | the event is retained; each live subscription that wants it gets it once unless its window is open; only their windows move; the webhooks called are those of the ones that got it |
| `FaultDispatch.OneMoreServed` | features/faultsub/dispatcher.go:64-67 | offering the event to one subscription neither changes what another gets nor crashes |
| `Subscriptions.SubscriptionManager.Matched` | features/faultsub/subscription.go:156-166 | every live subscription that wants the event, each once |
| `Subscriptions.MatchesExactly` | features/faultsub/subscription.go:51-66 | which events a subscription wants; of minimum severities only "critical" excludes anything, and then the warnings |
| `Subscriptions.SubscriptionManager.ShouldFire` | features/faultsub/subscription.go:171-187 | its answer and the one entry it may write |
| `Subscriptions.SubscriptionManager.AddSubscription` | features/faultsub/subscription.go:106-117 | the subscription stands under its new id with an empty table |
| `Subscriptions.SubscriptionManager.RemoveSubscription` | features/faultsub/subscription.go:120-129 | the subscription and its table are gone, and nothing else |
| `Subscriptions.FiresAreSpaced` | features/faultsub/subscription.go:178-186 | on a clock that never runs back, two fires of a live subscription for one fault of one device are at least its window apart, whatever happens in between |
| `Subscriptions.SuppressedOnlyAfterRecentFire` | features/faultsub/subscription.go:180-184 | an event is held back only after such a fire less than the window before |
| `Subscriptions.HeldBackExactly` | features/faultsub/subscription.go:171-187 | a live subscription holds back an event that it wants exactly when it has a window and passed the same fault of the same device on less than the window before; else it passes it on |
| `Subscriptions.CrashesExactlyOnRemoved` | features/faultsub/subscription.go:171-187 | offering an event writes to a nil map exactly when the subscription wants it, is debounced and has been removed |
| `Subscriptions.OfferAfterRemovalCrashes` | features/faultsub/subscription.go:171-187 | a run in which a subscription is added, matched, removed and then offered the event |
| `Subscriptions.FireIsRemembered` | features/faultsub/subscription.go:185-186 | after a fire the table holds that or a later one until the subscription ends |
| `Subscriptions.TablesOfLiveOnly` | features/faultsub/subscription.go:106-129 | in every run exactly the live subscriptions have a table |
| `Subscriptions.RepeatKeyIsInjective` | features/faultsub/subscription.go:180-180 | the key with its separator tells device and fault apart for every device name |
| `Subscriptions.SubIdsRepeatExactlyEveryTenThousand` | features/faultsub/subscription.go:190-201 | two subscriptions share an id exactly when their numbers agree modulo ten thousand |
| `Subscriptions.SubIdSpells` | features/faultsub/subscription.go:190-201 | an id spells the last four digits of its number |
| `FaultHearing.AlwaysRightExactly` | features/faultsub/subscription.go:165-187 | replaying what it is passed tells a subscriber, in every run and at every pace, exactly the active faults it asks for, exactly when it has no debounce and takes warnings |
| `FaultHearing.RightWhenSpaced` | features/faultsub/subscription.go:171-187 | the same in one run for any debounce, when events about one fault of one device keep the window's distance |
| `FaultHearing.RightWhenJoiningLateExactly` | features/faultsub/subscription.go:106-118 | added in the middle of a run, such a subscription leaves its subscriber right exactly when no fault it asks for has been active ever since |
| `NaturalOrder.NaturalLess` | features/dfee/filter.go:449-481 | the two-index scan decides the lexicographic order on tokens |
| `NaturalOrder.TokensAreTheMaximalSplit` | features/dfee/filter.go:453-463 | the tokens join to the string, are digit runs or single other bytes, and no run could be longer |
| `NaturalOrder.LessIrreflexive` | features/dfee/filter.go:449-481 | no string is less than itself |
| `NaturalOrder.LessTransitive` | features/dfee/filter.go:449-481 | the order is transitive on all byte strings |
| `NaturalOrder.LessTotal` | features/dfee/filter.go:449-481 | two strings neither of which is less are equal |
| `NaturalOrder.RunOrderIsNumeric` | features/dfee/filter.go:464-471 | digit runs without leading zeros are ordered by the numbers they denote |
| `NaturalOrder.RunsByLengthThenValue` | features/dfee/filter.go:464-471 | of two digit runs the shorter comes first, and of runs of one length the one of smaller value |
| `NaturalOrder.OrderIsByDifference` | features/dfee/filter.go:449-481 | the order of two strings by how they differ after a common beginning: in runs, in bytes not both digits, or by one ending |
| `NaturalOrder.SomeDifference` | features/dfee/filter.go:449-481 | any two strings differ in one of these ways |
| `NaturalOrder.SameLengthOrderIsNumeric` | features/dfee/filter.go:469-471 | digit runs of one length are ordered by the numbers they denote, leading zeros or not |
| `NaturalOrder.DigitExactly` | features/dfee/filter.go:483-485 | the digits are the ASCII codes of 0 to 9, and each digit more makes the number ten times as large, and more by the digit |
| `NaturalOrder.LeadingZeroBreaksNumericOrder` | features/dfee/filter.go:445-448 | an input on which the documented numeric order fails |
| `NaturalOrder.NumericOrderNeedsNoLeadingZero` | features/dfee/filter.go:464-471 | a run is ordered by value against all runs without leading zeros exactly when it has none itself |
| `CsvWriter.CsvFile.WriteFileRow` | features/dfee/csv_writer.go:98-104 | the file is that of the rows written so far and this one |
| `CsvWriter.FileDecodesToRows` | features/dfee/csv_writer.go:98-104 | under the quoting rules of section 2 of RFC 4180 with line-feed row ends, every file decodes to exactly the rows written, for any bytes in their fields |
| `CsvWriter.FilesDiffer` | features/dfee/csv_writer.go:98-104 | different row sequences never make the same file |
| `CsvWriter.ReadField` | features/dfee/csv_writer.go:153-158 | an escaped field and its delimiter read back as the field |
| `CsvWriter.QuotedExactly` | features/dfee/csv_writer.go:151-158 | a field is written as it is exactly if it holds no comma, quote, line feed or carriage return, and between quotes otherwise |
| `CsvWriter.SortKeys` | features/dfee/csv_writer.go:117-123 | the in-place exchange sort leaves the keys sorted and permuted |
| `CsvWriter.FormatCsvLabels` | features/dfee/csv_writer.go:108-129 | in whatever order the map yields its keys, the text lists them in increasing order |
| `CsvWriter.SortedListIsUnique` | features/dfee/csv_writer.go:116-123 | there is one sorted list of given keys, so the labels column is deterministic |
| `CsvWriter.PlainLabelsTextIsUnique` | features/dfee/csv_writer.go:124-128 | with no equals sign in a key and no quote in a value, different labels have different texts |
| `CsvWriter.TextIsUniqueExactly` | features/dfee/csv_writer.go:108-129 | the text of some labels is that of no others exactly when it has at most one place where a key could end and a value begin |
| `CsvWriter.UnescapedLabelsCollide` | features/dfee/csv_writer.go:124-128 | for any two labels, one label whose value, and one whose key, gives the same text |
| `OutputBuffers.BoundedOutput.Write` | features/stress/manager.go:42-58 | for any split of a stream into writes the buffer holds its last 16 KiB |
| `OutputBuffers.LimitedBuffer.Write` | features/stress/runnerapi/server_linux.go:235-250 | for any split the buffer holds the first 16 MiB, and `exceeded` is set exactly when there was more |
| `OutputBuffers.BoundedOutput.UnmarkedIsWhole` | features/stress/manager.go:60-67 | a buffer shown without the truncation notice holds the whole stream |
| `OutputBuffers.ExactWriteIsMarked` | features/stress/manager.go:46-50 | one write of exactly 16 KiB is marked truncated though nothing is dropped |
| `OutputBuffers.MarkIsTrueExactly` | features/stress/manager.go:46-50 | `truncated` means that bytes were dropped, except exactly when one write made up a stream as long as the buffer |
| `OutputBuffers.LongWriteFillsStream` | features/stress/manager.go:46-50 | a stream with a write as long as the buffer is at least that long |
| `MetricCatalog.Selection.SetFeatureScope` | internal/metrics/metrics.go:103-129 | the scope is the set of keys listed by the files that decode, active exactly when not empty |
| `MetricCatalog.ThresholdsNestExactly` | internal/metrics/metrics.go:143-174 | in every catalogue and scope one threshold collects all that another does exactly when its priority is not above the other's |
| `MetricCatalog.GatesExactly` | internal/metrics/metrics.go:131-175 | what each gate lets through at each named threshold, told on the scope, the catalogue and the names of priorities |
| `MetricCatalog.HigherThresholdNarrows` | internal/metrics/metrics.go:417-421 | scoped, filtering with a lower and then a higher threshold is filtering with the higher one |
| `MetricCatalog.Selection.LoadFeatureOverrides` | internal/metrics/metrics.go:239-323 | every entry becomes the merge of its listings over the catalogue's own; a file that does not decode, or no catalogue, changes nothing |
| `MetricListings.LoadedEntryExactly` | internal/metrics/metrics.go:239-323 | an entry after the feature files: static if it was or any listing is; display name and unit of the last listing that gives one; priority of the first listing that none exceeds; what was there where they give nothing |
| `MetricListings.OverrideExactly` | internal/metrics/metrics.go:265-289 | the same of the merged override of a metric |
| `MetricListings.ListingsExactly` | internal/metrics/metrics.go:253-265 | the listings are exactly the entries of the sections of the files that decode |
| `MetricCatalog.ApplyOverrides` | internal/metrics/metrics.go:293-321 | in any order of the override map every entry is overridden once, and no other is touched |
| `MetricCatalog.AddEntry` | internal/metrics/metrics.go:265-289 | one listing merged into the overrides |
| `MetricCatalog.Selection.AnyWanted` | internal/metrics/metrics.go:178-185 | true exactly when some listed name is wanted |
| `MetricCatalog.Selection.Filter` | internal/metrics/metrics.go:425-437 | the kept metrics, in order, or all without a catalogue |
| `MetricCatalog.KeptOneByOne` | internal/metrics/metrics.go:425-437 | the filter takes each metric by itself and keeps the order |
| `MetricCatalog.ScopedGatesAgree` | internal/metrics/metrics.go:149-185 | scoped and with any catalogue, a sub-method is run exactly when the filter would keep some of what it emits |
| `MetricCatalog.UncataloguedGatesAgreeExactly` | internal/metrics/metrics.go:425-429 | without a catalogue the gates agree exactly when nothing is emitted or something is in scope |
| `MetricCatalog.UnscopedKeptIsWantedExactlyAtLow` | internal/metrics/metrics.go:169-174 | unscoped, everything kept is wanted in every catalogue exactly at threshold low |
| `MetricCatalog.UnscopedGatesDiffer` | internal/metrics/metrics.go:402-421 | unscoped, exactly which catalogued metrics are kept though not wanted, and wanted though dropped |
| `MetricCatalog.UnscopedSkipsKeptExactly` | internal/metrics/metrics.go:153-185 | unscoped, when a sub-method is skipped whose output the filter would keep in part |
| `MetricCatalog.MergedTakesFirstGreatest` | internal/metrics/metrics.go:266-289 | the merged priority is that of the first listing with the greatest one, the static flag that of any listing |
| `MetricCatalog.BlankListingOrderMatters` | internal/metrics/metrics.go:268-310 | two listings of one metric whose order decides its final priority |
| `MetricCatalog.OrderIrrelevantExactlyWhenSafe` | internal/metrics/metrics.go:276-310 | a metric's final priority value is the same in every order of its listings exactly when one is above low, or all or none are blank, or the catalogue's own is low |
| `MetricCatalog.SurvivorsIgnoreFileOrder` | internal/metrics/metrics.go:239-323 | when every listing states a priority, what survives a scoped filter is the same in every order of files and entries |
| `MetricCatalog.ScopeIsWhatFeaturesList` | internal/metrics/metrics.go:91-96 | with component names free of NUL, in scope means listed by some feature |
| `MetricCatalog.SplitUndoesKey` | internal/metrics/metrics.go:294-298 | a key splits back into its component and name exactly when the component holds no NUL |
| `StragglerKeys.KpiMapper.Extract` | features/stragglerout/sample.go:115-200 | each field of each key is the last value the batch gives for it; the stride takes in the whole batch first and never shrinks; no sample exactly when nothing relevant |
| `StragglerSamples.SampleExactly` | features/stragglerout/sample.go:115-225 | the sample holds, for each field of each key, the last value the batch gives for it, for each CPU its last usage, and nothing else; told on components, names and labels |
| `StragglerKeys.ValuesOf` | features/stragglerout/sample.go:181-191 | later metrics overwrite earlier ones of the same key and field, and nothing else |
| `StragglerKeys.ChipsKeptApart` | features/stragglerout/sample.go:177-224 | within a batch two metrics with chip numbers share a key exactly when they are of the same chip of the same card |
| `StragglerKeys.KeysMeetExactly` | features/stragglerout/sample.go:206-225 | two subjects share a key exactly when they are the same chip, the same name, or a chip and a name that spells its global number |
| `StragglerKeys.CardLevelKeyExactly` | features/stragglerout/sample.go:217-219 | a card-level metric falls on a chip of its own card exactly for card 0 or with one chip to a card; and on which chip it falls |
| `StragglerKeys.KeySurvivesStrideExactly` | features/stragglerout/sample.go:177-224 | when the stride grows a chip keeps its key exactly if it is on card 0 |
| `StragglerKeys.OldKeyNamesAnother` | features/stragglerout/sample.go:177-224 | the key a chip had under the smaller stride then names another chip, exactly if it is not on card 0 |
| `StragglerKeys.BuildReverse` | features/stragglerout/sample.go:65-74 | every listed name feeds a field that lists it, in whatever order the lists are visited |
| `StragglerKeys.ItoaExactly` | features/stragglerout/sample.go:206-225 | a global chip number is spelled by its digits without a leading zero, after a minus if it is negative, and reads back |
| `StragglerAliases.ReverseIsUnique` | features/stragglerout/sample.go:60-74 | when no name is listed twice that order makes no difference |
| `StragglerAliases.TableIsDisjoint` | features/stragglerout/sample.go:44-58 | no name of the table is listed twice |
| `StragglerAliases.SecondAliasWins` | features/stragglerout/sample.go:39-55 | a batch with the preferred name first, whose value is that of the second name |
| `StragglerAliases.FirstAliasWinsExactly` | features/stragglerout/sample.go:181-191 | in every order of the metrics the first alias present gives the value exactly when no later alias, and no repeat of the first, carries a different one |
| `StragglerKeys.MaxChipIsGreatest` | features/stragglerout/sample.go:150-156 | no chip number of the batch exceeds the running maximum |
| `StragglerSamples.MaxChipExactly` | features/stragglerout/sample.go:150-156 | the running maximum is the greatest chip number seen, or the one before |
| `StragglerBuffer.EachSampleHandedOnce` | features/stragglerout/storage.go:59-85 | however arrivals and flushes interleave no sample is handed over more often than it arrived, and when all is drained each was handed over once |
| `StragglerBuffer.OneFlushAtATimeKeepsOrder` | features/stragglerout/storage.go:74-85 | flushing one at a time hands samples over in the order of arrival |
| `StragglerBuffer.TwoFlushesCanReorder` | features/stragglerout/storage.go:74-85 | two flushes under way together can hand samples over in the wrong order |
| `StragglerBuffer.OrderSafeExactly` | features/stragglerout/storage.go:74-85 | with no two samples equal and hand-over in order so far, every way of finishing the flushes under way keeps the order exactly when no two still hold samples |
| `StragglerBuffer.StragglerStorage.BufferSample` | features/stragglerout/storage.go:60-70 | a sample that arrives an interval after the last flush empties the buffer; otherwise it waits |
| `StragglerBuffer.StragglerStorage.Flush` | features/stragglerout/storage.go:74-85 | all samples received have been handed over, in order, those whose append did not fail are written, and the buffer is empty |
| `StragglerBuffer.AppendedExactly` | features/stragglerout/storage.go:74-85 | what the file takes are the samples at the positions whose append did not fail, each once and in their order |

## Left out

- Collectors and sources, HTTP servers and handlers, webhook delivery and retries, YAML and JSON
  decoding, command-line parsing, logging, metric emission: input, output or foreign calls. File
  replacement is taken as atomic.
- Integers are unbounded and floats are reals: the code's widths and float rounding are not modelled.
- `StressManager.Manager.StartWithOptions`: the timeout, availability and profile checks are one
  input `admitted`, because they end in running scripts. Job ids are taken as fresh, releasing the lock
  as always succeeding, and the report path as not empty (with an empty path the source takes no lock and
  writes no file). Time stamps, initiator, profiles and parsed values are not part of a report here.
- `StressManager.Manager.Run`: no other call to the same manager falls between its critical sections;
  each section is a step of its own in `StressJobs`, where cancels and refused starts do fall between.
- `StressJobs.EveryFinishedJobIsInHistory`: supposes that history reads and writes succeed, since a
  failed one is only logged and its report is lost; `StressJobs.HistoryIsNewestFirst` needs no such
  assumption.
- The manager's `Latest`, `Job`, `CanCancel`, `Shutdown` and `History` only copy what memory or a file
  holds, up to a limit, or cancel and wait.
- `StressReport.Select`: lower-casing is that of ASCII letters.
- `FreqActuator.Actuator.Downclock`: reads of the current frequencies succeed and listed cores keep
  their files; the source reads 0 from a failed read and goes on.
- `FreqActuator.Actuator.Restore`: reads succeed, as for a downclock.
- `StressBenchmark.StoppedForSureExactly`: whether the script succeeds and its output parses are inputs;
  messages and parsed values are not part of a result.
- `FreqRuns.EveryWriteKeepsOrder`: excludes changes from outside, which can put a core below its own
  target at any moment.
- `TurboController.Controller.Tick`: the straggler list is an input, and command timeouts are failures.
- `FaultDetector.Detector.Detect`: event ids and the detail texts are not modelled; equal-fold
  comparison is that of ASCII letters.
- `FaultRuns.SnapshotIsSound`: supposes writes one after the other, which the source does not enforce;
  `FaultWrites` interleaves them.
- `FaultRuns.FaultStorage.Write`: is one call with no other in between; the inner storage and the
  dispatcher that each event is handed to are not part of it.
- `FaultDispatch.EventDispatcher.Dispatch`: no subscription comes or goes during the call; the step by
  step runs of `Subscriptions` allow that. Subscriptions are values, so later changes to an object a
  caller kept are not seen.
- `FaultHearing.AlwaysRightExactly`: each event is dispatched before the next, what is passed on arrives,
  and the subscription is there from the detector's first cycle (`FaultHearing.RightWhenJoiningLateExactly`
  is about later ones).
- `CsvWriter.CsvFile.WriteFileRow`: write errors are ignored by the source and are not modelled; nor is
  the number format of the value column.
- `MetricCatalog.Selection.LoadFeatureOverrides`: `Init` and `LoadModuleOverride` are left out, so the
  catalogue it starts from is arbitrary. Priority names are compared on ASCII letters.
- `StragglerKeys.KpiMapper.Extract`: CPU values keep their number instead of its text, and parsed numbers
  have no upper limit.
- `StragglerBuffer.StragglerStorage.BufferSample`: pruning old files is not modelled.
- `TurboController.MemoryMatchesHardware`: supposes that no card is boosted when the daemon starts.
- Benchmark execution and result parsing, health scores, the Prometheus encoders and the snapshot
  series: direct arithmetic, or weaker forms of the arguments above.
