# Verified model of restream's control plane

This project models the parts of restream where several things happen at once or where a bounded structure stands
for an unbounded one, and proves what they promise: the two event streams, the reconciler's requests and passes, the
gate against pipeline cycles, the alert debounce, the bounded histories, the scheduler, the connection sniffer, the
shell redirect and the retry policy. `dafny verify dfyconfig.toml` checks everything.

| file | models |
|---|---|
| `LogFilters.dfy`, `LogQueries.dfy`, `LogBackfill.dfy`, `LogStream.dfy`, `LogSender.dfy`, `LogProgress.dfy` | the log stream: its live and stored filters and what a query asks for, the merged backfill page, the interleaved system, the sender that runs in it, and what a stream comes to |
| `StateHub.dfy`, `StateStream.dfy`, `StateSender.dfy`, `StateProgress.dfy` | the runtime-state hub, its deltas, the interleaved stream with the browser's fold, the sender that runs in it, and what a client comes to hold |
| `ReconcileRequests.dfy`, `InputSelection.dfy`, `TopologyConvergence.dfy` | wakes, deadlines and requested selections, their application, and convergence with created and deleted rows |
| `Recirculation.dfy` | the cycle check in front of outputs that feed another pipeline |
| `AlertTransitions.dfy` | the two-evaluation debounce of alerts |
| `TimedSamples.dfy`, `FleetHistory.dfy`, `SentBytes.dfy` | the fleet history, its windows and pollers, and the byte counters |
| `FlightRecorder.dfy`, `Thinning.dfy`, `FlightWindow.dfy` | the per-pipeline traces, thinning, and stitching with the persisted rows |
| `Schedules.dfy`, `SchedulerRuns.dfy`, `SchedulerEdits.dfy` | occurrences, the tick, runs of ticks interleaved with edits, and what an edit or a delete does not call back |
| `HttpSniff.dfy` | classification of a connection and the stream that gives its bytes back |
| `ShellRedirect.dfy` | the relative redirect, resolved by RFC 3986 |
| `OutputRetry.dfy`, `OutputRuns.dfy` | backoff, start and stop decisions, and runs of one output with the ends of its tasks |
| `Prelude.dfy` | shared value types |

Code that updates objects in place is a class whose methods are proved against functions of the old state. What
interleaves is a state machine whose steps are the atomic actions of the source, and the promises are lemmas over
every run of it. Clocks, the network, the store's answers (failures included), the sizes of reads and the jitter hash
are parameters or steps. Identifiers are opaque values.

## What does not hold as documented

The code is modelled as it is. Where a promise fails, a lemma gives the input and another the exact condition.

- A merged log page is two queries, so two states of the store. A row that commits between them can be passed over
  for good (`LogStream.IncoherentPageSkipsARow`). Sending a page keeps the promise exactly when the page does not
  reach past such a row (`LogStream.PageIsSafeIffCoherent`, `LogBackfill.MergedPageSkipsRow`).
- The stored filter matches with `LIKE` and replaces an explicit scope when it merges, so it can select rows the live
  filter does not, for instance in another case (`LogFilters.LikeSelectsOtherRows`). Live rows are always in the
  backfill. The two agree on every row exactly when the filter selects nothing, or keeps its scope, has a target
  without `%`, `_` and letters, and prefix parts that cover one another (`LogFilters.MatchersAgreeIff`). A stream
  sends exactly the live rows in every coherent run for those filters and no others
  (`LogStream.StreamIsTheSelectionIff`).
- An alert id listed twice in one evaluation counts as two evaluations; the debounce is the two-sample filter exactly
  when no such duplicate matters (`AlertTransitions.DuplicateOpensAtOnce`, `AlertTransitions.FilterIsExact`).
- Editing a schedule reads the row and saves it later. A run that begins in between is forgotten, and the next tick
  can begin it again (`SchedulerRuns.InterruptedEditRunsTwice`, `SchedulerRuns.SaveRepeatsRunIff`).
- The API reference says that occurrences already past when a schedule is added or edited are not run. For an added
  one that holds (`SchedulerEdits.AddedPassesOverThePast`). A tick lists the schedules once and then acts on and
  records what it listed, so an edit saved meanwhile does not stop a listed run
  (`SchedulerEdits.ListedRunIgnoresTheEdit`), and the record of a skip or the second record of a slow action brings
  back what the edit passed over (`SchedulerEdits.SkipRevivesThePast`, `SchedulerEdits.FinishRevivesThePast`). The
  exact condition is `SchedulerEdits.PastBeginsIff`.
- A deleted schedule still runs when the scheduler had listed it (`SchedulerEdits.DeletedWhileListedRuns`) or when a
  pending edit inserts its row again (`SchedulerEdits.DeletedScheduleRuns`), and in no other case
  (`SchedulerEdits.DeletedRunsIff`).
- The grace of 60 s is measured on the tick's single clock reading. An action also waits for those of the schedules
  listed before it, so it can begin later than the grace; grace and wait together are the exact bound
  (`SchedulerRuns.LatenessIsGraceAndWaitIff`).
- Stopping an output unregisters its attempt at once, and its cancelled task forgets the failures later, whatever has
  started since. An output can then get more starts than allowed (`OutputRuns.ReturningIngestStartsTwice`) or be given
  up before it has used them (`OutputRuns.StaleFailureGivesUpEarly`). A start keeps the promise exactly when no earlier
  task has yet to forget or record failures (`OutputRuns.StartIsSafeIff`).
- Two handlers that validate a recirculation target at the same time can close a cycle together
  (`Recirculation.TwoHandlersCloseACycle`), and an agent's change to an output is written without the check, so it can
  close one alone (`Recirculation.AgentClosesACycle`). A write keeps the graph acyclic exactly when the check would
  let it through then, or it finds no row to write (`Recirculation.WriteIsSafeIff`). That is so in every run in which
  no edge is written between a check and its write, and agents add none (`Recirculation.PromptRunStaysAcyclic`).
- An upload whose method is 16 bytes or longer is classified by how its bytes arrive
  (`HttpSniff.FragmentationDoesNotMatterIff`).
- A flight recorder started ahead of the clock keeps a sample before its own bound, and a persisted copy of it shows
  twice (`FlightWindow.EarlyClockRepeatsASample`, `FlightWindow.RunStitchesInOrderIff`).
- A request with extra leading slashes is redirected to the prefix with those slashes, not to the prefix
  (`ShellRedirect.RedirectWithExtraSlashes`).

## Model

| member | source | states |
|---|---|---|
| `LogFilters.FromQuery` | src/api/logs.rs:92-109 | global rows are asked for exactly when the query says so and names a pipeline and no output, which is the backfill's own merge test; with no level it is info |
| `LogFilters.PrefixIsLike` | src/db/log_repo.rs:112-122 | whatever starts with a text matches the `LIKE` pattern made of it |
| `LogFilters.LikeIsPrefixIff` | src/db/log_repo.rs:112-122 | a pattern selects exactly the texts that start with it if and only if it has no `%`, no `_` and no letter |
| `LogFilters.IsCoveredIff` | src/db/log_repo.rs:173-177 | every text a pattern matches starts with one of several parts if and only if following the pattern, in either case and through its wildcards, always ends a part |
| `LogFilters.AloneIsCoveredIff` | src/db/log_repo.rs:173-177 | for a single part that is the condition above |
| `LogFilters.LiveRowsAreBackfilled` | src/api/logs.rs:171-216 | every row the live filter passes is selected by the stored one, for every filter |
| `LogFilters.BackfilledRowsAreLive` | src/api/logs.rs:111-126 | the converse, for literal texts and a scope the merge does not replace |
| `LogFilters.MatchersAgreeIff` | src/application/logs.rs:34-37 | for every filter the two matchers agree on every row if and only if it selects nothing, or the merge keeps its scope, its target is plain and its prefix parts cover one another |
| `LogFilters.LikeSelectsOtherRows` | src/db/log_repo.rs:148-177 | one filter and one row that the stored filter takes and the live one does not |
| `LogFilters.BlankPrefixSplitsMatchers` | src/api/logs.rs:158-169 | a prefix of blank parts hides every live row and no stored one |
| `LogQueries.LevelsPassFromTheThreshold` | src/api/logs.rs:223-230 | in the order of the levels, a row passes live and is selected by the store if and only if it is at least as severe as the level named, an unknown name counting as info |
| `LogQueries.EachLevelPassesUnderItsName` | src/db/log_repo.rs:67-72 | each level passes under its own name and under no stricter one |
| `LogQueries.PartsAreSegments` | src/api/logs.rs:158-169 | the parts of a prefix are the trimmed longest stretches without a comma, but for the blank ones |
| `LogQueries.TrimmedIsTrim` | src/api/logs.rs:165-165 | trimming removes exactly the spaces around a text |
| `LogQueries.LiveRowsAnswerTheQuery` | src/api/logs.rs:92-216 | the live filter made from a query passes exactly the rows the query asks for by level, owner, pipeline, output, class, target and prefix |
| `LogQueries.BackfilledRowsAreStored` | src/db/log_repo.rs:61-180 | the backfill made from it selects exactly those by `LIKE`, with the service's rows beside a pipeline's when asked for |
| `LogBackfill.FilterSelectionIsSound` | src/application/logs.rs:24-48 | the queries of a filter cover its live rows, and together select exactly the backfilled ones |
| `LogBackfill.PageIsPage` | src/db/log_repo.rs:124-146 | a page is ascending selected rows, and misses a selected one only when full of smaller ids |
| `LogBackfill.InsertedHolds` | src/application/logs.rs:42-45 | inserting into the map keyed by id keeps it ascending and adds that row alone |
| `LogBackfill.MergePages` | src/application/logs.rs:39-48 | the loop returns the first `limit` rows of the ascending merge, each id once |
| `LogBackfill.MergedHolds` | src/application/logs.rs:42-48 | the merge is ascending and holds exactly the rows of both pages |
| `LogBackfill.MergedPageIsPageOfBoth` | src/application/logs.rs:24-48 | the cut merge of two limited pages is the limited page of the union, for any two queries on one state of the store |
| `LogBackfill.ShortPageIsAll` | src/api/logs.rs:289-312 | a page of one query shorter than the limit is its whole result set |
| `LogBackfill.ShortMergedPageIsAll` | src/api/logs.rs:309-311 | a merged page shorter than the limit is both result sets, which justifies the paging loop's stop |
| `LogBackfill.MergedPageSkipsRow` | src/application/logs.rs:39-48 | with commits between the two reads, the page passes over a selected row if and only if a row of the first query committed in between and the page reaches past it |
| `LogStream.StepKeepsInv` | src/api/logs.rs:284-339 | every step of the store, the broadcast and the sender keeps the invariant, a page being started only when coherent |
| `LogStream.RunKeepsInv` | src/api/logs.rs:284-339 | so does every run whose merged pages are coherent |
| `LogStream.StreamIsExactlyOnce` | src/api/logs.rs:284-339 | in every such run the rows sent are ascending, past the resume id and selected, and no owed row up to the cursor is skipped or repeated |
| `LogStream.UnmergedRunIsCoherent` | src/application/logs.rs:30-32 | a stream that merges nothing meets the condition in every run |
| `LogStream.QuietReadsAreCoherent` | src/application/logs.rs:39-40 | so does every run in which no row commits between a page's two reads |
| `LogStream.AgreedRowIsSentIff` | src/api/logs.rs:284-339 | in every coherent run of a resumed stream a stored row the matchers agree on was sent if and only if it is live and between the resume id and the cursor |
| `LogStream.AgreeingStreamIsTheSelection` | src/api/logs.rs:284-339 | for a filter whose matchers agree, every coherent run has sent exactly the live rows |
| `LogStream.StreamIsTheSelectionIff` | src/api/logs.rs:284-339 | every store and coherent run send exactly the live rows if and only if the filter's matchers agree |
| `LogStream.DrainedStreamIsComplete` | src/api/logs.rs:317-339 | a live stream has sent every owed row it has received the broadcast of |
| `LogStream.DrainedSendsPage` | src/api/logs.rs:303-308 | sending the rest of a page appends it whole and moves the cursor past every row of it |
| `LogStream.PageIsSafeIffCoherent` | src/api/logs.rs:289-312 | from every reachable state, sending the page keeps exactly-once if and only if the page is coherent |
| `LogStream.IncoherentPageSkipsARow` | src/application/logs.rs:39-40 | for every merging stream, a pipeline row and a global row committed between the reads: the first is never sent |
| `LogStream.SomeStreamSkipsARow` | src/application/logs.rs:39-40 | the same for one concrete filter and two concrete rows |
| `LogSender.Task.SendPage` | src/api/logs.rs:303-308 | the whole page is appended to what was sent, and the cursor becomes the greatest id of the page and before it |
| `LogSender.Task.Backfill` | src/api/logs.rs:289-313 | every answer up to the first short page is sent whole and in order, a failed query stops before it, and the broadcast takes over exactly after a short page |
| `LogSender.Task.Serve` | src/api/logs.rs:286-340 | the pages sent, then the live entries past the cursor: the function that `RunIsServed` equates with every run |
| `LogSender.RunIsServed` | src/api/logs.rs:284-340 | in every run what the stream has sent is what the sender sends on the pages the run started and the entries it received, or inside a page and once ended the beginning of it |
| `LogSender.ServedIsExactlyOnce` | src/api/logs.rs:284-340 | so on the answers and entries of a coherent live run the sender sends every owed row exactly once |
| `LogProgress.StreamCompletes` | src/api/logs.rs:284-340 | after every coherent run that has not ended and is not between a page's reads, the stream left to itself comes to be live with every owed row of the log sent once |
| `LogProgress.EndedSendsNothing` | src/api/logs.rs:284-340 | once ended, a stream sends nothing whatever follows |
| `LogProgress.DeletedRowsAreNotRead` | src/db/log_repo.rs:182-188 | no page read after a deletion holds a deleted row |
| `StateHub.UpsertUndoesChanged` | src/application/runtime_state/mod.rs:541-556 | removing and upserting what changed between two maps turns the first into the second |
| `StateHub.ApplyUndoesDiff` | src/application/runtime_state/mod.rs:540-573 | applying the diff of two projections to the first gives the second, and the diff is empty only between equal ones |
| `StateHub.PublishKeepsValid` | src/application/runtime_state/hub.rs:133-156 | publishing keeps revisions contiguous, each message the step between two projections, and the history the last 256 of them |
| `StateHub.AfterIsSuffix` | src/application/runtime_state/hub.rs:195-202 | filtering contiguous history by revision gives its suffix |
| `StateHub.SinceIsExact` | src/application/runtime_state/hub.rs:176-203 | a token is answered with exactly the messages after it if and only if it is of this run, not ahead, and at most 256 behind |
| `StateStream.PublishKeepsInv` | src/application/runtime_state/hub.rs:133-156 | publishing under a connected stream keeps every frame sent genuine |
| `StateStream.ReadHistoryKeepsInv` | src/api/runtime_state.rs:71-100 | reading history after subscribing leaves no gap before the first live delta |
| `StateStream.SendReplayedKeepsInv` | src/api/runtime_state.rs:84-96 | a replayed delta is one revision above what was sent |
| `StateStream.SendCurrentKeepsInv` | src/api/runtime_state.rs:162-171 | a snapshot frame is the server's state at its revision |
| `StateStream.ReceiveKeepsInv` | src/api/runtime_state.rs:107-141 | a live delta at or below what was sent is skipped, and the next one is sent |
| `StateStream.FrameApplies` | web/ts/core/state-stream.ts:40-67 | the client can apply every frame it is handed, and then holds the state at the frame's revision |
| `StateStream.StepKeepsInv` | src/api/runtime_state.rs:71-141 | every step keeps the invariant: publications, restarts, connections, lag and frames taken |
| `StateStream.RunKeepsInv` | src/api/runtime_state.rs:71-141 | every run does |
| `StateStream.HeldStateIsExact` | web/ts/core/state-stream.ts:40-67 | in every run what a client holds is the server's state at that revision of that server run |
| `StateStream.StreamHasNoGap` | src/api/runtime_state.rs:82-141 | in every run each delta sent is one revision above the frame before it, and the client never has to resync |
| `StateStream.FramesInFlightLeadToSentThrough` | src/api/runtime_state.rs:71-141 | in every run folding the frames in flight gives exactly the server's state at `sent_through` |
| `StateStream.QuietClientIsCurrent` | src/api/runtime_state.rs:71-141 | with nothing in flight the client holds the server's current state |
| `StateSender.Task.Open` | src/api/runtime_state.rs:82-100 | the deltas after the token, each a frame, when the hub still has them all; otherwise the snapshot of the hub as it is then |
| `StateSender.Task.Serve` | src/api/runtime_state.rs:77-141 | the opening, then the receive loop: the function that `RunIsServed` equates with every live connection |
| `StateSender.RunIsServed` | src/api/runtime_state.rs:71-141 | in every run the frames of a live connection are exactly those the sender sends on what the run handed it: history, snapshots, deltas and lags |
| `StateSender.ServedHasNoGap` | src/api/runtime_state.rs:71-141 | so the sender's frames have no gap, and leave a client that takes them all at `sent_through` exactly |
| `StateProgress.ClientCatchesUp` | src/api/runtime_state.rs:71-141 | after every run the steps of sender and client alone bring the client to the server's current state |
| `StateProgress.PublishedStateIsHeld` | src/api/runtime_state.rs:71-141 | whatever is published after a run, the client comes to hold it |
| `StateProgress.ReconnectResumes` | src/api/runtime_state.rs:77-100 | a client that reconnects within the history of the same server run gets exactly the deltas it missed |
| `StateProgress.FoldedExactly` | web/ts/core/state-stream.ts:40-67 | a delta the client has changes nothing, the next one is applied, and it starts over exactly when it cannot apply one |
| `StateProgress.GapStopsTheFold` | web/ts/core/state-stream.ts:40-67 | after a frame it cannot apply no later frame counts |
| `ReconcileRequests.ReconcileRequests.Wake` | src/application/topology.rs:44-47 | a wake sets the flag and nothing else |
| `ReconcileRequests.ReconcileRequests.WakeAt` | src/application/topology.rs:50-54 | a deadline is added to those pending and nothing else changes |
| `ReconcileRequests.ReconcileRequests.TakeDue` | src/application/topology.rs:58-64 | true exactly when a wake or a reached deadline was pending; exactly the later deadlines and all requested selections stay |
| `ReconcileRequests.ReconcileRequests.NextDeadline` | src/application/topology.rs:67-69 | the least pending deadline, none exactly when none is pending |
| `ReconcileRequests.ReconcileRequests.InputSelectionChanged` | src/application/topology.rs:78-81 | the pipeline joins the requested selections and a pass is asked for |
| `ReconcileRequests.ReconcileRequests.TakeDirtySelections` | src/application/topology.rs:88-90 | all requested selections are taken and none is left |
| `ReconcileRequests.ReconcileRequests.KeepDirtySelection` | src/application/topology.rs:92-94 | one is put back, without a wake |
| `ReconcileRequests.ReconcileRequests.RequestPassForEvent` | src/application/topology.rs:104-123 | exactly which events ask for a pass; a lost ingest asks for one now and one 10 ms after its grace |
| `ReconcileRequests.DirtyIsWakePending` | src/application/topology.rs:44-64 | under every interleaving of handlers with split calls, the flag is set exactly when a wake has come since the last swap |
| `ReconcileRequests.DeadlineIsPending` | src/application/topology.rs:50-64 | a deadline is held exactly until a call whose time has reached it |
| `ReconcileRequests.SelectionIsPending` | src/application/topology.rs:78-94 | under every interleaving, a selection is requested exactly when it was asked for or put back since the last pass took them |
| `ReconcileRequests.TakeDueIsExact` | src/application/topology.rs:58-64 | a split call answers true if and only if its first half found a wake or its second a reached deadline |
| `ReconcileRequests.NoWakeIsLost` | src/application/topology.rs:44-64 | the first call whose first half follows a wake swaps out a set flag and answers true when it returns |
| `ReconcileRequests.NoDeadlineIsLost` | src/application/topology.rs:50-64 | by the time a call at or past a deadline returns, some call has consumed it and answered true |
| `InputSelection.ApplyRequestedSelections` | src/application/topology.rs:128-148 | the engine forwards what the rows of each requested pipeline select, every other pipeline is unchanged, exactly the requests whose rows could not be read are kept, and the call ends where the steps of an undisturbed pass end |
| `InputSelection.StepKeepsInv` | src/application/topology.rs:78-148 | every step of promotions, reports and a pass split at its awaits keeps the invariant |
| `InputSelection.RunKeepsInv` | src/application/topology.rs:78-148 | every run does |
| `InputSelection.NoSelectionIsLost` | src/application/topology.rs:78-148 | in every run a selection the engine does not forward yet is requested, read and unapplied, or about to be reported |
| `InputSelection.QuietEngineIsConverged` | src/application/topology.rs:78-148 | in every run, with nothing requested or running the engine forwards what is persisted |
| `InputSelection.PassConverges` | src/application/topology.rs:128-148 | from every reachable state with no handler mid-way, one undisturbed pass makes the engine forward what is persisted |
| `InputSelection.FailedReadsAreKept` | src/application/topology.rs:128-148 | when some reads fail, every other pipeline converges and the failed ones stay requested |
| `InputSelection.PromotionTakesEffect` | src/application/topology.rs:78-81 | after every run a promotion, once reported, is what the engine forwards after the next pass |
| `InputSelection.CreatedIsForwarded` | src/application/topology.rs:71-77 | a new pipeline is forwarded from its selected input without a request |
| `InputSelection.DeletedIsLeftAlone` | src/application/topology.rs:125-127 | a pass drops the request of a deleted pipeline and leaves the engine alone |
| `TopologyConvergence.ConvergeTopology` | src/application/topology.rs:153-185 | an egress stays registered if and only if its output was read and that output's pipeline has a row, runtime stays exactly where there is a row, nothing changes when rows cannot be read, and the call ends where the steps of an undisturbed pass end |
| `TopologyConvergence.StopEgressesExcept` | src/application/topology.rs:175-180 | exactly the unwanted egresses are unregistered |
| `TopologyConvergence.TearDownAll` | src/application/topology.rs:182-184 | exactly the given pipelines lose their runtime |
| `TopologyConvergence.HandlerKeepsInv` | src/application/topology.rs:153-185 | creates, deletes and starts between a pass's steps keep the invariant |
| `TopologyConvergence.PassKeepsInv` | src/application/topology.rs:153-185 | each step of the pass keeps it |
| `TopologyConvergence.RunKeepsInv` | src/application/topology.rs:153-185 | every run does |
| `TopologyConvergence.TeardownIsSafe` | src/application/topology.rs:153-185 | in every run a pipeline about to be torn down has been deleted and has no egress registered |
| `TopologyConvergence.LivePipelinesAreNeverTornDown` | src/application/topology.rs:153-185 | in every run no pipeline with a row was ever torn down |
| `TopologyConvergence.LiveEgressesAreNeverStopped` | src/application/topology.rs:164-180 | in every run no egress whose output row is there is ever stopped |
| `TopologyConvergence.ConvergedIs` | src/application/topology.rs:153-185 | in whatever order it stops and tears down, an undisturbed pass leaves exactly the runtime of live pipelines and the egresses of live outputs |
| `TopologyConvergence.CreatedOutputIsStarted` | src/infrastructure/bootstrap/egress.rs:57-190 | after every run a new output of a live pipeline is registered, and its pipeline running, once a pass has started it |
| `TopologyConvergence.DeletedOutputIsStopped` | src/application/topology.rs:175-180 | after every run the next pass stops a deleted output and no other with a row |
| `TopologyConvergence.DeletedPipelineIsTornDown` | src/application/topology.rs:182-184 | after every run the next pass takes a deleted pipeline's runtime and egresses and no other's |
| `TopologyConvergence.CreatedPipelineRuns` | src/application/topology.rs:154-156 | runtime started for a new pipeline survives the next pass |
| `TopologyConvergence.EndedEgressIsGone` | src/application/topology.rs:175-180 | an egress that ended by itself is not registered and the others are as before |
| `TopologyConvergence.FailedReadStopsNothing` | src/application/topology.rs:158-163 | a pass that cannot read the pipelines changes no runtime and no egress |
| `Recirculation.TargetsAreEdges` | src/application/recirculation.rs:138-150 | the targets listed for a pipeline are exactly its edges |
| `Recirculation.RecirculationEdges` | src/application/recirculation.rs:138-150 | the loop builds the adjacency map of the rows, one entry for each pipeline that has a target |
| `Recirculation.ValidateTopology` | src/application/recirculation.rs:107-136 | the walk terminates on every list and accepts if and only if the source cannot be reached from the target; the direct case has its own error |
| `Recirculation.ReachingSourceIgnoresItsEdges` | src/api/outputs.rs:566-606 | reaching the source never needs an edge out of it, so an update may be checked against a list that still holds the old row |
| `Recirculation.GateIsExact` | src/application/recirculation.rs:37-57 | from an acyclic graph, the new edge keeps it acyclic if and only if the gate accepts |
| `Recirculation.AcceptedChangeKeepsAcyclic` | src/api/outputs.rs:448-464 | every accepted create, update or delete keeps the graph acyclic |
| `Recirculation.ChangedEdges` | src/application/recirculation.rs:138-150 | a change leaves exactly the edges of the rows it does not name, and its own where it finds a row to put it in |
| `Recirculation.RunMakesAccepted` | src/application/recirculation.rs:37-57 | in a serial run a change is made if and only if the gate accepts it |
| `Recirculation.RunStaysAcyclic` | src/application/recirculation.rs:37-57 | every serial run of them does |
| `Recirculation.RefusedChangeWouldCycle` | src/application/recirculation.rs:107-136 | a refused change would have closed a cycle |
| `Recirculation.InterleavingStaysAcyclic` | src/api/outputs.rs:448-464 | with validations and writes of any number of handlers and agents interleaved, the graph stays acyclic while each write would be let through at that time |
| `Recirculation.WriteIsSafeIff` | src/api/outputs.rs:566-611 | a write, checked or not, keeps the graph acyclic if and only if it would be let through then or finds no row |
| `Recirculation.FewerEdgesStayAccepted` | src/application/recirculation.rs:107-136 | a verdict stands while no edge is added, whatever is deleted |
| `Recirculation.PromptRunIsStillAccepted` | src/api/outputs.rs:448-464 | in every run without an edge written between a check and its write, and without an agent's edge, each write would be let through |
| `Recirculation.PromptRunStaysAcyclic` | src/api/outputs.rs:448-464 | so every such run keeps the graph acyclic |
| `Recirculation.RemovalsKeepPrompt` | src/api/outputs.rs:448-464 | a change that adds no edge may come between a check and its write |
| `Recirculation.TwoHandlersCloseACycle` | src/api/outputs.rs:448-464 | two handlers that validate before either writes close a cycle |
| `Recirculation.AgentClosesACycle` | src/api/agent/operations.rs:269-325 | one agent's change, which no check precedes, closes a cycle |
| `Recirculation.ValidateTargetInput` | src/application/recirculation.rs:60-77 | accepted exactly when the input exists, belongs to the target, is enabled and is not selected |
| `Recirculation.ValidateOutputCandidate` | src/application/recirculation.rs:37-57 | accepted exactly when there is no cycle and the input is usable; the cycle answers first |
| `AlertTransitions.AlertTransitions.Observe` | src/application/notify.rs:118-188 | one evaluation: every id takes its own step and the events are the ids' events |
| `AlertTransitions.AlertTransitions.Seed` | src/application/notify.rs:121-132 | the first evaluation only learns what is listed |
| `AlertTransitions.AlertTransitions.ListPresent` | src/application/notify.rs:133-159 | each listing advances its entry and announces it once confirmed |
| `AlertTransitions.AlertTransitions.ResolveAbsent` | src/application/notify.rs:160-187 | entries not listed advance towards forgetting, announcing a resolution |
| `AlertTransitions.Absences` | src/application/notify.rs:160-183 | the walk over the entries, whatever its order, gives each absent id its own step |
| `AlertTransitions.EntryTracksFlag` | src/application/notify.rs:112-189 | without an early duplicate an entry is there exactly when its id was in one of the last two evaluations, and its flag is the two-sample filter's |
| `AlertTransitions.FilterIsExact` | src/application/notify.rs:112-189 | throughout a run the announced flag is the two-sample filter's if and only if no evaluation lists twice an unannounced id missing from the one before |
| `AlertTransitions.DistinctIdsAreNoDuplicate` | src/application/notify.rs:133-141 | distinct ids in each evaluation meet that condition |
| `AlertTransitions.DuplicateOpensAtOnce` | src/application/notify.rs:112-189 | the run in which the filter fails: an alert listed twice opens on one evaluation |
| `AlertTransitions.EventsAreEdges` | src/application/notify.rs:133-187 | in every run the events of an id are exactly the edges of its flag, the seed emits none, and a resolution names the alert as last listed |
| `AlertTransitions.EventsAlternate` | src/application/notify.rs:133-187 | in every run an id's events alternate and the last says whether it is open |
| `AlertTransitions.SeenIsLastTwo` | src/application/notify.rs:112-189 | in every run, duplicates or not, `seen` holds exactly the ids of the last two evaluations |
| `AlertTransitions.SeenHoldsTheFlag` | src/application/notify.rs:112-189 | in every run without an early duplicate an id is announced in it if and only if the filter's flag is set |
| `TimedSamples.LeadingSplits` | src/application/fleet_history.rs:215-221 | on ordered samples the partition point splits smaller times from the rest |
| `TimedSamples.WindowIsFilter` | src/application/fleet_history.rs:212-228 | the window found by two partition points is the filter of every sample |
| `FleetHistory.FleetHistory.Push` | src/application/fleet_history.rs:183-208 | the sample is stamped after the newest, old ones are evicted in order and the completeness bound moves with them |
| `FleetHistory.FleetHistory.ReadWindow` | src/application/fleet_history.rs:212-228 | the kept samples of the inclusive window, the bound, and the newest time |
| `FleetHistory.LogIsWhatWasPushed` | src/application/fleet_history.rs:189-195 | every sample keeps its reading, and its time whenever the clock advanced |
| `FleetHistory.LogIsOrdered` | src/application/fleet_history.rs:189-195 | on any clock the log is nondecreasing in time |
| `FleetHistory.LogIsStrictlyOrdered` | src/application/fleet_history.rs:189-195 | and strictly increasing if and only if no sample but the last is at the last millisecond of a `u64` |
| `FleetHistory.PushKeeps` | src/application/fleet_history.rs:183-208 | a push keeps the history the longest suffix of the log that fits |
| `FleetHistory.HistoryKeepsLongestSuffix` | src/application/fleet_history.rs:183-208 | in every run of pushes, on any clock, the history is the longest suffix within cap and span, and the bound is the last evicted time |
| `FleetHistory.CompleteWindowIsFilterOfLog` | src/application/fleet_history.rs:212-228 | in every run a window that starts after the bound is the filter of everything ever pushed |
| `FleetHistory.PollerMissesNothing` | src/application/fleet_history.rs:212-228 | in every interleaving of pushes and polls, a client that asks past its last sample and is not behind the bound has every sample once and in order |
| `SentBytes.BytesSentSince` | src/application/fleet_history.rs:131-143 | the loop returns the saturated sum of the credits and replaces the counters by the latest readings |
| `SentBytes.SaturationLosesExactly` | src/application/fleet_history.rs:131-143 | over any run nothing is lost to saturation if and only if no single call exceeds a `u64` |
| `SentBytes.CreditsAreStretches` | src/application/fleet_history.rs:135-138 | a counter's credits are the final values of its finished stretches and the value of the one under way |
| `SentBytes.CallSumIsSumOfCredits` | src/application/fleet_history.rs:131-143 | a call's sum is the sum over the outputs of what each adds |
| `SentBytes.SummedByOutput` | src/application/fleet_history.rs:131-143 | over any run the calls' sums are the outputs' credits, summed output by output |
| `SentBytes.SampledIsTrafficIff` | src/application/fleet_history.rs:236-264 | the sampler's totals are, over all outputs, the final value of each uninterrupted nondecreasing stretch less its baseline, if and only if no call after the one at start-up exceeds a `u64` |
| `FlightRecorder.FlightRecorder.constructor` | src/application/flight_recorder.rs:298-305 | an empty recorder keeps at least one sample for each pipeline |
| `FlightRecorder.FlightRecorder.Record` | src/application/flight_recorder.rs:308-408 | absent pipelines are dropped, and each probe is stamped, differenced and appended to its trace, which evicts one at the cap |
| `FlightRecorder.FlightRecorder.MemoryWindow` | src/application/flight_recorder.rs:442-464 | the kept samples of `[since, until)` and the bound, none exactly for an unknown pipeline |
| `FlightRecorder.LogOfIsSound` | src/application/flight_recorder.rs:315-343 | in every run each sample is made from its probe and the one before, and times strictly increase short of the end of a `u64` |
| `FlightRecorder.SampleIsAtTheClock` | src/application/flight_recorder.rs:315-343 | a sample carries its tick's time when that is past the last sample's, and otherwise the millisecond after it |
| `FlightRecorder.TracesAreTails` | src/application/flight_recorder.rs:308-408 | in every run each trace is the last `cap` samples recorded since its pipeline last appeared, with the bound at the last evicted time |
| `FlightRecorder.KnownAreThePresent` | src/application/flight_recorder.rs:310-323 | the recorder knows exactly the pipelines of the last tick |
| `FlightRecorder.TracesAreOrdered` | src/application/flight_recorder.rs:324-371 | in every run each trace is within the cap and strictly ordered, and everything evicted is at or before its bound |
| `FlightRecorder.KeptAreAfterBound` | src/application/flight_recorder.rs:318-323 | the kept samples lie at or after the bound if and only if one was evicted or the pipeline appeared no earlier than the recorder's start |
| `FlightRecorder.SamplesShowProbes` | src/application/flight_recorder.rs:330-366 | in every run a sample shows its own probe, and a bitrate if and only if the same session went on since the sample before |
| `FlightRecorder.SessionConservesBytes` | src/application/flight_recorder.rs:330-343 | over an unbroken session bitrate times interval over 8000 sums to its byte growth |
| `FlightRecorder.RunConservesBytes` | src/application/flight_recorder.rs:330-366 | the same for every session of every pipeline in every run |
| `Thinning.Thin` | src/application/flight_recorder.rs:468-487 | the streaming loop picks exactly the nearest indices, or returns a short list unchanged |
| `Thinning.ThinnedIsSpread` | src/application/flight_recorder.rs:467-487 | exactly `max` samples at strictly increasing indices, the first and the last among them |
| `Thinning.GapIsFloorOrCeiling` | src/application/flight_recorder.rs:476-477 | consecutive picks differ by the floor or, when the division is not exact, the ceiling of `(len - 1) / (max - 1)` |
| `Thinning.WantIsNearest` | src/application/flight_recorder.rs:476-477 | each pick is within half an index of the even spread |
| `FlightWindow.Stitch` | src/application/flight_recorder.rs:500-536 | there is no trace if and only if the recorder does not know the pipeline and no row of the window that parses was read; the trace is complete from the oldest time known and detailed from where memory begins |
| `FlightWindow.TraceWindow` | src/application/flight_recorder.rs:492-539 | the same, thinned to between 2 and 2000 points |
| `FlightWindow.ReadRowsAreStrict` | src/db/flight_repo.rs:29-45 | rows read are in the window and in strict order |
| `FlightWindow.ReadRowsHold` | src/application/flight_recorder.rs:506-517 | exactly the rows of the window that still parse |
| `FlightWindow.StitchedIsStrict` | src/application/flight_recorder.rs:500-529 | with no kept sample before the seam the stitched trace has no duplicate and no step back |
| `FlightWindow.StitchIsOrderedIff` | src/application/flight_recorder.rs:500-529 | it is so for every store if and only if no kept sample of the window lies before the seam |
| `FlightWindow.EarlyClockRepeatsASample` | src/application/flight_recorder.rs:318-323 | for every recorder that starts ahead of the clock: after a run of one tick a stored copy of its sample shows twice |
| `FlightWindow.StitchedHolds` | src/application/flight_recorder.rs:500-529 | known to memory or not, the stitched trace holds exactly the kept samples of the window and the stored ones before memory begins, or all of the window's when memory does not know the pipeline |
| `FlightWindow.RunStitchesInOrder` | src/application/flight_recorder.rs:492-539 | in every run whose clock was not behind the recorder's start, or whose cap has been reached, every store and window stitch in strict order |
| `FlightWindow.RunStitchesInOrderIff` | src/application/flight_recorder.rs:492-539 | and in no other run: the condition is exact for every run |
| `FlightWindow.ThinnedIsStrict` | src/application/flight_recorder.rs:537-537 | thinning keeps the order |
| `Schedules.LatestIsGreatest` | src/application/schedules.rs:111-119 | the latest occurrence is the greatest grid point at or before now |
| `Schedules.NextIsLeast` | src/application/schedules.rs:122-129 | the next occurrence is the least grid point after now, absent only when there is none |
| `Schedules.RunsExactly` | src/application/schedules.rs:142-163 | an occurrence runs if and only if the schedule is enabled, it is the latest, not covered, and at most the grace ago |
| `Schedules.Store.Create` | src/application/schedules.rs:273-286 | a new schedule passes over what is past |
| `Schedules.Store.Update` | src/application/schedules.rs:290-306 | new settings pass over what is past and keep a later last run; a missing schedule is an error and nothing changes |
| `Schedules.Store.RecordRun` | src/db/schedule_repo.rs:92-105 | the last run is set when the row is there |
| `Schedules.Store.Tick` | src/api/schedules.rs:156-197 | one tick acts exactly on the schedules due to run, records the occurrence of each run or skip so that it is not due again, and changes no other |
| `SchedulerRuns.StepKeepsInv` | src/api/schedules.rs:138-197 | every step keeps the invariant as long as a save forgets no run |
| `SchedulerRuns.RunsAreInOrderAndInTime` | src/api/schedules.rs:138-197 | in every such run, on any clock and under any edits, occurrences begin in strict order, so at most once, and were within the grace on their tick's clock |
| `SchedulerRuns.LatenessIsGraceAndWaitIff` | src/api/schedules.rs:168-181 | over all runs whose actions wait at most so long behind others, every action begins within a given lateness of its occurrence if and only if that is at least the grace and the wait together |
| `SchedulerRuns.UninterruptedForgetsNothing` | src/application/schedules.rs:290-306 | an edit that no run interrupts between its read and its save forgets nothing |
| `SchedulerRuns.ImmediateSaveIsUninterrupted` | src/application/schedules.rs:290-306 | an edit saved right after its read is such an edit |
| `SchedulerRuns.AtomicEditsForgetNothing` | src/application/schedules.rs:290-306 | so a run with only such edits meets the condition |
| `SchedulerRuns.SaveRepeatsRunIff` | src/application/schedules.rs:296-302 | a save lets an occurrence up to a begun run begin again on some clock if and only if its settings have one covered neither by its own clock nor by what it read |
| `SchedulerRuns.InterruptedEditRunsTwice` | src/application/schedules.rs:290-306 | the run in which an edit straddles a tick and the same occurrence begins twice |
| `SchedulerEdits.BeginsIff` | src/api/schedules.rs:138-197 | from every state, some continuation without new edits begins an occurrence up to a bound if and only if the scheduler has one in hand to run, or the row, once what the scheduler has in hand is recorded on it, leaves one uncovered, or a pending edit's row does |
| `SchedulerEdits.AddedPassesOverThePast` | src/application/schedules.rs:273-286 | after a create no continuation begins an occurrence past at the create |
| `SchedulerEdits.PastBeginsIff` | src/api/schedules.rs:138-197 | once an edit is saved, and until another is, an occurrence past on its clock begins in some continuation if and only if the scheduler had listed one to run, or had listed a skip or begun a run and the new settings have an occurrence after that and up to the edit |
| `SchedulerEdits.EditPassesOverThePast` | src/application/schedules.rs:288-301 | so none does when the edit is saved while the scheduler is idle |
| `SchedulerEdits.FinishRevivesThePast` | src/api/schedules.rs:138-152 | the run in which the second record of a slow action brings one back |
| `SchedulerEdits.SkipRevivesThePast` | src/api/schedules.rs:182-194 | the run in which the record of a skip does |
| `SchedulerEdits.ListedRunIgnoresTheEdit` | src/api/schedules.rs:169-181 | the run in which a schedule disabled meanwhile begins |
| `SchedulerEdits.DeletedComesBackIff` | src/db/schedule_repo.rs:58-82 | a deleted schedule can have a row again if and only if an edit has yet to save |
| `SchedulerEdits.DeletedRunsIff` | src/api/schedules.rs:138-197 | with no edits but those pending, a deleted schedule begins an action in some continuation if and only if the scheduler had listed it to run, or a pending edit's settings have an occurrence that its row, as saved or with the scheduler's record on it, leaves uncovered |
| `SchedulerEdits.DeletedScheduleRuns` | src/db/schedule_repo.rs:58-82 | the run in which a pending edit does it |
| `SchedulerEdits.DeletedWhileListedRuns` | src/api/schedules.rs:169-181 | the run in which the list does it, with no edit at all |
| `SchedulerRuns.RunIffSeenInTime` | src/application/schedules.rs:142-163 | over nondecreasing ticks an occurrence is run if and only if the first tick at or after it comes within the grace |
| `SchedulerRuns.CloseTicksMissNothing` | src/api/schedules.rs:156-197 | ticks at most the grace apart run every occurrence after the first tick, exactly once |
| `HttpSniff.FirstSpace` | src/api/http_server.rs:173-173 | the position of the first space, the length when there is none |
| `HttpSniff.TargetsExactly` | src/api/http_server.rs:172-183 | decided for an upload if and only if the route prefix follows the first space |
| `HttpSniff.OpenWhileBothArePossible` | src/api/http_server.rs:170-183 | it asks for more bytes only while some continuation makes it an upload and another does not |
| `HttpSniff.Prefixed.PollRead` | src/api/http_server.rs:123-138 | what is read and what is left make up what was left before, and a read with room gets something unless nothing is there |
| `HttpSniff.ReadThrough` | src/api/http_server.rs:122-138 | any sequence of reads yields the connection's bytes in order, none lost and none twice |
| `HttpSniff.SniffSocket` | src/api/http_server.rs:88-104 | the loop takes bytes until they decide, up to 64, and keeps them all |
| `HttpSniff.Classify` | src/api/http_server.rs:88-111 | the decision is the sniff's, and the returned stream still yields everything the connection sends |
| `HttpSniff.DecisionStands` | src/api/http_server.rs:172-183 | once a space is seen a decision stands whatever follows |
| `HttpSniff.SniffIsWhole` | src/api/http_server.rs:88-104 | however the bytes arrive, a decision that no part of the window contradicts is the result |
| `HttpSniff.SniffIsWhatWasTaken` | src/api/http_server.rs:88-104 | however the bytes arrive and whenever the wait times out, the answer is an upload if and only if the bytes taken decide it |
| `HttpSniff.UndecidedIsNoUpload` | src/api/http_server.rs:88-104 | a connection whose bytes never say upload is none |
| `HttpSniff.UploadIsRecognised` | src/api/http_server.rs:172-183 | for every method, `/ingest/hls/` after its space is recognised whatever follows |
| `HttpSniff.FragmentationDoesNotMatterIff` | src/api/http_server.rs:88-183 | every arrival gives the decision of the whole window if and only if its first space is within 16 bytes or it is no upload |
| `HttpSniff.LongMethodIsMisread` | src/api/http_server.rs:173-176 | otherwise a first read of 16 bytes takes the upload for none |
| `HttpSniff.DecidedWithin28Bytes` | src/api/http_server.rs:172-183 | with a short method 28 bytes decide, before the buffer fills |
| `ShellRedirect.RedirectsExactly` | src/api/static_assets.rs:49-64 | a redirect is given exactly for a path with a slash and no dot |
| `ShellRedirect.SegmentsMove` | src/api/static_assets.rs:41-48 | dot-segment removal moves plain segments, empty ones included, to its output |
| `ShellRedirect.ChainDrops` | src/api/static_assets.rs:54-54 | and takes one back for each `../` |
| `ShellRedirect.RemoveDotsCleans` | src/api/static_assets.rs:54-54 | the buffers of section 5.2.4 of RFC 3986 compute, for every absolute path, the removal of dot segments on its list of segments |
| `ShellRedirect.CleanedHasNoDots` | src/api/static_assets.rs:54-54 | which leaves no dot segment |
| `ShellRedirect.LeadingDots` | src/api/static_assets.rs:54-54 | of a path with no slash at its start, leading dot segments go |
| `ShellRedirect.LoneDots` | src/api/static_assets.rs:54-54 | nothing is left of a path of one dot segment |
| `ShellRedirect.RelativeSegment` | src/api/static_assets.rs:54-54 | and the first other segment is kept |
| `ShellRedirect.MergeUnderPrefix` | src/api/static_assets.rs:41-48 | merging keeps the prefix and the directories of the path |
| `ShellRedirect.RedirectReachesTheShell` | src/api/static_assets.rs:49-60 | for every prefix without dot segments and every redirected path the target resolves to exactly the prefix, with a query that is not empty kept |
| `ShellRedirect.RedirectWithExtraSlashes` | src/api/static_assets.rs:212-215 | with extra leading slashes it resolves to the prefix and those slashes, so to the prefix exactly when there are none, and never to a second redirect |
| `OutputRetry.CappedGrows` | src/application/reconcile.rs:34-37 | more retries never shorten the capped delay, which stays within the policy's maximum |
| `OutputRetry.CappedDoubles` | src/application/reconcile.rs:35-37 | the capped delay starts at the base and doubles with each of the first 16 retries, up to the maximum |
| `OutputRetry.JitterSpreadsTheHalf` | src/application/reconcile.rs:38-40 | the jitter adds none of the second half at fraction 0, all of it at 1, and never less for a larger fraction |
| `OutputRetry.BackoffIsEqualJitter` | src/application/reconcile.rs:34-40 | the backoff lies between half the capped delay and the whole, and is stable past 16 retries |
| `OutputRetry.WaitEndsExactly` | src/application/reconcile.rs:106-118 | a wait becomes a start if and only if `remaining_ms` more has passed, which is positive and completes the backoff |
| `OutputRetry.DecisionsDoNotFlap` | src/application/reconcile.rs:82-142 | what starts an output keeps it running, what stops it does not start it again, and it is stopped if and only if it is unwanted or has no ingest |
| `OutputRetry.StartsExactly` | src/application/reconcile.rs:82-121 | an output starts if and only if it is wanted, neither given up nor active, its ingest is there with its tracks known, and its last failure leaves a retry and a whole backoff has passed; likewise when it waits for a probe or is given up |
| `OutputRetry.WaitIsUntilTheStart` | src/infrastructure/bootstrap/egress.rs:57-190 | the wait an output asks for is exactly the time until it starts, or an interval while its probe is pending |
| `OutputRetry.EarliestWait` | src/infrastructure/bootstrap/egress.rs:57-190 | the pass returns the least wait of any output, and none exactly when none waits |
| `OutputRuns.PoliciesAreSettings` | src/application/reconcile.rs:34-121 | the runs below cover every policy with every jitter, deciding as the decision function does |
| `OutputRuns.StepKeepsInv` | src/infrastructure/bootstrap/egress_task.rs:292-332 | with a stop, the cancelled task's end, and the reads, record and unregistering of a failing one as separate steps, each keeps the starts equal to the failures recorded and to come, if attempts start once earlier tasks have ended |
| `OutputRuns.StartsAreBounded` | src/application/reconcile.rs:82-171 | in every such run an output is given up after exactly `max(1, max_retries)` starts without progress, and never gets more |
| `OutputRuns.GivenUpExactly` | src/application/reconcile.rs:106-109 | in every such run a settled output that may start is given up by the next pass if and only if its starts are used up |
| `OutputRuns.AttemptsAreUsed` | src/application/reconcile.rs:82-171 | from any ready state an output that keeps failing gets every start its recorded failures leave it, since the longest backoff always lets it start |
| `OutputRuns.PassStops` | src/application/reconcile.rs:130-142 | a pass stops an attempt if and only if it is unwanted or its ingest is gone |
| `OutputRuns.StopLeavesItsTask` | src/infrastructure/bootstrap/egress_task.rs:292-318 | a stopped task that was running forgets the failures, one that was failing still records its own |
| `OutputRuns.GivenUpStays` | src/application/reconcile.rs:92-94 | in every run without an operator's reset an output given up never starts |
| `OutputRuns.PassGivesUp` | src/application/reconcile.rs:106-109 | and a pass that finds no start left gives it up |
| `OutputRuns.ResetStarts` | src/application/reconcile.rs:92-121 | after a reset the next pass with a ready ingest starts it |
| `OutputRuns.StartIsSafeIff` | src/infrastructure/bootstrap/egress_task.rs:297-312 | from every state such a run reaches, a start keeps the bound in every such continuation if and only if no earlier task has yet to forget or record failures |
| `OutputRuns.ReturningIngestStartsTwice` | crates/restream-engine/src/engine_egress.rs:194-199 | the run in which one start is allowed and two happen: the ingest returns before the cancelled task has ended |
| `OutputRuns.StaleFailureGivesUpEarly` | src/infrastructure/bootstrap/egress_task.rs:297-301 | the run in which two are allowed and the output is given up after one |

## Left out

- HTTP routing, authentication, view models, JSON and the browser's rendering.
- The media engine, its fabrics and protocols: only the calls the modelled code makes on it.
- SQL beyond the contract its callers rely on: ordered windows, unique keys, and reads that can fail. `LIKE` folds the case of ASCII letters only, and trimming removes spaces, tabs and line ends only.
- `stamp_since` on publication: the model publishes the projection as it is after it.
- The textual form of resume tokens: a token is its epoch and revision, or not a token.
- The loop cadence of the reconciler and the projector, and the `Notify` that wakes them: a pass may run at any time.
- `converge_pull_inputs`, `converge_srt_call_inputs` and `converge_ingest_key_state`: they rest on ingest internals that are not part of this model.
- URL parsing of recirculation targets is an input.
- The decoders' blocked-write shares and `keyframe_intervals` of the flight recorder: the first repeats the byte differencing, the second is an average.
- `trace` and `newest` of the flight recorder: `trace` is the memory window without an end.
- Floating point is modelled by real numbers: the rounding of bitrates and of the jitter product is not.
- Thinning.Thin: does not model overflow of `next * (len - 1)`, which needs a list of more than 2^53 samples at 2000 points.
- Schedules.LatestIsGreatest: does not model `i64` overflow near the ends of time.
- SchedulerRuns.StepKeepsInv: recording a run always succeeds; a write that fails after the action began is not modelled.
- SchedulerRuns.CloseTicksMissNothing: is about ticks of one unedited schedule, each taken whole; a slow action only makes the next tick later.
- SentBytes.SampledIsTrafficIff: needs each reading to name an output once.
- HttpSniff.Classify: a timeout, an end of stream and a read error are one event, as in the source; the clock behind the timeout is not modelled.
- OutputRuns.StepKeepsInv: each pass over the output is one step; the rows it lists are as they are then.
- Store writes that fail elsewhere, async cancellation inside a pass, and the quality of the jitter hash.
