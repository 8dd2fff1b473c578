# Verified models of okay-hermes-realtime

Dafny models of the stateful parts of the voice assistant, with proofs about whole runs. Code that changes
state in place is a class whose methods are proved against a step function on values; the `*Runs` files then
prove properties of every sequence of steps, in any interleaving. Numbers that the program keeps in 32 or 64
bits wrap in the model; samples and probabilities are reals.

- **Capture** (`SampleRing`, `CapturePipeline`, `ResamplerRates`, `RingRace`, `WakeDetector`, with `Arithmetic`):
  the sample ring of the wake listener against the full sample history, alone and with a reader racing the writer;
  the integer-accumulator resampler with its exact closed form and the exact rates for which 32 bits suffice; the
  consecutive-hit detector against the position of a hit in its run.
- **Task turn scheduler** (`TaskTurnScheduler`, `TaskTurnRuns`, `TaskTurnDemand`): exactly when a `response.create` is
  sent, that every demand is met, and where every background task event is at any time. Channel readiness and throwing sends are free inputs of each step.
- **Gateway** (`Gateway`, `GatewayRuns`, `GatewayReplies`, `GatewayLimit`): overlapping `/session` attempts, the
  replay cache of `/execute`, and the replies of both. A step is one stretch between awaits; the upstream answer, the controller's session id, fresh tokens
  and the outcome of a capability are inputs.
- **Interruption timeline** (`InterruptionTimeline`, `InterruptionRuns`): the incremental reducer, with mutable
  trace records shared by a list and a map, against a declarative reading of the whole call log.
- **Voice page** (`VoicePage`, `VoicePageRuns`, `FarewellRuns`, `PageReading`): posting each function call once,
  sending each output to the conversation that asked for it, the farewell latch with its fallback timer, and what a
  run says exactly about posts, outputs, peer, scope and latch.
- **Measurements and tray** (`ProcessTree`, `ProcStat`, `PyText`, `Decimal`, `LifecycleDeltas`, `UnitPath`):
  process-tree closure, `/proc/<pid>/stat` parsing, lifecycle pairing, and unit-path escaping.

Some promises do not hold on all runs. The model follows the code there, and each has a concrete failing run and an
exact condition:

| promise | fails on | holds exactly when |
|---|---|---|
| the 32-bit accumulator keeps the closed form | `LargestRateWraps` | rate - gcd(16000, rate) + 16000 < 2^32 (`SafeExactlyWhen`) |
| a racing snapshot is the window at the loaded index | `OneStoreTooMany`, `ListenerRingCanTear` | the writer stayed clear of each element until its copy (`ExactIffClear`) |
| a repeated call id does not execute again in its scope | `AwaitingCallsRace` | it already has a result there, or the cache is full (`ExecutesIffNoResult`) |
| a repeated call id gets the same reply (README.md:114 of the repository) | `LateResultChangesReplay` | it does not conclude twice with different results in the scope (`EntriesAreStableIff`) |
| the cache holds at most 512 entries | `LimitCanBeExceeded` | no awaiting call concludes a new id on a full cache (`LimitExceededIff`) |
| a cached result belongs to its scope | `LateResultCrossesScopes` | no result arrives after a commit that its execution did not see (`EntriesAreNativeIff`) |
| the farewell ends the conversation | `StaleMediaSurvivesFarewell`: microphone granted after Stop | nothing has stopped the page since it was last started (`ClearingTearsDown`) |
| a call id is posted once per peer | `RestartPostsTwice`: the same grant, then another start | the page was not restarted over the peer in between (`RepostedIffRestarted`) |
| unit paths can be decoded | `WideUnitsCollide` | every escaped code unit is below 0x100 (`DecodeUndoesEscape`) |

A page whose microphone grants answer a start that has not been stopped meets both page conditions on every run
(`OrderlyNeverRestartsOver`, `OrderlyFarewellCloses`).

## Model

| member | source | states |
|---|---|---|
| `SampleRing.SampleRing.Init` | native/okay-hermes-realtime-wake-listener.c:388-401 | a ring is created exactly for a positive capacity that can be allocated, empty and zeroed |
| `SampleRing.SampleRing.Write` | native/okay-hermes-realtime-wake-listener.c:413-429 | any number of samples, also more than the capacity, extends the history; buffer, index and 64-bit count stay the image of the history |
| `SampleRing.SampleRing.SnapshotLatest` | native/okay-hermes-realtime-wake-listener.c:431-451 | without a concurrent writer the reader gets all or nothing: the newest samples of the history, or an untouched buffer; a window longer than the ring is filled with newest samples only |
| `SampleRing.SlotIsModulo` | native/okay-hermes-realtime-wake-listener.c:423 | the slot of the k-th sample is k modulo the capacity |
| `SampleRing.ImageKeepsLatest` | native/okay-hermes-realtime-wake-listener.c:421-424 | a sample stays readable in its slot until capacity newer ones were stored |
| `SampleRing.SnapshotIsSuffix` | native/okay-hermes-realtime-wake-listener.c:440-448 | the copied elements are the last n of the history |
| `RingRace.RunKeepsInvariant` | native/okay-hermes-realtime-wake-listener.c:421-448 | every interleaving of slot stores, index and count publications, loads and copies keeps ring and reader consistent with the history |
| `RingRace.SnapshotUnderRace` | native/okay-hermes-realtime-wake-listener.c:413-451 | under every interleaving each copied element is the newest sample its slot held, never an unwritten or too old one, and the snapshot is exactly the window ending at the loaded index when the writer stayed clear |
| `RingRace.SlackIsEnough` | native/okay-hermes-realtime-wake-listener.c:413-451 | at most capacity - n stores after the index load make the snapshot exact |
| `RingRace.ExactIffClear` | native/okay-hermes-realtime-wake-listener.c:413-451 | with pairwise different samples a snapshot is the window if and only if the writer stayed clear of it |
| `RingRace.OneStoreTooMany` | native/okay-hermes-realtime-wake-listener.c:413-451 | for every ring and window, one store beyond that bound can tear a snapshot |
| `RingRace.ListenerRingCanTear` | native/okay-hermes-realtime-wake-listener.c:1357 | the listener's own ring of 64000 and window of 48000 tear after 16001 stores |
| `CapturePipeline.ResamplerConserves` | native/okay-hermes-realtime-wake-listener.c:751-757 | for every rate, what the frames add equals samples written times rate plus the rest plus 2^32 per wrap |
| `CapturePipeline.ClosedFormExactlyWithoutWrap` | native/okay-hermes-realtime-wake-listener.c:751-757 | sample count and accumulator are quotient and remainder of 16000 F by the rate if and only if no bump wrapped |
| `CapturePipeline.SafeRates` | native/okay-hermes-realtime-wake-listener.c:751-757 | rates up to 2^32 - 16000 never wrap, on streams of any length |
| `CapturePipeline.LargestRateWraps` | native/okay-hermes-realtime-wake-listener.c:751-757 | the largest 32-bit rate does wrap |
| `ResamplerRates.RemainderStaysBelow` | native/okay-hermes-realtime-wake-listener.c:751-757 | no accumulator value comes closer to the rate than its greatest common divisor with 16000 |
| `ResamplerRates.RemainderReached` | native/okay-hermes-realtime-wake-listener.c:751-757 | for every rate some stream leaves the accumulator exactly that close |
| `ResamplerRates.SafeExactlyWhen` | native/okay-hermes-realtime-wake-listener.c:751-757 | a rate never wraps on any stream if and only if it exceeds 2^32 - 16000 by less than that divisor |
| `CapturePipeline.OutputComesFrom` | native/okay-hermes-realtime-wake-listener.c:746-757 | output j is the downmix of frame ceil((j+1) rate / 16000) - 1, the first by whose end 16000 per frame reaches j+1 rates |
| `CapturePipeline.BufferingIsInvisible` | native/okay-hermes-realtime-wake-listener.c:904-940 | a run of callbacks equals one callback over the concatenated frames |
| `CapturePipeline.PartialFrameIsDropped` | native/okay-hermes-realtime-wake-listener.c:904-940 | samples beyond the last whole frame of a buffer change nothing |
| `CapturePipeline.SplittingDoesNotMatter` | native/okay-hermes-realtime-wake-listener.c:904-940 | two splittings of one frame stream leave equal buffer, index, count and accumulator |
| `CapturePipeline.SnapshotShowsLatestFrames` | native/okay-hermes-realtime-wake-listener.c:431-940 | end to end, every element of a snapshot is the downmix of one determined input frame |
| `CapturePipeline.CaptureState.ParamChanged` | native/okay-hermes-realtime-wake-listener.c:945-964 | a format change restarts the accumulator and stores rate and channels |
| `CapturePipeline.CaptureState.OnProcess` | native/okay-hermes-realtime-wake-listener.c:904-940 | one callback appends exactly the resampled downmix of its whole frames, with rate 0 read as 16000 |
| `CapturePipeline.MixAndResample` | native/okay-hermes-realtime-wake-listener.c:731-758 | the loop computes the one-pass resampling of the mono frames |
| `CapturePipeline.Downmix` | native/okay-hermes-realtime-wake-listener.c:747-750 | the mono value is the mean of the frame's channels, between two of them |
| `CapturePipeline.EqualChannelsAreKept` | native/okay-hermes-realtime-wake-listener.c:747-750 | a frame of equal channels keeps their value |
| `CapturePipeline.ChannelsCountAlike` | native/okay-hermes-realtime-wake-listener.c:747-750 | raising any one channel by d raises the mono value by d over the number of channels |
| `CapturePipeline.MeanLiesBetween` | native/okay-hermes-realtime-wake-listener.c:747-750 | the mono value lies between the least and the greatest channel |
| `CapturePipeline.WriteFrame` | native/okay-hermes-realtime-wake-listener.c:752-756 | a frame's sample is written once per whole rate in the bumped accumulator and the remainder is carried |
| `WakeDetector.Worker.Observe` | native/okay-hermes-realtime-wake-listener.c:837-859 | a failed inference changes nothing, a miss clears the counter, the hit that completes the windows fires and clears it |
| `WakeDetector.Worker.Run` | native/okay-hermes-realtime-wake-listener.c:820-863 | over any inference sequence the worker fires exactly at hits whose position in their run is a multiple of the windows; the counter stays below them |
| `WakeDetector.RunFiresPerWindow` | native/okay-hermes-realtime-wake-listener.c:837-859 | a run with L hits fires floor(L / windows) times |
| `WakeDetector.FailureIsInvisible` | native/okay-hermes-realtime-wake-listener.c:837-842 | dropping a failed inference changes no position after it |
| `TaskTurns.EventKeyInjective` | frontend/task-turn-scheduler.js:1-3 | two events share a key only if task id and event id agree |
| `TaskTurns.TaskTurnScheduler.ResetAll` | frontend/task-turn-scheduler.js:33-42 | every flag and both maps are cleared |
| `TaskTurns.TaskTurnScheduler.Requeue` | frontend/task-turn-scheduler.js:82-84 | the loop puts every in-flight event back among the pending ones |
| `TaskTurns.TaskTurnScheduler.MaybeCreateResponse` | frontend/task-turn-scheduler.js:103-141 | a response is sent exactly when requested, unblocked, ready and not thrown; a throw restores events and request |
| `TaskTurns.TaskTurnScheduler.OnChannelReady` | frontend/task-turn-scheduler.js:44-46 | retries a waiting request |
| `TaskTurns.TaskTurnScheduler.OnTaskEvent` | frontend/task-turn-scheduler.js:48-52 | files the event under its key and asks for a response |
| `TaskTurns.TaskTurnScheduler.OnSpeechStarted` | frontend/task-turn-scheduler.js:54-58 | opens a spoken turn |
| `TaskTurns.TaskTurnScheduler.OnSpeechStopped` | frontend/task-turn-scheduler.js:60-64 | waits for the commit unless it has already come |
| `TaskTurns.TaskTurnScheduler.OnAudioCommitted` | frontend/task-turn-scheduler.js:66-70 | records the commit and asks for a response |
| `TaskTurns.TaskTurnScheduler.OnResponseCreated` | frontend/task-turn-scheduler.js:72-75 | the pending creation becomes an active response |
| `TaskTurns.TaskTurnScheduler.OnResponseDone` | frontend/task-turn-scheduler.js:77-96 | a completed response drops its events, any other or a deferring one puts them back, and only a deferring one sends nothing |
| `TaskTurns.TaskTurnScheduler.Request` | frontend/task-turn-scheduler.js:98-101 | sets the request and tries at once |
| `TaskTurnRuns.SafeInvariant` | frontend/task-turn-scheduler.js:72-118 | in every run creation and response exclude each other, events are in flight only meanwhile, and awaiting a commit means speech has stopped uncommitted |
| `TaskTurnRuns.InFlightIsOutgoing` | frontend/task-turn-scheduler.js:77-141 | the in-flight events are those of the one response.create whose response has not ended |
| `TaskTurnRuns.NoEventLost` | frontend/task-turn-scheduler.js:48-141 | arrived keys are always the pending, in-flight and acknowledged ones together |
| `TaskTurnRuns.NoEventDuplicated` | frontend/task-turn-scheduler.js:48-141 | if keys arrive once, the three are disjoint and events are carried unchanged |
| `TaskTurnRuns.AnnouncedBetween` | frontend/task-turn-scheduler.js:115-129 | only announced events are in flight or acknowledged, and only arrived ones are announced |
| `TaskTurnRuns.NeverReannounced` | frontend/task-turn-scheduler.js:115-129 | an acknowledged event is never announced again |
| `TaskTurnRuns.SpeechIsNotTalkedOver` | frontend/task-turn-scheduler.js:54-113 | nothing is sent while the user speaks or between a speech start and its first commit |
| `TaskTurnRuns.BlockersAreExact` | frontend/task-turn-scheduler.js:54-113 | a request is held back exactly by live speech, a missing commit or an open response, all read off the run |
| `TaskTurnRuns.SendsAreSeparated` | frontend/task-turn-scheduler.js:77-118 | between two sends a response ended or the scheduler was reset |
| `TaskTurnRuns.NoLostWakeUp` | frontend/task-turn-scheduler.js:44-141 | after every handler but a deferring one, a standing unblocked request means the channel was not ready or the send threw |
| `TaskTurnDemand.RequestedIffAsked` | frontend/task-turn-scheduler.js:48-141 | a request stands exactly if a task event, committed speech, a request or a deferral of events asked for a response that was neither sent nor withdrawn since |
| `TaskTurnDemand.AskedIsBlocked` | frontend/task-turn-scheduler.js:103-113 | after a handler that could send, what was asked for waits only for speech, a missing commit or an open response |
| `TaskTurnDemand.DemandIsMet` | frontend/task-turn-scheduler.js:48-141 | over every continuation, each demand has been answered by a response.create at the first such handler that finds none of these, unless a reset or a failed response withdrew it |
| `TaskTurnDemand.SendsIff` | frontend/task-turn-scheduler.js:44-141 | a handler sends exactly on a demand, when it tries to, the channel takes it and nothing blocks it |
| `TaskTurnDemand.CommittedSpeechIsAnswered` | frontend/task-turn-scheduler.js:66-70 | committed speech is answered at once with all pending events, if the channel takes it and no response is open |
| `TaskTurnRuns.DeferralResumes` | frontend/task-turn-scheduler.js:77-101 | over every continuation without a reset, what a deferring response was to announce is pending again, and announced once a handler could send and the run shows no reason to wait |
| `TaskTurnRuns.UnrequestedEventsAreStalled` | frontend/task-turn-scheduler.js:81-90 | events wait without a request only after a response that did not complete, with no request since |
| `TaskTurnRuns.PendingUntilAnnounced` | frontend/task-turn-scheduler.js:48-141 | over every continuation without a reset a pending event stays pending until some response.create announces it |
| `TaskTurnRuns.NothingPendingWithoutReason` | frontend/task-turn-scheduler.js:44-141 | after a handler that could send, events are pending only during speech, before a commit, during a response, or after one that did not complete |
| `TaskTurnRuns.PendingIsAnnounced` | frontend/task-turn-scheduler.js:44-141 | hence every event has been announced by the first such handler after which none of these reasons holds |
| `TaskTurnRuns.CommitLeavesTwoReasons` | frontend/task-turn-scheduler.js:66-70 | after a commit only live speech or an open response holds events back |
| `TaskTurnRuns.CompletionClosesResponse` | frontend/task-turn-scheduler.js:77-96 | after a completed response the response is no reason any more |
| `Gateway.App.BeginSession` | src/realtime_action_spike/gateway.py:460-461 | an attempt gets the next number and changes nothing else |
| `Gateway.App.EndSession` | src/realtime_action_spike/gateway.py:462-504 | only an accepted newest attempt replaces session and scope and clears the cache |
| `Gateway.App.Admit` | src/realtime_action_spike/gateway.py:314-365 | stale scope, conflicting reuse, replay and full cache are told apart without a change of state |
| `Gateway.App.Record` | src/realtime_action_spike/gateway.py:393-417 | success and caught errors are cached with the reply that is sent; an uncaught exception leaves no entry |
| `Gateway.App.Execute` | src/realtime_action_spike/gateway.py:305-417 | a request runs exactly when admission refuses nothing, and then its outcome is cached |
| `GatewayRuns.CommitsIncrease` | src/realtime_action_spike/gateway.py:460-495 | under every interleaving committed attempt numbers strictly increase |
| `GatewayRuns.OnlyCommitsChangeSession` | src/realtime_action_spike/gateway.py:468-495 | failed and superseded attempts leave session, scope and cache alone |
| `GatewayRuns.SessionIsLastCommit` | src/realtime_action_spike/gateway.py:493-494 | session and scope are always those of the last commit |
| `GatewayReplies.SessionRepliesAreTrue` | src/realtime_action_spike/gateway.py:468-504 | an attempt is told Created exactly when it commits, with the session and scope now in force; Superseded exactly when its post returned and a newer attempt has begun since; otherwise BadGateway |
| `GatewayReplies.AttemptsBegan` | src/realtime_action_spike/gateway.py:460-461 | every attempt that ends began at a determined earlier step |
| `GatewayRuns.ExecutesInLastCommittedScope` | src/realtime_action_spike/gateway.py:314-319 | whatever executes carries the last committed scope, of the session the controller runs |
| `GatewayRuns.EntriesAreConclusions` | src/realtime_action_spike/gateway.py:393-416 | every cached entry is the result of the last execution of its call id to conclude under the current scope |
| `GatewayRuns.ConclusionsAreCached` | src/realtime_action_spike/gateway.py:393-416 | conversely the last such result is cached until the next commit |
| `GatewayRuns.ExecutesIffNoResult` | src/realtime_action_spike/gateway.py:332-365 | a request in scope runs exactly when its call id has no result there and there is room |
| `GatewayReplies.ScopeIsCurrentIff` | src/realtime_action_spike/gateway.py:314-319 | a request is in scope exactly if it carries the token of the last commit, made for a local session that the controller still runs |
| `GatewayReplies.RefusalsAreExact` | src/realtime_action_spike/gateway.py:314-365 | stale_session exactly out of scope, the call limit exactly for a new call id with 512 results cached, and execution exactly otherwise |
| `GatewayRuns.ExecutesOncePerScope` | src/realtime_action_spike/gateway.py:332-417 | a call id runs again in a scope only if its earlier execution died uncaught or is still awaiting |
| `GatewayRuns.BrokerExecutesOnce` | src/realtime_action_spike/gateway.py:332-417 | a broker execution that succeeded or was caught is never repeated in its scope |
| `GatewayRuns.ReplaysAreIdentical` | src/realtime_action_spike/gateway.py:333-352 | a repeat gets exactly the status and body of the last concluded execution of the call id, awaiting or not; another request under the same call id is refused |
| `GatewayReplies.RepeatsAreReported` | src/realtime_action_spike/gateway.py:333-417 | a success is reported and replayed with status 200, a caught error with 400, both with their own body; another request under the call id is a conflict |
| `GatewayReplies.UncaughtLeavesNothing` | src/realtime_action_spike/gateway.py:366-417 | an uncaught exception is a server error that leaves the state as it was |
| `GatewayRuns.EntriesAreStableIff` | src/realtime_action_spike/gateway.py:332-416 | replays of a call id never change within a scope if and only if it never concludes there with two different results |
| `GatewayRuns.SecondConclusionAwaited` | src/realtime_action_spike/gateway.py:368-416 | a second result in a scope comes only from an execution that was awaiting before the first was cached |
| `GatewayRuns.LateResultChangesReplay` | src/realtime_action_spike/gateway.py:368-416 | the second of two overlapping executions changes what replays are answered with |
| `GatewayRuns.CacheIsBounded` | src/realtime_action_spike/gateway.py:354-365 | the cache exceeds 512 entries at most by the number of executions that ever awaited at one time |
| `GatewayRuns.LimitExceededIff` | src/realtime_action_spike/gateway.py:354-416 | 512 is exceeded if and only if, in the scope, an awaiting execution concluded a new call id on a full cache |
| `GatewayLimit.LimitCanBeExceeded` | src/realtime_action_spike/gateway.py:354-416 | with at most one execution awaiting at a time the cache reaches 513 entries |
| `GatewayRuns.EntriesBelongToScope` | src/realtime_action_spike/gateway.py:411-416 | if no result crosses a commit, every entry is the outcome of an execution that began and concluded in the current scope |
| `GatewayRuns.EntriesAreNativeIff` | src/realtime_action_spike/gateway.py:411-416 | entries belong to their scope throughout a run if and only if no result arrives after a commit since its execution began |
| `GatewayRuns.AwaitingCallsRace` | src/realtime_action_spike/gateway.py:368-376 | two overlapping awaiting requests with one call id both execute |
| `GatewayRuns.LateResultCrossesScopes` | src/realtime_action_spike/gateway.py:368-416 | a late result is cached under a scope it never ran in |
| `InterruptionTimeline.InterruptionTrace.Record` | src/realtime_action_spike/openai/interruption.py:151-179 | a field is written by the first observation of its kind only, and the answer says whether it was |
| `InterruptionTimeline.InterruptionTimelineReducer.BeginResponse` | src/realtime_action_spike/openai/interruption.py:106-132 | a valid new response becomes active and closes its predecessor's trace; any other begin is refused without a change |
| `InterruptionTimeline.InterruptionTimelineReducer.Consume` | src/realtime_action_spike/openai/interruption.py:134-172 | only events of the session and the active response, not before its begin, reach its trace, which list and map share |
| `InterruptionRuns.FirstIsFirst` | src/realtime_action_spike/openai/interruption.py:153-172 | the observation a field must hold is the earliest matching call of the log |
| `InterruptionRuns.NextBeginIsNext` | src/realtime_action_spike/openai/interruption.py:125-127 | the begin that closes a trace is the next accepted one of the log |
| `InterruptionRuns.ReducerRefinesLog` | src/realtime_action_spike/openai/interruption.py:106-172 | after every log the traces are the observed responses in order of first observation, one each, every field holding the first matching value |
| `InterruptionRuns.ConsumeAnswersChange` | src/realtime_action_spike/openai/interruption.py:134-179 | consume answers true exactly when the state changes, which is at the first observation of each kind |
| `InterruptionRuns.BeginsAreChecked` | src/realtime_action_spike/openai/interruption.py:113-132 | a new id of 1 to 256 characters without control characters or outer white space, with no negative time or audio start, becomes active; any other begin changes nothing |
| `InterruptionRuns.AcceptedBeginsIff` | src/realtime_action_spike/openai/interruption.py:106-132 | in every log a begin is accepted exactly if its values are in range and no earlier begin of its response was |
| `PyText.SpacesByCode` | src/realtime_action_spike/openai/interruption.py:187 | the white space that strip removes, by code point |
| `InterruptionRuns.FieldsNeverChange` | src/realtime_action_spike/openai/interruption.py:106-179 | no set field changes again and no trace disappears or moves |
| `VoicePage.VoicePage.StartConversation` | frontend/voice.js:777-784 | a start forgets the known calls and re-arms the teardown |
| `VoicePage.VoicePage.MediaGranted` | frontend/voice.js:789-809 | a fresh peer and channel become current |
| `VoicePage.VoicePage.AnswerReceived` | frontend/voice.js:919-926 | the scope is taken only while the answering peer is current |
| `VoicePage.VoicePage.ExecuteFunctionCall` | frontend/voice.js:567-594 | a nonempty unknown call id is posted with the current peer, channel and scope; anything else is not |
| `VoicePage.VoicePage.FinishFunctionCall` | frontend/voice.js:611-671 | the output goes out only to an unchanged conversation; an ending call then sets latch and fallback |
| `VoicePage.VoicePage.OnResponseDone` | frontend/voice.js:751-767 | on a set latch a completed response becomes the farewell and any other closes |
| `VoicePage.VoicePage.OnPlaybackStopped` | frontend/voice.js:725-737 | playback closes a latched page if it is the farewell's or none is known |
| `VoicePage.VoicePage.OnFallback` | frontend/voice.js:661-668 | the armed fallback closes a latched page |
| `VoicePage.VoicePage.StopConversation` | frontend/voice.js:939-1002 | everything is dropped once, and nothing happens again until the next start |
| `VoicePage.VoicePage.OnPageShown` | frontend/voice.js:1014-1024 | a page restored from the cache re-arms the teardown and changes nothing else of the model |
| `VoicePageRuns.PostedOnce` | frontend/voice.js:567-575 | on one peer a call id is posted again only after a start over that peer, between the two posts |
| `VoicePageRuns.RepostedIffRestarted` | frontend/voice.js:567-784 | a posted call that arrives again on its peer is posted again if and only if the page was restarted over that peer since the last post |
| `PageReading.PostsIff` | frontend/voice.js:567-575 | a call on a peer is posted exactly if it was not posted since the last start or teardown |
| `VoicePageRuns.OrderlyNeverRestartsOver` | frontend/voice.js:777-986 | if starts come from the enabled button and microphone grants answer a start not stopped since, no start finds a peer |
| `VoicePageRuns.OrderlyPostsOnce` | frontend/voice.js:567-784 | then no call id is posted twice on a peer |
| `VoicePageRuns.OutputsMatchTheirCall` | frontend/voice.js:611-617 | an output is sent only with the peer, channel and scope of its post, the peer having stayed current |
| `PageReading.OutputSentIff` | frontend/voice.js:611-633 | the output of a finished call is sent exactly if peer, channel and scope are those of its post, the request had not finished before and the channel takes it, whatever the call did |
| `VoicePageRuns.ContextStoodStill` | frontend/voice.js:611-926 | with one session answer per peer, peer, channel and scope have not changed at any moment between post and output |
| `PageReading.PeerIsCurrentIff` | frontend/voice.js:789-809 | a granted microphone opens a peer that is current exactly until another grant or a teardown |
| `PageReading.ScopeIsAnswered` | frontend/voice.js:919-926 | an answer for the current peer brings the scope until the next one; an answer for any other peer changes nothing |
| `PageReading.ScopeIsLastScope` | frontend/voice.js:789-965 | the scope is that of the last applied answer since the last teardown, and the channel is the one opened with the peer |
| `VoicePageRuns.OutputSentOnce` | frontend/voice.js:567-633 | on one peer the output of a call id is sent twice only for two posts with a start over that peer between them |
| `VoicePageRuns.OrderlyOutputsOnce` | frontend/voice.js:567-986 | started in order, the page sends no output twice on a peer |
| `FarewellRuns.LatchMeansFallback` | frontend/voice.js:655-668 | in every run the latch holds exactly while the fallback is armed, and a farewell is known only then |
| `FarewellRuns.LatchHasCause` | frontend/voice.js:634-655 | the latch is set only by the sent output of a call that ended the session |
| `PageReading.LatchSetsIff` | frontend/voice.js:634-655 | an unlatched page is latched exactly by the sent output of a call that ends the session, once the update went out |
| `PageReading.FarewellIsKnown` | frontend/voice.js:752-757 | the known farewell is the last response that completed under the latch |
| `PageReading.LatchClearsIff` | frontend/voice.js:661-767 | a latched page is released exactly by a response that did not complete, by playback that is the farewell's or comes before any is known, by the fallback, or by the first stop |
| `FarewellRuns.FarewellIsPlayedOut` | frontend/voice.js:725-757 | playback of another response does not cut a known farewell |
| `FarewellRuns.ClearingStops` | frontend/voice.js:725-767 | every step that clears the latch calls stopConversation |
| `PageReading.StopCalledIff` | frontend/voice.js:661-767 | stopConversation is called exactly by a stop or when the latch is cleared |
| `PageReading.StopDropsEverythingOnce` | frontend/voice.js:939-1002 | the first stop since the page was armed drops everything and enables the button; a further one leaves the conversation alone |
| `FarewellRuns.LatchedPageIsLive` | frontend/voice.js:611-655 | a page that waits for its farewell has a current peer |
| `FarewellRuns.ClearingTearsDown` | frontend/voice.js:939-1024 | clearing the latch tears the conversation down if and only if stopConversation has not run since the page was last started or shown; otherwise the conversation stays as it is |
| `FarewellRuns.FallbackTearsDown` | frontend/voice.js:661-668 | the same condition is exact when the fallback fires |
| `FarewellRuns.OrderlyFarewellCloses` | frontend/voice.js:777-1002 | started in order, the page is torn down by every farewell |
| `FarewellRuns.StaleMediaSurvivesFarewell` | frontend/voice.js:788-809 | a microphone granted after a stop opens a peer that the farewell cannot close |
| `VoicePageRuns.RestartPostsTwice` | frontend/voice.js:777-809 | a microphone granted after Stop and then another start let one call be posted twice |
| `ProcessTree.DiscoverProcessTree` | scripts/measure_runtime.py:139-172 | for every parent map and item order, cycles included, the result is the increasing list of exactly the pids whose parent chain reaches the root; one error exactly for a root that is not positive, the other exactly for a missing one |
| `ProcessTree.IncreasingIsUnique` | scripts/measure_runtime.py:172 | that list is determined by its members |
| `ProcStat.LineIsCut` | scripts/measure_runtime.py:77-87 | the line is cut at the first opening and last closing parenthesis whatever the command holds |
| `ProcStat.ParseUndoesPrint` | scripts/measure_runtime.py:76-105 | pid, command, parent, start and CPU sum are recovered from every printed line |
| `ProcStat.ShortLinesAreRejected` | scripts/measure_runtime.py:88-89 | a line with fewer than 20 fields is refused |
| `ProcStat.RefusedLines` | scripts/measure_runtime.py:90-99 | a printed line with enough fields is refused exactly for a needed field that is no integer, or else for a value out of range |
| `ProcStat.MalformedIff` | scripts/measure_runtime.py:78-81 | the command field is malformed exactly if the stripped text has no nonempty head before outermost parentheses |
| `PyText.ParseSigned` | scripts/measure_runtime.py:82-94 | a sign before the digits is read |
| `ProcStat.AcceptedTexts` | scripts/measure_runtime.py:76-105 | every accepted text has that shape and a positive pid, and parent, CPU sum and start are the non-negative values of its fields 1, 11, 12 and 19 |
| `LifecycleDeltas.Sessions` | scripts/measure_runtime.py:248 | exactly the sessions of the trace, in order of first appearance |
| `LifecycleDeltas.FirstSessionLeads` | scripts/measure_runtime.py:248 | the session of the first marker comes first |
| `LifecycleDeltas.Nearest` | scripts/measure_runtime.py:256-262 | the distance to the nearest end in the session, if there is one |
| `LifecycleDeltas.Delta` | scripts/measure_runtime.py:246-266 | the metric belongs to the first paired start of the first session that has one, and is missing exactly if none is paired |
| `LifecycleDeltas.ChosenIsUnique` | scripts/measure_runtime.py:249-265 | that start is unique |
| `UnitPath.SystemdUnitObjectPath` | native/realtime-tray/tray_state.h:39-51 | the loop appends the escape of every code unit to the prefix |
| `UnitPath.ControllerPath` | native/realtime-tray/tray_state.h:39-51 | the controller unit has the path /org/freedesktop/systemd1/unit/okay_2dhermes_2drealtime_2dcontroller_2eservice |
| `UnitPath.DecodeUndoesEscape` | native/realtime-tray/tray_state.h:42-49 | a decoder gives the name back if and only if every escaped code unit is below 0x100 |
| `UnitPath.PathsAreDistinct` | native/realtime-tray/tray_state.h:39-51 | such units never share an object path |
| `UnitPath.WideUnitsCollide` | native/realtime-tray/tray_state.h:42-49 | beyond that two names can share a path |

## Left out

- Float rounding: samples and probabilities are reals, and lifecycle deltas stay in integer nanoseconds.
- Memory order of the plain slot accesses: each store, load and element copy is one sequentially consistent step.
- `on_process` repeats the loop of `mix_and_resample_downmix`; in the model it calls the same method. Null buffers, other sample formats and a zero channel count, which on_process would divide by, are not part of it.
- A format change is one atomic step, and no audio callback runs during it.
- ONNX inference, PipeWire, archives, handlers, timing of the worker loop, health status, signals: an inference is a score or a failure.
- Insertion order of JavaScript maps and the instruction text built from the events: an announcement is the map of its events.
- Event ids large enough for exponent notation, and the validation of task events before they reach the scheduler.
- Input checks of `/session` and `/execute` before the modelled state is touched (headers, media type, SDP, loopback client, argument schemas), and registration of handoffs with the controller.
- `_execution_fingerprint` is the abstract fingerprint of a request; scope tokens are told apart by the commit that issued them, so nothing depends on their randomness.
- Type errors of the interruption reducer (only wrong values are refused) and its derived properties `complete` and `speech_start_to_audible_silence_ms`.
- The controller socket's automatic first start, and the disabling of the start button while the page loads, are the first Start of the page model.
- ContextStoodStill: assumes one session answer per peer, which startConversation awaits once for the peer it created; a step of the model may answer any peer at any time.
- The tray calls the escaping function with two constant ASCII unit names only (native/realtime-tray/main.cpp:440-449), so `WideUnitsCollide` is about the function; which pairs of undecodable names collide depends on `QChar::isLetterOrNumber`.
- When the browser resolves a microphone prompt is an input of the page; that it answers a start not stopped since is assumed only by the lemmas on orderly runs.
- DOM, transcripts, status texts, control messages, WebRTC setup and the transport-failure timer of the page; failures that lead to stopConversation are Stop steps.
- The page's continuation request after all outputs of a response is an input of the scheduler model, not tied to the page model.
- Reading `/proc`, the digit limit and non-ASCII digits of Python's int, CPU percentages, memory roll-ups and trace loading.
- `QChar::isLetterOrNumber` is any predicate that rejects the underscore; the state table and the status texts of the tray are not part of this model.
