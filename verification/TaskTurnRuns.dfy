/**
 What the scheduler guarantees over whole runs. A run is a sequence of handler calls, each with the
 environment's answers; the notions below are read off the calls and what they sent, not off the flags.
 */
module TaskTurnRuns {
  import opened Wrappers
  import opened TaskTurns

  datatype Tick = Tick(input: Input, env: Env)

  type Run = seq<Tick>

  ghost function Last(run: Run): Tick
    requires run != []
  {
    run[|run| - 1]
  }

  ghost function Init(run: Run): Run
    requires run != []
  {
    run[..|run| - 1]
  }

  ghost function After(run: Run): Turns {
    if run == [] then INITIAL else Step(After(Init(run)), Last(run).input, Last(run).env).state
  }

  ghost function LastOutcome(run: Run): Outcome
    requires run != []
  {
    Step(After(Init(run)), Last(run).input, Last(run).env)
  }

  /** The events announced by handler call `i`, if it sent anything. */
  ghost function SentAt(run: Run, i: nat): Option<Events>
    requires i < |run|
  {
    LastOutcome(run[..i + 1]).sent
  }

  // ----- conservation of task events

  /** The latest arrival under each key since the last reset. */
  ghost function Arrived(run: Run): Events {
    if run == [] then map[] else
    match Last(run).input
    case Reset => map[]
    case TaskArrived(event) => Arrived(Init(run))[EventKey(event) := event]
    case _ => Arrived(Init(run))
  }

  ghost predicate DistinctArrivals(run: Run) {
    run == [] ||
    match Last(run).input
    case Reset => true
    case TaskArrived(event) => DistinctArrivals(Init(run)) && EventKey(event) !in Arrived(Init(run))
    case _ => DistinctArrivals(Init(run))
  }

  /** The events of the response.create whose response has not ended yet. */
  ghost function Outgoing(run: Run): Events {
    if run == [] then map[]
    else if LastOutcome(run).sent.Some? then LastOutcome(run).sent.value
    else if EndsResponse(Last(run).input) then map[]
    else Outgoing(Init(run))
  }

  predicate EndsResponse(input: Input) {
    input.ResponseDone? || input.Reset?
  }

  /** Keys that a completed, non-deferred response had been asked to announce, since the last reset. */
  ghost function Acknowledged(run: Run): set<string> {
    if run == [] then {} else
    match Last(run).input
    case Reset => {}
    case ResponseDone(status, deferContinuation) =>
      Acknowledged(Init(run)) + if status == "completed" && !deferContinuation then Outgoing(Init(run)).Keys else {}
    case _ => Acknowledged(Init(run))
  }

  /** Keys in some response.create that went out since the last reset. */
  ghost function Announced(run: Run): set<string> {
    if run == [] then {} else
    var before := if Last(run).input.Reset? then {} else Announced(Init(run));
    match LastOutcome(run).sent
    case Some(events) => before + events.Keys
    case None => before
  }

  ghost predicate Safe(s: Turns) {
    && !(s.responseCreatePending && s.assistantResponding)
    && (s.inFlight != map[] ==> s.responseCreatePending || s.assistantResponding)
    && (s.awaitingCommit ==> !s.userSpeaking && !s.audioCommittedSinceSpeechStarted)
  }

  lemma StepKeepsSafe(s: Turns, input: Input, env: Env)
    requires Safe(s)
    ensures Safe(Step(s, input, env).state)
  {
    match input
    case ResponseDone(status, deferContinuation) => assert Safe(Finish(s, status, deferContinuation));
    case _ =>
  }

  /** In every run: one response at a time, events in flight only while it lasts, commits tied to speech. */
  lemma {:induction false} SafeInvariant(run: Run)
    ensures Safe(After(run))
  {
    if run != [] {
      SafeInvariant(Init(run));
      StepKeepsSafe(After(Init(run)), Last(run).input, Last(run).env);
    }
  }

  /** Where the events are once a handler has done everything but try to send. */
  ghost function Held(s: Turns, input: Input): (Events, Events) {
    match input
    case Reset => (map[], map[])
    case TaskArrived(event) => (s.pending[EventKey(event) := event], s.inFlight)
    case ResponseDone(status, deferContinuation) =>
      (if deferContinuation || status != "completed" then s.pending + s.inFlight else s.pending, map[])
    case _ => (s.pending, s.inFlight)
  }

  /** A handler either leaves the held events alone or announces all pending ones, nothing being in flight. */
  ghost predicate KeptOrSent(held: (Events, Events), o: Outcome) {
    || (o.sent.None? && o.state.pending == held.0 && o.state.inFlight == held.1)
    || (o.sent == Some(held.0) && held.1 == map[] && o.state.pending == map[] && o.state.inFlight == held.0)
  }

  lemma StepKeepsOrSends(s: Turns, input: Input, env: Env)
    requires Safe(s)
    ensures KeptOrSent(Held(s, input), Step(s, input, env))
  {
    match input
    case ResponseDone(status, deferContinuation) => MaybeCreateKeeps(Finish(s, status, deferContinuation), env);
    case TaskArrived(event) =>
    case _ =>
  }

  lemma MaybeCreateKeeps(s: Turns, env: Env)
    requires Safe(s)
    ensures KeptOrSent((s.pending, s.inFlight), MaybeCreate(s, env))
  {
  }

  /** The in-flight events are exactly those of the response.create that is still unanswered. */
  lemma {:induction false} InFlightIsOutgoing(run: Run)
    ensures After(run).inFlight == Outgoing(run)
  {
    if run != [] {
      InFlightIsOutgoing(Init(run));
      SafeInvariant(Init(run));
      StepKeepsOrSends(After(Init(run)), Last(run).input, Last(run).env);
    }
  }

  /** In every run the arrived keys are the pending, in-flight and acknowledged ones: none is lost. */
  lemma {:induction false} NoEventLost(run: Run)
    ensures var s := After(run);
            Arrived(run).Keys == s.pending.Keys + s.inFlight.Keys + Acknowledged(run)
  {
    if run != [] {
      NoEventLost(Init(run));
      InFlightIsOutgoing(Init(run));
      SafeInvariant(Init(run));
      StepKeepsOrSends(After(Init(run)), Last(run).input, Last(run).env);
    }
  }

  ghost predicate PartOf(part: Events, whole: Events) {
    forall k :: k in part ==> k in whole && part[k] == whole[k]
  }

  ghost predicate Separate(pending: Events, inFlight: Events, acknowledged: set<string>) {
    pending.Keys !! inFlight.Keys && pending.Keys !! acknowledged && inFlight.Keys !! acknowledged
  }

  /** If each key arrives once, the three places are disjoint and carry the events unchanged. */
  lemma {:induction false} NoEventDuplicated(run: Run)
    requires DistinctArrivals(run)
    ensures Separate(After(run).pending, After(run).inFlight, Acknowledged(run))
    ensures PartOf(After(run).pending, Arrived(run)) && PartOf(After(run).inFlight, Arrived(run))
  {
    if run != [] {
      var s, tick := After(Init(run)), Last(run);
      SafeInvariant(Init(run));
      StepKeepsOrSends(s, tick.input, tick.env);
      if !tick.input.Reset? {
        NoEventDuplicated(Init(run));
        NoEventLost(Init(run));
        InFlightIsOutgoing(Init(run));
      }
    }
  }

  /** Only announced events are ever in flight or acknowledged, and only arrived events are announced. */
  lemma {:induction false} AnnouncedBetween(run: Run)
    ensures After(run).inFlight.Keys + Acknowledged(run) <= Announced(run) <= Arrived(run).Keys
  {
    if run != [] {
      AnnouncedBetween(Init(run));
      InFlightIsOutgoing(Init(run));
      SafeInvariant(Init(run));
      StepKeepsOrSends(After(Init(run)), Last(run).input, Last(run).env);
      NoEventLost(run);
    }
  }

  /** An acknowledged event is never announced again. */
  lemma NeverReannounced(run: Run, i: nat, key: string)
    requires i < |run| && DistinctArrivals(run[..i + 1])
    requires SentAt(run, i).Some? && key in SentAt(run, i).value
    ensures key !in Acknowledged(run[..i + 1])
  {
    var upTo := run[..i + 1];
    NoEventDuplicated(upTo);
    hide DistinctArrivals, Acknowledged;
    InFlightIsOutgoing(upTo);
    assert Outgoing(upTo) == SentAt(run, i).value;
  }

  // ----- the blockers, read off the run

  ghost predicate Speaking(run: Run) {
    run != [] &&
    match Last(run).input
    case SpeechStarted => true
    case SpeechStopped => false
    case Reset => false
    case _ => Speaking(Init(run))
  }

  ghost predicate CommittedSinceStart(run: Run) {
    run != [] &&
    match Last(run).input
    case AudioCommitted => true
    case SpeechStarted => false
    case Reset => false
    case _ => CommittedSinceStart(Init(run))
  }

  /** Speech has stopped without a commit since it started, and none has come yet. */
  ghost predicate AwaitsCommit(run: Run) {
    run != [] &&
    match Last(run).input
    case SpeechStopped => !CommittedSinceStart(Init(run))
    case SpeechStarted => false
    case AudioCommitted => false
    case Reset => false
    case _ => AwaitsCommit(Init(run))
  }

  /** A response was requested or created, and none has ended since. */
  ghost predicate ResponseOpen(run: Run) {
    run != [] &&
    (LastOutcome(run).sent.Some? ||
     (!EndsResponse(Last(run).input) && (Last(run).input.ResponseCreated? || ResponseOpen(Init(run)))))
  }

  ghost predicate BlockersAre(s: Turns, speaking: bool, awaits: bool, committed: bool, open: bool) {
    && (s.userSpeaking <==> speaking)
    && (s.awaitingCommit <==> awaits)
    && (s.audioCommittedSinceSpeechStarted <==> committed)
    && (s.responseCreatePending || s.assistantResponding <==> open)
  }

  /** What holds a request back is exactly live speech, a missing commit, or an open response. */
  lemma {:induction false} BlockersAreExact(run: Run)
    ensures BlockersAre(After(run), Speaking(run), AwaitsCommit(run), CommittedSinceStart(run), ResponseOpen(run))
    ensures Blocked(After(run)) <==> Speaking(run) || AwaitsCommit(run) || ResponseOpen(run)
  {
    if run != [] {
      BlockersAreExact(Init(run));
      var s, tick := After(Init(run)), Last(run);
      BlockersStep(s, tick.input, tick.env, Speaking(Init(run)), AwaitsCommit(Init(run)),
                   CommittedSinceStart(Init(run)), ResponseOpen(Init(run)));
    }
  }

  lemma BlockersStep(s: Turns, input: Input, env: Env, speaking: bool, awaits: bool, committed: bool, open: bool)
    requires BlockersAre(s, speaking, awaits, committed, open)
    ensures BlockersAre(Step(s, input, env).state,
              input.SpeechStarted? || (speaking && !input.SpeechStopped? && !input.Reset?),
              if input.SpeechStopped? then !committed
              else awaits && !input.SpeechStarted? && !input.AudioCommitted? && !input.Reset?,
              input.AudioCommitted? || (committed && !input.SpeechStarted? && !input.Reset?),
              Step(s, input, env).sent.Some? || (!EndsResponse(input) && (input.ResponseCreated? || open)))
  {
    match input
    case ResponseDone(status, deferContinuation) =>
      assert BlockersAre(Finish(s, status, deferContinuation), speaking, awaits, committed, false);
    case _ =>
  }

  // ----- speech is never talked over

  /** The user has started speaking and no audio has been committed since. */
  ghost predicate UncommittedSpeech(run: Run) {
    run != [] &&
    match Last(run).input
    case SpeechStarted => true
    case AudioCommitted => false
    case Reset => false
    case _ => UncommittedSpeech(Init(run))
  }

  lemma {:induction false} UncommittedSpeechBlocks(run: Run)
    requires UncommittedSpeech(run)
    ensures !CommittedSinceStart(run) && (Speaking(run) || AwaitsCommit(run))
  {
    if !Last(run).input.SpeechStarted? {
      UncommittedSpeechBlocks(Init(run));
    }
  }

  /** Nothing is sent while the user speaks, nor between a speech start and its first commit. */
  lemma SpeechIsNotTalkedOver(run: Run, i: nat)
    requires i < |run| && SentAt(run, i).Some?
    ensures !UncommittedSpeech(run[..i + 1]) && !Speaking(run[..i + 1])
  {
    var upTo := run[..i + 1];
    SendsOnlyWhenClear(After(Init(upTo)), Last(upTo).input, Last(upTo).env);
    BlockersAreExact(upTo);
    if UncommittedSpeech(upTo) {
      UncommittedSpeechBlocks(upTo);
    }
  }

  lemma SendsOnlyWhenClear(s: Turns, input: Input, env: Env)
    requires Step(s, input, env).sent.Some?
    ensures !Step(s, input, env).state.userSpeaking && !Step(s, input, env).state.awaitingCommit
  {
  }

  // ----- one response at a time

  lemma {:induction false} OpenUntil(run: Run, i: nat, j: nat)
    requires i < j <= |run| && SentAt(run, i).Some?
    requires forall k :: i < k < j ==> !EndsResponse(run[k].input)
    ensures ResponseOpen(run[..j])
    decreases j
  {
    if i + 1 < j {
      OpenUntil(run, i, j - 1);
      assert Init(run[..j]) == run[..j - 1];
    }
  }

  lemma BlockedDoesNotSend(s: Turns, input: Input, env: Env)
    requires (s.responseCreatePending || s.assistantResponding) && !EndsResponse(input)
    ensures Step(s, input, env).sent.None?
  {
  }

  lemma NoSecondSend(run: Run, i: nat, j: nat)
    requires i < j < |run| && SentAt(run, i).Some?
    requires forall k :: i < k <= j ==> !EndsResponse(run[k].input)
    ensures SentAt(run, j).None?
  {
    OpenUntil(run, i, j);
    BlockersAreExact(run[..j]);
    assert Init(run[..j + 1]) == run[..j];
    BlockedDoesNotSend(After(run[..j]), run[j].input, run[j].env);
  }

  /** Between two sends a response has ended or the scheduler was reset. */
  lemma SendsAreSeparated(run: Run, i: nat, j: nat)
    requires i < j < |run| && SentAt(run, i).Some? && SentAt(run, j).Some?
    ensures exists k :: i < k <= j && EndsResponse(run[k].input)
  {
    if forall k :: i < k <= j ==> !EndsResponse(run[k].input) {
      NoSecondSend(run, i, j);
    }
  }

  // ----- no lost wake-up

  predicate Defers(input: Input) {
    input.ResponseDone? && input.deferContinuation
  }

  /**
   After every handler but a deferring onResponseDone, a request that still stands waits for a blocker,
   or the channel was not ready, or the send has just thrown.
   */
  lemma NoLostWakeUp(run: Run)
    requires run != [] && !Defers(Last(run).input)
    requires After(run).responseRequested && !Blocked(After(run))
    ensures !Last(run).env.ready || Last(run).env.sendThrows
    ensures LastOutcome(run).sent.None?
  {
    WakeUpStep(After(Init(run)), Last(run).input, Last(run).env);
  }

  lemma WakeUpStep(s: Turns, input: Input, env: Env)
    requires !Defers(input)
    requires Step(s, input, env).state.responseRequested && !Blocked(Step(s, input, env).state)
    ensures (!env.ready || env.sendThrows) && Step(s, input, env).sent.None?
  {
  }

  /** A response ended without completing and nothing has asked for a response since. */
  ghost predicate Stalled(run: Run) {
    run != [] &&
    match Last(run).input
    case ResponseDone(status, _) => status != "completed" || Stalled(Init(run))
    case TaskArrived(_) => false
    case AudioCommitted => false
    case RequestResponse => false
    case Reset => false
    case _ => Stalled(Init(run))
  }

  /** Events wait without a request only after such a response. */
  lemma {:induction false} UnrequestedEventsAreStalled(run: Run)
    requires After(run).pending != map[] && !After(run).responseRequested
    ensures Stalled(run)
  {
    StallStep(After(Init(run)), Last(run).input, Last(run).env);
    if !RecordsFailure(Last(run).input) {
      UnrequestedEventsAreStalled(Init(run));
    }
  }

  predicate RecordsFailure(input: Input) {
    input.ResponseDone? && input.status != "completed"
  }

  lemma StallStep(s: Turns, input: Input, env: Env)
    requires var t := Step(s, input, env).state; t.pending != map[] && !t.responseRequested
    ensures RecordsFailure(input)
         || (s.pending != map[] && !s.responseRequested
             && !input.TaskArrived? && !input.AudioCommitted? && !input.RequestResponse? && !input.Reset?)
  {
  }

  // ----- every event is announced

  /** Handler call `i` sends a response.create that announces `key`. */
  ghost predicate Announces(run: Run, i: nat, key: string)
    requires i < |run|
  {
    SentAt(run, i).Some? && key in SentAt(run, i).value
  }

  /** A pending event stays pending until it is announced, whatever else happens. */
  lemma {:induction false} PendingUntilAnnounced(run: Run, n: nat, j: nat, key: string)
    requires n <= j <= |run| && key in After(run[..n]).pending
    requires forall k :: n <= k < j ==> !run[k].input.Reset?
    ensures key in After(run[..j]).pending || exists i: nat :: n <= i < j && Announces(run, i, key)
    decreases j
  {
    if n < j {
      var k := j - 1;
      PendingUntilAnnounced(run, n, k, key);
      assert Init(run[..j]) == run[..k] && run[..k + 1] == run[..j];
      SafeInvariant(run[..k]);
      StepKeepsOrSends(After(run[..k]), run[k].input, run[k].env);
      if key in After(run[..k]).pending && LastOutcome(run[..j]).sent.Some? {
        assert Announces(run, k, key);
      }
    }
  }

  /** Something in the run keeps events waiting: live speech, a missing commit, an open response, or a stall. */
  ghost predicate Waits(run: Run) {
    Speaking(run) || AwaitsCommit(run) || ResponseOpen(run) || Stalled(run)
  }

  /** The last handler call could send, and did not leave the request to a continuation. */
  ghost predicate CouldSend(run: Run) {
    run != [] && !Defers(Last(run).input) && Last(run).env.ready && !Last(run).env.sendThrows
  }

  /** After a handler call that could send, nothing is pending without one of these reasons. */
  lemma NothingPendingWithoutReason(run: Run)
    requires CouldSend(run) && After(run).pending != map[]
    ensures Waits(run)
  {
    BlockersAreExact(run);
    if After(run).responseRequested {
      if !Blocked(After(run)) {
        NoLostWakeUp(run);
      }
    } else {
      UnrequestedEventsAreStalled(run);
    }
  }

  /**
   Every event is announced: take any moment at which it is pending and any continuation without a reset.
   Each time a handler call could send, the event has been announced by then, unless the run itself shows
   a reason to wait.
   */
  lemma PendingIsAnnounced(run: Run, n: nat, j: nat, key: string)
    requires n <= j <= |run| && key in After(run[..n]).pending
    requires forall k :: n <= k < j ==> !run[k].input.Reset?
    requires CouldSend(run[..j])
    ensures Waits(run[..j]) || exists i: nat :: n <= i < j && Announces(run, i, key)
  {
    PendingUntilAnnounced(run, n, j, key);
    if key in After(run[..j]).pending {
      NothingPendingWithoutReason(run[..j]);
    }
  }

  /** A commit ends a stall and the wait for it: then only live speech or an open response can hold events. */
  lemma CommitLeavesTwoReasons(run: Run)
    requires run != [] && Last(run).input.AudioCommitted?
    ensures Waits(run) <==> Speaking(run) || ResponseOpen(run)
  {
  }

  /** A completed response that defers nothing leaves only live speech, a missing commit or an older stall. */
  lemma CompletionClosesResponse(run: Run)
    requires run != [] && Last(run).input == ResponseDone("completed", false) && LastOutcome(run).sent.None?
    ensures Waits(run) <==> Speaking(run) || AwaitsCommit(run) || Stalled(run)
  {
  }

  /**
   A deferral loses nothing: what the deferring response had been asked to announce is pending again with
   its request standing, and is announced like any pending event, over any continuation.
   */
  lemma DeferralResumes(run: Run, i: nat, j: nat, key: string)
    requires i < j <= |run| && Defers(run[i].input) && key in Outgoing(run[..i])
    requires forall k :: i < k < j ==> !run[k].input.Reset?
    ensures var deferred := After(run[..i + 1]); key in deferred.pending && deferred.responseRequested
    ensures SentAt(run, i).None?
    ensures CouldSend(run[..j]) ==> Waits(run[..j]) || exists k: nat :: i < k < j && Announces(run, k, key)
  {
    InFlightIsOutgoing(run[..i]);
    assert Init(run[..i + 1]) == run[..i];
    DeferralPutsBack(After(run[..i]), run[i].input, run[i].env, key);
    if CouldSend(run[..j]) {
      PendingIsAnnounced(run, i + 1, j, key);
    }
  }

  lemma DeferralPutsBack(s: Turns, input: Input, env: Env, key: string)
    requires Defers(input) && key in s.inFlight
    ensures var o := Step(s, input, env); o.sent.None? && o.state.responseRequested && key in o.state.pending
  {
  }
}
