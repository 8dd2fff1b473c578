/**
 Which responses the scheduler owes and which it sends. What has been asked for is read off the run; a
 response is sent exactly on such a demand, and every demand is met as soon as nothing holds it back.
 */
module TaskTurnDemand {
  import opened Wrappers
  import opened TaskTurns
  import opened TaskTurnRuns

  /** Handler call `i` asks for a response: a task event, committed speech, a request, or a deferral of events. */
  ghost predicate Asks(run: Run, i: nat)
    requires i < |run|
  {
    match run[i].input
    case TaskArrived(_) => true
    case AudioCommitted => true
    case RequestResponse => true
    case ResponseDone(_, deferContinuation) => deferContinuation && Outgoing(run[..i]) != map[]
    case _ => false
  }

  /** Handler call `i` ends what was asked before it: by a reset, or by a response that did not complete. */
  ghost predicate Withdraws(run: Run, i: nat)
    requires i < |run|
  {
    run[i].input.Reset? || (RecordsFailure(run[i].input) && !Asks(run, i))
  }

  /** Handler call `i` is the answer to what was asked, or its end. */
  ghost predicate Settles(run: Run, i: nat)
    requires i < |run|
  {
    SentAt(run, i).Some? || Withdraws(run, i)
  }

  /** A response has been asked for, and neither sent nor withdrawn since. */
  ghost predicate Asked(run: Run) {
    exists i: nat :: i < |run| && Asks(run, i) && forall k: nat :: i <= k < |run| ==> !Settles(run, k)
  }

  lemma PrefixAt(run: Run, n: nat, i: nat)
    requires i < n <= |run|
    ensures Asks(run[..n], i) == Asks(run, i) && Settles(run[..n], i) == Settles(run, i)
    ensures SentAt(run[..n], i) == SentAt(run, i)
  {
    assert run[..n][..i] == run[..i] && run[..n][..i + 1] == run[..i + 1];
  }

  lemma AskedStays(run: Run)
    requires run != [] && !Settles(run, |run| - 1)
    requires Asks(run, |run| - 1) || Asked(Init(run))
    ensures Asked(run)
  {
    hide Asks, Settles;
    var last, before := |run| - 1, Init(run);
    if !Asks(run, last) {
      var i: nat :| i < last && Asks(before, i) && forall k: nat :: i <= k < last ==> !Settles(before, k);
      PrefixAt(run, last, i);
      forall k: nat | i <= k < last
        ensures !Settles(run, k)
      {
        PrefixAt(run, last, k);
      }
      assert Asks(run, i);
    }
  }

  lemma AskedBefore(run: Run)
    requires run != [] && Asked(run)
    ensures !Settles(run, |run| - 1) && (Asks(run, |run| - 1) || Asked(Init(run)))
  {
    hide Asks, Settles;
    var last, before := |run| - 1, Init(run);
    var i: nat :| i < |run| && Asks(run, i) && forall k: nat :: i <= k < |run| ==> !Settles(run, k);
    if i < last {
      PrefixAt(run, last, i);
      forall k: nat | i <= k < last
        ensures !Settles(before, k)
      {
        PrefixAt(run, last, k);
      }
      assert Asks(before, i);
    }
  }

  /** What one more handler call does to the demand. */
  lemma AskedStep(run: Run)
    requires run != []
    ensures var i := |run| - 1;
            Asked(run) <==> !Settles(run, i) && (Asks(run, i) || Asked(Init(run)))
  {
    hide Asks, Settles, Asked;
    if Asked(run) {
      AskedBefore(run);
    } else if !Settles(run, |run| - 1) && (Asks(run, |run| - 1) || Asked(Init(run))) {
      AskedStays(run);
    }
  }

  /** One handler call: the request stands if it was asked for, now or before, and not settled by the call. */
  lemma RequestStep(s: Turns, input: Input, env: Env)
    ensures var o := Step(s, input, env);
            var asks := input.TaskArrived? || input.AudioCommitted? || input.RequestResponse?
                        || (input.ResponseDone? && input.deferContinuation && s.inFlight != map[]);
            o.state.responseRequested <==>
              o.sent.None? && !input.Reset? && (asks || (s.responseRequested && !RecordsFailure(input)))
  {
  }

  /** The request flag stands for exactly that. */
  lemma {:induction false} RequestedIffAsked(run: Run)
    ensures After(run).responseRequested <==> Asked(run)
  {
    if run != [] {
      var last := |run| - 1;
      RequestedIffAsked(Init(run));
      AskedStep(run);
      InFlightIsOutgoing(Init(run));
      RequestStep(After(Init(run)), Last(run).input, Last(run).env);
      assert run[..last + 1] == run && run[..last] == Init(run);
    }
  }

  /** After a handler call that could send, whatever has been asked for waits only for a blocker. */
  lemma AskedIsBlocked(run: Run)
    requires CouldSend(run) && Asked(run)
    ensures Speaking(run) || AwaitsCommit(run) || ResponseOpen(run)
  {
    RequestedIffAsked(run);
    BlockersAreExact(run);
    if !Blocked(After(run)) {
      NoLostWakeUp(run);
    }
  }

  /**
   Every demand is met: take any handler call that asks for a response and any continuation. Each time a
   handler call could send, a response has been sent since, or the demand was withdrawn, or live speech, a
   missing commit or an open response holds it back.
   */
  lemma DemandIsMet(run: Run, i: nat, j: nat)
    requires i < j <= |run| && Asks(run, i) && CouldSend(run[..j])
    requires forall k: nat :: i <= k < j ==> !Withdraws(run, k)
    requires !Speaking(run[..j]) && !AwaitsCommit(run[..j]) && !ResponseOpen(run[..j])
    ensures exists k: nat :: i <= k < j && SentAt(run, k).Some?
  {
    if forall k: nat :: i <= k < j ==> SentAt(run, k).None? {
      var upTo := run[..j];
      hide Asks, Settles, CouldSend;
      PrefixAt(run, j, i);
      forall k: nat | i <= k < |upTo|
        ensures !Settles(upTo, k)
      {
        PrefixAt(run, j, k);
        NotSettled(run, k);
      }
      AskedIsBlocked(upTo);
    }
  }

  lemma NotSettled(run: Run, k: nat)
    requires k < |run| && SentAt(run, k).None? && !Withdraws(run, k)
    ensures !Settles(run, k)
  {
  }

  /** The handlers that try to send. */
  predicate Tries(input: Input) {
    match input
    case Reset => false
    case SpeechStarted => false
    case ResponseCreated => false
    case ResponseDone(_, deferContinuation) => !deferContinuation
    case _ => true
  }

  /**
   Exactly: a handler call sends a response.create if and only if it tries to, the channel takes it, a
   response is asked for now or was before, and no speech, missing commit or response stands against it.
   */
  lemma SendsIff(run: Run, i: nat)
    requires i < |run|
    ensures SentAt(run, i).Some? <==>
              && Tries(run[i].input) && run[i].env.ready && !run[i].env.sendThrows
              && (Asks(run, i) || Asked(run[..i])) && !Withdraws(run, i)
              && !Speaking(run[..i + 1]) && !AwaitsCommit(run[..i + 1])
              && (EndsResponse(run[i].input) || !ResponseOpen(run[..i]))
  {
    var before, upTo := run[..i], run[..i + 1];
    assert Init(upTo) == before;
    RequestedIffAsked(before);
    InFlightIsOutgoing(before);
    BlockersAreExact(before);
    BlockersAreExact(upTo);
    hide Asked, Speaking, AwaitsCommit, ResponseOpen, Outgoing, After;
    SendStep(After(before), run[i].input, run[i].env);
  }

  lemma SendStep(s: Turns, input: Input, env: Env)
    ensures var o := Step(s, input, env);
            var asks := input.TaskArrived? || input.AudioCommitted? || input.RequestResponse?
                        || (input.ResponseDone? && input.deferContinuation && s.inFlight != map[]);
            o.sent.Some? <==>
              && Tries(input) && env.ready && !env.sendThrows
              && (asks || s.responseRequested) && !input.Reset? && (RecordsFailure(input) ==> asks)
              && !o.state.userSpeaking && !o.state.awaitingCommit
              && (EndsResponse(input) || !(s.responseCreatePending || s.assistantResponding))
  {
  }

  /** Committed speech is answered at once, if the channel takes it and no response is open. */
  lemma CommittedSpeechIsAnswered(run: Run, i: nat)
    requires i < |run| && run[i].input.AudioCommitted? && run[i].env == Env(true, false)
    requires !Speaking(run[..i]) && !ResponseOpen(run[..i])
    ensures SentAt(run, i) == Some(After(run[..i]).pending)
  {
    assert Init(run[..i + 1]) == run[..i];
    SendsIff(run, i);
    SafeInvariant(run[..i]);
    StepKeepsOrSends(After(run[..i]), run[i].input, run[i].env);
  }
}
