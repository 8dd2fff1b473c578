/**
 The farewell latch of the voice page over whole runs: it is set only for a reason, it always has its
 fallback, and the exact condition under which clearing it closes the conversation.
 */
module FarewellRuns {
  import opened Wrappers
  import opened VoicePage
  import opened VoicePageRuns

  ghost predicate LatchInvariant(s: Page) {
    && (s.disconnectAfterResponse <==> s.fallbackArmed)
    && (s.farewellResponseId.Some? ==> s.disconnectAfterResponse)
  }

  /** The latch is set exactly while its fallback timer is armed, and only then is a farewell known. */
  lemma {:induction false} LatchMeansFallback(run: Run, n: nat)
    requires n <= |run|
    ensures LatchInvariant(After(run, n))
  {
    hide Step;
    if n > 0 {
      LatchMeansFallback(run, n - 1);
      LatchStep(After(run, n - 1), run[n - 1]);
    }
  }

  lemma LatchStep(s: Page, input: Input)
    requires LatchInvariant(s)
    ensures LatchInvariant(Step(s, input).0)
  {
  }

  /** The latch is only ever set by the sent output of a call that ended the session. */
  lemma {:induction false} LatchHasCause(run: Run, n: nat) returns (i: nat, callId: string)
    requires n <= |run| && After(run, n).disconnectAfterResponse
    ensures i < n && run[i].FetchDone? && run[i].completion.endsSession
    ensures Does(run, i, OutputSent(run[i].fetch, callId, After(run, i).current))
    ensures forall m :: i < m <= n ==> After(run, m).disconnectAfterResponse
  {
    hide Step;
    if After(run, n - 1).disconnectAfterResponse {
      i, callId := LatchHasCause(run, n - 1);
    } else {
      i := n - 1;
      callId := LatchingStep(After(run, i), run[i]);
    }
  }

  lemma LatchingStep(s: Page, input: Input) returns (callId: string)
    requires !s.disconnectAfterResponse && Step(s, input).0.disconnectAfterResponse
    ensures input.FetchDone? && input.completion.endsSession && input.fetch in s.fetches
    ensures s.fetches[input.fetch].context == s.current
    ensures OutputSent(input.fetch, callId, s.current) in Step(s, input).1
  {
    callId := s.fetches[input.fetch].callId;
  }

  /** A known farewell is a completed response that ended while the latch was set. */
  lemma {:induction false} FarewellIsCompleted(run: Run, n: nat) returns (i: nat)
    requires n <= |run| && After(run, n).farewellResponseId.Some?
    ensures i < n && run[i] == ResponseDone(COMPLETED, After(run, n).farewellResponseId)
    ensures forall m :: i <= m <= n ==> After(run, m).disconnectAfterResponse
  {
    hide Step;
    var s, input := After(run, n - 1), run[n - 1];
    LatchMeansFallback(run, n);
    LatchMeansFallback(run, n - 1);
    FarewellStep(s, input);
    if input == ResponseDone(COMPLETED, After(run, n).farewellResponseId) && s.disconnectAfterResponse {
      i := n - 1;
    } else {
      i := FarewellIsCompleted(run, n - 1);
    }
  }

  lemma FarewellStep(s: Page, input: Input)
    requires LatchInvariant(s) && Step(s, input).0.farewellResponseId.Some?
    ensures s.disconnectAfterResponse
    ensures || input == ResponseDone(COMPLETED, Step(s, input).0.farewellResponseId)
            || Step(s, input).0.farewellResponseId == s.farewellResponseId
  {
  }

  /** Playback of any other response does not cut a known farewell short. */
  lemma FarewellIsPlayedOut(run: Run, i: nat) returns (k: nat)
    requires i < |run| && run[i].PlaybackStopped?
    requires After(run, i).disconnectAfterResponse && !After(run, i + 1).disconnectAfterResponse
    requires After(run, i).farewellResponseId.Some?
    ensures k < i && run[k] == ResponseDone(COMPLETED, run[i].playedId)
    ensures forall m :: k <= m <= i ==> After(run, m).disconnectAfterResponse
  {
    k := FarewellIsCompleted(run, i);
  }

  /** Every tick that clears the latch calls stopConversation. */
  lemma ClearingStops(run: Run, i: nat)
    requires i < |run|
    requires After(run, i).disconnectAfterResponse && !After(run, i + 1).disconnectAfterResponse
    ensures Does(run, i, StopCalled)
  {
    hide Step;
    LatchedPageIsLive(run, i);
    ClearingStep(After(run, i), run[i]);
  }

  ghost predicate TornDown(s: Page) {
    s.current == NOWHERE && s.executions == map[] && !s.disconnectAfterResponse && s.teardownCompleteSent
  }

  lemma StepKeepsLatchLive(s: Page, input: Input)
    requires s.disconnectAfterResponse ==> s.current.peer.Some?
    ensures var t := Step(s, input).0;
            t.disconnectAfterResponse ==>
              t.current.peer.Some? || (!s.disconnectAfterResponse && t.current.peer == s.current.peer)
  {
  }

  /** A latched page has a peer. */
  lemma {:induction false} LatchedPageIsLive(run: Run, n: nat)
    requires n <= |run| && After(run, n).disconnectAfterResponse
    ensures After(run, n).current.peer.Some?
  {
    hide Step;
    var s, input := After(run, n - 1), run[n - 1];
    if s.disconnectAfterResponse {
      LatchedPageIsLive(run, n - 1);
      StepKeepsLatchLive(s, input);
    } else {
      var callId := LatchingStep(s, input);
      var i := FetchWasPosted(run, n - 1, input.fetch);
      StepKeepsLatchLive(s, input);
    }
  }

  /** stopConversation has been called since the page was last started or shown again. */
  ghost predicate StoppedSinceArmed(run: Run, n: nat)
    requires n <= |run|
  {
    n > 0 && !run[n - 1].Start? && !run[n - 1].PageShown? &&
    (Does(run, n - 1, StopCalled) || StoppedSinceArmed(run, n - 1))
  }

  lemma StepArms(s: Page, input: Input)
    ensures Step(s, input).0.teardownCompleteSent <==>
              !input.Start? && !input.PageShown? && (StopCalled in Step(s, input).1 || s.teardownCompleteSent)
  {
  }

  lemma {:induction false} TeardownIsStopped(run: Run, n: nat)
    requires n <= |run|
    ensures After(run, n).teardownCompleteSent <==> StoppedSinceArmed(run, n)
  {
    hide Step;
    if n > 0 {
      TeardownIsStopped(run, n - 1);
      StepArms(After(run, n - 1), run[n - 1]);
    }
  }

  lemma ClearingStep(s: Page, input: Input)
    requires s.disconnectAfterResponse && !Step(s, input).0.disconnectAfterResponse && s.current.peer.Some?
    ensures StopCalled in Step(s, input).1
    ensures if s.teardownCompleteSent then Step(s, input).0.current == s.current else TornDown(Step(s, input).0)
  {
  }

  /**
   Exactly: clearing the latch tears the conversation down if and only if stopConversation has not been
   called since the page was last armed; otherwise the conversation stays open.
   */
  lemma ClearingTearsDown(run: Run, i: nat)
    requires i < |run|
    requires After(run, i).disconnectAfterResponse && !After(run, i + 1).disconnectAfterResponse
    ensures TornDown(After(run, i + 1)) <==> !StoppedSinceArmed(run, i)
    ensures StoppedSinceArmed(run, i) ==> After(run, i + 1).current == After(run, i).current != NOWHERE
  {
    hide Step;
    LatchedPageIsLive(run, i);
    TeardownIsStopped(run, i);
    ClearingStep(After(run, i), run[i]);
  }

  lemma FallbackClears(s: Page)
    requires s.disconnectAfterResponse && s.fallbackArmed
    ensures !Step(s, FallbackFired).0.disconnectAfterResponse
  {
  }

  /** The fallback is bounded on the same condition: when it fires on a set latch, the conversation is over. */
  lemma FallbackTearsDown(run: Run, i: nat)
    requires i < |run| && run[i].FallbackFired? && After(run, i).disconnectAfterResponse
    ensures TornDown(After(run, i + 1)) <==> !StoppedSinceArmed(run, i)
  {
    hide Step;
    LatchMeansFallback(run, i);
    FallbackClears(After(run, i));
    ClearingTearsDown(run, i);
  }

  /** Started in order, the page meets the condition whenever it is latched, and every farewell closes it. */
  lemma OrderlyFarewellCloses(run: Run, i: nat)
    requires i < |run| && Orderly(run)
    requires After(run, i).disconnectAfterResponse && !After(run, i + 1).disconnectAfterResponse
    ensures TornDown(After(run, i + 1))
  {
    hide Step;
    LatchedPageIsLive(run, i);
    OrderlyInvariant(run, i);
    TeardownIsStopped(run, i);
    ClearingTearsDown(run, i);
  }

  // ----- where the promise ends

  const STALE_START: Run :=
    [ Start, Stop, MediaReady, FunctionCall("c"), FetchDone(0, Completion(true, true, true)), FallbackFired ]

  /** A microphone granted after Stop opens a peer that the farewell can no longer close. */
  lemma StaleMediaSurvivesFarewell()
    ensures After(STALE_START, 5).disconnectAfterResponse && !After(STALE_START, 6).disconnectAfterResponse
    ensures After(STALE_START, 6).current.peer == Some(0)
  {
    var here := Context(Some(0), Some(0), None);
    var s3 := INITIAL.(current := here, nextPeer := 1, teardownCompleteSent := true);
    var s4 := s3.(executions := map["c" := 0], fetches := map[0 := Fetch("c", here)], nextFetch := 1);
    assert After(STALE_START, 1) == INITIAL.(startDisabled := true);
    assert After(STALE_START, 2) == INITIAL.(teardownCompleteSent := true);
    assert After(STALE_START, 3) == s3;
    assert After(STALE_START, 4) == s4;
    assert After(STALE_START, 5) == s4.(fetches := map[], disconnectAfterResponse := true, fallbackArmed := true);
  }
}
