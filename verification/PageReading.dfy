/**
 What a run says about the voice page. Outputs, posts, the current peer, its scope and the farewell latch
 are each characterised exactly by the messages, completions and timers that came before.
 */
module PageReading {
  import opened Wrappers
  import opened VoicePage
  import opened VoicePageRuns
  import opened FarewellRuns

  // ----- which outputs are sent

  ghost predicate FetchEnds(run: Run, m: nat, id: nat)
    requires m < |run|
  {
    run[m].FetchDone? && run[m].fetch == id
  }

  /** Tick `i` has posted fetch `id` for `callId`, in the context that is current now, and it is still under way. */
  ghost predicate AwaitsOutput(run: Run, j: nat, id: nat, callId: string, i: nat)
    requires j <= |run|
  {
    && StartedBy(run, j, id, i)
    && run[i].callId == callId
    && After(run, i).current == After(run, j).current
    && forall m: nat :: i < m < j ==> !FetchEnds(run, m, id)
  }

  lemma StepKeepsFetch(s: Page, input: Input, id: nat)
    requires id in s.fetches && id < s.nextFetch && !(input.FetchDone? && input.fetch == id)
    ensures var t := Step(s, input).0; id in t.fetches && t.fetches[id] == s.fetches[id] && id < t.nextFetch
  {
    StepMovesFetches(s, input);
    match input
    case FunctionCall(callId) =>
    case FetchDone(fetch, completion) => assert id in s.fetches - {fetch};
    case _ => assert Step(s, input).0.fetches == s.fetches;
  }

  lemma CallStartsFetch(s: Page, callId: string, id: nat)
    requires id == s.nextFetch && Posted(id, callId, s.current) in CallStep(s, callId).1
    ensures var t := CallStep(s, callId).0; id in t.fetches && t.fetches[id] == Fetch(callId, s.current)
    ensures id < CallStep(s, callId).0.nextFetch
  {
  }

  lemma StartedIsPending(run: Run, n: nat, id: nat, i: nat)
    requires n <= |run| && StartedBy(run, n, id, i)
    ensures id < After(run, i + 1).nextFetch && id in After(run, i + 1).fetches
    ensures After(run, i + 1).fetches[id] == Fetch(run[i].callId, After(run, i).current)
  {
    hide CallStep;
    CallStartsFetch(After(run, i), run[i].callId, id);
  }

  /** A posted fetch is under way until it ends. */
  lemma {:induction false} FetchStays(run: Run, i: nat, n: nat, id: nat)
    requires i < n <= |run| && StartedBy(run, n, id, i)
    requires forall m: nat :: i < m < n ==> !FetchEnds(run, m, id)
    ensures id < After(run, n).nextFetch && id in After(run, n).fetches
    ensures After(run, n).fetches[id] == Fetch(run[i].callId, After(run, i).current)
    decreases n
  {
    hide Step, StartedBy;
    if n == i + 1 {
      StartedIsPending(run, n, id, i);
    } else {
      StartedStays(run, n - 1, n, id, i);
      FetchStays(run, i, n - 1, id);
      assert !FetchEnds(run, n - 1, id);
      StepKeepsFetch(After(run, n - 1), run[n - 1], id);
    }
  }

  lemma StartedStays(run: Run, m: nat, n: nat, id: nat, i: nat)
    requires i < m <= n <= |run| && StartedBy(run, n, id, i)
    ensures StartedBy(run, m, id, i)
  {
    hide Step;
  }

  lemma {:induction false} NextFetchGrows(run: Run, m: nat, n: nat)
    requires m <= n <= |run|
    ensures After(run, m).nextFetch <= After(run, n).nextFetch
    decreases n
  {
    hide Step;
    if m < n {
      NextFetchGrows(run, m, n - 1);
      StepMovesFetches(After(run, n - 1), run[n - 1]);
    }
  }

  lemma PendingHasNotEnded(run: Run, i: nat, m: nat, j: nat, id: nat)
    requires i < m < j <= |run| && StartedBy(run, j, id, i) && FetchEnds(run, m, id)
    ensures id !in After(run, j).fetches
  {
    hide Step;
    StartedIsPending(run, j, id, i);
    NextFetchGrows(run, i + 1, m);
    NextFetchGrows(run, m, m + 1);
    FetchesAreNumbered(run, m);
    FetchIsGone(After(run, m), run[m]);
    FinishedStaysFinished(run, id, m + 1, j);
  }

  lemma FetchIsGone(s: Page, input: Input)
    requires input.FetchDone?
    ensures input.fetch !in Step(s, input).0.fetches
  {
  }

  lemma AnswerStep(s: Page, id: nat, c: Completion, callId: string)
    ensures OutputSent(id, callId, s.current) in FetchStep(s, id, c).1 <==>
              id in s.fetches && s.fetches[id] == Fetch(callId, s.current) && c.outputTaken
  {
  }

  /**
   Exactly: when a fetch comes back, the output of a call is sent if and only if the fetch was posted for
   that call with the very peer, channel and scope that are current now, it has not come back before, and
   the channel takes the message. What the call did plays no part.
   */
  lemma OutputSentIff(run: Run, j: nat, callId: string)
    requires j < |run| && run[j].FetchDone?
    ensures Does(run, j, OutputSent(run[j].fetch, callId, After(run, j).current)) <==>
              run[j].completion.outputTaken && exists i: nat :: AwaitsOutput(run, j, run[j].fetch, callId, i)
  {
    var id, s := run[j].fetch, After(run, j);
    AnswerStep(s, id, run[j].completion, callId);
    if i: nat :| AwaitsOutput(run, j, id, callId, i) {
      FetchStays(run, i, j, id);
    } else if id in s.fetches && s.fetches[id] == Fetch(callId, s.current) {
      var i := FetchWasPosted(run, j, id);
      forall m: nat | i < m < j
        ensures !FetchEnds(run, m, id)
      {
        if FetchEnds(run, m, id) {
          PendingHasNotEnded(run, i, m, j, id);
        }
      }
      assert AwaitsOutput(run, j, id, callId, i);
    }
  }

  // ----- when the page is torn down

  /** Tick `k` calls stopConversation on a page that it has not stopped since it was armed. */
  ghost predicate TearsDown(run: Run, k: nat)
    requires k < |run|
  {
    Does(run, k, StopCalled) && !StoppedSinceArmed(run, k)
  }

  lemma StopStep(s: Page, input: Input)
    requires StopCalled in Step(s, input).1
    ensures var t := Step(s, input).0;
            if s.teardownCompleteSent then t.current == s.current && t.executions == s.executions
            else TornDown(t) && !t.startDisabled && t.farewellResponseId.None? && !t.fallbackArmed
  {
  }

  /** A stop drops everything once; after that it leaves a conversation alone until the page is armed again. */
  lemma StopDropsEverythingOnce(run: Run, k: nat)
    requires k < |run| && Does(run, k, StopCalled)
    ensures TearsDown(run, k) ==> TornDown(After(run, k + 1)) && !After(run, k + 1).startDisabled
    ensures !TearsDown(run, k) ==>
              After(run, k + 1).current == After(run, k).current
              && After(run, k + 1).executions == After(run, k).executions
  {
    TeardownIsStopped(run, k);
    StopStep(After(run, k), run[k]);
  }

  // ----- the current peer and its scope

  lemma PeerMoves(s: Page, input: Input)
    ensures var t := Step(s, input).0;
            t.current.peer ==
              if input.MediaReady? then Some(s.nextPeer)
              else if StopCalled in Step(s, input).1 && !s.teardownCompleteSent then None
              else s.current.peer
    ensures Step(s, input).0.nextPeer == s.nextPeer + if input.MediaReady? then 1 else 0
  {
  }

  /** The peer that tick `i` opened is replaced or torn down by tick `k`. */
  ghost predicate DropsPeer(run: Run, k: nat)
    requires k < |run|
  {
    run[k].MediaReady? || TearsDown(run, k)
  }

  /** A granted microphone opens a peer, which stays current exactly until another grant or a teardown. */
  lemma {:induction false} PeerIsCurrentIff(run: Run, i: nat, n: nat)
    requires i < n <= |run| && run[i].MediaReady?
    ensures After(run, i).nextPeer < After(run, n).nextPeer
    ensures After(run, n).current.peer == Some(After(run, i).nextPeer) <==>
              forall k: nat :: i < k < n ==> !DropsPeer(run, k)
    decreases n
  {
    hide Step;
    var m := n - 1;
    PeerMoves(After(run, m), run[m]);
    TeardownIsStopped(run, m);
    if i < m {
      PeerIsCurrentIff(run, i, m);
      assert DropsPeer(run, m) <==> run[m].MediaReady? || TearsDown(run, m);
    }
  }

  lemma AnswerSetsScope(s: Page, peer: nat, scope: Option<string>)
    ensures var t := Step(s, AnswerApplied(peer, scope)).0;
            if s.current.peer == Some(peer) then t == s.(current := s.current.(scope := scope)) else t == s
  {
  }

  /** The scope is what the last answer to the current peer brought; an answer to any other peer changes nothing. */
  lemma ScopeIsAnswered(run: Run, i: nat, n: nat)
    requires i < n <= |run| && run[i].AnswerApplied?
    ensures After(run, i).current.peer != Some(run[i].peer) ==> After(run, i + 1) == After(run, i)
    ensures After(run, i).current.peer == Some(run[i].peer) == After(run, n).current.peer
            && (forall x: nat :: i < x < n ==> !Answers(run, x, run[i].peer)) ==>
              After(run, n).current == After(run, i).current.(scope := run[i].scope)
  {
    var peer := run[i].peer;
    AnswerSetsScope(After(run, i), peer, run[i].scope);
    hide Step;
    if After(run, i).current.peer == Some(peer) == After(run, n).current.peer
       && forall x: nat :: i < x < n ==> !Answers(run, x, peer) {
      forall m | i + 1 <= m <= n
        ensures After(run, m).current.peer == Some(peer)
      {
        CurrentThroughout(run, peer, i, m, n);
      }
      ContextStays(run, i + 1, n, peer);
    }
  }

  /** Tick `i` brings the answer to the peer that is current then. */
  ghost predicate Applies(run: Run, i: nat)
    requires i < |run|
  {
    run[i].AnswerApplied? && After(run, i).current.peer == Some(run[i].peer)
  }

  /** The scope of the last such answer since the last teardown, also under a peer that was opened later. */
  ghost function LastScope(run: Run, n: nat): Option<string>
    requires n <= |run|
  {
    if n == 0 || TearsDown(run, n - 1) then None
    else if Applies(run, n - 1) then run[n - 1].scope
    else LastScope(run, n - 1)
  }

  lemma ScopeMoves(s: Page, input: Input)
    ensures Step(s, input).0.current.scope ==
      if StopCalled in Step(s, input).1 && !s.teardownCompleteSent then None
      else if input.AnswerApplied? && s.current.peer == Some(input.peer) then input.scope
      else s.current.scope
  {
  }

  lemma ChannelMoves(s: Page, input: Input)
    requires s.current.channel == s.current.peer
    ensures Step(s, input).0.current.channel == Step(s, input).0.current.peer
  {
  }

  /** The page's scope is that one, and its channel is always the one opened with its peer. */
  lemma {:induction false} ScopeIsLastScope(run: Run, n: nat)
    requires n <= |run|
    ensures After(run, n).current.scope == LastScope(run, n)
    ensures After(run, n).current.channel == After(run, n).current.peer
  {
    hide Step;
    if n > 0 {
      var m := n - 1;
      ScopeIsLastScope(run, m);
      TeardownIsStopped(run, m);
      ScopeMoves(After(run, m), run[m]);
      ChannelMoves(After(run, m), run[m]);
    }
  }

  // ----- which calls are posted

  ghost predicate PostsCall(run: Run, i: nat, callId: string)
    requires i < |run|
  {
    run[i] == FunctionCall(callId) && Does(run, i, Posted(After(run, i).nextFetch, callId, After(run, i).current))
  }

  ghost predicate Forgets(run: Run, k: nat)
    requires k < |run|
  {
    run[k].Start? || TearsDown(run, k)
  }

  /** Some tick has posted `callId`, and neither a start nor a teardown has come since. */
  ghost predicate Remembered(run: Run, n: nat, callId: string)
    requires n <= |run|
  {
    exists i: nat :: i < n && PostsCall(run, i, callId) && forall k: nat :: i < k < n ==> !Forgets(run, k)
  }

  lemma ExecutionsMove(s: Page, input: Input, callId: string)
    ensures var (t, effects) := Step(s, input);
            callId in t.executions <==>
              && !input.Start? && !(StopCalled in effects && !s.teardownCompleteSent)
              && (callId in s.executions
                  || (input == FunctionCall(callId) && Posted(s.nextFetch, callId, s.current) in effects))
  {
  }

  lemma RememberedStep(run: Run, n: nat, callId: string)
    requires n < |run|
    ensures Remembered(run, n + 1, callId) <==>
              PostsCall(run, n, callId) || (Remembered(run, n, callId) && !Forgets(run, n))
  {
    hide PostsCall, Forgets;
    if Remembered(run, n, callId) && !Forgets(run, n) {
      var i: nat :| i < n && PostsCall(run, i, callId) && forall k: nat :: i < k < n ==> !Forgets(run, k);
      assert forall k: nat :: i < k < n + 1 ==> !Forgets(run, k);
    }
  }

  lemma {:induction false} KnownIffRemembered(run: Run, n: nat, callId: string)
    requires n <= |run|
    ensures callId in After(run, n).executions <==> Remembered(run, n, callId)
  {
    if n > 0 {
      var m := n - 1;
      KnownIffRemembered(run, m, callId);
      RememberedStep(run, m, callId);
      TeardownIsStopped(run, m);
      hide Step, Remembered;
      ExecutionsMove(After(run, m), run[m], callId);
      CallsDoNotStop(After(run, m), run[m]);
    }
  }

  lemma CallsDoNotStop(s: Page, input: Input)
    ensures input.FunctionCall? ==> StopCalled !in Step(s, input).1
  {
  }

  /** Exactly: a call that arrives on a peer is posted if and only if the page does not remember posting it. */
  lemma PostsIff(run: Run, j: nat, callId: string, peer: nat)
    requires j < |run| && run[j] == FunctionCall(callId) && callId != ""
    requires After(run, j).current.peer == Some(peer)
    ensures Posts(run, j, callId, peer) <==> !Remembered(run, j, callId)
  {
    KnownIffRemembered(run, j, callId);
    CallOnPeerPosts(run, j, callId, peer);
  }

  // ----- the farewell latch

  /** The response id of the last response that completed while the latch was set. */
  ghost function KnownFarewell(run: Run, n: nat): Option<string>
    requires n <= |run|
  {
    if n == 0 || !After(run, n - 1).disconnectAfterResponse then None
    else if run[n - 1].ResponseDone? && run[n - 1].status == "completed" then run[n - 1].responseId
    else KnownFarewell(run, n - 1)
  }

  lemma FarewellMoves(s: Page, input: Input)
    requires LatchInvariant(s) && (s.disconnectAfterResponse ==> Live(s))
    requires Step(s, input).0.disconnectAfterResponse
    ensures Step(s, input).0.farewellResponseId ==
      if !s.disconnectAfterResponse then None
      else if input.ResponseDone? && input.status == "completed" then input.responseId
      else s.farewellResponseId
  {
  }

  lemma LatchedIsLive(run: Run, n: nat)
    requires n <= |run| && After(run, n).disconnectAfterResponse
    ensures Live(After(run, n))
  {
    LatchedPageIsLive(run, n);
    PeerHasChannel(run, n);
  }

  lemma {:induction false} FarewellIsKnown(run: Run, n: nat)
    requires n <= |run| && After(run, n).disconnectAfterResponse
    ensures After(run, n).farewellResponseId == KnownFarewell(run, n)
  {
    hide Step;
    var m := n - 1;
    LatchMeansFallback(run, m);
    if After(run, m).disconnectAfterResponse {
      LatchedIsLive(run, m);
      FarewellIsKnown(run, m);
    }
    FarewellMoves(After(run, m), run[m]);
  }

  lemma LatchSets(s: Page, input: Input)
    requires !s.disconnectAfterResponse
    ensures Step(s, input).0.disconnectAfterResponse <==>
              && input.FetchDone? && input.completion.endsSession && input.completion.updateTaken
              && exists callId :: OutputSent(input.fetch, callId, s.current) in Step(s, input).1
  {
    if input.FetchDone? && input.fetch in s.fetches {
      AnswerStep(s, input.fetch, input.completion, s.fetches[input.fetch].callId);
    }
  }

  /** The latch is set exactly by the sent output of a call that ends the session, once its update went out. */
  lemma LatchSetsIff(run: Run, i: nat)
    requires i < |run| && !After(run, i).disconnectAfterResponse
    ensures After(run, i + 1).disconnectAfterResponse <==>
              && run[i].FetchDone? && run[i].completion.endsSession && run[i].completion.updateTaken
              && exists callId :: Does(run, i, OutputSent(run[i].fetch, callId, After(run, i).current))
  {
    LatchSets(After(run, i), run[i]);
  }

  lemma LatchClears(s: Page, input: Input)
    requires s.disconnectAfterResponse && Live(s) && LatchInvariant(s)
    ensures !Step(s, input).0.disconnectAfterResponse <==>
              || (input.ResponseDone? && input.status != "completed")
              || (input.PlaybackStopped? && (s.farewellResponseId.None? || input.playedId == s.farewellResponseId))
              || input.FallbackFired?
              || (input.Stop? && !s.teardownCompleteSent)
  {
  }

  /**
   Exactly: a latched page is closed by a response that did not complete, by the end of a playback that is
   the farewell's or comes before any farewell is known, by the fallback, and by the first stop.
   */
  lemma LatchClearsIff(run: Run, i: nat)
    requires i < |run| && After(run, i).disconnectAfterResponse
    ensures !After(run, i + 1).disconnectAfterResponse <==>
              || (run[i].ResponseDone? && run[i].status != "completed")
              || (run[i].PlaybackStopped?
                  && (KnownFarewell(run, i).None? || run[i].playedId == KnownFarewell(run, i)))
              || run[i].FallbackFired?
              || (run[i].Stop? && !StoppedSinceArmed(run, i))
  {
    LatchedIsLive(run, i);
    LatchMeansFallback(run, i);
    FarewellIsKnown(run, i);
    TeardownIsStopped(run, i);
    hide KnownFarewell, StoppedSinceArmed;
    LatchClears(After(run, i), run[i]);
  }

  lemma StopCalls(s: Page, input: Input)
    requires LatchInvariant(s) && (s.disconnectAfterResponse ==> Live(s))
    ensures StopCalled in Step(s, input).1 <==>
              input.Stop? || (s.disconnectAfterResponse && !Step(s, input).0.disconnectAfterResponse)
  {
  }

  /** stopConversation is called exactly by a stop or by a tick that clears the latch. */
  lemma StopCalledIff(run: Run, i: nat)
    requires i < |run|
    ensures Does(run, i, StopCalled) <==>
              run[i].Stop? || (After(run, i).disconnectAfterResponse && !After(run, i + 1).disconnectAfterResponse)
  {
    LatchMeansFallback(run, i);
    if After(run, i).disconnectAfterResponse {
      LatchedIsLive(run, i);
    }
    StopCalls(After(run, i), run[i]);
  }
}
