/**
 Runs of the voice page: any interleaving of messages, completions, timers, starts and stops. Here: each
 function call is posted once and its output sent once.
 */
module VoicePageRuns {
  import opened Wrappers
  import opened VoicePage

  type Run = seq<Input>

  ghost function After(run: Run, n: nat): Page
    requires n <= |run|
  {
    if n == 0 then INITIAL else Step(After(run, n - 1), run[n - 1]).0
  }

  ghost predicate Does(run: Run, i: nat, effect: Effect)
    requires i < |run|
  {
    effect in Step(After(run, i), run[i]).1
  }

  /** Tick `i` posts `callId` to /execute on behalf of peer connection `peer`. */
  ghost predicate Posts(run: Run, i: nat, callId: string, peer: nat)
    requires i < |run|
  {
    && run[i] == FunctionCall(callId)
    && After(run, i).current.peer == Some(peer)
    && Does(run, i, Posted(After(run, i).nextFetch, callId, After(run, i).current))
  }

  /** Tick `i` sends the output of `callId` to peer connection `peer`. */
  ghost predicate Sends(run: Run, i: nat, callId: string, peer: nat)
    requires i < |run|
  {
    && run[i].FetchDone?
    && After(run, i).current.peer == Some(peer)
    && Does(run, i, OutputSent(run[i].fetch, callId, After(run, i).current))
  }

  /** Tick `k` starts a conversation although `peer` is still current. */
  ghost predicate RestartsOver(run: Run, k: nat, peer: nat)
    requires k < |run|
  {
    run[k].Start? && After(run, k).current.peer == Some(peer)
  }

  // ----- what one step can do to peers, calls and fetches

  ghost predicate PeerStep(s: Page, t: Page) {
    && s.nextPeer <= t.nextPeer
    && (t.current.peer == s.current.peer || t.current.peer.None? || t.current.peer == Some(s.nextPeer))
    && (t.current.peer == Some(s.nextPeer) ==> s.current.peer == Some(s.nextPeer) || s.nextPeer < t.nextPeer)
  }

  lemma StepMovesPeer(s: Page, input: Input)
    ensures PeerStep(s, Step(s, input).0)
  {
  }

  ghost predicate FetchMove(s: Page, t: Page) {
    && s.nextFetch <= t.nextFetch
    && forall id :: id in t.fetches && id !in s.fetches ==> id == s.nextFetch < t.nextFetch
  }

  lemma StepMovesFetches(s: Page, input: Input)
    ensures FetchMove(s, Step(s, input).0)
  {
  }

  /** A step forgets calls only by a start, or by a stop, which leaves no peer. */
  lemma StepKeepsCalls(s: Page, input: Input, callId: string)
    requires callId in s.executions && !input.Start? && Step(s, input).0.current.peer.Some?
    ensures callId in Step(s, input).0.executions
  {
  }

  lemma PostedIsKnown(s: Page, callId: string)
    requires Posted(s.nextFetch, callId, s.current) in Step(s, FunctionCall(callId)).1
    ensures callId != "" && callId !in s.executions
    ensures callId in Step(s, FunctionCall(callId)).0.executions
  {
  }

  lemma StartForgets(s: Page, callId: string)
    ensures callId !in Step(s, Start).0.executions
  {
  }

  // ----- peers do not come back

  lemma {:induction false} PeersAreNumbered(run: Run, n: nat)
    requires n <= |run|
    ensures After(run, n).current.peer.Some? ==> After(run, n).current.peer.value < After(run, n).nextPeer
  {
    hide Step;
    if n > 0 {
      PeersAreNumbered(run, n - 1);
      StepMovesPeer(After(run, n - 1), run[n - 1]);
    }
  }

  lemma {:induction false} GonePeerStaysGone(run: Run, peer: nat, m: nat, n: nat)
    requires m <= n <= |run|
    requires peer < After(run, m).nextPeer && After(run, m).current.peer != Some(peer)
    ensures peer < After(run, n).nextPeer && After(run, n).current.peer != Some(peer)
    decreases n
  {
    hide Step;
    if m < n {
      GonePeerStaysGone(run, peer, m, n - 1);
      StepMovesPeer(After(run, n - 1), run[n - 1]);
    }
  }

  /** A peer that is current at two moments is current at every moment between them. */
  lemma CurrentThroughout(run: Run, peer: nat, i: nat, m: nat, j: nat)
    requires i <= m <= j <= |run|
    requires After(run, i).current.peer == Some(peer) && After(run, j).current.peer == Some(peer)
    ensures After(run, m).current.peer == Some(peer)
  {
    hide Step;
    PeersAreNumbered(run, i);
    if After(run, m).current.peer != Some(peer) {
      NextPeerGrows(run, i, m);
      GonePeerStaysGone(run, peer, m, j);
    }
  }

  lemma {:induction false} NextPeerGrows(run: Run, i: nat, j: nat)
    requires i <= j <= |run|
    ensures After(run, i).nextPeer <= After(run, j).nextPeer
    decreases j
  {
    hide Step;
    if i < j {
      NextPeerGrows(run, i, j - 1);
      StepMovesPeer(After(run, j - 1), run[j - 1]);
    }
  }

  // ----- each call is posted once

  lemma {:induction false} PostedStaysKnown(run: Run, i: nat, n: nat, callId: string, peer: nat)
    requires i < n <= |run| && Posts(run, i, callId, peer)
    requires After(run, n).current.peer == Some(peer)
    requires forall k :: i < k < n ==> !RestartsOver(run, k, peer)
    ensures callId in After(run, n).executions
    decreases n
  {
    hide Step;
    if n == i + 1 {
      PostedIsKnown(After(run, i), callId);
    } else {
      CurrentThroughout(run, peer, i, n - 1, n);
      PostedStaysKnown(run, i, n - 1, callId, peer);
      assert !RestartsOver(run, n - 1, peer);
      StepKeepsCalls(After(run, n - 1), run[n - 1], callId);
    }
  }

  /** On one peer connection a call id is posted again only after the page was restarted over that peer. */
  lemma PostedOnce(run: Run, i: nat, j: nat, callId: string, peer: nat)
    requires i < j < |run| && Posts(run, i, callId, peer) && Posts(run, j, callId, peer)
    ensures exists k :: i < k < j && RestartsOver(run, k, peer)
  {
    hide Step;
    PostedIsKnown(After(run, j), callId);
    if forall k :: i < k < j ==> !RestartsOver(run, k, peer) {
      PostedStaysKnown(run, i, j, callId, peer);
    }
  }

  /** A call id that is not known stays so until it is posted. */
  lemma StepKnowsOnlyPosts(s: Page, input: Input, callId: string)
    requires callId !in s.executions && input != FunctionCall(callId)
    ensures callId !in Step(s, input).0.executions
  {
  }

  lemma CallStepPosts(s: Page, callId: string)
    requires callId != "" && Live(s) && callId !in s.executions
    ensures Posted(s.nextFetch, callId, s.current) in CallStep(s, callId).1
  {
  }

  lemma {:induction false} PeerHasChannel(run: Run, n: nat)
    requires n <= |run|
    ensures After(run, n).current.peer.Some? <==> After(run, n).current.channel.Some?
  {
    hide Step;
    if n > 0 {
      PeerHasChannel(run, n - 1);
      StepPairsChannel(After(run, n - 1), run[n - 1]);
    }
  }

  lemma StepPairsChannel(s: Page, input: Input)
    requires s.current.peer.Some? <==> s.current.channel.Some?
    ensures Step(s, input).0.current.peer.Some? <==> Step(s, input).0.current.channel.Some?
  {
  }

  lemma CallOnPeerPosts(run: Run, m: nat, callId: string, peer: nat)
    requires m < |run| && run[m] == FunctionCall(callId) && callId != ""
    requires After(run, m).current.peer == Some(peer)
    ensures callId !in After(run, m).executions <==> Posts(run, m, callId, peer)
  {
    PeerHasChannel(run, m);
    if callId !in After(run, m).executions {
      CallStepPosts(After(run, m), callId);
    }
  }

  /** After a restart over a peer its calls are unknown until they are posted again. */
  lemma {:induction false} ForgottenStaysUnknown(run: Run, k: nat, n: nat, callId: string, peer: nat)
    requires k < n <= |run| && RestartsOver(run, k, peer) && callId != ""
    requires After(run, n).current.peer == Some(peer)
    requires forall m :: k < m < n ==> !Posts(run, m, callId, peer)
    ensures callId !in After(run, n).executions
    decreases n
  {
    hide Step;
    if n == k + 1 {
      StartForgets(After(run, k), callId);
    } else {
      var m := n - 1;
      CurrentThroughout(run, peer, k, m, n);
      ForgottenStaysUnknown(run, k, m, callId, peer);
      if run[m] == FunctionCall(callId) {
        CallOnPeerPosts(run, m, callId, peer);
      }
      StepKnowsOnlyPosts(After(run, m), run[m], callId);
    }
  }

  /**
   Exactly: a call that has been posted on a peer, and not again since, is posted again on that peer if
   and only if the page was restarted over the peer in between.
   */
  lemma RepostedIffRestarted(run: Run, i: nat, j: nat, callId: string, peer: nat)
    requires i < j < |run| && Posts(run, i, callId, peer)
    requires run[j] == FunctionCall(callId) && After(run, j).current.peer == Some(peer)
    requires forall m :: i < m < j ==> !Posts(run, m, callId, peer)
    ensures Posts(run, j, callId, peer) <==> exists k :: i < k < j && RestartsOver(run, k, peer)
  {
    hide Step;
    PostedIsKnown(After(run, i), callId);
    CallOnPeerPosts(run, j, callId, peer);
    if k :| i < k < j && RestartsOver(run, k, peer) {
      ForgottenStaysUnknown(run, k, j, callId, peer);
    } else {
      PostedStaysKnown(run, i, j, callId, peer);
    }
  }

  // ----- when the page is started in order

  /** A started conversation still waits for its microphone. */
  ghost predicate Prompting(run: Run, n: nat)
    requires n <= |run|
  {
    n > 0 && !Does(run, n - 1, StopCalled) && !run[n - 1].MediaReady? && (run[n - 1].Start? || Prompting(run, n - 1))
  }

  /** Starts come from the enabled start button, and a microphone answers the prompt of a start not stopped since. */
  ghost predicate Orderly(run: Run) {
    forall k :: 0 <= k < |run| ==>
      && (run[k].Start? ==> !After(run, k).startDisabled)
      && (run[k].MediaReady? ==> Prompting(run, k))
  }

  ghost predicate OrderlyState(s: Page, prompting: bool) {
    && (s.startDisabled ==> !s.teardownCompleteSent)
    && (!s.startDisabled ==> s.current.peer.None?)
    && (prompting ==> s.startDisabled && s.current.peer.None?)
  }

  lemma OrderlyStep(s: Page, input: Input, prompting: bool)
    requires OrderlyState(s, prompting)
    requires input.Start? ==> !s.startDisabled
    requires input.MediaReady? ==> prompting
    ensures OrderlyState(Step(s, input).0,
              StopCalled !in Step(s, input).1 && !input.MediaReady? && (input.Start? || prompting))
  {
  }

  lemma {:induction false} OrderlyInvariant(run: Run, n: nat)
    requires n <= |run| && Orderly(run)
    ensures OrderlyState(After(run, n), Prompting(run, n))
  {
    hide Step;
    if n > 0 {
      OrderlyInvariant(run, n - 1);
      OrderlyStep(After(run, n - 1), run[n - 1], Prompting(run, n - 1));
    }
  }

  /** Started in order, the page is never restarted over a peer. */
  lemma OrderlyNeverRestartsOver(run: Run, k: nat, peer: nat)
    requires k < |run| && Orderly(run)
    ensures !RestartsOver(run, k, peer)
  {
    hide Step;
    OrderlyInvariant(run, k);
  }

  /** Then every call id is posted at most once on each peer, without exception. */
  lemma OrderlyPostsOnce(run: Run, i: nat, j: nat, callId: string, peer: nat)
    requires i < j < |run| && Orderly(run) && Posts(run, i, callId, peer)
    ensures !Posts(run, j, callId, peer)
  {
    hide Step;
    forall k | i < k < j
      ensures !RestartsOver(run, k, peer)
    {
      OrderlyNeverRestartsOver(run, k, peer);
    }
    if Posts(run, j, callId, peer) {
      PostedOnce(run, i, j, callId, peer);
    }
  }

  // ----- each output is sent once

  /** Where fetch `id` was posted. */
  ghost predicate StartedBy(run: Run, n: nat, id: nat, i: nat)
    requires n <= |run|
  {
    && i < n
    && run[i].FunctionCall?
    && After(run, i).nextFetch == id
    && Live(After(run, i))
    && Does(run, i, Posted(id, run[i].callId, After(run, i).current))
  }

  /** A fetch is kept, or it is the one that a call has just posted. */
  lemma FetchOrigin(s: Page, input: Input, id: nat)
    requires id in Step(s, input).0.fetches
    ensures var t := Step(s, input).0;
            || (id in s.fetches && t.fetches[id] == s.fetches[id])
            || (input.FunctionCall? && id == s.nextFetch && Live(s)
                && t.fetches[id] == Fetch(input.callId, s.current)
                && Posted(id, input.callId, s.current) in Step(s, input).1)
  {
  }

  lemma {:induction false} FetchWasPosted(run: Run, n: nat, id: nat) returns (i: nat)
    requires n <= |run| && id in After(run, n).fetches
    ensures StartedBy(run, n, id, i)
    ensures After(run, n).fetches[id] == Fetch(run[i].callId, After(run, i).current)
  {
    hide Step;
    var s := After(run, n - 1);
    FetchOrigin(s, run[n - 1], id);
    if id in s.fetches && After(run, n).fetches[id] == s.fetches[id] {
      i := FetchWasPosted(run, n - 1, id);
    } else {
      i := n - 1;
    }
  }

  lemma {:induction false} FetchesAreNumbered(run: Run, n: nat)
    requires n <= |run|
    ensures forall id :: id in After(run, n).fetches ==> id < After(run, n).nextFetch
  {
    hide Step;
    if n > 0 {
      FetchesAreNumbered(run, n - 1);
      StepMovesFetches(After(run, n - 1), run[n - 1]);
    }
  }

  lemma {:induction false} FinishedStaysFinished(run: Run, id: nat, m: nat, n: nat)
    requires m <= n <= |run|
    requires id < After(run, m).nextFetch && id !in After(run, m).fetches
    ensures id < After(run, n).nextFetch && id !in After(run, n).fetches
    decreases n
  {
    hide Step;
    if m < n {
      FinishedStaysFinished(run, id, m, n - 1);
      StepMovesFetches(After(run, n - 1), run[n - 1]);
    }
  }

  lemma DoneRemovesFetch(s: Page, input: Input)
    requires input.FetchDone? && input.fetch in s.fetches
    ensures var t := Step(s, input).0; input.fetch !in t.fetches && t.nextFetch == s.nextFetch
  {
  }

  lemma FetchEndsOnce(run: Run, i: nat, j: nat)
    requires i < j < |run| && run[i].FetchDone? && run[j].FetchDone?
    requires run[i].fetch in After(run, i).fetches && run[j].fetch in After(run, j).fetches
    ensures run[i].fetch != run[j].fetch
  {
    hide Step;
    FetchesAreNumbered(run, i);
    DoneRemovesFetch(After(run, i), run[i]);
    FinishedStaysFinished(run, run[i].fetch, i + 1, j);
  }

  lemma SendingStep(s: Page, input: Input, callId: string)
    requires input.FetchDone? && OutputSent(input.fetch, callId, s.current) in Step(s, input).1
    ensures input.fetch in s.fetches && s.fetches[input.fetch] == Fetch(callId, s.current)
  {
  }

  /**
   An output is sent only for a call that was posted with the very same peer, channel and scope, and the
   peer has been current ever since.
   */
  lemma OutputsMatchTheirCall(run: Run, j: nat, callId: string, peer: nat) returns (i: nat)
    requires j < |run| && Sends(run, j, callId, peer)
    ensures i < j && Posts(run, i, callId, peer) && After(run, i).nextFetch == run[j].fetch
    ensures After(run, i).current == After(run, j).current
    ensures forall m :: i <= m <= j ==> After(run, m).current.peer == Some(peer)
  {
    hide Step;
    SendingStep(After(run, j), run[j], callId);
    i := FetchWasPosted(run, j, run[j].fetch);
    forall m | i <= m <= j
      ensures After(run, m).current.peer == Some(peer)
    {
      CurrentThroughout(run, peer, i, m, j);
    }
  }

  /** Each peer gets one session answer, as startConversation awaits one for the peer it created. */
  ghost predicate OneAnswerPerPeer(run: Run) {
    forall i, j :: 0 <= i < j < |run| && run[i].AnswerApplied? && run[j].AnswerApplied? ==> run[i].peer != run[j].peer
  }

  ghost predicate Answers(run: Run, x: nat, peer: nat)
    requires x < |run|
  {
    run[x].AnswerApplied? && run[x].peer == peer
  }

  lemma StepKeepsContext(s: Page, input: Input, peer: nat)
    requires s.current.peer == Some(peer) == Step(s, input).0.current.peer && peer < s.nextPeer
    requires !(input.AnswerApplied? && input.peer == peer)
    ensures Step(s, input).0.current == s.current
  {
  }

  lemma {:induction false} ContextStays(run: Run, a: nat, b: nat, peer: nat)
    requires a <= b <= |run|
    requires forall m :: a <= m <= b ==> After(run, m).current.peer == Some(peer)
    requires forall x :: a <= x < b ==> !Answers(run, x, peer)
    ensures After(run, b).current == After(run, a).current
    decreases b
  {
    hide Step;
    if a < b {
      ContextStays(run, a, b - 1, peer);
      PeersAreNumbered(run, b - 1);
      assert !Answers(run, b - 1, peer);
      assert After(run, b).current.peer == After(run, b - 1).current.peer == Some(peer);
      StepKeepsContext(After(run, b - 1), run[b - 1], peer);
    }
  }

  /** With one answer per peer, the whole context has stood still from the post to the sent output. */
  lemma ContextStoodStill(run: Run, j: nat, callId: string, peer: nat) returns (i: nat)
    requires j < |run| && Sends(run, j, callId, peer) && OneAnswerPerPeer(run)
    ensures i < j && Posts(run, i, callId, peer) && After(run, i).nextFetch == run[j].fetch
    ensures forall m :: i <= m <= j ==> After(run, m).current == After(run, j).current
  {
    hide Step;
    i := OutputsMatchTheirCall(run, j, callId, peer);
    forall m | i <= m <= j
      ensures After(run, m).current == After(run, j).current
    {
      if x: nat :| i <= x < m && Answers(run, x, peer) {
        forall y: nat | m <= y < j
          ensures !Answers(run, y, peer)
        {
        }
        ContextStays(run, m, j, peer);
      } else {
        ContextStays(run, i, m, peer);
      }
    }
  }

  /**
   On one peer connection the output of a call id is sent twice only for two posts of the call with a
   restart over that peer between them.
   */
  lemma OutputSentOnce(run: Run, i: nat, j: nat, callId: string, peer: nat) returns (a: nat, b: nat)
    requires i < j < |run| && Sends(run, i, callId, peer) && Sends(run, j, callId, peer)
    ensures a < i && b < j && Posts(run, a, callId, peer) && Posts(run, b, callId, peer)
    ensures After(run, a).nextFetch == run[i].fetch && After(run, b).nextFetch == run[j].fetch
    ensures exists k: nat :: k < |run| && (a < k < b || b < k < a) && RestartsOver(run, k, peer)
  {
    hide Step;
    a := OutputsMatchTheirCall(run, i, callId, peer);
    b := OutputsMatchTheirCall(run, j, callId, peer);
    SendingStep(After(run, i), run[i], callId);
    SendingStep(After(run, j), run[j], callId);
    FetchEndsOnce(run, i, j);
    if a < b {
      PostedOnce(run, a, b, callId, peer);
    } else {
      PostedOnce(run, b, a, callId, peer);
    }
  }

  /** Started in order, the page sends every output at most once on each peer, without exception. */
  lemma OrderlyOutputsOnce(run: Run, i: nat, j: nat, callId: string, peer: nat)
    requires i < j < |run| && Orderly(run) && Sends(run, i, callId, peer)
    ensures !Sends(run, j, callId, peer)
  {
    hide Step;
    if Sends(run, j, callId, peer) {
      var a, b := OutputSentOnce(run, i, j, callId, peer);
      var k: nat :| k < |run| && RestartsOver(run, k, peer);
      OrderlyNeverRestartsOver(run, k, peer);
    }
  }

  // ----- where the promise ends

  const RESTART: Run := [Start, Stop, MediaReady, FunctionCall("c"), Start, FunctionCall("c")]

  /**
   A microphone granted after Stop opens a peer while the start button is enabled; the next start forgets
   that peer's calls, and one of them is posted twice.
   */
  lemma RestartPostsTwice()
    ensures !After(RESTART, 0).startDisabled && !After(RESTART, 4).startDisabled
    ensures Posts(RESTART, 3, "c", 0) && RestartsOver(RESTART, 4, 0) && Posts(RESTART, 5, "c", 0)
  {
    var here := Context(Some(0), Some(0), None);
    var s3 := INITIAL.(current := here, nextPeer := 1, teardownCompleteSent := true);
    var s4 := s3.(executions := map["c" := 0], fetches := map[0 := Fetch("c", here)], nextFetch := 1);
    assert After(RESTART, 1) == INITIAL.(startDisabled := true);
    assert After(RESTART, 2) == INITIAL.(teardownCompleteSent := true);
    assert After(RESTART, 3) == s3;
    assert After(RESTART, 4) == s4;
    assert After(RESTART, 5) == s4.(executions := map[], teardownCompleteSent := false, startDisabled := true);
  }
}
