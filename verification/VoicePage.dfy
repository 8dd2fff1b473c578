/**
 The voice page: which function calls it posts, which outputs it sends, and the farewell latch with its
 bounded fallback. Each method is one stretch of the page's event loop between awaits; the awaits
 themselves (microphone, session answer, /execute) come back as separate methods.
 */
module VoicePage {
  import opened Wrappers

  /** The conversation a message handler belongs to, captured when its message arrived. */
  datatype Context = Context(peer: Option<nat>, channel: Option<nat>, scope: Option<string>)

  /** A function call whose /execute request is under way. */
  datatype Fetch = Fetch(callId: string, context: Context)

  datatype Effect =
    | Posted(fetch: nat, callId: string, context: Context)
    | OutputSent(fetch: nat, callId: string, context: Context)
    | StopCalled

  datatype Page = Page(
    current: Context,
    nextPeer: nat,                 // peer connections are numbered as they are created
    executions: map<string, nat>,  // functionCallExecutions: the fetch of each call id
    fetches: map<nat, Fetch>,
    nextFetch: nat,
    disconnectAfterResponse: bool,
    farewellResponseId: Option<string>,
    fallbackArmed: bool,
    teardownCompleteSent: bool,
    startDisabled: bool)           // whether the start button is disabled

  const NOWHERE := Context(None, None, None)

  const INITIAL := Page(NOWHERE, 0, map[], map[], 0, false, None, false, false, false)

  const COMPLETED := "completed"

  /** What /execute brought back, and whether the channel took the two messages that follow. */
  datatype Completion = Completion(endsSession: bool, outputTaken: bool, updateTaken: bool)

  datatype Input =
    | Start
    | MediaReady
    | AnswerApplied(peer: nat, scope: Option<string>)
    | FunctionCall(callId: string)
    | FetchDone(fetch: nat, completion: Completion)
    | ResponseDone(status: string, responseId: Option<string>)
    | PlaybackStopped(playedId: Option<string>)
    | FallbackFired
    | Stop
    | PageShown

  function Unlatch(s: Page): Page {
    s.(disconnectAfterResponse := false, farewellResponseId := None, fallbackArmed := false)
  }

  function StopPage(s: Page): Page {
    if s.teardownCompleteSent then s
    else Unlatch(s).(current := NOWHERE, executions := map[], teardownCompleteSent := true, startDisabled := false)
  }

  predicate Live(s: Page) {
    s.current.peer.Some? && s.current.channel.Some?
  }

  function CallStep(s: Page, callId: string): (Page, seq<Effect>) {
    if !Live(s) || callId == "" || callId in s.executions then
      (s, [])
    else
      (s.(executions := s.executions[callId := s.nextFetch],
          fetches := s.fetches[s.nextFetch := Fetch(callId, s.current)],
          nextFetch := s.nextFetch + 1),
       [Posted(s.nextFetch, callId, s.current)])
  }

  function FetchStep(s: Page, id: nat, c: Completion): (Page, seq<Effect>) {
    if id !in s.fetches then
      (s, [])
    else
      var fetch := s.fetches[id];
      var t := s.(fetches := s.fetches - {id});
      if fetch.context != s.current || !c.outputTaken then
        (t, [])
      else
        (if c.endsSession && c.updateTaken then t.(disconnectAfterResponse := true, fallbackArmed := true) else t,
         [OutputSent(id, fetch.callId, fetch.context)])
  }

  function ResponseDoneStep(s: Page, status: string, responseId: Option<string>): (Page, seq<Effect>) {
    if !Live(s) || !s.disconnectAfterResponse then (s, [])
    else if status == COMPLETED then (s.(farewellResponseId := responseId), [])
    else (StopPage(Unlatch(s)), [StopCalled])
  }

  function PlaybackStep(s: Page, playedId: Option<string>): (Page, seq<Effect>) {
    if Live(s) && s.disconnectAfterResponse && (s.farewellResponseId.None? || playedId == s.farewellResponseId)
    then (StopPage(Unlatch(s)), [StopCalled])
    else (s, [])
  }

  function Step(s: Page, input: Input): (Page, seq<Effect>) {
    match input
    case Start => (s.(executions := map[], teardownCompleteSent := false, startDisabled := true), [])
    case MediaReady =>
      (s.(current := Context(Some(s.nextPeer), Some(s.nextPeer), s.current.scope), nextPeer := s.nextPeer + 1), [])
    case AnswerApplied(peer, scope) =>
      (if s.current.peer == Some(peer) then s.(current := s.current.(scope := scope)) else s, [])
    case FunctionCall(callId) => CallStep(s, callId)
    case FetchDone(fetch, completion) => FetchStep(s, fetch, completion)
    case ResponseDone(status, responseId) => ResponseDoneStep(s, status, responseId)
    case PlaybackStopped(playedId) => PlaybackStep(s, playedId)
    case FallbackFired =>
      if !s.fallbackArmed then (s, [])
      else if !s.disconnectAfterResponse then (s.(fallbackArmed := false), [])
      else (StopPage(Unlatch(s)), [StopCalled])
    case Stop => (StopPage(s), [StopCalled])
    case PageShown => (s.(teardownCompleteSent := false), [])
  }

  class VoicePage {
    var peerConnection: Option<nat>
    var dataChannel: Option<nat>
    var executionScope: Option<string>
    var peersCreated: nat
    var functionCallExecutions: map<string, nat>
    // The suspended runFunctionCall activations.
    var suspended: map<nat, Fetch>
    var fetchesStarted: nat
    var disconnectAfterResponse: bool
    var farewellResponseId: Option<string>
    var farewellFallbackTimer: bool
    var teardownCompleteSent: bool
    var startButtonDisabled: bool

    ghost function View(): Page
      reads this
    {
      Page(Context(peerConnection, dataChannel, executionScope), peersCreated, functionCallExecutions, suspended,
           fetchesStarted, disconnectAfterResponse, farewellResponseId, farewellFallbackTimer, teardownCompleteSent,
           startButtonDisabled)
    }

    constructor ()
      ensures View() == INITIAL
    {
      peerConnection, dataChannel, executionScope := None, None, None;
      peersCreated, fetchesStarted := 0, 0;
      functionCallExecutions, suspended := map[], map[];
      disconnectAfterResponse, farewellResponseId, farewellFallbackTimer := false, None, false;
      teardownCompleteSent, startButtonDisabled := false, false;
    }

    /** startConversation up to the microphone prompt. */
    method StartConversation()
      modifies this
      ensures (View(), []) == Step(old(View()), Start)
    {
      functionCallExecutions := map[];
      teardownCompleteSent := false;
      startButtonDisabled := true;
    }

    /** startConversation once the microphone was granted: a new peer and channel become current. */
    method MediaGranted()
      modifies this
      ensures (View(), []) == Step(old(View()), MediaReady)
    {
      peerConnection := Some(peersCreated);
      dataChannel := Some(peersCreated);
      peersCreated := peersCreated + 1;
    }

    /** startConversation once the session answered peer `pc`. */
    method AnswerReceived(pc: nat, scope: Option<string>)
      modifies this
      ensures (View(), []) == Step(old(View()), AnswerApplied(pc, scope))
    {
      if peerConnection != Some(pc) {
        return;
      }
      executionScope := scope;
    }

    /** executeFunctionCall and runFunctionCall up to the fetch, for a message of the current channel. */
    method ExecuteFunctionCall(callId: string) returns (effects: seq<Effect>)
      modifies this
      ensures (View(), effects) == Step(old(View()), FunctionCall(callId))
    {
      if peerConnection.None? || dataChannel.None? || callId == "" || callId in functionCallExecutions {
        return [];
      }
      var context := Context(peerConnection, dataChannel, executionScope);
      effects := [Posted(fetchesStarted, callId, context)];
      suspended := suspended[fetchesStarted := Fetch(callId, context)];
      functionCallExecutions := functionCallExecutions[callId := fetchesStarted];
      fetchesStarted := fetchesStarted + 1;
    }

    /** runFunctionCall after the fetch; a send that throws ends it. */
    method FinishFunctionCall(id: nat, completion: Completion) returns (effects: seq<Effect>)
      modifies this
      ensures (View(), effects) == Step(old(View()), FetchDone(id, completion))
    {
      if id !in suspended {
        return [];
      }
      var fetch := suspended[id];
      suspended := suspended - {id};
      if peerConnection != fetch.context.peer || dataChannel != fetch.context.channel
         || executionScope != fetch.context.scope {
        return [];
      }
      if !completion.outputTaken {
        return [];
      }
      effects := [OutputSent(id, fetch.callId, fetch.context)];
      if completion.endsSession && completion.updateTaken {
        disconnectAfterResponse := true;
        farewellFallbackTimer := true;
      }
    }

    /** response.done without function calls. */
    method OnResponseDone(status: string, responseId: Option<string>) returns (effects: seq<Effect>)
      modifies this
      ensures (View(), effects) == Step(old(View()), ResponseDone(status, responseId))
    {
      if peerConnection.None? || dataChannel.None? {
        return [];
      }
      if disconnectAfterResponse {
        if status == COMPLETED {
          farewellResponseId := responseId;
        } else {
          ClearLatch();
          StopConversation();
          return [StopCalled];
        }
      }
      return [];
    }

    method OnPlaybackStopped(playedId: Option<string>) returns (effects: seq<Effect>)
      modifies this
      ensures (View(), effects) == Step(old(View()), PlaybackStopped(playedId))
    {
      if peerConnection.None? || dataChannel.None? {
        return [];
      }
      if disconnectAfterResponse && (farewellResponseId.None? || playedId == farewellResponseId) {
        ClearLatch();
        StopConversation();
        return [StopCalled];
      }
      return [];
    }

    /** The fallback timer's callback, if the timer is armed. */
    method OnFallback() returns (effects: seq<Effect>)
      modifies this
      ensures (View(), effects) == Step(old(View()), FallbackFired)
    {
      if !farewellFallbackTimer {
        return [];
      }
      farewellFallbackTimer := false;
      if disconnectAfterResponse {
        disconnectAfterResponse := false;
        farewellResponseId := None;
        StopConversation();
        return [StopCalled];
      }
      return [];
    }

    method ClearLatch()
      modifies this
      ensures View() == Unlatch(old(View()))
    {
      disconnectAfterResponse := false;
      farewellResponseId := None;
      if farewellFallbackTimer {
        farewellFallbackTimer := false;
      }
    }

    method StopConversation()
      modifies this
      ensures View() == StopPage(old(View()))
    {
      if teardownCompleteSent {
        return;
      }
      dataChannel := None;
      peerConnection := None;
      executionScope := None;
      functionCallExecutions := map[];
      ClearLatch();
      startButtonDisabled := false;
      teardownCompleteSent := true;
    }

    /** pageshow of a page restored from the back-forward cache. */
    method OnPageShown()
      modifies this
      ensures (View(), []) == Step(old(View()), PageShown)
    {
      teardownCompleteSent := false;
    }
  }
}
