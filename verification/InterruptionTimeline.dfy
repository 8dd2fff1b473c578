/**
 The interruption timeline reducer: mutable trace records, reached both from the ordered list and from
 the map by response id. The values of the records are the abstract state `Timeline`.
 */
module InterruptionTimeline {
  import opened Wrappers
  import opened PyText

  datatype Kind = SpeechStarted | PlaybackSuppressed | ResponseCancelled | TruncationObserved | ListeningRestored

  datatype Event = Event(sessionId: string, responseId: string, kind: Kind, occurredNs: int, onsetMs: Option<real>)

  // The fields of one trace; `ns` holds the five observed timestamps.
  datatype TraceView = TraceView(
    audioStartMs: Option<int>,
    onsetMs: Option<real>,
    ns: map<Kind, int>,
    nextFirstAudioNs: Option<int>)

  datatype Timeline = Timeline(
    sessionId: string,
    activeId: Option<string>,
    activeReceivedNs: int,
    activeAudioStartMs: Option<int>,
    observed: set<string>,
    order: seq<string>,               // response ids of the trace list, in list order
    records: map<string, TraceView>)  // the trace of each

  function Start(sessionId: string): Timeline {
    Timeline(sessionId, None, 0, None, {}, [], map[])
  }

  /** _validate_identifier, for a value that is a string. */
  predicate ValidIdentifier(value: string, maximum: nat) {
    && 1 <= |value| <= maximum
    && !IsSpace(value[0]) && !IsSpace(value[|value| - 1])
    && forall c :: c in value ==> c >= ' '
  }

  datatype Begin = Begin(responseId: string, receivedNs: int, audioStartMs: Option<int>)

  predicate ValidBegin(b: Begin) {
    && ValidIdentifier(b.responseId, 256)
    && b.receivedNs >= 0
    && (b.audioStartMs.Some? ==> b.audioStartMs.value >= 0)
  }

  // ----- the abstract reducer

  /** The active response's trace, if it has one, learns when the next response began. */
  function MarkPrevious(t: Timeline, receivedNs: int): map<string, TraceView> {
    if t.activeId.Some? && t.activeId.value in t.records && t.records[t.activeId.value].nextFirstAudioNs.None? then
      t.records[t.activeId.value := t.records[t.activeId.value].(nextFirstAudioNs := Some(receivedNs))]
    else
      t.records
  }

  function BeginStep(t: Timeline, b: Begin): Timeline {
    if !ValidBegin(b) || b.responseId in t.observed then
      t
    else
      Timeline(t.sessionId, Some(b.responseId), b.receivedNs, b.audioStartMs, t.observed + {b.responseId},
               t.order, MarkPrevious(t, b.receivedNs))
  }

  predicate Acceptable(t: Timeline, e: Event) {
    e.sessionId == t.sessionId && t.activeId == Some(e.responseId) && t.activeReceivedNs <= e.occurredNs
  }

  function Observe(trace: TraceView, e: Event): TraceView {
    if e.kind in trace.ns then
      trace
    else
      trace.(ns := trace.ns[e.kind := e.occurredNs],
             onsetMs := if e.kind.SpeechStarted? then e.onsetMs else trace.onsetMs)
  }

  function NewTrace(audioStartMs: Option<int>): TraceView {
    TraceView(audioStartMs, None, map[], None)
  }

  /** An accepted event first makes sure that its response has a trace, appended to the list. */
  function WithTrace(t: Timeline, id: string): (u: Timeline)
    ensures id in u.records
  {
    if id in t.records then t
    else t.(order := t.order + [id], records := t.records[id := NewTrace(t.activeAudioStartMs)])
  }

  function ConsumeStep(t: Timeline, e: Event): (Timeline, bool) {
    if !Acceptable(t, e) then
      (t, false)
    else
      var u := WithTrace(t, e.responseId);
      var trace := u.records[e.responseId];
      (u.(records := u.records[e.responseId := Observe(trace, e)]), e.kind !in trace.ns)
  }

  // ----- the reducer itself

  class InterruptionTrace {
    const responseId: string
    const audioStartMs: Option<int>
    var onsetMs: Option<real>
    var speechStartedReceivedNs: Option<int>
    var playbackSuppressedNs: Option<int>
    var responseCancelledNs: Option<int>
    var truncationObservedNs: Option<int>
    var listeningRestoredNs: Option<int>
    var nextFirstAudioNs: Option<int>

    ghost function Field(kind: Kind): Option<int>
      reads this
    {
      match kind
      case SpeechStarted => speechStartedReceivedNs
      case PlaybackSuppressed => playbackSuppressedNs
      case ResponseCancelled => responseCancelledNs
      case TruncationObserved => truncationObservedNs
      case ListeningRestored => listeningRestoredNs
    }

    ghost function View(): TraceView
      reads this
    {
      TraceView(audioStartMs, onsetMs,
                map kind: Kind | Field(kind).Some? :: Field(kind).value,
                nextFirstAudioNs)
    }

    constructor (responseId: string, audioStartMs: Option<int>)
      ensures View() == NewTrace(audioStartMs) && this.responseId == responseId
    {
      this.responseId := responseId;
      this.audioStartMs := audioStartMs;
      onsetMs := None;
      speechStartedReceivedNs, playbackSuppressedNs, responseCancelledNs := None, None, None;
      truncationObservedNs, listeningRestoredNs, nextFirstAudioNs := None, None, None;
    }

    method SetNextFirstAudio(receivedNs: int)
      modifies this
      ensures View() == old(View()).(nextFirstAudioNs := Some(receivedNs))
    {
      ghost var before := View();
      nextFirstAudioNs := Some(receivedNs);
      assert View().ns == before.ns;
    }

    /** The branches of consume on an existing trace, with the first-write rule of _set_first. */
    method Record(e: Event) returns (changed: bool)
      modifies this
      ensures View() == Observe(old(View()), e)
      ensures changed <==> e.kind !in old(View()).ns
    {
      ghost var before := View();
      match e.kind {
      case SpeechStarted =>
        if speechStartedReceivedNs.Some? { return false; }
        speechStartedReceivedNs := Some(e.occurredNs);
        onsetMs := e.onsetMs;
      case PlaybackSuppressed =>
        if playbackSuppressedNs.Some? { return false; }
        playbackSuppressedNs := Some(e.occurredNs);
      case ResponseCancelled =>
        if responseCancelledNs.Some? { return false; }
        responseCancelledNs := Some(e.occurredNs);
      case TruncationObserved =>
        if truncationObservedNs.Some? { return false; }
        truncationObservedNs := Some(e.occurredNs);
      case ListeningRestored =>
        if listeningRestoredNs.Some? { return false; }
        listeningRestoredNs := Some(e.occurredNs);
      }
      assert View().ns == before.ns[e.kind := e.occurredNs];
      return true;
    }
  }

  /** The map by response id and the ordered list hold the same records, one per response. */
  ghost predicate Indexed(traces: seq<InterruptionTrace>, byResponse: map<string, InterruptionTrace>) {
    && (forall i, j :: 0 <= i < j < |traces| ==> traces[i] != traces[j])
    && (forall i :: 0 <= i < |traces| ==>
          traces[i].responseId in byResponse && byResponse[traces[i].responseId] == traces[i])
    && (forall id :: id in byResponse ==> id == byResponse[id].responseId && byResponse[id] in traces)
  }

  lemma IndexedAppend(traces: seq<InterruptionTrace>, byResponse: map<string, InterruptionTrace>,
                      trace: InterruptionTrace)
    requires Indexed(traces, byResponse) && trace.responseId !in byResponse
    ensures Indexed(traces + [trace], byResponse[trace.responseId := trace])
    ensures Order(traces + [trace]) == Order(traces) + [trace.responseId]
    ensures Records(byResponse[trace.responseId := trace]) == Records(byResponse)[trace.responseId := trace.View()]
  {
    assert (traces + [trace])[|traces|] == trace;
    forall id | id in byResponse
      ensures byResponse[id] in traces + [trace]
    {
      assert byResponse[id] in traces;
    }
  }

  ghost function Order(traces: seq<InterruptionTrace>): seq<string> {
    seq(|traces|, i requires 0 <= i < |traces| => traces[i].responseId)
  }

  ghost function Records(byResponse: map<string, InterruptionTrace>): map<string, TraceView>
    reads byResponse.Values
  {
    map id | id in byResponse :: byResponse[id].View()
  }

  class InterruptionTimelineReducer {
    const localSessionId: string
    var activeResponseId: Option<string>
    var activeReceivedNs: Option<int>
    var activeAudioStartMs: Option<int>
    var observedResponseIds: set<string>
    var traces: seq<InterruptionTrace>
    var tracesByResponse: map<string, InterruptionTrace>

    ghost predicate Valid()
      reads this
    {
      && Indexed(traces, tracesByResponse)
      && "" !in tracesByResponse
      && (activeResponseId.Some? <==> activeReceivedNs.Some?)
      && activeResponseId != Some("")
    }

    ghost function View(): Timeline
      reads this, tracesByResponse.Values
    {
      Timeline(localSessionId, activeResponseId, activeReceivedNs.GetOr(0), activeAudioStartMs, observedResponseIds,
               Order(traces), Records(tracesByResponse))
    }

    constructor (localSessionId: string)
      ensures Valid() && fresh(traces) && View() == Start(localSessionId)
    {
      this.localSessionId := localSessionId;
      activeResponseId, activeReceivedNs, activeAudioStartMs := None, None, None;
      observedResponseIds := {};
      traces := [];
      tracesByResponse := map[];
    }

    method MarkPreviousTrace(receivedNs: int)
      requires Valid()
      modifies tracesByResponse.Values
      ensures Records(tracesByResponse) == MarkPrevious(old(View()), receivedNs)
    {
      var key := activeResponseId.GetOr("");
      if key in tracesByResponse {
        var previous := tracesByResponse[key];
        if previous.nextFirstAudioNs.None? {
          previous.SetNextFirstAudio(receivedNs);
        }
      }
    }

    /** begin_response; false where the source raises ValueError. */
    method BeginResponse(b: Begin) returns (accepted: bool)
      requires Valid()
      modifies this, tracesByResponse.Values
      ensures Valid() && traces == old(traces)
      ensures accepted <==> ValidBegin(b) && b.responseId !in old(observedResponseIds)
      ensures View() == BeginStep(old(View()), b)
    {
      if !ValidBegin(b) || b.responseId in observedResponseIds {
        return false;
      }
      MarkPreviousTrace(b.receivedNs);
      observedResponseIds := observedResponseIds + {b.responseId};
      activeResponseId := Some(b.responseId);
      activeReceivedNs := Some(b.receivedNs);
      activeAudioStartMs := b.audioStartMs;
      return true;
    }

    /** Creates the trace of response `id` at its first accepted event. */
    method EnsureTrace(id: string)
      requires Valid() && id != ""
      modifies this`traces, this`tracesByResponse
      ensures Valid()
      ensures View() == WithTrace(old(View()), id)
      ensures OnlyGrew(old(tracesByResponse), id)
    {
      if id !in tracesByResponse {
        var trace := new InterruptionTrace(id, activeAudioStartMs);
        Append(trace);
      }
    }

    method Append(trace: InterruptionTrace)
      requires Valid() && trace.responseId != "" && trace.responseId !in tracesByResponse
      modifies this`traces, this`tracesByResponse
      ensures Valid()
      ensures tracesByResponse == old(tracesByResponse)[trace.responseId := trace]
      ensures var t := old(View());
              View() == t.(order := t.order + [trace.responseId],
                           records := t.records[trace.responseId := trace.View()])
    {
      IndexedAppend(traces, tracesByResponse, trace);
      hide Indexed, Order, Records;
      tracesByResponse := tracesByResponse[trace.responseId := trace];
      traces := traces + [trace];
    }

    /** The map has kept its entries and at most gained a new record for `id`. */
    twostate predicate OnlyGrew(before: map<string, InterruptionTrace>, id: string)
      reads this
    {
      || tracesByResponse == before
      || (id in tracesByResponse && fresh(tracesByResponse[id])
          && tracesByResponse == before[id := tracesByResponse[id]])
    }

    method RecordIn(e: Event) returns (changed: bool)
      requires Valid() && e.responseId in tracesByResponse
      modifies tracesByResponse.Values
      ensures var records := old(Records(tracesByResponse));
              && Records(tracesByResponse) == records[e.responseId := Observe(records[e.responseId], e)]
              && changed == (e.kind !in records[e.responseId].ns)
    {
      changed := tracesByResponse[e.responseId].Record(e);
    }

    method Consume(e: Event) returns (changed: bool)
      requires Valid()
      modifies this, tracesByResponse.Values
      ensures Valid() && OnlyGrew(old(tracesByResponse), e.responseId)
      ensures (View(), changed) == ConsumeStep(old(View()), e)
    {
      if e.sessionId != localSessionId {
        return false;
      }
      if activeResponseId != Some(e.responseId) {
        return false;
      }
      if activeReceivedNs.None? || e.occurredNs < activeReceivedNs.value {
        return false;
      }
      hide Indexed;
      EnsureTrace(e.responseId);
      assert e.responseId in Records(tracesByResponse);
      changed := RecordIn(e);
    }
  }
}
