/**
 The task turn scheduler: decides when a `response.create` may be sent and carries background task
 events through sends, throws, cancellations and tool-call deferrals. Whether the channel is ready and
 whether a send throws are answers of the environment, given to every handler as an `Env`.
 */
module TaskTurns {
  import opened Wrappers
  import Decimal

  // `body` stands for the fields that only the instruction text uses.
  datatype TaskEvent = TaskEvent(taskId: string, eventId: nat, body: string)

  type Events = map<string, TaskEvent>

  function EventKey(event: TaskEvent): string {
    event.taskId + ":" + Decimal.Print(event.eventId)
  }

  lemma DifferentColons(a: string, n: nat, b: string, m: nat)
    requires |b| < |a|
    ensures a + ":" + Decimal.Print(n) != b + ":" + Decimal.Print(m)
  {
    var s, t, at := a + ":" + Decimal.Print(n), b + ":" + Decimal.Print(m), |a|;
    assert s[at] == ':';
    if at < |t| {
      assert t[at] == Decimal.Print(m)[at - |b| - 1];
      assert t[at] in Decimal.Print(m);
    }
  }

  /** Two events share a key only if they name the same task and event number. */
  lemma EventKeyInjective(a: TaskEvent, b: TaskEvent)
    requires EventKey(a) == EventKey(b)
    ensures a.taskId == b.taskId && a.eventId == b.eventId
  {
    if |b.taskId| < |a.taskId| {
      DifferentColons(a.taskId, a.eventId, b.taskId, b.eventId);
    } else if |a.taskId| < |b.taskId| {
      DifferentColons(b.taskId, b.eventId, a.taskId, a.eventId);
    }
    assert a.taskId == EventKey(a)[..|a.taskId|] == b.taskId;
    assert Decimal.Print(a.eventId) == EventKey(a)[|a.taskId| + 1..] == Decimal.Print(b.eventId);
    Decimal.ValueOfPrint(a.eventId);
    Decimal.ValueOfPrint(b.eventId);
  }

  datatype Turns = Turns(
    userSpeaking: bool,
    awaitingCommit: bool,
    audioCommittedSinceSpeechStarted: bool,
    assistantResponding: bool,
    responseCreatePending: bool,
    responseRequested: bool,
    pending: Events,
    inFlight: Events)

  const INITIAL := Turns(false, false, false, false, false, false, map[], map[])

  datatype Env = Env(ready: bool, sendThrows: bool)

  datatype Input =
    | Reset
    | ChannelReady
    | TaskArrived(event: TaskEvent)
    | SpeechStarted
    | SpeechStopped
    | AudioCommitted
    | ResponseCreated
    | ResponseDone(status: string, deferContinuation: bool)
    | RequestResponse

  const COMPLETED := "completed"

  // `sent` holds the announced events of a response.create that went out.
  datatype Outcome = Outcome(state: Turns, sent: Option<Events>)

  predicate Blocked(s: Turns) {
    s.userSpeaking || s.awaitingCommit || s.assistantResponding || s.responseCreatePending
  }

  function MaybeCreate(s: Turns, env: Env): Outcome {
    if !s.responseRequested || Blocked(s) || !env.ready then
      Outcome(s, None)
    else if env.sendThrows then
      Outcome(s.(inFlight := map[]), None)
    else
      Outcome(s.(pending := map[], inFlight := s.pending, responseRequested := false, responseCreatePending := true),
              Some(s.pending))
  }

  function Finish(s: Turns, status: string, deferContinuation: bool): Turns {
    s.(
    assistantResponding := false,
    responseCreatePending := false,
    inFlight := map[],
    pending := if deferContinuation || status != COMPLETED then s.pending + s.inFlight else s.pending,
    responseRequested :=
      if deferContinuation && s.inFlight != map[] then true
      else if status != COMPLETED then false
      else s.responseRequested)
  }

  function Step(s: Turns, input: Input, env: Env): Outcome {
    match input
    case Reset => Outcome(INITIAL, None)
    case ChannelReady => MaybeCreate(s, env)
    case TaskArrived(event) =>
      MaybeCreate(s.(pending := s.pending[EventKey(event) := event], responseRequested := true), env)
    case SpeechStarted =>
      Outcome(s.(userSpeaking := true, awaitingCommit := false, audioCommittedSinceSpeechStarted := false), None)
    case SpeechStopped =>
      MaybeCreate(s.(userSpeaking := false, awaitingCommit := !s.audioCommittedSinceSpeechStarted), env)
    case AudioCommitted =>
      MaybeCreate(s.(audioCommittedSinceSpeechStarted := true, awaitingCommit := false, responseRequested := true), env)
    case ResponseCreated => Outcome(s.(responseCreatePending := false, assistantResponding := true), None)
    case ResponseDone(status, deferContinuation) =>
      var done := Finish(s, status, deferContinuation);
      if deferContinuation then Outcome(done, None) else MaybeCreate(done, env)
    case RequestResponse => MaybeCreate(s.(responseRequested := true), env)
  }

  lemma NoEvents(events: Events)
    ensures |events| > 0 <==> events != map[]
    ensures map[] + events == events
  {
    if events != map[] {
      var key :| key in events;
      assert key in events.Keys && |events| == |events.Keys|;
    }
  }

  class TaskTurnScheduler {
    var userSpeaking: bool
    var awaitingCommit: bool
    var audioCommittedSinceSpeechStarted: bool
    var assistantResponding: bool
    var responseCreatePending: bool
    var responseRequested: bool
    var pendingEvents: Events
    var inFlightEvents: Events

    ghost function State(): Turns
      reads this
    {
      Turns(userSpeaking, awaitingCommit, audioCommittedSinceSpeechStarted, assistantResponding,
            responseCreatePending, responseRequested, pendingEvents, inFlightEvents)
    }

    constructor ()
      ensures State() == INITIAL
    {
      userSpeaking, awaitingCommit, audioCommittedSinceSpeechStarted := false, false, false;
      assistantResponding, responseCreatePending, responseRequested := false, false, false;
      pendingEvents, inFlightEvents := map[], map[];
    }

    method ResetAll()
      modifies this
      ensures State() == Step(old(State()), Reset, Env(true, false)).state
    {
      userSpeaking, awaitingCommit, audioCommittedSinceSpeechStarted := false, false, false;
      assistantResponding, responseCreatePending, responseRequested := false, false, false;
      pendingEvents, inFlightEvents := map[], map[];
    }

    /** Puts every in-flight event back, key by key. */
    method Requeue()
      modifies this`pendingEvents
      ensures pendingEvents == old(pendingEvents) + inFlightEvents
    {
      var keys := inFlightEvents.Keys;
      ghost var moved: set<string> := {};
      while keys != {}
        invariant keys + moved == inFlightEvents.Keys
        invariant pendingEvents.Keys == old(pendingEvents).Keys + moved
        invariant forall k :: k in pendingEvents ==>
          pendingEvents[k] == if k in moved then inFlightEvents[k] else old(pendingEvents)[k]
        decreases keys
      {
        var key :| key in keys;
        pendingEvents := pendingEvents[key := inFlightEvents[key]];
        keys := keys - {key};
        moved := moved + {key};
      }
    }

    method MaybeCreateResponse(env: Env) returns (created: bool, sent: Option<Events>)
      modifies this
      ensures Outcome(State(), sent) == MaybeCreate(old(State()), env)
      ensures created == sent.Some?
    {
      if !responseRequested || userSpeaking || awaitingCommit || assistantResponding || responseCreatePending
         || !env.ready {
        return false, None;
      }
      inFlightEvents := pendingEvents;
      pendingEvents := map[];
      responseRequested := false;
      responseCreatePending := true;
      NoEvents(inFlightEvents);
      if !env.sendThrows {
        return true, Some(inFlightEvents);
      }
      Requeue();
      inFlightEvents := map[];
      responseRequested := true;
      responseCreatePending := false;
      return false, None;
    }

    method OnChannelReady(env: Env) returns (sent: Option<Events>)
      modifies this
      ensures Outcome(State(), sent) == Step(old(State()), ChannelReady, env)
    {
      var _, s := MaybeCreateResponse(env);
      sent := s;
    }

    method OnTaskEvent(event: TaskEvent, env: Env) returns (sent: Option<Events>)
      modifies this
      ensures Outcome(State(), sent) == Step(old(State()), TaskArrived(event), env)
    {
      pendingEvents := pendingEvents[EventKey(event) := event];
      responseRequested := true;
      var _, s := MaybeCreateResponse(env);
      sent := s;
    }

    method OnSpeechStarted()
      modifies this
      ensures forall env :: Outcome(State(), None) == Step(old(State()), SpeechStarted, env)
    {
      userSpeaking := true;
      awaitingCommit := false;
      audioCommittedSinceSpeechStarted := false;
    }

    method OnSpeechStopped(env: Env) returns (sent: Option<Events>)
      modifies this
      ensures Outcome(State(), sent) == Step(old(State()), SpeechStopped, env)
    {
      userSpeaking := false;
      awaitingCommit := !audioCommittedSinceSpeechStarted;
      var _, s := MaybeCreateResponse(env);
      sent := s;
    }

    method OnAudioCommitted(env: Env) returns (sent: Option<Events>)
      modifies this
      ensures Outcome(State(), sent) == Step(old(State()), AudioCommitted, env)
    {
      audioCommittedSinceSpeechStarted := true;
      awaitingCommit := false;
      sent := Request(env);
    }

    method OnResponseCreated()
      modifies this
      ensures forall env :: Outcome(State(), None) == Step(old(State()), ResponseCreated, env)
    {
      responseCreatePending := false;
      assistantResponding := true;
    }

    method FinishResponse(status: string, deferContinuation: bool)
      modifies this
      ensures State() == Finish(old(State()), status, deferContinuation)
    {
      responseCreatePending := false;
      assistantResponding := false;
      NoEvents(inFlightEvents);
      if deferContinuation || status != COMPLETED {
        Requeue();
        if deferContinuation && |inFlightEvents| > 0 {
          responseRequested := true;
        } else if status != COMPLETED {
          responseRequested := false;
        }
      }
      inFlightEvents := map[];
    }

    method OnResponseDone(status: string, deferContinuation: bool, env: Env) returns (sent: Option<Events>)
      modifies this
      ensures Outcome(State(), sent) == Step(old(State()), ResponseDone(status, deferContinuation), env)
    {
      sent := None;
      FinishResponse(status, deferContinuation);
      if !deferContinuation {
        var _, s := MaybeCreateResponse(env);
        sent := s;
      }
    }

    method Request(env: Env) returns (sent: Option<Events>)
      modifies this
      ensures Outcome(State(), sent) == Step(old(State()), RequestResponse, env)
    {
      responseRequested := true;
      var _, s := MaybeCreateResponse(env);
      sent := s;
    }
  }
}
