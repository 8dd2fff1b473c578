/**
 The gateway's session and execution state, as changed by /session and /execute. Each method is one
 atomic stretch between awaits: /session awaits the upstream post between numbering its attempt and
 committing, and `resolve_heavy_agent_block` awaits the controller between admission and caching.
 */
module Gateway {
  import opened Wrappers

  const MAX_CALLS: nat := 512

  datatype Entry = Entry(fingerprint: string, status: int, body: string)

  datatype State = State(session: Option<string>, scope: Option<string>, cache: map<string, Entry>, latest: nat)

  const INITIAL := State(None, None, map[], 0)

  /** What the upstream post brought back. */
  datatype Upstream = HttpError | Refused | Accepted

  datatype SessionReply = BadGateway | Superseded | Created(session: string, scope: Option<string>)

  // `fingerprint` is the digest of the canonical name and arguments.
  datatype Request = Request(scope: string, callId: string, fingerprint: string)

  datatype ExecutionReply =
    StaleSession | CallIdConflict | CallLimitExceeded | Answer(status: int, body: string) | ServerError

  /** What the capability did: success, an error that /execute catches, or any other exception. */
  datatype Execution = Success(body: string) | CaughtError(body: string) | Uncaught

  function FinishSession(s: State, attempt: nat, localId: Option<string>, upstream: Upstream,
                         freshSession: string, freshScope: string): (State, SessionReply) {
    if upstream.HttpError? then (s, BadGateway)
    else if attempt != s.latest then (s, Superseded)
    else if upstream.Refused? then (s, BadGateway)
    else
      var session := localId.GetOr(freshSession);
      var scope := if localId.Some? then Some(freshScope) else None;
      (State(Some(session), scope, map[], s.latest), Created(session, scope))
  }

  predicate ScopeIsCurrent(s: State, request: Request, controllerSession: Option<string>) {
    s.scope == Some(request.scope) && s.session.Some? && controllerSession == s.session
  }

  /** The reply given without executing, or None when the capability is to run. */
  function Admission(s: State, request: Request, controllerSession: Option<string>): Option<ExecutionReply> {
    if !ScopeIsCurrent(s, request, controllerSession) then
      Some(StaleSession)
    else if request.callId in s.cache then
      var entry := s.cache[request.callId];
      Some(if entry.fingerprint != request.fingerprint then CallIdConflict else Answer(entry.status, entry.body))
    else if |s.cache| >= MAX_CALLS then
      Some(CallLimitExceeded)
    else
      None
  }

  function EntryOf(request: Request, execution: Execution): Entry
    requires !execution.Uncaught?
  {
    Entry(request.fingerprint, if execution.Success? then 200 else 400, execution.body)
  }

  /** Caches the outcome of an execution; an uncaught exception leaves no entry. */
  function Settle(s: State, request: Request, execution: Execution): (State, ExecutionReply) {
    if execution.Uncaught? then
      (s, ServerError)
    else
      var entry := EntryOf(request, execution);
      (s.(cache := s.cache[request.callId := entry]), Answer(entry.status, entry.body))
  }

  class App {
    var activeSessionId: Option<string>
    var activeExecutionScope: Option<string>
    var executionResultsByCallId: map<string, Entry>
    var latestSessionAttempt: nat

    ghost function View(): State
      reads this
    {
      State(activeSessionId, activeExecutionScope, executionResultsByCallId, latestSessionAttempt)
    }

    constructor ()
      ensures View() == INITIAL
    {
      activeSessionId, activeExecutionScope := None, None;
      executionResultsByCallId := map[];
      latestSessionAttempt := 0;
    }

    /** /session after its input checks, up to the upstream post. */
    method BeginSession() returns (attempt: nat)
      modifies this`latestSessionAttempt
      ensures View() == old(View()).(latest := attempt)
      ensures attempt == old(latestSessionAttempt) + 1
    {
      latestSessionAttempt := latestSessionAttempt + 1;
      attempt := latestSessionAttempt;
    }

    /** /session once the upstream post has returned or failed. */
    method EndSession(attempt: nat, localId: Option<string>, upstream: Upstream, freshSession: string,
                      freshScope: string)
      returns (reply: SessionReply)
      modifies this
      ensures (View(), reply) == FinishSession(old(View()), attempt, localId, upstream, freshSession, freshScope)
    {
      if upstream.HttpError? {
        return BadGateway;
      }
      if attempt != latestSessionAttempt {
        return Superseded;
      }
      if upstream.Refused? {
        return BadGateway;
      }
      var session := localId.GetOr(freshSession);
      activeSessionId := Some(session);
      activeExecutionScope := if localId.Some? then Some(freshScope) else None;
      executionResultsByCallId := map[];
      return Created(session, activeExecutionScope);
    }

    /** The checks of /execute before anything runs. */
    method Admit(request: Request, controllerSession: Option<string>) returns (reply: Option<ExecutionReply>)
      ensures reply == Admission(View(), request, controllerSession)
    {
      if activeExecutionScope.None? || request.scope != activeExecutionScope.value || activeSessionId.None?
         || controllerSession != activeSessionId {
        return Some(StaleSession);
      }
      if request.callId in executionResultsByCallId {
        var cached := executionResultsByCallId[request.callId];
        if cached.fingerprint != request.fingerprint {
          return Some(CallIdConflict);
        }
        return Some(Answer(cached.status, cached.body));
      }
      if |executionResultsByCallId| >= MAX_CALLS {
        return Some(CallLimitExceeded);
      }
      return None;
    }

    /** The tail of /execute: builds the reply and caches it. */
    method Record(request: Request, execution: Execution) returns (reply: ExecutionReply)
      modifies this`executionResultsByCallId
      ensures (View(), reply) == Settle(old(View()), request, execution)
    {
      var status;
      match execution {
        case Uncaught => return ServerError;
        case CaughtError(_) => status := 400;
        case Success(_) => status := 200;
      }
      executionResultsByCallId := executionResultsByCallId[
        request.callId := Entry(request.fingerprint, status, execution.body)];
      return Answer(status, execution.body);
    }

    /** /execute for a capability run by the broker, which never awaits. */
    method Execute(request: Request, controllerSession: Option<string>, execution: Execution)
      returns (reply: ExecutionReply, executed: bool)
      modifies this`executionResultsByCallId
      ensures var refused := Admission(old(View()), request, controllerSession);
              && executed == refused.None?
              && (View(), reply) == if refused.Some? then (old(View()), refused.value)
                                    else Settle(old(View()), request, execution)
    {
      var refused := Admit(request, controllerSession);
      if refused.Some? {
        return refused.value, false;
      }
      reply := Record(request, execution);
      executed := true;
    }
  }
}
