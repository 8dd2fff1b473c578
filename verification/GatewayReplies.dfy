/** What /session and /execute answer, read off the run: every reply says what really happened. */
module GatewayReplies {
  import opened Wrappers
  import opened Gateway
  import opened GatewayRuns

  // ----- /session

  /** The reply that tick `i` gives its attempt. */
  ghost function SessionReplyAt(run: Run, i: nat): SessionReply
    requires i < |run| && run[i].EndSession?
  {
    var tick := run[i];
    FinishSession(After(run, i), tick.attempt, tick.localId, tick.upstream, tick.freshSession, tick.freshScope).1
  }

  /** Tick `b` begins attempt `attempt`: it is the BeginSession with that many of them up to it. */
  ghost predicate Begins(run: Run, b: nat, attempt: nat)
    requires b < |run|
  {
    run[b].BeginSession? && Begun(run, b + 1) == attempt
  }

  /** How many attempts the first `n` ticks have begun. */
  ghost function Begun(run: Run, n: nat): nat
    requires n <= |run|
  {
    if n == 0 then 0 else Begun(run, n - 1) + if run[n - 1].BeginSession? then 1 else 0
  }

  lemma {:induction false} LatestIsBegun(run: Run, n: nat)
    requires n <= |run|
    ensures After(run, n).latest == Begun(run, n)
  {
    if n > 0 {
      LatestIsBegun(run, n - 1);
    }
  }

  lemma {:induction false} BeginOfAttempt(run: Run, n: nat, attempt: nat) returns (b: nat)
    requires n <= |run| && 1 <= attempt <= Begun(run, n)
    ensures b < n && Begins(run, b, attempt)
  {
    if attempt == Begun(run, n) && run[n - 1].BeginSession? {
      b := n - 1;
    } else {
      b := BeginOfAttempt(run, n - 1, attempt);
    }
  }

  /** A newer attempt has begun after the one that began at `b`. */
  ghost predicate Overtaken(run: Run, b: nat, i: nat)
    requires i <= |run|
  {
    exists k: nat :: b < k < i && run[k].BeginSession?
  }

  lemma {:induction false} OvertakenIff(run: Run, b: nat, i: nat)
    requires b < i <= |run|
    ensures Begun(run, b + 1) <= Begun(run, i)
    ensures Overtaken(run, b, i) <==> Begun(run, b + 1) < Begun(run, i)
    decreases i
  {
    if b + 1 < i {
      OvertakenIff(run, b, i - 1);
      assert run[i - 1].BeginSession? ==> Overtaken(run, b, i);
    }
  }

  /**
   The attempt that began at `b` is told Created exactly when it commits, and then with the session and
   scope now in force; Superseded exactly when the post came back and a newer attempt has begun since;
   BadGateway otherwise.
   */
  lemma SessionRepliesAreTrue(run: Run, b: nat, i: nat)
    requires b < i < |run| && run[i].EndSession? && Begins(run, b, run[i].attempt)
    ensures SessionReplyAt(run, i).Created? <==> Commits(run, i)
    ensures Commits(run, i) <==> run[i].upstream.Accepted? && !Overtaken(run, b, i)
    ensures Commits(run, i) ==>
              var t := After(run, i + 1);
              t.session == Some(SessionReplyAt(run, i).session) && t.scope == SessionReplyAt(run, i).scope
    ensures SessionReplyAt(run, i) == Superseded <==> !run[i].upstream.HttpError? && Overtaken(run, b, i)
    ensures SessionReplyAt(run, i) == BadGateway <==>
              run[i].upstream.HttpError? || (run[i].upstream.Refused? && !Overtaken(run, b, i))
  {
    LatestIsBegun(run, i);
    OvertakenIff(run, b, i);
  }

  /** Every end of an attempt in a well-formed run has such a begin. */
  lemma AttemptsBegan(run: Run, i: nat) returns (b: nat)
    requires WellFormed(run) && i < |run| && run[i].EndSession?
    ensures b < i && Begins(run, b, run[i].attempt)
  {
    LatestIsBegun(run, i);
    b := BeginOfAttempt(run, i, run[i].attempt);
  }

  // ----- /execute

  ghost predicate IsRequest(run: Run, j: nat)
    requires j < |run|
  {
    run[j].Execute? || run[j].BeginResolve?
  }

  /** What tick `j` is answered before anything runs, or None when it runs. */
  ghost function Refusal(run: Run, j: nat): Option<ExecutionReply>
    requires j < |run| && IsRequest(run, j)
  {
    Admission(After(run, j), run[j].request, run[j].controllerSession)
  }

  /** Tick `j` carries the token of the last commit, made for a local session that the controller still runs. */
  ghost predicate InScope(run: Run, j: nat)
    requires j < |run| && IsRequest(run, j)
  {
    exists i: nat :: i < j && Commits(run, i) && Epoch(run, i + 1) == Epoch(run, j)
                     && run[i].localId.Some? && run[j].request.scope == run[i].freshScope
                     && run[j].controllerSession == run[i].localId
  }

  lemma ScopeIsCurrentIff(run: Run, j: nat)
    requires j < |run| && IsRequest(run, j)
    ensures ScopeIsCurrent(After(run, j), run[j].request, run[j].controllerSession) <==> InScope(run, j)
  {
    if Epoch(run, j) == 0 {
      NoCommitNoSession(run, j);
      forall i: nat | i < j && Commits(run, i)
        ensures Epoch(run, i + 1) != Epoch(run, j)
      {
      }
    } else {
      var i := LastCommit(run, j);
      SessionIsLastCommit(run, i, j);
      if k: nat :| k < j && Commits(run, k) && Epoch(run, k + 1) == Epoch(run, j)
                   && run[k].localId.Some? && run[j].request.scope == run[k].freshScope
                   && run[j].controllerSession == run[k].localId {
        SessionIsLastCommit(run, k, j);
      }
    }
  }

  /** Of several reasons not to run a request the first one is answered; with none, it runs. */
  lemma RefusalsAreExact(run: Run, j: nat)
    requires j < |run| && IsRequest(run, j)
    ensures Refusal(run, j) == Some(StaleSession) <==> !InScope(run, j)
    ensures Refusal(run, j) == Some(CallLimitExceeded) <==>
              InScope(run, j) && !HasResult(run, j, run[j].request.callId) && |After(run, j).cache| >= 512
    ensures Refusal(run, j).None? <==>
              InScope(run, j) && !HasResult(run, j, run[j].request.callId) && |After(run, j).cache| < 512
    ensures Refusal(run, j).None? <==> Executes(run, j)
  {
    ScopeIsCurrentIff(run, j);
    CachedIffResult(run, j, run[j].request.callId);
    hide InScope, HasResult, After;
  }

  /** What a client is told about an execution that ended: 200 on success, 400 on an error the gateway catches. */
  ghost function Report(execution: Execution): ExecutionReply
    requires !execution.Uncaught?
  {
    match execution
    case Success(body) => Answer(200, body)
    case CaughtError(body) => Answer(400, body)
  }

  /**
   A concluded execution is reported as what it was, and so is every later repeat in the scope until
   another execution of the call id concludes; the same call id for something else is a conflict.
   */
  lemma RepeatsAreReported(run: Run, k: nat, j: nat)
    requires j < |run| && IsRequest(run, j) && InScope(run, j)
    requires LastConclusion(run, j, k, run[j].request.callId)
    ensures Reply(run, k) == Report(run[k].execution)
    ensures run[j].request.fingerprint == run[Origin(run, k)].request.fingerprint ==>
              Refusal(run, j) == Some(Report(run[k].execution))
    ensures run[j].request.fingerprint != run[Origin(run, k)].request.fingerprint ==>
              Refusal(run, j) == Some(CallIdConflict)
  {
    ScopeIsCurrentIff(run, j);
    ReplaysAreIdentical(run, k, j);
  }

  /** An exception that nothing catches is a server error and leaves state and cache as they were. */
  lemma UncaughtLeavesNothing(run: Run, k: nat)
    requires k < |run| && run[k].Execute? && run[k].execution.Uncaught?
    ensures After(run, k + 1) == After(run, k)
    ensures Settle(After(run, k), run[k].request, run[k].execution).1 == ServerError
  {
  }
}
