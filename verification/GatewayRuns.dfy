/**
 Runs of the gateway: overlapping /session attempts, broker executions, and the two halves of awaiting
 executions, interleaved in any order. What a run has cached is read off the ticks that concluded an
 execution.
 */
module GatewayRuns {
  import opened Wrappers
  import opened Gateway

  datatype Tick =
    | BeginSession
    | EndSession(attempt: nat, localId: Option<string>, upstream: Upstream, freshSession: string, freshScope: string)
    | Execute(request: Request, controllerSession: Option<string>, execution: Execution)
    | BeginResolve(request: Request, controllerSession: Option<string>)
    | EndResolve(begun: nat, execution: Execution)   // `begun` is where its BeginResolve stands in the run

  type Run = seq<Tick>

  ghost function After(run: Run, n: nat): State
    requires n <= |run|
  {
    if n == 0 then INITIAL else
    var s := After(run, n - 1);
    match run[n - 1]
    case BeginSession => s.(latest := s.latest + 1)
    case EndSession(attempt, localId, upstream, freshSession, freshScope) =>
      FinishSession(s, attempt, localId, upstream, freshSession, freshScope).0
    case Execute(request, controllerSession, execution) =>
      if Admission(s, request, controllerSession).Some? then s else Settle(s, request, execution).0
    case BeginResolve(_, _) => s
    case EndResolve(begun, execution) =>
      if begun < n && run[begun].BeginResolve? then Settle(s, run[begun].request, execution).0 else s
  }

  /** The capability named by tick `i` starts to run. */
  ghost predicate Executes(run: Run, i: nat)
    requires i < |run|
  {
    && (run[i].Execute? || run[i].BeginResolve?)
    && Admission(After(run, i), run[i].request, run[i].controllerSession).None?
  }

  ghost predicate EndsAttempt(run: Run, i: nat, attempt: nat)
    requires i < |run|
  {
    run[i].EndSession? && run[i].attempt == attempt
  }

  ghost predicate EndsResolve(run: Run, i: nat, begun: nat)
    requires i < |run|
  {
    run[i].EndResolve? && run[i].begun == begun
  }

  /** Every coroutine ends at most once, and only after it began. */
  ghost predicate WellFormed(run: Run) {
    && (forall i :: 0 <= i < |run| && run[i].EndSession? ==> 1 <= run[i].attempt <= After(run, i).latest)
    && (forall i, j :: 0 <= i < j < |run| && run[i].EndSession? ==> !EndsAttempt(run, j, run[i].attempt))
    && (forall i :: 0 <= i < |run| && run[i].EndResolve? ==>
          run[i].begun < i && run[run[i].begun].BeginResolve? && Executes(run, run[i].begun))
    && (forall i, j :: 0 <= i < j < |run| && run[i].EndResolve? ==> !EndsResolve(run, j, run[i].begun))
  }

  // ----- overlapping session attempts

  ghost predicate Commits(run: Run, i: nat)
    requires i < |run|
  {
    run[i].EndSession? && run[i].upstream.Accepted? && run[i].attempt == After(run, i).latest
  }

  lemma {:induction false} LatestGrows(run: Run, i: nat, j: nat)
    requires i <= j <= |run|
    ensures After(run, i).latest <= After(run, j).latest
    decreases j
  {
    if i < j {
      LatestGrows(run, i, j - 1);
    }
  }

  /** Committed attempt numbers strictly increase, so no attempt commits twice. */
  lemma CommitsIncrease(run: Run, i: nat, j: nat)
    requires WellFormed(run) && i < j < |run|
    requires Commits(run, i) && Commits(run, j)
    ensures run[i].attempt < run[j].attempt
  {
    LatestGrows(run, i, j);
    assert !EndsAttempt(run, j, run[i].attempt);
  }

  /** A finished attempt changes the session, the scope or the cache only by committing as the newest. */
  lemma OnlyCommitsChangeSession(run: Run, i: nat)
    requires i < |run| && !Commits(run, i)
    ensures var s, t := After(run, i), After(run, i + 1);
            && t.session == s.session && t.scope == s.scope
            && (run[i].EndSession? ==> t == s)
  {
  }

  // ----- execution scopes

  /** How many sessions have been committed: the number of the current scope. */
  ghost function Epoch(run: Run, n: nat): nat
    requires n <= |run|
  {
    if n == 0 then 0 else Epoch(run, n - 1) + if Commits(run, n - 1) then 1 else 0
  }

  lemma {:induction false} EpochGrows(run: Run, i: nat, j: nat)
    requires i <= j <= |run|
    ensures Epoch(run, i) <= Epoch(run, j)
    decreases j
  {
    if i < j {
      EpochGrows(run, i, j - 1);
    }
  }

  /** Session and scope are always those of the last commit. */
  lemma {:induction false} SessionIsLastCommit(run: Run, i: nat, n: nat)
    requires i < n <= |run| && Commits(run, i) && Epoch(run, i + 1) == Epoch(run, n)
    ensures var s, commit := After(run, n), run[i];
            && s.session == Some(commit.localId.GetOr(commit.freshSession))
            && s.scope == if commit.localId.Some? then Some(commit.freshScope) else None
    decreases n
  {
    if i + 1 < n {
      EpochGrows(run, i + 1, n - 1);
      SessionIsLastCommit(run, i, n - 1);
      OnlyCommitsChangeSession(run, n - 1);
    }
  }

  lemma {:induction false} LastCommit(run: Run, n: nat) returns (i: nat)
    requires n <= |run| && Epoch(run, n) > 0
    ensures i < n && Commits(run, i) && Epoch(run, i + 1) == Epoch(run, n)
  {
    if Commits(run, n - 1) { i := n - 1; } else { i := LastCommit(run, n - 1); }
  }

  lemma {:induction false} NoCommitNoSession(run: Run, n: nat)
    requires n <= |run| && Epoch(run, n) == 0
    ensures After(run, n).session.None? && After(run, n).scope.None?
  {
    if n > 0 {
      NoCommitNoSession(run, n - 1);
      OnlyCommitsChangeSession(run, n - 1);
    }
  }

  /** Whatever executes carries the scope token of the last commit, of the session the controller still runs. */
  lemma ExecutesInLastCommittedScope(run: Run, j: nat) returns (i: nat)
    requires j < |run| && Executes(run, j)
    ensures i < j && Commits(run, i) && Epoch(run, i + 1) == Epoch(run, j)
    ensures run[i].localId.Some? && run[j].request.scope == run[i].freshScope
    ensures run[j].controllerSession == run[i].localId
  {
    if Epoch(run, j) == 0 {
      NoCommitNoSession(run, j);
    }
    i := LastCommit(run, j);
    SessionIsLastCommit(run, i, j);
  }

  // ----- concluded executions

  /** Tick `k` caches the outcome of an execution. */
  ghost predicate Concludes(run: Run, k: nat)
    requires k < |run|
  {
    match run[k]
    case Execute(_, _, execution) => Executes(run, k) && !execution.Uncaught?
    case EndResolve(begun, execution) => begun < k && run[begun].BeginResolve? && !execution.Uncaught?
    case _ => false
  }

  /** Where the execution that tick `k` concludes began. */
  ghost function Origin(run: Run, k: nat): (i: nat)
    requires k < |run| && Concludes(run, k)
    ensures i <= k && (run[i].Execute? || run[i].BeginResolve?)
  {
    if run[k].Execute? then k else run[k].begun
  }

  ghost function ConcludedCall(run: Run, k: nat): string
    requires k < |run| && Concludes(run, k)
  {
    run[Origin(run, k)].request.callId
  }

  ghost function Conclusion(run: Run, k: nat): Entry
    requires k < |run| && Concludes(run, k)
  {
    EntryOf(run[Origin(run, k)].request, run[k].execution)
  }

  lemma CacheStep(run: Run, n: nat)
    requires n < |run|
    ensures After(run, n + 1).cache ==
      if Commits(run, n) then map[]
      else if Concludes(run, n) then After(run, n).cache[ConcludedCall(run, n) := Conclusion(run, n)]
      else After(run, n).cache
  {
  }

  /** Tick `k` is the last one in the scope in force that concluded `callId`. */
  ghost predicate LastConclusion(run: Run, n: nat, k: nat, callId: string)
    requires n <= |run|
  {
    && k < n && Concludes(run, k) && ConcludedCall(run, k) == callId && Epoch(run, k) == Epoch(run, n)
    && forall m :: k < m < n && Concludes(run, m) ==> ConcludedCall(run, m) != callId
  }

  /** Every cached entry is what the last execution of its call id to conclude under the current scope left. */
  lemma {:induction false} EntriesAreConclusions(run: Run, n: nat, callId: string) returns (k: nat)
    requires n <= |run| && callId in After(run, n).cache
    ensures LastConclusion(run, n, k, callId) && After(run, n).cache[callId] == Conclusion(run, k)
  {
    hide Concludes, Commits, ConcludedCall, Conclusion;
    CacheStep(run, n - 1);
    if Concludes(run, n - 1) && ConcludedCall(run, n - 1) == callId {
      k := n - 1;
      ConclusionIsNoCommit(run, k);
    } else {
      k := EntriesAreConclusions(run, n - 1, callId);
    }
  }

  lemma ConclusionIsNoCommit(run: Run, k: nat)
    requires k < |run| && Concludes(run, k)
    ensures !Commits(run, k) && Epoch(run, k + 1) == Epoch(run, k)
  {
  }

  lemma SameEpochNoCommit(run: Run, k: nat, n: nat)
    requires k <= n < |run| && Epoch(run, k) == Epoch(run, n + 1)
    ensures Epoch(run, k) == Epoch(run, n) && !Commits(run, n)
  {
    EpochGrows(run, k, n);
  }

  /** Conversely, the last conclusion of a call id in the scope is its entry. */
  lemma {:induction false} ConclusionsAreCached(run: Run, n: nat, k: nat, callId: string)
    requires n <= |run| && LastConclusion(run, n, k, callId)
    ensures callId in After(run, n).cache && After(run, n).cache[callId] == Conclusion(run, k)
    decreases n
  {
    hide Concludes, Commits, ConcludedCall, Conclusion, After;
    CacheStep(run, n - 1);
    SameEpochNoCommit(run, k, n - 1);
    if k < n - 1 {
      ConclusionsAreCached(run, n - 1, k, callId);
    }
  }

  /** A concluded call id stays cached, with this or a later result, until the next commit. */
  lemma {:induction false} ConcludedStaysCached(run: Run, k: nat, n: nat)
    requires k < n <= |run| && Concludes(run, k) && Epoch(run, k) == Epoch(run, n)
    ensures ConcludedCall(run, k) in After(run, n).cache
    decreases n
  {
    hide Concludes, Commits, ConcludedCall, Conclusion, After;
    CacheStep(run, n - 1);
    SameEpochNoCommit(run, k, n - 1);
    if k < n - 1 {
      ConcludedStaysCached(run, k, n - 1);
    }
  }

  // ----- at most once

  /**
   At most once per scope: a call id runs again under one scope only if its earlier execution has left
   no result, that is, it died of an uncaught exception or is still awaiting the controller.
   */
  lemma ExecutesOncePerScope(run: Run, i: nat, j: nat)
    requires i < j < |run|
    requires Executes(run, i) && Executes(run, j) && run[i].request.callId == run[j].request.callId
    requires Epoch(run, i) == Epoch(run, j)
    ensures forall k :: i <= k < j && Concludes(run, k) ==> Origin(run, k) != i
    ensures run[i].Execute? ==> run[i].execution.Uncaught?
  {
    forall k | i <= k < j && Concludes(run, k)
      ensures Origin(run, k) != i
    {
      EpochGrows(run, i, k);
      EpochGrows(run, k, j);
      ConcludedStaysCached(run, k, j);
    }
    assert run[i].Execute? ==> (Concludes(run, i) <==> !run[i].execution.Uncaught?);
  }

  /** Some execution of `callId` has left its result under the scope in force. */
  ghost predicate HasResult(run: Run, n: nat, callId: string)
    requires n <= |run|
  {
    exists k: nat :: k < n && Concludes(run, k) && ConcludedCall(run, k) == callId && Epoch(run, k) == Epoch(run, n)
  }

  /** A request in the current scope runs exactly when its call id has no result there and there is room. */
  lemma ExecutesIffNoResult(run: Run, j: nat)
    requires j < |run| && (run[j].Execute? || run[j].BeginResolve?)
    requires ScopeIsCurrent(After(run, j), run[j].request, run[j].controllerSession)
    ensures Executes(run, j) <==>
              !HasResult(run, j, run[j].request.callId) && |After(run, j).cache| < MAX_CALLS
  {
    CachedIffResult(run, j, run[j].request.callId);
  }

  lemma CachedIffResult(run: Run, n: nat, callId: string)
    requires n <= |run|
    ensures callId in After(run, n).cache <==> HasResult(run, n, callId)
  {
    if callId in After(run, n).cache {
      var k := EntriesAreConclusions(run, n, callId);
    } else if HasResult(run, n, callId) {
      var k: nat :| k < n && Concludes(run, k) && ConcludedCall(run, k) == callId && Epoch(run, k) == Epoch(run, n);
      ConcludedStaysCached(run, k, n);
    }
  }

  /** Broker executions whose outcome is a success or a caught error run once per scope. */
  lemma BrokerExecutesOnce(run: Run, i: nat, j: nat)
    requires i < j < |run|
    requires run[i].Execute? && Executes(run, i) && !run[i].execution.Uncaught?
    requires (run[j].Execute? || run[j].BeginResolve?) && run[j].request.callId == run[i].request.callId
    requires Epoch(run, i) == Epoch(run, j)
    ensures !Executes(run, j)
  {
    if Executes(run, j) {
      ExecutesOncePerScope(run, i, j);
    }
  }

  // ----- replays

  /** The reply that an execution gave when tick `k` concluded it. */
  ghost function Reply(run: Run, k: nat): ExecutionReply
    requires k < |run| && Concludes(run, k)
  {
    Settle(After(run, k), run[Origin(run, k)].request, run[k].execution).1
  }

  /**
   Replay: under one scope, a repeated request gets exactly the status and body that the call id's last
   conclusion gave, whether it awaited or not; a request that reuses the call id for something else is
   refused; neither executes.
   */
  lemma ReplaysAreIdentical(run: Run, k: nat, j: nat)
    requires j < |run| && (run[j].Execute? || run[j].BeginResolve?)
    requires LastConclusion(run, j, k, run[j].request.callId)
    requires ScopeIsCurrent(After(run, j), run[j].request, run[j].controllerSession)
    ensures !Executes(run, j)
    ensures var same := run[j].request.fingerprint == run[Origin(run, k)].request.fingerprint;
            Admission(After(run, j), run[j].request, run[j].controllerSession) ==
              Some(if same then Reply(run, k) else CallIdConflict)
  {
    ConclusionsAreCached(run, j, k, run[j].request.callId);
  }

  /** Under one scope a call id is always answered from the same entry. */
  ghost predicate EntriesAreStable(run: Run) {
    forall m, n, callId ::
      0 <= m <= n <= |run| && Epoch(run, m) == Epoch(run, n)
      && callId in After(run, m).cache && callId in After(run, n).cache ==>
        After(run, m).cache[callId] == After(run, n).cache[callId]
  }

  ghost predicate ConcludesAgain(run: Run, k: nat, l: nat)
    requires k < |run| && l < |run|
  {
    && k < l && Concludes(run, k) && Concludes(run, l)
    && ConcludedCall(run, k) == ConcludedCall(run, l) && Epoch(run, k) == Epoch(run, l)
  }

  ghost predicate ConclusionsAgree(run: Run) {
    forall k, l :: 0 <= k < |run| && 0 <= l < |run| && ConcludesAgain(run, k, l) ==>
      Conclusion(run, k) == Conclusion(run, l)
  }

  /** Exactly: replays stay the same if and only if no call id concludes in one scope with two different results. */
  lemma EntriesAreStableIff(run: Run)
    ensures EntriesAreStable(run) <==> ConclusionsAgree(run)
  {
    hide Concludes, ConcludedCall, Conclusion, After;
    if EntriesAreStable(run) {
      forall k, l | 0 <= k < |run| && 0 <= l < |run| && ConcludesAgain(run, k, l)
        ensures Conclusion(run, k) == Conclusion(run, l)
      {
        JustConcluded(run, k);
        JustConcluded(run, l);
        assert Epoch(run, k + 1) == Epoch(run, l + 1);
      }
    } else {
      var m, n, callId :| 0 <= m <= n <= |run| && Epoch(run, m) == Epoch(run, n)
        && callId in After(run, m).cache && callId in After(run, n).cache
        && After(run, m).cache[callId] != After(run, n).cache[callId];
      var k := EntriesAreConclusions(run, m, callId);
      var l := EntriesAreConclusions(run, n, callId);
      assert ConcludesAgain(run, k, l);
    }
  }

  lemma JustConcluded(run: Run, k: nat)
    requires k < |run| && Concludes(run, k)
    ensures var cache := After(run, k + 1).cache;
            ConcludedCall(run, k) in cache && cache[ConcludedCall(run, k)] == Conclusion(run, k)
    ensures Epoch(run, k + 1) == Epoch(run, k)
  {
    CacheStep(run, k);
    ConclusionIsNoCommit(run, k);
  }

  /** A second conclusion in a scope comes only from an execution that was awaiting before the first concluded. */
  lemma SecondConclusionAwaited(run: Run, k: nat, l: nat)
    requires WellFormed(run) && k < |run| && l < |run| && ConcludesAgain(run, k, l)
    ensures run[l].EndResolve? && run[l].begun < k
  {
    var i := Origin(run, l);
    if k < i {
      EpochGrows(run, k, i);
      EpochGrows(run, i, l);
      ConcludedStaysCached(run, k, i);
    }
  }

  // ----- the size of the cache

  /** The executions that are awaiting the controller after the first `n` ticks. */
  ghost function Awaiting(run: Run, n: nat): set<nat>
    requires n <= |run|
  {
    set b: nat | b < n && run[b].BeginResolve? && Executes(run, b) && forall k :: 0 <= k < n ==> !EndsResolve(run, k, b)
  }

  lemma AwaitingStep(run: Run, n: nat)
    requires n < |run| && WellFormed(run)
    ensures Awaiting(run, n + 1) ==
      if run[n].EndResolve? then Awaiting(run, n) - {run[n].begun}
      else if run[n].BeginResolve? && Executes(run, n) then Awaiting(run, n) + {n}
      else Awaiting(run, n)
    ensures run[n].EndResolve? ==> run[n].begun in Awaiting(run, n)
  {
    hide Executes;
    forall k | 0 <= k < n + 1 && run[n].BeginResolve?
      ensures !EndsResolve(run, k, n)
    {
    }
    if run[n].EndResolve? {
      var b := run[n].begun;
      forall k | 0 <= k < n
        ensures !EndsResolve(run, k, b)
      {
        assert run[k].EndResolve? ==> !EndsResolve(run, n, run[k].begun);
      }
      assert EndsResolve(run, n, b);
    }
    forall b: nat
      ensures b in Awaiting(run, n + 1) <==>
        (b in Awaiting(run, n) && !EndsResolve(run, n, b)) || (b == n && run[n].BeginResolve? && Executes(run, n))
    {
    }
  }

  lemma OneMoreKey(m: map<string, Entry>, key: string, entry: Entry)
    ensures |m[key := entry]| <= |m| + 1
    ensures |m| <= |m[key := entry]|
    ensures |m[key := entry]| == |m| <==> key in m
  {
    assert m[key := entry].Keys == m.Keys + {key};
  }

  /** Beyond 512 entries, each further one has used up an awaiting execution. */
  ghost predicate Within(cached: nat, awaiting: nat, most: nat) {
    cached < MAX_CALLS || cached + awaiting <= MAX_CALLS + most
  }

  lemma {:induction false} CacheAndAwaiting(run: Run, n: nat, most: nat)
    requires n <= |run| && WellFormed(run)
    requires forall m :: 0 <= m <= n ==> |Awaiting(run, m)| <= most
    ensures Within(|After(run, n).cache|, |Awaiting(run, n)|, most)
  {
    if n > 0 {
      var m := n - 1;
      CacheAndAwaiting(run, m, most);
      WithinStep(run, m, most);
    }
  }

  lemma RoomToExecute(run: Run, m: nat)
    requires m < |run|
    ensures Executes(run, m) ==> |After(run, m).cache| < MAX_CALLS
  {
  }

  lemma WithinStep(run: Run, m: nat, most: nat)
    requires m < |run| && WellFormed(run)
    requires |Awaiting(run, m)| <= most && |Awaiting(run, m + 1)| <= most
    requires Within(|After(run, m).cache|, |Awaiting(run, m)|, most)
    ensures Within(|After(run, m + 1).cache|, |Awaiting(run, m + 1)|, most)
  {
    hide After, Awaiting, Executes;
    CacheStep(run, m);
    AwaitingStep(run, m);
    RoomToExecute(run, m);
    if Concludes(run, m) {
      OneMoreKey(After(run, m).cache, ConcludedCall(run, m), Conclusion(run, m));
    }
  }

  /** The cache exceeds 512 entries at most by the executions that ever awaited at one time. */
  lemma CacheIsBounded(run: Run, n: nat, most: nat)
    requires n <= |run| && WellFormed(run)
    requires forall m :: 0 <= m <= n ==> |Awaiting(run, m)| <= most
    ensures |After(run, n).cache| <= MAX_CALLS + most
  {
    CacheAndAwaiting(run, n, most);
  }

  /** An awaiting execution concludes a new call id although the cache is full. */
  ghost predicate Overflows(run: Run, k: nat)
    requires k < |run|
  {
    && run[k].EndResolve? && Concludes(run, k)
    && ConcludedCall(run, k) !in After(run, k).cache && |After(run, k).cache| >= MAX_CALLS
  }

  /** Exactly: the limit is exceeded if and only if that has happened under the current scope. */
  lemma {:induction false} LimitExceededIff(run: Run, n: nat)
    requires n <= |run|
    ensures |After(run, n).cache| > MAX_CALLS <==>
              exists k :: 0 <= k < n && Epoch(run, k) == Epoch(run, n) && Overflows(run, k)
  {
    if n > 0 {
      var m := n - 1;
      LimitExceededIff(run, m);
      LimitStep(run, m);
      if k :| 0 <= k < n && Epoch(run, k) == Epoch(run, n) && Overflows(run, k) {
        SameEpochNoCommit(run, k, m);
      }
    }
  }

  lemma LimitStep(run: Run, m: nat)
    requires m < |run|
    ensures |After(run, m + 1).cache| > MAX_CALLS <==>
              !Commits(run, m) && (|After(run, m).cache| > MAX_CALLS || Overflows(run, m))
    ensures Overflows(run, m) ==> !Commits(run, m)
    ensures Epoch(run, m + 1) == Epoch(run, m) + if Commits(run, m) then 1 else 0
  {
    CacheStep(run, m);
    RoomToExecute(run, m);
    if Concludes(run, m) {
      OneMoreKey(After(run, m).cache, ConcludedCall(run, m), Conclusion(run, m));
    }
  }

  // ----- entries and scopes

  /** No execution that leaves a result awaits across a commit. */
  ghost predicate NoResultCrossesCommit(run: Run) {
    forall k :: 0 <= k < |run| && Concludes(run, k) ==> Epoch(run, Origin(run, k)) == Epoch(run, k)
  }

  /** At every moment, every entry was executed under the scope it is cached under. */
  ghost predicate EntriesAreNative(run: Run) {
    forall n, k, callId :: 0 <= n <= |run| && LastConclusion(run, n, k, callId) ==>
      Epoch(run, Origin(run, k)) == Epoch(run, n)
  }

  /** Exactly: entries belong to their scope throughout if and only if no result crosses a commit. */
  lemma EntriesAreNativeIff(run: Run)
    ensures EntriesAreNative(run) <==> NoResultCrossesCommit(run)
  {
    if EntriesAreNative(run) {
      forall k | 0 <= k < |run| && Concludes(run, k)
        ensures Epoch(run, Origin(run, k)) == Epoch(run, k)
      {
        ConclusionIsNoCommit(run, k);
        var n := k + 1;
        assert LastConclusion(run, n, k, ConcludedCall(run, k));
      }
    }
  }

  /** Then a cached entry is the outcome of an execution that both began and concluded in the current scope. */
  lemma EntriesBelongToScope(run: Run, n: nat, callId: string) returns (i: nat, k: nat)
    requires WellFormed(run) && NoResultCrossesCommit(run) && n <= |run|
    requires callId in After(run, n).cache
    ensures k < n && Concludes(run, k) && i == Origin(run, k)
    ensures Executes(run, i) && run[i].request.callId == callId
    ensures After(run, n).cache[callId] == EntryOf(run[i].request, run[k].execution)
    ensures Epoch(run, i) == Epoch(run, k) == Epoch(run, n)
  {
    k := EntriesAreConclusions(run, n, callId);
    i := Origin(run, k);
  }

  // ----- where the promises end

  const LOCAL := "local-session"

  const OPEN: Run := [BeginSession, EndSession(1, Some(LOCAL), Accepted, "s", "scope-1")]

  function Call(callId: string): Request {
    Request("scope-1", callId, "f")
  }

  lemma Opened(run: Run)
    requires OPEN <= run
    ensures After(run, 2) == State(Some(LOCAL), Some("scope-1"), map[], 1)
    ensures After(run, 1).latest == 1 && Commits(run, 1) && Epoch(run, 2) == 1
  {
    assert run[0] == OPEN[0] && run[1] == OPEN[1];
    assert After(run, 1) == INITIAL.(latest := 1);
    assert Epoch(run, 1) == 0;
  }

  const RACE: Run := OPEN + [BeginResolve(Call("c"), Some(LOCAL)), BeginResolve(Call("c"), Some(LOCAL))]

  /** Two overlapping requests for an awaiting capability both execute. */
  lemma AwaitingCallsRace()
    ensures WellFormed(RACE) && RACE[2] == RACE[3] && Executes(RACE, 2) && Executes(RACE, 3)
    ensures Epoch(RACE, 2) == Epoch(RACE, 3)
  {
    Opened(RACE);
    assert After(RACE, 3) == After(RACE, 2);
  }

  const REPLAY := Execute(Call("c"), Some(LOCAL), Uncaught)

  const OVERTAKEN: Run :=
    OPEN + [ BeginResolve(Call("c"), Some(LOCAL)), BeginResolve(Call("c"), Some(LOCAL)),
             EndResolve(2, Success("first")), REPLAY, EndResolve(3, Success("second")), REPLAY ]

  lemma OvertakenStates()
    ensures var open := State(Some(LOCAL), Some("scope-1"), map[], 1);
            && After(OVERTAKEN, 1).latest == 1
            && After(OVERTAKEN, 2) == After(OVERTAKEN, 3) == open
            && After(OVERTAKEN, 5) == open.(cache := map["c" := Entry("f", 200, "first")])
            && After(OVERTAKEN, 7) == open.(cache := map["c" := Entry("f", 200, "second")])
            && Epoch(OVERTAKEN, 5) == Epoch(OVERTAKEN, 7)
  {
    Opened(OVERTAKEN);
    assert After(OVERTAKEN, 4) == After(OVERTAKEN, 3) == After(OVERTAKEN, 2);
    assert After(OVERTAKEN, 6) == After(OVERTAKEN, 5);
    assert !Commits(OVERTAKEN, 5) && !Commits(OVERTAKEN, 6);
  }

  /** The second of two such executions changes what replays of the first are answered with. */
  lemma LateResultChangesReplay()
    ensures WellFormed(OVERTAKEN) && Epoch(OVERTAKEN, 5) == Epoch(OVERTAKEN, 7)
    ensures OVERTAKEN[5] == OVERTAKEN[7] == REPLAY
    ensures Admission(After(OVERTAKEN, 5), REPLAY.request, REPLAY.controllerSession) == Some(Answer(200, "first"))
    ensures Admission(After(OVERTAKEN, 7), REPLAY.request, REPLAY.controllerSession) == Some(Answer(200, "second"))
  {
    OvertakenStates();
    hide After, Epoch;
    assert Executes(OVERTAKEN, 2) && Executes(OVERTAKEN, 3);
  }

  const LATE: Run :=
    OPEN + [ BeginResolve(Call("c"), Some(LOCAL)), BeginSession,
             EndSession(2, Some(LOCAL), Accepted, "s", "scope-2"), EndResolve(2, Success("b")) ]

  lemma LateStates()
    ensures After(LATE, 1).latest == 1 && After(LATE, 4).latest == 2
    ensures Executes(LATE, 2) && Concludes(LATE, 5)
    ensures Epoch(LATE, 2) == 1 && Epoch(LATE, 5) == Epoch(LATE, 6) == 2
  {
    Opened(LATE);
    assert After(LATE, 3) == After(LATE, 2);
    assert Commits(LATE, 4) && !Commits(LATE, 5);
    assert Epoch(LATE, 3) == Epoch(LATE, 4) == 1;
  }

  /** A result that arrives after a commit is cached under a scope it never ran in. */
  lemma LateResultCrossesScopes()
    ensures WellFormed(LATE) && !NoResultCrossesCommit(LATE)
    ensures LastConclusion(LATE, 6, 5, "c") && Origin(LATE, 5) == 2 && Epoch(LATE, 2) < Epoch(LATE, 6)
  {
    LateStates();
    hide After, Epoch;
  }
}
