/**
 The reducer against its log. A log is any sequence of begin_response and consume calls; every notion
 below is read off the log, and the reducer's state after each prefix is proved to be what they say.
 */
module InterruptionRuns {
  import opened Wrappers
  import opened PyText
  import opened InterruptionTimeline

  datatype Call = BeginCall(begin: Begin) | ConsumeCall(event: Event)

  type Log = seq<Call>

  ghost function After(session: string, log: Log, n: nat): Timeline
    requires n <= |log|
  {
    if n == 0 then Start(session) else
    match log[n - 1]
    case BeginCall(begin) => BeginStep(After(session, log, n - 1), begin)
    case ConsumeCall(event) => ConsumeStep(After(session, log, n - 1), event).0
  }

  // ----- what the log says

  ghost predicate ValidBeginAt(log: Log, b: nat)
    requires b < |log|
  {
    log[b].BeginCall? && ValidBegin(log[b].begin)
  }

  /** A begin is accepted when it is valid and its response id is new. */
  ghost predicate AcceptedBegin(log: Log, b: nat)
    requires b < |log|
  {
    && ValidBeginAt(log, b)
    && forall k: nat :: k < b && ValidBeginAt(log, k) ==> log[k].begin.responseId != log[b].begin.responseId
  }

  /** The response that is active just before call `n`: the last accepted begin. */
  ghost function Active(log: Log, n: nat): (active: Option<nat>)
    requires n <= |log|
    ensures active.Some? ==> active.value < n && AcceptedBegin(log, active.value)
    ensures forall k: nat :: active.GetOr(0) < k < n ==> !AcceptedBegin(log, k)
    ensures active.None? ==> forall k: nat :: k < n ==> !AcceptedBegin(log, k)
  {
    if n == 0 then None else if AcceptedBegin(log, n - 1) then Some(n - 1) else Active(log, n - 1)
  }

  /** Call `i` is an observation of response `b`: same session, `b` active, not earlier than its begin. */
  ghost predicate Matches(session: string, log: Log, b: nat, i: nat)
    requires i < |log|
  {
    && log[i].ConsumeCall?
    && Active(log, i) == Some(b)
    && log[i].event.sessionId == session
    && log[i].event.responseId == log[b].begin.responseId
    && log[b].begin.receivedNs <= log[i].event.occurredNs
  }

  ghost predicate MatchesKind(session: string, log: Log, b: nat, kind: Option<Kind>, i: nat)
    requires i < |log|
  {
    Matches(session, log, b, i) && (kind.Some? ==> log[i].event.kind == kind.value)
  }

  /** The first of the first `n` calls that observes response `b`, of the given kind if one is given. */
  ghost function First(session: string, log: Log, b: nat, kind: Option<Kind>, n: nat): (first: Option<nat>)
    requires n <= |log|
    ensures first.Some? ==> first.value < n && log[first.value].ConsumeCall?
  {
    if n == 0 then None else
    var before := First(session, log, b, kind, n - 1);
    if before.Some? then before
    else if MatchesKind(session, log, b, kind, n - 1) then Some(n - 1)
    else None
  }

  /** The accepted begin that follows `b` among the first `n` calls. */
  ghost function NextBegin(log: Log, b: nat, n: nat): (next: Option<nat>)
    requires n <= |log|
    ensures next.Some? ==> b < next.value < n && log[next.value].BeginCall?
  {
    if n == 0 then None else
    var before := NextBegin(log, b, n - 1);
    if before.Some? then before
    else if b < n - 1 && AcceptedBegin(log, n - 1) then Some(n - 1)
    else None
  }

  lemma {:induction false} FirstIsFirst(session: string, log: Log, b: nat, kind: Option<Kind>, n: nat)
    requires n <= |log|
    ensures var first := First(session, log, b, kind, n);
            && (first.Some? ==> MatchesKind(session, log, b, kind, first.value))
            && forall i: nat :: i < first.GetOr(n) ==> !MatchesKind(session, log, b, kind, i)
  {
    if n > 0 {
      FirstIsFirst(session, log, b, kind, n - 1);
    }
  }

  lemma {:induction false} NextBeginIsNext(log: Log, b: nat, n: nat)
    requires n <= |log|
    ensures var next := NextBegin(log, b, n);
            && (next.Some? ==> AcceptedBegin(log, next.value))
            && forall k: nat :: b < k < next.GetOr(n) ==> !AcceptedBegin(log, k)
  {
    if n > 0 {
      NextBeginIsNext(log, b, n - 1);
    }
  }

  /** The trace that the first `n` calls of the log call for, for response `b`. */
  ghost function Expected(session: string, log: Log, b: nat, n: nat): TraceView
    requires b < n <= |log| && AcceptedBegin(log, b)
  {
    var speech := First(session, log, b, Some(SpeechStarted), n);
    var next := NextBegin(log, b, n);
    TraceView(
      log[b].begin.audioStartMs,
      if speech.Some? then log[speech.value].event.onsetMs else None,
      map kind: Kind | First(session, log, b, Some(kind), n).Some? ::
        log[First(session, log, b, Some(kind), n).value].event.occurredNs,
      if next.Some? then Some(log[next.value].begin.receivedNs) else None)
  }

  // ----- the reducer holds exactly that

  ghost predicate ActiveAgrees(t: Timeline, log: Log, n: nat)
    requires n <= |log|
  {
    match Active(log, n)
    case None => t.activeId.None?
    case Some(b) =>
      && t.activeId == Some(log[b].begin.responseId)
      && t.activeReceivedNs == log[b].begin.receivedNs
      && t.activeAudioStartMs == log[b].begin.audioStartMs
  }

  ghost predicate ObservedAgrees(t: Timeline, log: Log, n: nat)
    requires n <= |log|
  {
    forall id :: id in t.observed <==> exists k: nat :: k < n && ValidBeginAt(log, k) && log[k].begin.responseId == id
  }

  /** Response `b` has a trace exactly when it was observed, and then it is the expected one. */
  ghost predicate TraceAgrees(session: string, t: Timeline, log: Log, n: nat, b: nat)
    requires b < n <= |log| && AcceptedBegin(log, b)
  {
    var id := log[b].begin.responseId;
    && (id in t.records <==> First(session, log, b, None, n).Some?)
    && (id in t.records ==> t.records[id] == Expected(session, log, b, n))
  }

  ghost predicate TracesAgree(session: string, t: Timeline, log: Log, n: nat)
    requires n <= |log|
  {
    forall b: nat :: b < n && AcceptedBegin(log, b) ==> TraceAgrees(session, t, log, n, b)
  }

  /** The accepted begin of response `id` among the first `n` calls. */
  ghost predicate BeginOf(log: Log, n: nat, id: string, b: nat)
    requires n <= |log|
  {
    b < n && AcceptedBegin(log, b) && log[b].begin.responseId == id
  }

  /** The list names each traced response once, in the order of their first observations. */
  ghost predicate OrderAgrees(session: string, t: Timeline, log: Log, n: nat)
    requires n <= |log|
  {
    && (forall id :: id in t.records <==> id in t.order)
    && AllBegun(t.order, log, n)
    && InOrder(session, t.order, log, n)
  }

  ghost predicate AllBegun(order: seq<string>, log: Log, n: nat)
    requires n <= |log|
  {
    forall id :: id in order ==> exists b: nat :: BeginOf(log, n, id, b)
  }

  ghost predicate InOrder(session: string, order: seq<string>, log: Log, n: nat)
    requires n <= |log|
  {
    forall p, q, b: nat, c: nat ::
      0 <= p < q < |order| && BeginOf(log, n, order[p], b) && BeginOf(log, n, order[q], c) ==>
        FirstBefore(session, log, n, b, c)
  }

  ghost predicate FirstBefore(session: string, log: Log, n: nat, b: nat, c: nat)
    requires n <= |log|
  {
    var fb, fc := First(session, log, b, None, n), First(session, log, c, None, n);
    fb.Some? && fc.Some? && fb.value < fc.value
  }

  ghost predicate Agrees(session: string, t: Timeline, log: Log, n: nat)
    requires n <= |log|
  {
    && t.sessionId == session
    && ActiveAgrees(t, log, n)
    && ObservedAgrees(t, log, n)
    && TracesAgree(session, t, log, n)
    && OrderAgrees(session, t, log, n)
  }

  lemma AcceptanceAgrees(t: Timeline, log: Log, n: nat)
    requires n < |log| && log[n].BeginCall? && ObservedAgrees(t, log, n)
    ensures AcceptedBegin(log, n) <==> ValidBegin(log[n].begin) && log[n].begin.responseId !in t.observed
  {
  }

  lemma ObservedStep(session: string, log: Log, n: nat)
    requires n < |log| && ObservedAgrees(After(session, log, n), log, n)
    ensures ObservedAgrees(After(session, log, n + 1), log, n + 1)
  {
  }

  lemma ActiveStep(session: string, log: Log, n: nat)
    requires n < |log|
    requires ActiveAgrees(After(session, log, n), log, n) && ObservedAgrees(After(session, log, n), log, n)
    ensures ActiveAgrees(After(session, log, n + 1), log, n + 1)
  {
  }

  /** The call observes the response that is active. */
  ghost predicate Observation(session: string, log: Log, n: nat)
    requires n < |log|
  {
    Active(log, n).Some? && Matches(session, log, Active(log, n).value, n)
  }

  lemma ObservationAgrees(session: string, t: Timeline, log: Log, n: nat)
    requires n < |log| && log[n].ConsumeCall? && t.sessionId == session && ActiveAgrees(t, log, n)
    ensures Acceptable(t, log[n].event) <==> Observation(session, log, n)
  {
  }

  lemma AcceptedIsUnique(log: Log, b: nat, c: nat)
    requires b < |log| && c < |log| && AcceptedBegin(log, b) && AcceptedBegin(log, c)
    requires log[b].begin.responseId == log[c].begin.responseId
    ensures b == c
  {
  }

  lemma NextBeginOfActive(log: Log, b: nat, n: nat)
    requires b < n <= |log| && AcceptedBegin(log, b)
    ensures NextBegin(log, b, n).None? <==> Active(log, n) == Some(b)
  {
  }

  lemma FirstStep(session: string, log: Log, b: nat, kind: Option<Kind>, n: nat)
    requires n < |log|
    ensures First(session, log, b, kind, n + 1) ==
      if First(session, log, b, kind, n).Some? || !MatchesKind(session, log, b, kind, n)
      then First(session, log, b, kind, n)
      else Some(n)
  {
  }

  lemma TimesFrom(session: string, log: Log, b: nat, n: nat, ns: map<Kind, int>)
    requires b < n <= |log| && AcceptedBegin(log, b)
    requires forall kind: Kind :: kind in ns <==> First(session, log, b, Some(kind), n).Some?
    requires forall kind: Kind :: kind in ns ==>
               ns[kind] == log[First(session, log, b, Some(kind), n).value].event.occurredNs
    ensures ns == Expected(session, log, b, n).ns
  {
  }

  /** Expectations differ in the observed kinds only through First. */
  lemma ExpectedFrom(session: string, log: Log, b: nat, n: nat, trace: TraceView)
    requires b < n <= |log| && AcceptedBegin(log, b)
    requires trace.audioStartMs == log[b].begin.audioStartMs
    requires var speech := First(session, log, b, Some(SpeechStarted), n);
             trace.onsetMs == if speech.Some? then log[speech.value].event.onsetMs else None
    requires var next := NextBegin(log, b, n);
             trace.nextFirstAudioNs == if next.Some? then Some(log[next.value].begin.receivedNs) else None
    requires forall kind: Kind :: kind in trace.ns <==> First(session, log, b, Some(kind), n).Some?
    requires forall kind: Kind :: kind in trace.ns ==>
               trace.ns[kind] == log[First(session, log, b, Some(kind), n).value].event.occurredNs
    ensures trace == Expected(session, log, b, n)
  {
  }

  lemma FirstsUnchanged(session: string, log: Log, b: nat, n: nat)
    requires n < |log| && !Matches(session, log, b, n)
    ensures First(session, log, b, None, n + 1) == First(session, log, b, None, n)
    ensures forall kind: Kind :: First(session, log, b, Some(kind), n + 1) == First(session, log, b, Some(kind), n)
  {
  }

  lemma KindsUnchanged(session: string, log: Log, b: nat, n: nat)
    requires b < n < |log| && AcceptedBegin(log, b) && !Matches(session, log, b, n)
    ensures Expected(session, log, b, n + 1).ns == Expected(session, log, b, n).ns
    ensures Expected(session, log, b, n + 1).onsetMs == Expected(session, log, b, n).onsetMs
  {
  }

  /** A call that is no observation of `b` and no accepted begin right after it changes no expectation of `b`. */
  lemma ExpectedUnchanged(session: string, log: Log, b: nat, n: nat)
    requires b < n < |log| && AcceptedBegin(log, b)
    requires !Matches(session, log, b, n)
    requires AcceptedBegin(log, n) ==> Active(log, n) != Some(b)
    ensures Expected(session, log, b, n + 1) == Expected(session, log, b, n)
    ensures First(session, log, b, None, n + 1) == First(session, log, b, None, n)
  {
    NextBeginOfActive(log, b, n);
    FirstsUnchanged(session, log, b, n);
    assert NextBegin(log, b, n + 1) == NextBegin(log, b, n);
    KindsUnchanged(session, log, b, n);
  }

  /** The next accepted begin fills one field of the active response's trace. */
  lemma ExpectedAtNextBegin(session: string, log: Log, b: nat, n: nat)
    requires b < n < |log| && AcceptedBegin(log, b) && AcceptedBegin(log, n) && Active(log, n) == Some(b)
    ensures Expected(session, log, b, n).nextFirstAudioNs.None?
    ensures Expected(session, log, b, n + 1)
         == Expected(session, log, b, n).(nextFirstAudioNs := Some(log[n].begin.receivedNs))
    ensures First(session, log, b, None, n + 1) == First(session, log, b, None, n)
  {
    NextBeginOfActive(log, b, n);
    FirstsUnchanged(session, log, b, n);
    KindsUnchanged(session, log, b, n);
  }

  /** Before its first observation a response is expected to have the trace that consume creates. */
  lemma ExpectedNew(session: string, log: Log, b: nat, n: nat)
    requires b < n <= |log| && AcceptedBegin(log, b) && Active(log, n) == Some(b)
    requires First(session, log, b, None, n).None?
    ensures Expected(session, log, b, n) == NewTrace(log[b].begin.audioStartMs)
  {
    NextBeginOfActive(log, b, n);
    FirstIsFirst(session, log, b, None, n);
    forall kind: Kind
      ensures First(session, log, b, Some(kind), n).None?
    {
      FirstIsFirst(session, log, b, Some(kind), n);
      assert forall i: nat :: i < n ==> !MatchesKind(session, log, b, None, i);
      assert forall i: nat :: i < n && MatchesKind(session, log, b, Some(kind), i) ==>
          MatchesKind(session, log, b, None, i);
    }
    ExpectedFrom(session, log, b, n, NewTrace(log[b].begin.audioStartMs));
  }

  lemma KindsAtObservation(session: string, log: Log, b: nat, n: nat, kind: Kind)
    requires b < n < |log| && Matches(session, log, b, n)
    ensures First(session, log, b, Some(kind), n + 1) ==
      if First(session, log, b, Some(kind), n).Some? || kind != log[n].event.kind
      then First(session, log, b, Some(kind), n) else Some(n)
  {
  }

  lemma BeginsAtObservation(session: string, log: Log, b: nat, n: nat)
    requires b < n < |log| && AcceptedBegin(log, b) && Matches(session, log, b, n)
    ensures NextBegin(log, b, n + 1).None? && NextBegin(log, b, n).None?
    ensures First(session, log, b, None, n + 1).Some?
  {
    NextBeginOfActive(log, b, n);
    FirstStep(session, log, b, None, n);
  }

  /** An observation changes the expectation of its response as the first-write rule does. */
  lemma ExpectedAtObservation(session: string, log: Log, b: nat, n: nat)
    requires b < n < |log| && AcceptedBegin(log, b) && Matches(session, log, b, n)
    ensures Expected(session, log, b, n + 1) == Observe(Expected(session, log, b, n), log[n].event)
  {
    BeginsAtObservation(session, log, b, n);
    TimesAtObservation(session, log, b, n);
    KindsAtObservation(session, log, b, n, SpeechStarted);
  }

  lemma TimesAtObservation(session: string, log: Log, b: nat, n: nat)
    requires b < n < |log| && AcceptedBegin(log, b) && Matches(session, log, b, n)
    ensures Expected(session, log, b, n + 1).ns == Observe(Expected(session, log, b, n), log[n].event).ns
  {
    var ns := Observe(Expected(session, log, b, n), log[n].event).ns;
    forall kind: Kind
      ensures kind in ns <==> First(session, log, b, Some(kind), n + 1).Some?
      ensures kind in ns ==> ns[kind] == log[First(session, log, b, Some(kind), n + 1).value].event.occurredNs
    {
      TimeAtObservation(session, log, b, n, kind);
    }
    hide Expected, Observe, First, Matches;
    TimesFrom(session, log, b, n + 1, ns);
  }

  lemma TimeAtObservation(session: string, log: Log, b: nat, n: nat, kind: Kind)
    requires b < n < |log| && AcceptedBegin(log, b) && Matches(session, log, b, n)
    ensures var ns := Observe(Expected(session, log, b, n), log[n].event).ns;
            && (kind in ns <==> First(session, log, b, Some(kind), n + 1).Some?)
            && (kind in ns ==> ns[kind] == log[First(session, log, b, Some(kind), n + 1).value].event.occurredNs)
  {
    KindsAtObservation(session, log, b, n, kind);
    hide First, Matches, AcceptedBegin, NextBegin;
  }

  lemma TracesAtBegin(session: string, log: Log, n: nat, b: nat)
    requires n < |log| && log[n].BeginCall?
    requires Agrees(session, After(session, log, n), log, n)
    requires b < n + 1 && AcceptedBegin(log, b)
    ensures TraceAgrees(session, After(session, log, n + 1), log, n + 1, b)
  {
    AcceptanceAgrees(After(session, log, n), log, n);
    if b == n {
      NotYetObserved(session, After(session, log, n), log, n);
    } else {
      OlderTracesAtBegin(session, log, n, b);
    }
  }

  lemma BeginStepRecords(t: Timeline, begin: Begin, id: string)
    ensures id in BeginStep(t, begin).records <==> id in t.records
    ensures id in t.records ==>
      var marked := ValidBegin(begin) && begin.responseId !in t.observed && t.activeId == Some(id)
                    && t.records[id].nextFirstAudioNs.None?;
      BeginStep(t, begin).records[id]
        == if marked then t.records[id].(nextFirstAudioNs := Some(begin.receivedNs)) else t.records[id]
  {
  }

  /** Whether `b` is the response whose trace an accepted begin at `n` marks. */
  lemma ActiveIsNamed(t: Timeline, log: Log, n: nat, b: nat)
    requires b < n < |log| && AcceptedBegin(log, b) && ActiveAgrees(t, log, n)
    ensures t.activeId == Some(log[b].begin.responseId) <==> Active(log, n) == Some(b)
  {
  }

  lemma OlderTracesAtBegin(session: string, log: Log, n: nat, b: nat)
    requires n < |log| && log[n].BeginCall?
    requires Agrees(session, After(session, log, n), log, n)
    requires b < n && AcceptedBegin(log, b)
    ensures TraceAgrees(session, After(session, log, n + 1), log, n + 1, b)
  {
    var t := After(session, log, n);
    AcceptanceAgrees(t, log, n);
    ActiveIsNamed(t, log, n, b);
    BeginStepRecords(t, log[n].begin, log[b].begin.responseId);
    assert TraceAgrees(session, t, log, n, b);
    if AcceptedBegin(log, n) && Active(log, n) == Some(b) {
      ExpectedAtNextBegin(session, log, b, n);
    } else {
      ExpectedUnchanged(session, log, b, n);
    }
  }

  lemma NotYetObserved(session: string, t: Timeline, log: Log, n: nat)
    requires n < |log| && AcceptedBegin(log, n) && OrderAgrees(session, t, log, n)
    ensures log[n].begin.responseId !in t.records
    ensures First(session, log, n, None, n + 1).None?
  {
    FirstIsFirst(session, log, n, None, n + 1);
    forall p | 0 <= p < |t.order|
      ensures t.order[p] != log[n].begin.responseId
    {
      assert t.order[p] in t.order;
      var b: nat :| BeginOf(log, n, t.order[p], b);
    }
  }

  lemma TracesAtConsume(session: string, log: Log, n: nat, b: nat)
    requires n < |log| && log[n].ConsumeCall?
    requires Agrees(session, After(session, log, n), log, n)
    requires b < n + 1 && AcceptedBegin(log, b)
    ensures TraceAgrees(session, After(session, log, n + 1), log, n + 1, b)
  {
    var t, e := After(session, log, n), log[n].event;
    ObservationAgrees(session, t, log, n);
    assert TraceAgrees(session, t, log, n, b);
    if Observation(session, log, n) && e.responseId == log[b].begin.responseId {
      AcceptedIsUnique(log, b, Active(log, n).value);
    }
    if Matches(session, log, b, n) {
      BeginsAtObservation(session, log, b, n);
      ExpectedAtObservation(session, log, b, n);
      if e.responseId !in t.records {
        ExpectedNew(session, log, b, n);
      }
    } else {
      ExpectedUnchanged(session, log, b, n);
    }
  }

  lemma FirstBeforeStays(session: string, log: Log, n: nat, b: nat, c: nat)
    requires n < |log| && FirstBefore(session, log, n, b, c)
    ensures FirstBefore(session, log, n + 1, b, c)
  {
  }

  /** The order is kept by every call that appends no trace. */
  lemma OrderUnchanged(session: string, t: Timeline, u: Timeline, log: Log, n: nat)
    requires n < |log| && OrderAgrees(session, t, log, n)
    requires u.order == t.order && u.records.Keys == t.records.Keys
    ensures OrderAgrees(session, u, log, n + 1)
  {
    hide AllBegun, InOrder;
    BegunStays(t.order, log, n);
    InOrderStays(session, t.order, log, n);
  }

  lemma BegunStays(order: seq<string>, log: Log, n: nat)
    requires n < |log| && AllBegun(order, log, n)
    ensures AllBegun(order, log, n + 1)
  {
    var m := n + 1;
    forall id | id in order
      ensures exists b: nat :: BeginOf(log, m, id, b)
    {
      var b: nat :| BeginOf(log, n, id, b);
      assert BeginOf(log, m, id, b);
    }
  }

  lemma InOrderStays(session: string, order: seq<string>, log: Log, n: nat)
    requires n < |log| && AllBegun(order, log, n) && InOrder(session, order, log, n)
    ensures InOrder(session, order, log, n + 1)
  {
    hide AllBegun, BeginOf, FirstBefore;
    var m := n + 1;
    forall p, q, b: nat, c: nat |
      0 <= p < q < |order| && BeginOf(log, m, order[p], b) && BeginOf(log, m, order[q], c)
      ensures FirstBefore(session, log, m, b, c)
    {
      OldBegin(order, log, n, p, b);
      OldBegin(order, log, n, q, c);
      FirstBeforeStays(session, log, n, b, c);
    }
  }

  lemma OldBegin(order: seq<string>, log: Log, n: nat, p: nat, b: nat)
    requires n < |log| && AllBegun(order, log, n) && p < |order|
    requires BeginOf(log, n + 1, order[p], b)
    ensures BeginOf(log, n, order[p], b)
  {
    assert order[p] in order;
    var c: nat :| BeginOf(log, n, order[p], c);
    AcceptedIsUnique(log, b, c);
  }

  lemma LastInOrder(session: string, t: Timeline, log: Log, n: nat, active: nat, p: nat, b: nat)
    requires n < |log| && OrderAgrees(session, t, log, n) && TracesAgree(session, t, log, n)
    requires active < n && AcceptedBegin(log, active) && Matches(session, log, active, n)
    requires log[active].begin.responseId !in t.records
    requires p < |t.order| && BeginOf(log, n + 1, t.order[p], b)
    ensures FirstBefore(session, log, n + 1, b, active)
  {
  }

  /** A first observation appends its response after all others. */
  lemma OrderExtended(session: string, t: Timeline, u: Timeline, log: Log, n: nat, active: nat)
    requires n < |log| && OrderAgrees(session, t, log, n) && TracesAgree(session, t, log, n)
    requires active < n && AcceptedBegin(log, active) && Matches(session, log, active, n)
    requires var id := log[active].begin.responseId;
             id !in t.records && u.order == t.order + [id] && u.records.Keys == t.records.Keys + {id}
    ensures OrderAgrees(session, u, log, n + 1)
  {
    hide AllBegun, InOrder, Matches, TracesAgree;
    var id, m := log[active].begin.responseId, n + 1;
    BegunStays(t.order, log, n);
    InOrderStays(session, t.order, log, n);
    BegunExtended(t.order, log, m, id, active);
    forall p, b: nat | 0 <= p < |t.order| && BeginOf(log, m, t.order[p], b)
      ensures FirstBefore(session, log, m, b, active)
    {
      LastInOrder(session, t, log, n, active, p, b);
    }
    InOrderExtended(session, t.order, log, m, id, active);
  }

  lemma BegunExtended(order: seq<string>, log: Log, n: nat, id: string, active: nat)
    requires n <= |log| && AllBegun(order, log, n) && BeginOf(log, n, id, active)
    ensures AllBegun(order + [id], log, n)
  {
  }

  lemma InOrderExtended(session: string, order: seq<string>, log: Log, n: nat, id: string, active: nat)
    requires n <= |log| && InOrder(session, order, log, n) && BeginOf(log, n, id, active)
    requires forall p, b: nat :: 0 <= p < |order| && BeginOf(log, n, order[p], b) ==>
                                   FirstBefore(session, log, n, b, active)
    ensures InOrder(session, order + [id], log, n)
  {
    hide FirstBefore;
    var longer := order + [id];
    forall p, q, b: nat, c: nat |
      0 <= p < q < |longer| && BeginOf(log, n, longer[p], b) && BeginOf(log, n, longer[q], c)
      ensures FirstBefore(session, log, n, b, c)
    {
      assert longer[p] == order[p];
      if q == |order| {
        AcceptedIsUnique(log, c, active);
      } else {
        assert longer[q] == order[q];
      }
    }
  }

  lemma OrderStep(session: string, log: Log, n: nat)
    requires n < |log| && Agrees(session, After(session, log, n), log, n)
    ensures OrderAgrees(session, After(session, log, n + 1), log, n + 1)
  {
    var t, u := After(session, log, n), After(session, log, n + 1);
    if log[n].ConsumeCall? {
      ObservationAgrees(session, t, log, n);
      if Observation(session, log, n) && log[n].event.responseId !in t.records {
        OrderExtended(session, t, u, log, n, Active(log, n).value);
        return;
      }
    }
    OrderUnchanged(session, t, u, log, n);
  }

  /**
   Main theorem: after every log the reducer's state is what the log calls for. Its list names the
   observed responses in the order of their first observations, one trace each, and every field holds
   the first matching observation.
   */
  lemma {:induction false} ReducerRefinesLog(session: string, log: Log, n: nat)
    requires n <= |log|
    ensures Agrees(session, After(session, log, n), log, n)
  {
    hide ActiveAgrees, ObservedAgrees, TracesAgree, OrderAgrees;
    if n == 0 {
      NothingYet(session, log);
    } else {
      ReducerRefinesLog(session, log, n - 1);
      ObservedStep(session, log, n - 1);
      ActiveStep(session, log, n - 1);
      OrderStep(session, log, n - 1);
      TracesStep(session, log, n - 1);
    }
  }

  lemma NothingYet(session: string, log: Log)
    ensures Agrees(session, Start(session), log, 0)
  {
  }

  lemma TracesStep(session: string, log: Log, n: nat)
    requires n < |log| && Agrees(session, After(session, log, n), log, n)
    ensures TracesAgree(session, After(session, log, n + 1), log, n + 1)
  {
    forall b: nat | b < n + 1 && AcceptedBegin(log, b)
      ensures TraceAgrees(session, After(session, log, n + 1), log, n + 1, b)
    {
      if log[n].BeginCall? {
        TracesAtBegin(session, log, n, b);
      } else {
        TracesAtConsume(session, log, n, b);
      }
    }
  }

  lemma ObservedTrace(session: string, log: Log, n: nat)
    requires n < |log| && Observation(session, log, n)
    ensures var t, e, b := After(session, log, n), log[n].event, Active(log, n).value;
            && Acceptable(t, e)
            && WithTrace(t, e.responseId).records[e.responseId] == Expected(session, log, b, n)
  {
    var t, b := After(session, log, n), Active(log, n).value;
    ReducerRefinesLog(session, log, n);
    ObservationAgrees(session, t, log, n);
    assert TraceAgrees(session, t, log, n, b);
    if log[n].event.responseId !in t.records {
      ExpectedNew(session, log, b, n);
    }
  }

  lemma AnswerIsChange(t: Timeline, e: Event)
    ensures ConsumeStep(t, e).1 <==> ConsumeStep(t, e).0 != t
  {
  }

  /** consume answers true exactly when the state changes, which is at the first observation of each kind. */
  lemma ConsumeAnswersChange(session: string, log: Log, n: nat)
    requires n < |log| && log[n].ConsumeCall?
    ensures var t, e := After(session, log, n), log[n].event;
            && (ConsumeStep(t, e).1 <==> ConsumeStep(t, e).0 != t)
            && (ConsumeStep(t, e).1 <==>
                  Observation(session, log, n)
                  && First(session, log, Active(log, n).value, Some(e.kind), n + 1) == Some(n))
  {
    var t, e := After(session, log, n), log[n].event;
    AnswerIsChange(t, e);
    if Observation(session, log, n) {
      ObservedTrace(session, log, n);
      FirstStep(session, log, Active(log, n).value, Some(e.kind), n);
    } else {
      ReducerRefinesLog(session, log, n);
      ObservationAgrees(session, t, log, n);
    }
  }

  /** `later` has every field of `earlier`, unchanged. */
  ghost predicate KeepsFields(earlier: TraceView, later: TraceView) {
    && later.audioStartMs == earlier.audioStartMs
    && (forall kind :: kind in earlier.ns ==> kind in later.ns && later.ns[kind] == earlier.ns[kind])
    && (earlier.onsetMs.Some? ==> later.onsetMs == earlier.onsetMs)
    && (SpeechStarted in earlier.ns ==> later.onsetMs == earlier.onsetMs)
    && (earlier.nextFirstAudioNs.Some? ==> later.nextFirstAudioNs == earlier.nextFirstAudioNs)
  }

  /** `u` has every trace of `t` at its place, and every field of it. */
  ghost predicate Extends(t: Timeline, u: Timeline) {
    && t.order <= u.order
    && forall id :: id in t.records ==> id in u.records && KeepsFields(t.records[id], u.records[id])
  }

  ghost predicate OnsetsComeWithSpeech(t: Timeline) {
    forall id :: id in t.records && t.records[id].onsetMs.Some? ==> SpeechStarted in t.records[id].ns
  }

  /** No set field ever changes again, and no trace disappears or moves. */
  lemma {:induction false} FieldsNeverChange(session: string, log: Log, m: nat, n: nat)
    requires m <= n <= |log|
    ensures Extends(After(session, log, m), After(session, log, n))
    decreases n
  {
    hide Extends, OnsetsComeWithSpeech;
    if m == n {
      ExtendsItself(After(session, log, n));
    } else {
      FieldsNeverChange(session, log, m, n - 1);
      OnsetsInvariant(session, log, n - 1);
      var t, u := After(session, log, n - 1), After(session, log, n);
      match log[n - 1] {
      case BeginCall(begin) => BeginExtends(t, begin);
      case ConsumeCall(event) => ConsumeExtends(t, event);
      }
      ExtendsTransitive(After(session, log, m), t, u);
    }
  }

  lemma ExtendsItself(t: Timeline)
    ensures Extends(t, t)
  {
  }

  lemma ExtendsTransitive(t: Timeline, u: Timeline, v: Timeline)
    requires Extends(t, u) && Extends(u, v)
    ensures Extends(t, v)
  {
  }

  lemma BeginExtends(t: Timeline, begin: Begin)
    ensures Extends(t, BeginStep(t, begin))
    ensures OnsetsComeWithSpeech(t) ==> OnsetsComeWithSpeech(BeginStep(t, begin))
  {
    hide ValidBegin;
  }

  lemma ConsumeExtends(t: Timeline, e: Event)
    requires OnsetsComeWithSpeech(t)
    ensures Extends(t, ConsumeStep(t, e).0) && OnsetsComeWithSpeech(ConsumeStep(t, e).0)
  {
    hide Acceptable;
  }

  lemma {:induction false} OnsetsInvariant(session: string, log: Log, n: nat)
    requires n <= |log|
    ensures OnsetsComeWithSpeech(After(session, log, n))
  {
    if n > 0 {
      OnsetsInvariant(session, log, n - 1);
      match log[n - 1] {
      case BeginCall(begin) => BeginExtends(After(session, log, n - 1), begin);
      case ConsumeCall(event) => ConsumeExtends(After(session, log, n - 1), event);
      }
    }
  }

  // ----- which begins are accepted

  /**
   A new id of 1 to 256 characters without control characters and outer white space, with a time and an
   audio start that are not negative, becomes the active response; any other begin changes nothing.
   */
  lemma BeginsAreChecked(t: Timeline, b: Begin)
    ensures var u := BeginStep(t, b);
            if && 1 <= |b.responseId| <= 256
               && Strip(b.responseId) == b.responseId
               && (forall c :: c in b.responseId ==> c as int >= 0x20)
               && b.receivedNs >= 0
               && (b.audioStartMs.None? || b.audioStartMs.value >= 0)
               && b.responseId !in t.observed
            then
              && u.activeId == Some(b.responseId)
              && u.activeReceivedNs == b.receivedNs && u.activeAudioStartMs == b.audioStartMs
              && u.observed == t.observed + {b.responseId} && u.order == t.order
            else u == t
  {
    StripKeeps(b.responseId);
  }

  /** A begin changes something exactly when it is accepted. */
  lemma AcceptanceIsChange(session: string, log: Log, n: nat)
    requires n < |log| && log[n].BeginCall?
    ensures After(session, log, n + 1) != After(session, log, n) <==> AcceptedBegin(log, n)
    ensures AcceptedBegin(log, n) ==> After(session, log, n + 1).activeId == Some(log[n].begin.responseId)
  {
    var t, b := After(session, log, n), log[n].begin;
    ReducerRefinesLog(session, log, n);
    AcceptanceAgrees(t, log, n);
    if AcceptedBegin(log, n) {
      assert b.responseId in BeginStep(t, b).observed;
    }
  }

  /**
   Exactly: a begin is accepted if and only if its values are in range and no earlier begin of the same
   response was; then its response becomes active, and otherwise nothing changes.
   */
  lemma AcceptedBeginsIff(session: string, log: Log, n: nat)
    requires n < |log| && log[n].BeginCall?
    ensures var b := log[n].begin;
            After(session, log, n + 1) != After(session, log, n) <==>
              && 1 <= |b.responseId| <= 256
              && Strip(b.responseId) == b.responseId
              && (forall c :: c in b.responseId ==> c as int >= 0x20)
              && b.receivedNs >= 0
              && (b.audioStartMs.None? || b.audioStartMs.value >= 0)
              && forall k: nat :: k < n && log[k].BeginCall? && log[k].begin.responseId == b.responseId ==>
                   After(session, log, k + 1) == After(session, log, k)
    ensures After(session, log, n + 1) != After(session, log, n) ==>
              After(session, log, n + 1).activeId == Some(log[n].begin.responseId)
  {
    var b := log[n].begin;
    StripKeeps(b.responseId);
    assert ValidBeginAt(log, n) <==>
        && 1 <= |b.responseId| <= 256
        && Strip(b.responseId) == b.responseId
        && (forall c :: c in b.responseId ==> c as int >= 0x20)
        && b.receivedNs >= 0
        && (b.audioStartMs.None? || b.audioStartMs.value >= 0);
    AcceptanceIsChange(session, log, n);
    hide After, ValidBeginAt;
    if k: nat :| k < n && ValidBeginAt(log, k) && log[k].begin.responseId == b.responseId {
      var first := FirstValidBegin(log, k);
      AcceptanceIsChange(session, log, first);
    }
    forall k: nat | k < n && log[k].BeginCall? && !AcceptedBegin(log, k)
      ensures After(session, log, k + 1) == After(session, log, k)
    {
      AcceptanceIsChange(session, log, k);
    }
  }

  lemma {:induction false} FirstValidBegin(log: Log, k: nat) returns (first: nat)
    requires k < |log| && ValidBeginAt(log, k)
    ensures first <= k && AcceptedBegin(log, first)
    ensures log[first].begin.responseId == log[k].begin.responseId
    decreases k
  {
    if AcceptedBegin(log, k) {
      first := k;
    } else {
      var earlier: nat :| earlier < k && ValidBeginAt(log, earlier)
        && log[earlier].begin.responseId == log[k].begin.responseId;
      first := FirstValidBegin(log, earlier);
    }
  }
}
