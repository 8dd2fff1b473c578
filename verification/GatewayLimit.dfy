/** A run of the gateway in which one awaiting execution takes the replay cache over its limit. */
module GatewayLimit {
  import opened Wrappers
  import opened Gateway
  import opened GatewayRuns
  import Decimal

  ghost function FillTick(i: nat): Tick {
    Execute(Call(Decimal.Print(i)), Some(LOCAL), Success("b"))
  }

  /** An opened scope followed by `m` executions with different call ids. */
  ghost function FillRun(m: nat): (run: Run)
    ensures |run| == m + 2 && OPEN <= run
    ensures forall i :: 2 <= i < |run| ==> run[i].Execute?
  {
    if m == 0 then OPEN else FillRun(m - 1) + [FillTick(m - 1)]
  }

  lemma {:induction false} PrefixAfter(a: Run, b: Run, n: nat)
    requires a <= b && n <= |a|
    ensures After(a, n) == After(b, n)
  {
    if n > 0 {
      PrefixAfter(a, b, n - 1);
      assert a[n - 1] == b[n - 1];
      assert a[n - 1].EndResolve? && a[n - 1].begun < n ==> a[a[n - 1].begun] == b[a[n - 1].begun];
    }
  }

  ghost function Names(m: nat): set<string> {
    set i: nat | i < m :: Decimal.Print(i)
  }

  lemma NamesStep(m: nat)
    ensures Names(m + 1) == Names(m) + {Decimal.Print(m)}
    ensures Decimal.Print(m) !in Names(m) && "x" !in Names(m)
  {
    forall i: nat | i < m
      ensures Decimal.Print(i) != Decimal.Print(m)
    {
      Decimal.ValueOfPrint(i);
      Decimal.ValueOfPrint(m);
    }
    forall i: nat | i < m
      ensures Decimal.Print(i) != "x"
    {
      assert Decimal.Print(i)[0] in Decimal.Print(i);
    }
  }

  ghost predicate ScopeWith(s: State, names: set<string>, count: nat) {
    && s.session == Some(LOCAL) && s.scope == Some("scope-1")
    && s.cache.Keys == names && |s.cache| == count
  }

  /** A new call id in an open scope with room is executed and cached. */
  lemma ExecuteFills(run: Run, n: nat, callId: string, names: set<string>, count: nat)
    requires n < |run| && run[n] == Execute(Call(callId), Some(LOCAL), Success("b"))
    requires ScopeWith(After(run, n), names, count) && callId !in names && count < MAX_CALLS
    ensures ScopeWith(After(run, n + 1), names + {callId}, count + 1)
  {
    var s, t := After(run, n), After(run, n + 1);
    assert t.cache.Keys == s.cache.Keys + {callId};
    assert |t.cache.Keys| == |s.cache.Keys| + 1;
  }

  lemma FillRunStep(m: nat)
    requires m > 0
    ensures FillRun(m - 1) <= FillRun(m)
    ensures FillRun(m)[m + 1] == Execute(Call(Decimal.Print(m - 1)), Some(LOCAL), Success("b"))
  {
  }

  lemma {:induction false} FillState(m: nat)
    requires m <= MAX_CALLS
    ensures ScopeWith(After(FillRun(m), m + 2), Names(m), m)
  {
    if m == 0 {
      Opened(OPEN);
    } else {
      FillRunStep(m);
      hide After, Names, FillRun, ScopeWith;
      FillState(m - 1);
      PrefixAfter(FillRun(m - 1), FillRun(m), m + 1);
      NamesStep(m - 1);
      ExecuteFills(FillRun(m), m + 1, Decimal.Print(m - 1), Names(m - 1), m - 1);
    }
  }

  const RESOLVE := BeginResolve(Call("x"), Some(LOCAL))

  /** `m` calls, an awaiting one, one more call, and then the end of the awaiting one. */
  ghost function OverflowRun(m: nat): (run: Run)
    ensures |run| == m + 5 && OPEN <= run && FillRun(m) <= run
    ensures run[m + 2] == RESOLVE && run[m + 3] == FillTick(m) && run[m + 4] == EndResolve(m + 2, Success("b"))
    ensures forall i :: 2 <= i < m + 4 && i != m + 2 ==> run[i].Execute?
  {
    FillRun(m) + [RESOLVE, FillTick(m), EndResolve(m + 2, Success("b"))]
  }

  lemma OverflowStates(m: nat)
    requires m + 1 == MAX_CALLS
    ensures ScopeWith(After(OverflowRun(m), m + 2), Names(m), m)
    ensures ScopeWith(After(OverflowRun(m), m + 4), Names(m + 1), m + 1)
  {
    hide After, Names, FillRun;
    var run := OverflowRun(m);
    FillState(m);
    PrefixAfter(FillRun(m), run, m + 2);
    ResolveBegins(run, m + 2);
    NamesStep(m);
    ExecuteFills(run, m + 3, Decimal.Print(m), Names(m), m);
  }

  lemma ResolveBegins(run: Run, n: nat)
    requires n < |run| && run[n].BeginResolve?
    ensures After(run, n + 1) == After(run, n)
  {
  }

  lemma ResolveExecutes(run: Run, n: nat, names: set<string>, count: nat)
    requires n < |run| && run[n] == RESOLVE
    requires ScopeWith(After(run, n), names, count) && "x" !in names && count < MAX_CALLS
    ensures Executes(run, n)
  {
  }

  lemma OverflowIsWellFormed(m: nat)
    requires m + 1 == MAX_CALLS
    ensures WellFormed(OverflowRun(m))
  {
    hide After, Names, FillRun, Executes;
    var run := OverflowRun(m);
    OverflowStates(m);
    NamesStep(m);
    ResolveExecutes(run, m + 2, Names(m), m);
    Opened(run);
    assert run[0] == OPEN[0] && run[1] == OPEN[1];
    assert forall i :: 0 <= i < |run| && run[i].EndSession? ==> i == 1;
    assert forall i :: 0 <= i < |run| && run[i].EndResolve? ==> i == m + 4;
  }

  lemma OnlyOneAwaits(m: nat, n: nat)
    requires n <= m + 5
    ensures |Awaiting(OverflowRun(m), n)| <= 1
  {
    hide After, Executes, FillRun;
    var run := OverflowRun(m);
    assert run[0] == OPEN[0] && run[1] == OPEN[1];
    assert Awaiting(run, n) <= {m + 2};
    SubsetOfOne(Awaiting(run, n), m + 2);
  }

  lemma SubsetOfOne(s: set<nat>, x: nat)
    requires s <= {x}
    ensures |s| <= 1
  {
    assert s == {} || s == {x};
  }

  lemma ResolveOverflows(run: Run, n: nat, begun: nat)
    requires begun < n < |run| && run[begun] == RESOLVE && run[n] == EndResolve(begun, Success("b"))
    requires "x" !in After(run, n).cache && |After(run, n).cache| == MAX_CALLS
    ensures |After(run, n + 1).cache| == MAX_CALLS + 1
  {
    var s, t := After(run, n), After(run, n + 1);
    assert t.cache.Keys == s.cache.Keys + {"x"};
    assert |t.cache.Keys| == |s.cache.Keys| + 1;
  }

  /** With never more than one awaiting execution the cache reaches 513 entries: the bound 512 + 1 is tight. */
  lemma LimitCanBeExceeded() returns (run: Run)
    ensures WellFormed(run)
    ensures forall n :: 0 <= n <= |run| ==> |Awaiting(run, n)| <= 1
    ensures |After(run, |run|).cache| == MAX_CALLS + 1
  {
    hide After, Names, FillRun, Awaiting, Executes;
    var m: nat :| m + 1 == MAX_CALLS;
    run := OverflowRun(m);
    OverflowIsWellFormed(m);
    forall n | 0 <= n <= |run|
      ensures |Awaiting(run, n)| <= 1
    {
      OnlyOneAwaits(m, n);
    }
    OverflowStates(m);
    NamesStep(m + 1);
    ResolveOverflows(run, m + 4, m + 2);
  }
}
