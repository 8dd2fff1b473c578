/** Pairing of lifecycle markers in a trace: one metric's start and end events, in integer nanoseconds. */
module LifecycleDeltas {
  import opened Wrappers

  datatype Marker = Marker(session: string, name: string, at: nat)

  /** Marker `j` ends what marker `i` starts: same session, not earlier. */
  ghost predicate Ends(events: seq<Marker>, endName: string, i: nat, j: nat)
    requires i < |events| && j < |events|
  {
    events[j].session == events[i].session && events[j].name == endName && events[j].at >= events[i].at
  }

  ghost predicate PairedStart(events: seq<Marker>, startName: string, endName: string, i: nat)
    requires i < |events|
  {
    events[i].name == startName && exists j: nat :: j < |events| && Ends(events, endName, i, j)
  }

  /** Session `a` appears in the trace before session `b` does. */
  ghost predicate AppearsBefore(events: seq<Marker>, a: string, b: string) {
    exists i: nat :: i < |events| && events[i].session == a && forall k: nat :: k <= i ==> events[k].session != b
  }

  /** The start that counts: of the first session that has a paired one, the first paired one. */
  ghost predicate Chosen(events: seq<Marker>, startName: string, endName: string, i: nat)
    requires i < |events|
  {
    && PairedStart(events, startName, endName, i)
    && forall k: nat :: k < |events| && PairedStart(events, startName, endName, k) ==>
         || AppearsBefore(events, events[i].session, events[k].session)
         || (events[k].session == events[i].session && i <= k)
  }

  /** `delta` is the distance from marker `i` to its nearest end. */
  ghost predicate NearestEnd(events: seq<Marker>, endName: string, i: nat, delta: nat)
    requires i < |events|
  {
    && (exists j: nat :: j < |events| && Ends(events, endName, i, j) && events[j].at - events[i].at == delta)
    && forall j: nat :: j < |events| && Ends(events, endName, i, j) ==> delta <= events[j].at - events[i].at
  }

  /** The distinct sessions in order of appearance. */
  method Sessions(events: seq<Marker>) returns (sessions: seq<string>)
    ensures forall e :: e in events ==> e.session in sessions
    ensures forall s :: s in sessions ==> exists k: nat :: k < |events| && events[k].session == s
    ensures forall p, q :: 0 <= p < q < |sessions| ==> AppearsBefore(events, sessions[p], sessions[q])
  {
    sessions := [];
    for i := 0 to |events|
      invariant forall k :: 0 <= k < i ==> events[k].session in sessions
      invariant forall s :: s in sessions ==> exists k: nat :: k < i && events[k].session == s
      invariant forall p, q :: 0 <= p < q < |sessions| ==> AppearsBefore(events, sessions[p], sessions[q])
    {
      if events[i].session !in sessions {
        ghost var before := sessions;
        forall p | 0 <= p < |before|
          ensures AppearsBefore(events, before[p], events[i].session)
        {
          assert before[p] in before;
          FirstAppearance(events, before[p], events[i].session, i);
        }
        sessions := sessions + [events[i].session];
      }
    }
  }

  lemma FirstAppearance(events: seq<Marker>, a: string, b: string, n: nat)
    requires n <= |events|
    requires exists k: nat :: k < n && events[k].session == a
    requires forall k: nat :: k < n ==> events[k].session != b
    ensures AppearsBefore(events, a, b)
  {
  }

  /** min(ends) - start over the ends of marker `i`, if it has any. */
  method Nearest(events: seq<Marker>, endName: string, i: nat) returns (delta: Option<nat>)
    requires i < |events|
    ensures delta.Some? <==>
              exists j: nat :: j < |events| && events[j].session == events[i].session
                               && events[j].name == endName && events[j].at >= events[i].at
    ensures delta.Some? ==> NearestEnd(events, endName, i, delta.value)
  {
    delta := None;
    ghost var best: nat := 0;
    for j := 0 to |events|
      invariant delta.Some? ==>
        best < j && Ends(events, endName, i, best) && events[best].at - events[i].at == delta.value
      invariant forall k: nat :: k < j && Ends(events, endName, i, k) ==>
        delta.Some? && delta.value <= events[k].at - events[i].at
    {
      var e := events[j];
      if e.session == events[i].session && e.name == endName && e.at >= events[i].at {
        if delta.None? || e.at - events[i].at < delta.value {
          delta := Some(e.at - events[i].at);
          best := j;
        }
      }
    }
    assert delta.Some? ==> Ends(events, endName, i, best);
    assert forall k: nat ::
        k < |events| && events[k].session == events[i].session && events[k].name == endName
        && events[k].at >= events[i].at ==>
          Ends(events, endName, i, k);
  }

  /** One metric of compute_lifecycle_deltas. */
  method Delta(events: seq<Marker>, startName: string, endName: string) returns (delta: Option<nat>)
    ensures delta.None? <==>
              forall i: nat, j: nat :: i < |events| && j < |events| && events[i].name == startName ==>
                !(events[j].session == events[i].session && events[j].name == endName && events[j].at >= events[i].at)
    ensures delta.Some? ==> exists i: nat :: i < |events| && Chosen(events, startName, endName, i)
                                             && NearestEnd(events, endName, i, delta.value)
  {
    var sessions := Sessions(events);
    for p := 0 to |sessions|
      invariant forall k: nat, q :: k < |events| && 0 <= q < p && events[k].session == sessions[q] ==>
                  !PairedStart(events, startName, endName, k)
    {
      for i := 0 to |events|
        invariant forall k: nat :: k < i && events[k].session == sessions[p] ==>
                    !PairedStart(events, startName, endName, k)
      {
        if events[i].session == sessions[p] && events[i].name == startName {
          delta := Nearest(events, endName, i);
          if delta.Some? {
            assert PairedStart(events, startName, endName, i);
            forall k: nat | k < |events| && PairedStart(events, startName, endName, k)
              ensures AppearsBefore(events, events[i].session, events[k].session)
                      || (events[k].session == events[i].session && i <= k)
            {
              assert events[k] in events;
              var q :| 0 <= q < |sessions| && sessions[q] == events[k].session;
            }
            return;
          }
        }
      }
    }
    delta := None;
    forall i: nat | i < |events|
      ensures !PairedStart(events, startName, endName, i)
    {
      assert events[i] in events;
      var q :| 0 <= q < |sessions| && sessions[q] == events[i].session;
    }
    NoPairs(events, startName, endName);
  }

  lemma NoPairs(events: seq<Marker>, startName: string, endName: string)
    requires forall i: nat :: i < |events| ==> !PairedStart(events, startName, endName, i)
    ensures forall i: nat, j: nat :: i < |events| && j < |events| && events[i].name == startName ==>
              !(events[j].session == events[i].session && events[j].name == endName && events[j].at >= events[i].at)
  {
    forall i: nat, j: nat | i < |events| && j < |events| && events[i].name == startName
      ensures !(events[j].session == events[i].session && events[j].name == endName && events[j].at >= events[i].at)
    {
      assert !PairedStart(events, startName, endName, i);
      assert !Ends(events, endName, i, j);
    }
  }

  /** The session of the first marker appears before every other one. */
  lemma FirstSessionLeads(events: seq<Marker>, session: string)
    requires events != [] && session != events[0].session
    ensures AppearsBefore(events, events[0].session, session)
  {
    var first: nat := 0;
    assert events[first].session == events[0].session;
  }

  lemma AppearanceIsAsymmetric(events: seq<Marker>, a: string, b: string)
    ensures !(AppearsBefore(events, a, b) && AppearsBefore(events, b, a))
  {
  }

  /** Only one start can be the chosen one. */
  lemma ChosenIsUnique(events: seq<Marker>, startName: string, endName: string, i: nat, k: nat)
    requires i < |events| && k < |events|
    ensures Chosen(events, startName, endName, i) && Chosen(events, startName, endName, k) ==> i == k
  {
    AppearanceIsAsymmetric(events, events[i].session, events[k].session);
  }
}
