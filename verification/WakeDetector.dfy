/**
 The consecutive-hit detector of the worker thread. The reference is declarative: the position of a
 result in its maximal run of hits, failed inferences being invisible.
 */
module WakeDetector {
  import opened Arithmetic

  /** One inference: run_model either fails or yields a probability. */
  datatype Inference = Failed | Score(probability: real)

  predicate IsHit(r: Inference, threshold: real) {
    r.Score? && r.probability >= threshold
  }

  predicate IsMiss(r: Inference, threshold: real) {
    r.Score? && r.probability < threshold
  }

  /** `start` begins the run of hits that is still open after `end` results. */
  ghost predicate OpenRun(results: seq<Inference>, threshold: real, start: nat, end: nat)
    requires end <= |results|
  {
    && start <= end
    && (start == 0 || IsMiss(results[start - 1], threshold))
    && forall i :: start <= i < end ==> !IsMiss(results[i], threshold)
  }

  ghost function Hits(results: seq<Inference>, threshold: real, start: nat, end: nat): (n: nat)
    requires start <= end <= |results|
    decreases end
  {
    if start == end then 0
    else Hits(results, threshold, start, end - 1) + if IsHit(results[end - 1], threshold) then 1 else 0
  }

  ghost function Fires(fired: seq<bool>, start: nat, end: nat): (n: nat)
    requires start <= end <= |fired|
    decreases end
  {
    if start == end then 0 else Fires(fired, start, end - 1) + if fired[end - 1] then 1 else 0
  }

  /** Where the open run begins after `end` results: just after the last miss. */
  ghost function RunStart(results: seq<Inference>, threshold: real, end: nat): (start: nat)
    requires end <= |results|
    ensures OpenRun(results, threshold, start, end)
    decreases end
  {
    if end == 0 || IsMiss(results[end - 1], threshold) then end else RunStart(results, threshold, end - 1)
  }

  lemma OpenRunUnique(results: seq<Inference>, threshold: real, a: nat, b: nat, end: nat)
    requires end <= |results|
    requires OpenRun(results, threshold, a, end) && OpenRun(results, threshold, b, end)
    ensures a == b
  {
  }

  /** Hits in the run that is open after `end` results. */
  ghost function OpenHits(results: seq<Inference>, threshold: real, end: nat): nat
    requires end <= |results|
  {
    Hits(results, threshold, RunStart(results, threshold, end), end)
  }

  lemma OpenHitsStep(results: seq<Inference>, threshold: real, end: nat)
    requires end < |results|
    ensures OpenHits(results, threshold, end + 1) ==
      if IsMiss(results[end], threshold) then 0
      else OpenHits(results, threshold, end) + if IsHit(results[end], threshold) then 1 else 0
  {
  }

  /** 1-based position of result `i` in its run, counting hits only. */
  ghost function Position(results: seq<Inference>, threshold: real, i: nat): nat
    requires i < |results|
  {
    OpenHits(results, threshold, i + 1)
  }

  ghost predicate FiresAt(results: seq<Inference>, threshold: real, windows: nat, fired: bool, i: nat)
    requires windows > 0 && i < |results|
  {
    fired <==> IsHit(results[i], threshold) && Position(results, threshold, i) % windows == 0
  }

  /** The detector's promise: it fires at the hits whose position in the run is a multiple of `windows`. */
  ghost predicate FiresExactly(results: seq<Inference>, threshold: real, windows: nat, fired: seq<bool>)
    requires windows > 0
  {
    && |fired| == |results|
    && forall i :: 0 <= i < |results| ==> FiresAt(results, threshold, windows, fired[i], i)
  }

  class Worker {
    const threshold: real
    const consecutiveWindows: nat
    var consecutiveHits: nat

    ghost predicate Valid()
      reads this
    {
      // parse_unsigned rejects zero windows.
      consecutiveWindows > 0 && consecutiveHits < consecutiveWindows
    }

    constructor (threshold: real, consecutiveWindows: nat)
      requires consecutiveWindows > 0
      ensures Valid() && consecutiveHits == 0
      ensures this.threshold == threshold && this.consecutiveWindows == consecutiveWindows
    {
      this.threshold := threshold;
      this.consecutiveWindows := consecutiveWindows;
      consecutiveHits := 0;
    }

    /** One pass of the worker loop that reached run_model; `fired` means an activation was raised. */
    method Observe(inference: Inference) returns (fired: bool)
      requires Valid()
      modifies this
      ensures Valid()
      ensures fired <==>
                inference.Score? && inference.probability >= threshold
                && old(consecutiveHits) + 1 == consecutiveWindows
      ensures consecutiveHits ==
        if inference.Failed? then old(consecutiveHits)
        else if inference.probability < threshold || fired then 0
        else old(consecutiveHits) + 1
    {
      fired := false;
      if inference.Score? {
        if inference.probability >= threshold {
          consecutiveHits := consecutiveHits + 1;
        } else {
          consecutiveHits := 0;
        }
        if consecutiveHits >= consecutiveWindows {
          fired := true;
          consecutiveHits := 0;
        }
      }
    }

    /** The worker loop over a whole sequence of inferences. */
    method Run(results: seq<Inference>) returns (fired: seq<bool>)
      requires Valid() && consecutiveHits == 0
      modifies this
      ensures Valid()
      ensures FiresExactly(results, threshold, consecutiveWindows, fired)
    {
      fired := [];
      for i := 0 to |results|
        invariant Valid()
        invariant |fired| == i
        invariant forall k :: 0 <= k < i ==> FiresAt(results, threshold, consecutiveWindows, fired[k], k)
        invariant consecutiveHits == OpenHits(results, threshold, i) % consecutiveWindows
      {
        NextDivMod(OpenHits(results, threshold, i), consecutiveWindows);
        OpenHitsStep(results, threshold, i);
        var f := Observe(results[i]);
        fired := fired + [f];
      }
    }
  }

  lemma {:induction false} PrefixRun(a: seq<Inference>, b: seq<Inference>, threshold: real, end: nat)
    requires end <= |a| && a <= b
    ensures OpenHits(a, threshold, end) == OpenHits(b, threshold, end)
  {
    if end > 0 {
      PrefixRun(a, b, threshold, end - 1);
      OpenHitsStep(a, threshold, end - 1);
      OpenHitsStep(b, threshold, end - 1);
    }
  }

  /**
   A run of hits from `start` on, seen up to `end`, has fired floor(hits / windows) times. With `end`
   just before the miss that closes the run this is its whole length.
   */
  lemma {:induction false} RunFiresPerWindow(results: seq<Inference>, threshold: real, windows: nat,
                                             fired: seq<bool>, start: nat, end: nat)
    requires windows > 0 && end <= |results|
    requires FiresExactly(results, threshold, windows, fired)
    requires OpenRun(results, threshold, start, end)
    ensures Fires(fired, start, end) == Rounds(results, threshold, start, end, windows)
    decreases end
  {
    hide Rounds, FiresExactly, Hits;
    if start == end {
      NoRounds(results, threshold, start, windows);
    } else {
      RunFiresPerWindow(results, threshold, windows, fired, start, end - 1);
      FiresAtRound(results, threshold, windows, fired, start, end - 1);
    }
  }

  /** Complete groups of `windows` hits between `start` and `end`. */
  ghost function Rounds(results: seq<Inference>, threshold: real, start: nat, end: nat, windows: nat): nat
    requires windows > 0 && start <= end <= |results|
  {
    Hits(results, threshold, start, end) / windows
  }

  lemma NoRounds(results: seq<Inference>, threshold: real, start: nat, windows: nat)
    requires windows > 0 && start <= |results|
    ensures Rounds(results, threshold, start, start, windows) == 0
  {
  }

  /** The detector fires exactly where a group is completed. */
  lemma FiresAtRound(results: seq<Inference>, threshold: real, windows: nat,
                     fired: seq<bool>, start: nat, i: nat)
    requires windows > 0 && i < |results|
    requires FiresExactly(results, threshold, windows, fired)
    requires OpenRun(results, threshold, start, i + 1) && start <= i
    ensures Rounds(results, threshold, start, i + 1, windows)
         == Rounds(results, threshold, start, i, windows) + if fired[i] then 1 else 0
  {
    FiresInOpenRun(results, threshold, windows, fired, start, i);
    NextDivMod(Hits(results, threshold, start, i), windows);
  }

  /** Inside a run the position is counted from the start of that run. */
  lemma FiresInOpenRun(results: seq<Inference>, threshold: real, windows: nat,
                       fired: seq<bool>, start: nat, i: nat)
    requires windows > 0 && i < |results|
    requires FiresExactly(results, threshold, windows, fired)
    requires OpenRun(results, threshold, start, i + 1) && start <= i
    ensures fired[i] <==> IsHit(results[i], threshold) && Hits(results, threshold, start, i + 1) % windows == 0
  {
    hide OpenRun, Hits;
    OpenRunUnique(results, threshold, start, RunStart(results, threshold, i + 1), i + 1);
    assert FiresAt(results, threshold, windows, fired[i], i);
  }

  /** Failed inferences neither extend nor break a run: dropping one changes no other position. */
  lemma {:induction false} FailureIsInvisible(before: seq<Inference>, after: seq<Inference>, threshold: real, n: nat)
    requires n <= |after|
    ensures OpenHits(before + [Failed] + after, threshold, |before| + 1 + n)
         == OpenHits(before + after, threshold, |before| + n)
    decreases n
  {
    var failed, clean := before + [Failed] + after, before + after;
    if n == 0 {
      PrefixRun(before, failed, threshold, |before|);
      PrefixRun(before, clean, threshold, |before|);
      OpenHitsStep(failed, threshold, |before|);
    } else {
      FailureIsInvisible(before, after, threshold, n - 1);
      OpenHitsStep(failed, threshold, |before| + n);
      OpenHitsStep(clean, threshold, |before| + n - 1);
    }
  }
}
