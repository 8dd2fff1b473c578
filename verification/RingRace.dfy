/**
 The ring shared by two threads, as a step relation. The writer appends one sample at a time in three
 steps (store the slot, publish the index, publish the count); one reader takes a snapshot in n + 2
 steps (load the count, load the index, copy element after element). Steps interleave freely.
 */
module RingRace {
  import opened Arithmetic
  import opened SampleRing

  datatype WriterAt = Idle | Stored | IndexPublished

  // `published` is how many indices had been published when the reader loaded `write_index`.
  datatype ReaderAt =
    | Start
    | CountLoaded
    | Copying(published: nat, readIndex: nat, out: seq<real>)
    | Rejected

  datatype State = State(
    slots: seq<real>,
    writeIndex: nat,
    totalWritten: nat,
    writer: WriterAt,
    reader: ReaderAt,
    history: seq<real>,     // every slot store that has begun, oldest first
    begun: seq<nat>         // |history| at the moment each element was copied
  )

  ghost predicate Init(s: State, capacity: nat)
    requires capacity > 0
  {
    s == State(Image([], capacity), 0, 0, Idle, Start, [], [])
  }

  ghost predicate StoreSlot(s: State, t: State) {
    && s.writer == Idle
    && s.writeIndex < |s.slots|
    && exists x: real ::
         t == s.(slots := s.slots[s.writeIndex := x], history := s.history + [x], writer := Stored)
  }

  ghost predicate PublishIndex(s: State, t: State) {
    && s.writer == Stored
    && |s.slots| > 0
    && t == s.(writeIndex := (s.writeIndex + 1) % |s.slots|, writer := IndexPublished)
  }

  ghost predicate PublishCount(s: State, t: State) {
    && s.writer == IndexPublished
    && t == s.(totalWritten := (s.totalWritten + 1) % U64, writer := Idle)
  }

  ghost predicate LoadCount(s: State, t: State, n: nat) {
    && s.reader == Start
    && t == s.(reader := if s.totalWritten < n then Rejected else CountLoaded)
  }

  function Published(s: State): nat {
    if s.writer == Stored && s.history != [] then |s.history| - 1 else |s.history|
  }

  ghost predicate LoadIndex(s: State, t: State, n: nat) {
    && s.reader == CountLoaded
    && 0 < |s.slots| && n <= |s.slots|
    && t == s.(reader := Copying(Published(s), (s.writeIndex + |s.slots| - n) % |s.slots|, []))
  }

  ghost function AfterCopy(s: State): State
    requires s.reader.Copying? && |s.slots| > 0
  {
    var i := |s.reader.out|;
    s.(reader := s.reader.(out := s.reader.out + [s.slots[(s.reader.readIndex + i) % |s.slots|]]),
       begun := s.begun + [|s.history|])
  }

  ghost predicate CopyOne(s: State, t: State, n: nat) {
    s.reader.Copying? && |s.slots| > 0 && |s.reader.out| < n && t == AfterCopy(s)
  }

  ghost predicate Next(s: State, t: State, n: nat) {
    || StoreSlot(s, t)
    || PublishIndex(s, t)
    || PublishCount(s, t)
    || LoadCount(s, t, n)
    || LoadIndex(s, t, n)
    || CopyOne(s, t, n)
  }

  ghost predicate IsRun(run: seq<State>, capacity: nat, n: nat)
    requires capacity > 0
  {
    && |run| > 0
    && Init(run[0], capacity)
    && forall i :: 0 <= i < |run| - 1 ==> Next(run[i], run[i + 1], n)
  }

  /** Samples whose count has been published. */
  function Counted(s: State): nat {
    if s.writer == Idle || s.history == [] then |s.history| else |s.history| - 1
  }

  ghost predicate RingInvariant(s: State, capacity: nat)
    requires capacity > 0
  {
    && s.slots == Image(s.history, capacity)
    && (s.writer != Idle ==> s.history != [])
    && s.writeIndex == Slot(Published(s), capacity)
    && s.totalWritten == Counted(s) % U64
  }

  /** The newest of the first `begun` history indices that share `wanted`'s slot, and not older than it. */
  ghost predicate NewestInSlot(k: nat, wanted: nat, begun: nat, capacity: nat)
    requires capacity > 0
  {
    wanted <= k < begun <= k + capacity && Slot(k, capacity) == Slot(wanted, capacity)
  }

  /**
   A copied element is exactly the newest sample stored in its slot by then; it is the wanted sample
   itself if the writer had not yet come round to the slot.
   */
  ghost predicate CopiedElement(history: seq<real>, capacity: nat, wanted: nat, begun: nat, value: real)
    requires capacity > 0
  {
    && wanted < begun <= |history|
    && (exists k: nat :: NewestInSlot(k, wanted, begun, capacity) && value == history[k])
    && (begun <= wanted + capacity ==> value == history[wanted])
  }

  ghost predicate CopiedAll(history: seq<real>, capacity: nat, first: nat, begun: seq<nat>, out: seq<real>)
    requires capacity > 0
  {
    && |out| == |begun|
    && forall i: nat :: i < |out| ==> CopiedElement(history, capacity, first + i, begun[i], out[i])
  }

  ghost predicate ReaderInvariant(s: State, capacity: nat, n: nat)
    requires capacity > 0
  {
    match s.reader
    case Start => s.begun == []
    case Rejected => s.begun == []
    case CountLoaded => s.begun == [] && n <= Published(s)
    case Copying(published, readIndex, out) =>
      && published <= Published(s)
      && WindowCopied(s.history, capacity, n, published, readIndex, s.begun, out)
  }

  /** So far the reader has copied the first elements of the window that ends at the loaded index. */
  ghost predicate WindowCopied(history: seq<real>, capacity: nat, n: nat, published: nat, readIndex: nat,
                               begun: seq<nat>, out: seq<real>)
    requires capacity > 0
  {
    && n <= published
    && readIndex == Slot(published - n, capacity)
    && |out| <= n
    && CopiedAll(history, capacity, published - n, begun, out)
  }

  ghost predicate Invariant(s: State, capacity: nat, n: nat)
    requires capacity > 0
  {
    RingInvariant(s, capacity) && ReaderInvariant(s, capacity, n)
  }

  lemma StoreKeepsInvariant(s: State, t: State, capacity: nat, n: nat)
    requires 0 < capacity && Invariant(s, capacity, n)
    requires StoreSlot(s, t)
    ensures Invariant(t, capacity, n)
  {
    StoreKeepsRing(s, t, capacity);
    hide Published, RingInvariant, ReaderInvariant, Image, Slot;
    StoreKeepsReader(s, t, t.history[|s.history|], capacity, n);
  }

  lemma StoreKeepsReader(s: State, t: State, x: real, capacity: nat, n: nat)
    requires 0 < capacity && ReaderInvariant(s, capacity, n)
    requires Published(t) == Published(s) && t.history == s.history + [x]
    requires t.reader == s.reader && t.begun == s.begun
    ensures ReaderInvariant(t, capacity, n)
  {
    hide Published, CopiedAll, Slot;
    if s.reader.Copying? {
      CopiesStay(s.history, x, capacity, s.reader.published - n, s.begun, s.reader.out);
    }
  }

  lemma CopiesStay(history: seq<real>, x: real, capacity: nat, first: nat, begun: seq<nat>, out: seq<real>)
    requires capacity > 0 && CopiedAll(history, capacity, first, begun, out)
    ensures CopiedAll(history + [x], capacity, first, begun, out)
  {
    hide CopiedElement;
    forall i: nat | i < |out|
      ensures CopiedElement(history + [x], capacity, first + i, begun[i], out[i])
    {
      CopiedStays(history, x, capacity, first + i, begun[i], out[i]);
    }
  }

  lemma StoreKeepsRing(s: State, t: State, capacity: nat)
    requires 0 < capacity && RingInvariant(s, capacity)
    requires StoreSlot(s, t)
    ensures RingInvariant(t, capacity) && Published(t) == Published(s)
  {
    hide Image, Slot;
    ImageAppend(s.history, t.history[|s.history|], capacity);
  }

  lemma CopiedStays(history: seq<real>, x: real, capacity: nat, wanted: nat, begun: nat, value: real)
    requires capacity > 0 && CopiedElement(history, capacity, wanted, begun, value)
    ensures CopiedElement(history + [x], capacity, wanted, begun, value)
  {
    hide Slot;
    var longer := history + [x];
    var k: nat :| NewestInSlot(k, wanted, begun, capacity) && value == history[k];
    assert longer[k] == history[k] && longer[wanted] == history[wanted];
  }

  lemma PublishIndexKeepsInvariant(s: State, t: State, capacity: nat, n: nat)
    requires 0 < capacity && Invariant(s, capacity, n)
    requires PublishIndex(s, t)
    ensures Invariant(t, capacity, n)
  {
    NextSlot(|s.history| - 1, capacity);
    assert Published(t) == Published(s) + 1;
  }

  lemma PublishCountKeepsInvariant(s: State, t: State, capacity: nat, n: nat)
    requires 0 < capacity && Invariant(s, capacity, n)
    requires PublishCount(s, t)
    ensures Invariant(t, capacity, n)
  {
    ModOfSum(|s.history| - 1, 1, U64);
  }

  lemma CopyTakesWantedSlot(s: State, capacity: nat, n: nat)
    requires 0 < capacity && n <= capacity && s.slots == Image(s.history, capacity)
    requires ReaderInvariant(s, capacity, n) && s.reader.Copying? && |s.reader.out| < n
    ensures var wanted := s.reader.published - n + |s.reader.out|;
            var value := Image(s.history, capacity)[Slot(wanted, capacity)];
            AfterCopy(s) == s.(reader := s.reader.(out := s.reader.out + [value]), begun := s.begun + [|s.history|])
  {
    ReadNext(s.reader.published - n, capacity, |s.reader.out|);
  }

  lemma CopyKeepsReader(s: State, capacity: nat, n: nat)
    requires 0 < capacity && n <= capacity && s.slots == Image(s.history, capacity)
    requires ReaderInvariant(s, capacity, n) && s.reader.Copying? && |s.reader.out| < n
    ensures ReaderInvariant(AfterCopy(s), capacity, n)
  {
    CopyTakesWantedSlot(s, capacity, n);
    hide AfterCopy, Image, Slot, WindowCopied;
    WindowExtend(s.history, capacity, n, s.reader.published, s.reader.readIndex, s.begun, s.reader.out);
  }

  lemma WindowExtend(history: seq<real>, capacity: nat, n: nat, published: nat, readIndex: nat,
                     begun: seq<nat>, out: seq<real>)
    requires capacity > 0 && published <= |history| && |out| < n
    requires WindowCopied(history, capacity, n, published, readIndex, begun, out)
    ensures var value := Image(history, capacity)[Slot(published - n + |out|, capacity)];
            WindowCopied(history, capacity, n, published, readIndex, begun + [|history|], out + [value])
  {
    hide Image, Slot, CopiedAll;
    CopiedAllExtend(history, capacity, published - n, begun, out);
  }

  lemma LoadKeepsReader(s: State, t: State, capacity: nat, n: nat)
    requires 0 < capacity && n <= capacity && Invariant(s, capacity, n)
    requires LoadCount(s, t, n) || LoadIndex(s, t, n)
    ensures ReaderInvariant(t, capacity, n)
  {
    if LoadIndex(s, t, n) {
      ReadStart(Published(s), capacity, n);
    }
  }

  /** The reader changes nothing of the ring. */
  lemma ReaderKeepsRing(s: State, t: State, capacity: nat)
    requires 0 < capacity && RingInvariant(s, capacity)
    requires t == s.(reader := t.reader, begun := t.begun)
    ensures RingInvariant(t, capacity)
  {
  }

  lemma CopiedAllExtend(history: seq<real>, capacity: nat, first: nat, begun: seq<nat>, out: seq<real>)
    requires capacity > 0 && CopiedAll(history, capacity, first, begun, out) && first + |out| < |history|
    ensures var value := Image(history, capacity)[Slot(first + |out|, capacity)];
            CopiedAll(history, capacity, first, begun + [|history|], out + [value])
  {
    hide CopiedElement, Image, Slot;
    CopiedValue(history, capacity, first + |out|);
  }

  lemma CopiedValue(history: seq<real>, capacity: nat, wanted: nat)
    requires 0 < capacity && wanted < |history|
    ensures CopiedElement(history, capacity, wanted, |history|, Image(history, capacity)[Slot(wanted, capacity)])
  {
    var k := LatestInSlot(history, capacity, wanted);
    if |history| <= wanted + capacity {
      ImageKeepsLatest(history, capacity, wanted);
    }
  }

  /** A slot that was ever written holds the newest sample that belongs there. */
  lemma {:induction false} LatestInSlot(history: seq<real>, capacity: nat, wanted: nat) returns (k: nat)
    requires 0 < capacity && wanted < |history|
    ensures NewestInSlot(k, wanted, |history|, capacity)
    ensures Image(history, capacity)[Slot(wanted, capacity)] == history[k]
  {
    var last := |history| - 1;
    if Slot(last, capacity) == Slot(wanted, capacity) {
      k := last;
    } else {
      k := LatestInSlot(history[..last], capacity, wanted);
      SlotAdd(k, capacity, capacity);
    }
  }

  lemma NextKeepsInvariant(s: State, t: State, capacity: nat, n: nat)
    requires 0 < capacity && n <= capacity && Invariant(s, capacity, n)
    requires Next(s, t, n)
    ensures Invariant(t, capacity, n)
  {
    if CopyOne(s, t, n) {
      ReaderKeepsRing(s, t, capacity);
      CopyKeepsReader(s, capacity, n);
    } else if StoreSlot(s, t) {
      StoreKeepsInvariant(s, t, capacity, n);
    } else if PublishIndex(s, t) {
      PublishIndexKeepsInvariant(s, t, capacity, n);
    } else if PublishCount(s, t) {
      PublishCountKeepsInvariant(s, t, capacity, n);
    } else {
      ReaderKeepsRing(s, t, capacity);
      LoadKeepsReader(s, t, capacity, n);
    }
  }

  lemma {:induction false} RunKeepsInvariant(run: seq<State>, capacity: nat, n: nat, i: nat)
    requires 0 < capacity && n <= capacity && IsRun(run, capacity, n)
    requires i < |run|
    ensures Invariant(run[i], capacity, n)
  {
    if i > 0 {
      RunKeepsInvariant(run, capacity, n, i - 1);
      assert Next(run[i - 1], run[i - 1 + 1], n);
      NextKeepsInvariant(run[i - 1], run[i], capacity, n);
    }
  }

  /** The complete snapshot of state s, if it has one. */
  ghost predicate SnapshotDone(s: State, n: nat) {
    s.reader.Copying? && |s.reader.out| == n
  }

  /** The writer stayed clear of every element until it had been copied. */
  ghost predicate WriterStayedClear(s: State, capacity: nat, n: nat)
    requires s.reader.Copying?
  {
    forall i: nat {:trigger s.begun[i]} :: i < n && i < |s.begun| ==>
      s.begun[i] - s.reader.published <= capacity - n + i
  }

  /**
   Main theorem: under every interleaving, a finished snapshot holds n samples of the history. Each is
   the newest sample its slot held when it was copied, so none is older than the window that ends at
   the loaded index and none comes from a never-written slot; if the writer stayed clear, the snapshot
   is exactly that window.
   */
  lemma SnapshotUnderRace(run: seq<State>, capacity: nat, n: nat)
    requires 0 < capacity && n <= capacity && IsRun(run, capacity, n)
    requires SnapshotDone(run[|run| - 1], n)
    ensures var s := run[|run| - 1];
            && n <= s.reader.published <= |s.history| && |s.begun| == n
            && (forall i: nat | i < n :: s.begun[i] <= |s.history|
                  && exists k: nat :: NewestInSlot(k, s.reader.published - n + i, s.begun[i], capacity)
                                      && s.reader.out[i] == s.history[k])
            && (WriterStayedClear(s, capacity, n) ==>
                  s.reader.out == s.history[s.reader.published - n..s.reader.published])
  {
    hide RingInvariant, NewestInSlot, CopiedElement, WriterStayedClear;
    RunKeepsInvariant(run, capacity, n, |run| - 1);
    CopiesAreNewest(run[|run| - 1], capacity, n);
    ClearCopiesAreExact(run[|run| - 1], capacity, n);
  }

  lemma CopiesAreNewest(s: State, capacity: nat, n: nat)
    requires 0 < capacity && ReaderInvariant(s, capacity, n) && SnapshotDone(s, n)
    ensures forall i: nat | i < n :: s.begun[i] <= |s.history|
              && exists k: nat :: NewestInSlot(k, s.reader.published - n + i, s.begun[i], capacity)
                                  && s.reader.out[i] == s.history[k]
  {
  }

  lemma ClearCopiesAreExact(s: State, capacity: nat, n: nat)
    requires 0 < capacity && ReaderInvariant(s, capacity, n) && SnapshotDone(s, n)
    ensures s.reader.published <= |s.history|
    ensures WriterStayedClear(s, capacity, n) ==>
              s.reader.out == s.history[s.reader.published - n..s.reader.published]
  {
  }

  /** A writer that stores at most `capacity - n` samples between the index load and the last copy is clear. */
  lemma SlackIsEnough(run: seq<State>, capacity: nat, n: nat)
    requires 0 < capacity && n <= capacity && IsRun(run, capacity, n)
    requires SnapshotDone(run[|run| - 1], n)
    requires var s := run[|run| - 1]; |s.history| - s.reader.published <= capacity - n
    ensures var s := run[|run| - 1];
            && n <= s.reader.published <= |s.history|
            && s.reader.out == s.history[s.reader.published - n..s.reader.published]
  {
    var s := run[|run| - 1];
    RunKeepsInvariant(run, capacity, n, |run| - 1);
    forall i: nat | i < n && i < |s.begun|
      ensures s.begun[i] - s.reader.published <= capacity - n + i
    {
      assert CopiedElement(s.history, capacity, s.reader.published - n + i, s.begun[i], s.reader.out[i]);
    }
    SnapshotUnderRace(run, capacity, n);
  }

  // ----- the condition is exact

  ghost predicate Distinct(history: seq<real>) {
    forall i, j :: 0 <= i < j < |history| ==> history[i] != history[j]
  }

  /** With pairwise different samples a snapshot is the window exactly when the writer stayed clear of it. */
  lemma ExactIffClear(run: seq<State>, capacity: nat, n: nat)
    requires 0 < capacity && n <= capacity && IsRun(run, capacity, n)
    requires SnapshotDone(run[|run| - 1], n)
    requires Distinct(run[|run| - 1].history)
    ensures var s := run[|run| - 1];
            && n <= s.reader.published <= |s.history|
            && (WriterStayedClear(s, capacity, n) <==>
                  s.reader.out == s.history[s.reader.published - n..s.reader.published])
  {
    var s := run[|run| - 1];
    SnapshotUnderRace(run, capacity, n);
    var first := s.reader.published - n;
    if s.reader.out == s.history[first..s.reader.published] {
      forall i: nat | i < n
        ensures s.begun[i] <= first + i + capacity
      {
        var k: nat :| NewestInSlot(k, first + i, s.begun[i], capacity) && s.reader.out[i] == s.history[k];
        assert s.history[k] == s.history[first + i];
      }
    }
  }

  /** A quiet state after `m` distinct samples, with the reader not yet begun. */
  ghost predicate Filled(run: seq<State>, capacity: nat, n: nat, m: nat)
    requires capacity > 0
  {
    && IsRun(run, capacity, n)
    && var s := run[|run| - 1];
       s.writer == Idle && s.reader == Start && s.begun == [] && Numbered(s.history, m)
  }

  /** The history 0, 1, ..., m-1. */
  ghost predicate Numbered(history: seq<real>, m: nat) {
    |history| == m && forall i :: 0 <= i < m ==> history[i] == i as real
  }

  lemma Extend(run: seq<State>, t: State, capacity: nat, n: nat)
    requires capacity > 0 && IsRun(run, capacity, n) && Next(run[|run| - 1], t, n)
    ensures IsRun(run + [t], capacity, n)
  {
    var longer := run + [t];
    forall i | 0 <= i < |longer| - 1
      ensures Next(longer[i], longer[i + 1], n)
    {
      if i < |run| - 1 {
        assert longer[i] == run[i] && longer[i + 1] == run[i + 1];
      }
    }
  }

  /** The writer can append one numbered sample at any quiet moment, whatever the reader is doing. */
  lemma WriteOne(run: seq<State>, capacity: nat, n: nat, m: nat) returns (longer: seq<State>)
    requires 0 < capacity && n <= capacity && IsRun(run, capacity, n)
    requires run[|run| - 1].writer == Idle && Numbered(run[|run| - 1].history, m)
    ensures IsRun(longer, capacity, n)
    ensures var s, t := run[|run| - 1], longer[|longer| - 1];
            t.writer == Idle && t.reader == s.reader && t.begun == s.begun && Numbered(t.history, m + 1)
  {
    var s := run[|run| - 1];
    RunKeepsInvariant(run, capacity, n, |run| - 1);
    var stored := s.(slots := s.slots[s.writeIndex := m as real], history := s.history + [m as real], writer := Stored);
    assert StoreSlot(s, stored);
    Extend(run, stored, capacity, n);
    var indexed := stored.(writeIndex := (stored.writeIndex + 1) % |stored.slots|, writer := IndexPublished);
    assert PublishIndex(stored, indexed);
    Extend(run + [stored], indexed, capacity, n);
    var counted := indexed.(totalWritten := (indexed.totalWritten + 1) % U64, writer := Idle);
    assert PublishCount(indexed, counted);
    Extend(run + [stored] + [indexed], counted, capacity, n);
    longer := run + [stored] + [indexed] + [counted];
  }

  lemma {:induction false} WriteMany(run: seq<State>, capacity: nat, n: nat, m: nat, count: nat)
    returns (longer: seq<State>)
    requires 0 < capacity && n <= capacity && IsRun(run, capacity, n)
    requires run[|run| - 1].writer == Idle && Numbered(run[|run| - 1].history, m)
    ensures IsRun(longer, capacity, n)
    ensures var s, t := run[|run| - 1], longer[|longer| - 1];
            t.writer == Idle && t.reader == s.reader && t.begun == s.begun && Numbered(t.history, m + count)
    decreases count
  {
    if count == 0 {
      longer := run;
    } else {
      longer := WriteOne(run, capacity, n, m);
      longer := WriteMany(longer, capacity, n, m + 1, count - 1);
    }
  }

  /** The reader can finish its copies while the writer pauses. */
  lemma {:induction false} CopyRest(run: seq<State>, capacity: nat, n: nat) returns (longer: seq<State>)
    requires 0 < capacity && n <= capacity && IsRun(run, capacity, n)
    requires run[|run| - 1].reader.Copying?
    ensures IsRun(longer, capacity, n) && SnapshotDone(longer[|longer| - 1], n)
    ensures var s, t := run[|run| - 1], longer[|longer| - 1];
            && t.history == s.history && t.reader.published == s.reader.published
            && s.begun <= t.begun && forall i :: |s.begun| <= i < |t.begun| ==> t.begun[i] == |s.history|
    decreases n - |run[|run| - 1].begun|
  {
    var s := run[|run| - 1];
    RunKeepsInvariant(run, capacity, n, |run| - 1);
    if |s.reader.out| == n {
      longer := run;
    } else {
      var value := s.slots[(s.reader.readIndex + |s.reader.out|) % |s.slots|];
      var t := s.(reader := s.reader.(out := s.reader.out + [value]), begun := s.begun + [|s.history|]);
      assert CopyOne(s, t, n);
      Extend(run, t, capacity, n);
      longer := CopyRest(run + [t], capacity, n);
    }
  }

  lemma StartSnapshot(run: seq<State>, capacity: nat, n: nat) returns (longer: seq<State>)
    requires 0 < capacity <= MAX_CAPACITY && n <= capacity && Filled(run, capacity, n, n)
    ensures IsRun(longer, capacity, n)
    ensures var s, t := run[|run| - 1], longer[|longer| - 1];
            && t.writer == Idle && t.history == s.history && t.begun == []
            && t.reader.Copying? && t.reader.published == n
  {
    var s := run[|run| - 1];
    RunKeepsInvariant(run, capacity, n, |run| - 1);
    assert s.totalWritten == n by {
      WrapOnce(n, U64);
    }
    var loaded := s.(reader := CountLoaded);
    assert LoadCount(s, loaded, n);
    Extend(run, loaded, capacity, n);
    var copying := loaded.(reader := Copying(n, (s.writeIndex + |s.slots| - n) % |s.slots|, []));
    assert LoadIndex(loaded, copying, n);
    Extend(run + [loaded], copying, capacity, n);
    longer := run + [loaded] + [copying];
  }

  /**
   The bound is tight for every ring and every window: `capacity - n + 1` stores between the index load
   and the first copy already tear the snapshot.
   */
  lemma OneStoreTooMany(capacity: nat, n: nat) returns (run: seq<State>)
    requires 0 < n <= capacity <= MAX_CAPACITY
    ensures IsRun(run, capacity, n) && SnapshotDone(run[|run| - 1], n)
    ensures var s := run[|run| - 1];
            && s.reader.published == n && |s.history| - s.reader.published == capacity - n + 1
            && s.reader.out != s.history[..n]
  {
    run := [State(Image([], capacity), 0, 0, Idle, Start, [], [])];
    run := WriteMany(run, capacity, n, 0, n);
    run := StartSnapshot(run, capacity, n);
    run := WriteMany(run, capacity, n, n, capacity - n + 1);
    run := CopyRest(run, capacity, n);
    var s := run[|run| - 1];
    assert Distinct(s.history);
    ExactIffClear(run, capacity, n);
    SnapshotUnderRace(run, capacity, n);
    assert s.begun[0] - s.reader.published > capacity - n;
  }

  /** The listener's own ring of four seconds and window of three tears after one second and one sample. */
  lemma ListenerRingCanTear() returns (run: seq<State>)
    ensures IsRun(run, RING_SAMPLES, MODEL_SAMPLES) && SnapshotDone(run[|run| - 1], MODEL_SAMPLES)
    ensures var s := run[|run| - 1];
            && |s.history| - s.reader.published == 16001
            && s.reader.out != s.history[..s.reader.published]
  {
    run := OneStoreTooMany(RING_SAMPLES, MODEL_SAMPLES);
  }

  // MODEL_RATE * RING_SECONDS and MODEL_RATE * MODEL_SECONDS.
  const RING_SAMPLES: nat := 64000
  const MODEL_SAMPLES: nat := 48000
}
