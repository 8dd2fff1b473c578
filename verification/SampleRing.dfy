/**
 The listener's sample ring: a fixed buffer that the audio callback overwrites in place and from
 which the worker copies the newest samples. The reference is the whole sample history; `Image` says
 what the buffer must hold for a given history, and a snapshot is proved to be a suffix of it.
 */
module SampleRing {
  import opened Arithmetic

  // `total_written` is a 64-bit counter.
  const U64: nat := 0x1_0000_0000_0000_0000

  // calloc of more floats than this does not fit the address space, and fails.
  const MAX_CAPACITY: nat := 0x4000_0000_0000_0000

  /** The slot of history index `k`: `k` modulo the capacity. */
  ghost function Slot(k: nat, capacity: nat): (slot: nat)
    requires capacity > 0
    ensures slot < capacity
  {
    if k < capacity then k else Slot(k - capacity, capacity)
  }

  /** Buffer contents once `history` has been stored, starting from a zeroed buffer. */
  ghost function Image(history: seq<real>, capacity: nat): (image: seq<real>)
    requires capacity > 0
    ensures |image| == capacity
  {
    if history == [] then
      seq(capacity, _ => 0.0)
    else
      var n := |history| - 1;
      Image(history[..n], capacity)[Slot(n, capacity) := history[n]]
  }

  /** The element a reader copies `i`-th when it has seen `writeIndex` and asks for `n` samples. */
  ghost function CopyIndex(writeIndex: nat, capacity: nat, n: nat, i: nat): (index: nat)
    requires 0 < capacity && n <= capacity
    ensures index < capacity
  {
    ((writeIndex + capacity - n) % capacity + i) % capacity
  }

  ghost function Copied(slots: seq<real>, writeIndex: nat, n: nat): seq<real>
    requires 0 < |slots| && n <= |slots|
  {
    seq(n, i requires 0 <= i => slots[CopyIndex(writeIndex, |slots|, n, i)])
  }

  lemma {:induction false} SlotIsModulo(k: nat, capacity: nat)
    requires capacity > 0
    ensures Slot(k, capacity) == k % capacity
  {
    if k < capacity {
      WrapOnce(k, capacity);
    } else {
      SlotIsModulo(k - capacity, capacity);
      ModMultiple(1, k - capacity, capacity);
      assert capacity * 1 + (k - capacity) == k;
    }
  }

  lemma {:induction false} SlotAdd(k: nat, d: nat, capacity: nat)
    requires 0 < capacity && d <= capacity
    ensures Slot(k + d, capacity) ==
      if Slot(k, capacity) + d < capacity then Slot(k, capacity) + d else Slot(k, capacity) + d - capacity
  {
    if k >= capacity {
      SlotAdd(k - capacity, d, capacity);
    }
  }

  lemma ImageAppend(history: seq<real>, x: real, capacity: nat)
    requires capacity > 0
    ensures Image(history + [x], capacity) == Image(history, capacity)[Slot(|history|, capacity) := x]
  {
  }

  /** A history element stays readable in its slot until `capacity` newer ones have been stored. */
  lemma {:induction false} ImageKeepsLatest(history: seq<real>, capacity: nat, k: nat)
    requires capacity > 0
    requires k < |history| <= k + capacity
    ensures Image(history, capacity)[Slot(k, capacity)] == history[k]
  {
    var n := |history| - 1;
    if k < n {
      ImageKeepsLatest(history[..n], capacity, k);
      SlotAdd(k, n - k, capacity);
    }
  }

  /** The reader's index arithmetic: it starts at the slot of history index T-n and moves on slot by slot. */
  lemma ReadStart(published: nat, capacity: nat, n: nat)
    requires 0 < capacity && n <= capacity && n <= published
    ensures (Slot(published, capacity) + capacity - n) % capacity == Slot(published - n, capacity)
  {
    SlotAdd(published - n, n, capacity);
    WrapOnce(Slot(published, capacity) + capacity - n, capacity);
  }

  lemma ReadNext(first: nat, capacity: nat, i: nat)
    requires 0 < capacity && i < capacity
    ensures (Slot(first, capacity) + i) % capacity == Slot(first + i, capacity)
  {
    SlotAdd(first, i, capacity);
    WrapOnce(Slot(first, capacity) + i, capacity);
  }

  lemma CopySlot(published: nat, capacity: nat, n: nat, i: nat)
    requires 0 < capacity && n <= capacity && n <= published && i < n
    ensures CopyIndex(Slot(published, capacity), capacity, n, i) == Slot(published - n + i, capacity)
  {
    ReadStart(published, capacity, n);
    ReadNext(published - n, capacity, i);
  }

  /** The writer's index arithmetic. */
  lemma NextSlot(k: nat, capacity: nat)
    requires capacity > 0
    ensures (Slot(k, capacity) + 1) % capacity == Slot(k + 1, capacity)
  {
    SlotAdd(k, 1, capacity);
    WrapOnce(Slot(k, capacity) + 1, capacity);
  }

  lemma AddCount(total: nat, count: nat)
    ensures (total % U64 + count) % U64 == (total + count) % U64
  {
  }

  /** The newest of `total` history indices that belongs to `slot`. */
  lemma {:induction false} SlotHolder(total: nat, capacity: nat, slot: nat) returns (k: nat)
    requires slot < capacity <= total
    ensures k < total <= k + capacity && Slot(k, capacity) == slot
  {
    if total == capacity {
      k := slot;
    } else {
      k := SlotHolder(total - 1, capacity, slot);
      if k + capacity < total {
        SlotAdd(k, capacity, capacity);
        k := k + capacity;
      }
    }
  }

  /** With no writer in between, the copied elements are the newest `n` of the history. */
  lemma SnapshotIsSuffix(history: seq<real>, capacity: nat, n: nat)
    requires 0 < capacity && n <= capacity && n <= |history|
    ensures Copied(Image(history, capacity), Slot(|history|, capacity), n) == history[|history| - n..]
  {
    forall i: nat | i < n
      ensures Copied(Image(history, capacity), Slot(|history|, capacity), n)[i] == history[|history| - n + i]
    {
      CopySlot(|history|, capacity, n, i);
      ImageKeepsLatest(history, capacity, |history| - n + i);
    }
  }

  class SampleRing {
    var samples: array<real>
    var writeIndex: nat
    var totalWritten: nat
    // Every sample ever written, oldest first.
    ghost var history: seq<real>

    ghost predicate Valid()
      reads this, samples
    {
      && 0 < samples.Length <= MAX_CAPACITY
      && samples[..] == Image(history, samples.Length)
      && writeIndex == Slot(|history|, samples.Length)
      && totalWritten == |history| % U64
    }

    constructor (capacity: nat)
      requires 0 < capacity <= MAX_CAPACITY
      ensures Valid() && fresh(samples)
      ensures samples.Length == capacity && history == []
    {
      samples := new real[capacity](_ => 0.0);
      writeIndex := 0;
      totalWritten := 0;
      history := [];
      new;
      assert samples[..] == Image([], capacity);
    }

    /** ring_init: a zero capacity or a failing allocation is an error, reported here as null. */
    static method Init(capacity: nat) returns (ring: SampleRing?)
      ensures ring == null <==> capacity == 0 || capacity > MAX_CAPACITY
      ensures ring != null ==>
        fresh(ring) && fresh(ring.samples) && ring.Valid() && ring.samples.Length == capacity && ring.history == []
    {
      if capacity == 0 || capacity > MAX_CAPACITY {
        return null;
      }
      ring := new SampleRing(capacity);
    }

    /** ring_write: stores in place, then publishes the index, then the count. */
    method Write(input: seq<real>)
      requires Valid()
      modifies this, samples
      ensures Valid() && samples == old(samples)
      ensures history == old(history) + input
    {
      hide Image, Slot;
      if |input| == 0 {
        return;
      }
      var index := writeIndex;
      ghost var stored := history;
      for i := 0 to |input|
        invariant unchanged(this) && samples == old(samples)
        invariant stored == history + input[..i]
        invariant index == Slot(|stored|, samples.Length)
        invariant samples[..] == Image(stored, samples.Length)
      {
        index := Store(index, input[i], stored);
        stored := stored + [input[i]];
      }
      AddCount(|history|, |input|);
      history := stored;
      writeIndex := index;
      totalWritten := (totalWritten + |input|) % U64;
    }

    /** One turn of ring_write's loop. */
    method Store(index: nat, sample: real, ghost stored: seq<real>) returns (next: nat)
      requires samples.Length > 0 && index == Slot(|stored|, samples.Length)
      requires samples[..] == Image(stored, samples.Length)
      modifies samples
      ensures samples[..] == Image(stored + [sample], samples.Length)
      ensures next == Slot(|stored| + 1, samples.Length)
    {
      ImageAppend(stored, sample, samples.Length);
      NextSlot(|stored|, samples.Length);
      samples[index] := sample;
      next := (index + 1) % samples.Length;
    }

    /**
     ring_snapshot_latest with no concurrent writer: all of `out` or nothing, and exactly the newest
     samples when they fit the ring. A longer `out`, for which the start index wraps around as a 64-bit
     number, is filled from the ring, each element with one of its newest samples.
     */
    method SnapshotLatest(out: array<real>) returns (copied: nat)
      requires Valid() && out != samples
      modifies out
      ensures copied == if out.Length <= |history| % 0x1_0000_0000_0000_0000 then out.Length else 0
      ensures 0 < copied <= samples.Length ==> copied <= |history| && out[..] == history[|history| - copied..]
      ensures copied > samples.Length ==> forall i: nat :: i < copied ==> IsNewest(out[i])
      ensures copied == 0 ==> out[..] == old(out[..])
    {
      hide Image, Slot, CopiedFrom;
      if out.Length == 0 {
        return 0;
      }
      var available := totalWritten;
      if available < out.Length {
        return 0;
      }
      available := out.Length;
      var readIndex := ((writeIndex + samples.Length - available) % U64) % samples.Length;
      CopyFrom(readIndex, out);
      if available <= samples.Length {
        SuffixCopied(readIndex, out);
      } else {
        NewestCopied(readIndex, out);
      }
      return available;
    }

    /** The copy loop of ring_snapshot_latest. */
    method CopyFrom(readIndex: nat, out: array<real>)
      requires samples.Length > 0 && out != samples
      modifies out
      ensures CopiedFrom(readIndex, out)
    {
      for i := 0 to out.Length
        invariant forall k: nat :: k < i ==> out[k] == samples[(readIndex + k) % samples.Length]
      {
        out[i] := samples[(readIndex + i) % samples.Length];
      }
    }

    ghost predicate CopiedFrom(readIndex: nat, out: array<real>)
      requires samples.Length > 0
      reads this, samples, out
    {
      forall k: nat :: k < out.Length ==> out[k] == samples[(readIndex + k) % samples.Length]
    }

    lemma SuffixCopied(readIndex: nat, out: array<real>)
      requires Valid() && CopiedFrom(readIndex, out)
      requires out.Length <= samples.Length && out.Length <= |history|
      requires readIndex == ((writeIndex + samples.Length - out.Length) % U64) % samples.Length
      ensures out[..] == history[|history| - out.Length..]
    {
      hide Image, Slot;
      WrapOnce(writeIndex + samples.Length - out.Length, U64);
      SnapshotIsSuffix(history, samples.Length, out.Length);
      assert out[..] == Copied(samples[..], writeIndex, out.Length);
    }

    lemma NewestCopied(readIndex: nat, out: array<real>)
      requires Valid() && CopiedFrom(readIndex, out) && samples.Length <= |history|
      ensures forall k: nat :: k < out.Length ==> IsNewest(out[k])
    {
      hide Image, Slot, IsNewest;
      forall k: nat | k < out.Length
        ensures IsNewest(out[k])
      {
        FullRingIsNewest((readIndex + k) % samples.Length);
      }
    }

    /** `x` is one of the newest samples, as many as the ring holds. */
    ghost predicate IsNewest(x: real)
      reads this, samples
    {
      exists k: nat :: k < |history| <= k + samples.Length && x == history[k]
    }

    lemma FullRingIsNewest(slot: nat)
      requires Valid() && slot < samples.Length <= |history|
      ensures IsNewest(samples[slot])
    {
      var k := SlotHolder(|history|, samples.Length, slot);
      ImageKeepsLatest(history, samples.Length, k);
      assert samples[slot] == samples[..][slot];
    }
  }
}
