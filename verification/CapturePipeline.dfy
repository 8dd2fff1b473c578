/**
 From microphone frames to ring samples: downmix, integer-accumulator resampling to 16 kHz, and the
 audio callback that runs both once per buffer. `Resample` is the reference: one pass over all frames.
 */
module CapturePipeline {
  import opened Arithmetic
  import opened SampleRing

  const MODEL_RATE: nat := 16000
  // The accumulator is an unsigned 32-bit integer and wraps.
  const U32: nat := 0x1_0000_0000

  type Uint32 = n: nat | n < U32

  // ----- downmix

  ghost function Sum(samples: seq<real>): real {
    if samples == [] then 0.0 else Sum(samples[..|samples| - 1]) + samples[|samples| - 1]
  }

  ghost function Mean(frame: seq<real>): real
    requires frame != []
  {
    Sum(frame) / (|frame| as real)
  }

  lemma {:induction false} SumOfRaised(frame: seq<real>, ch: nat, d: real)
    requires ch < |frame|
    ensures Sum(frame[ch := frame[ch] + d]) == Sum(frame) + d
  {
    var n, raised := |frame| - 1, frame[ch := frame[ch] + d];
    if ch < n {
      SumOfRaised(frame[..n], ch, d);
      assert raised[..n] == frame[..n][ch := frame[ch] + d];
    } else {
      assert raised[..n] == frame[..n];
    }
  }

  lemma {:induction false} SumOfEqual(frame: seq<real>, x: real)
    requires forall i :: 0 <= i < |frame| ==> frame[i] == x
    ensures Sum(frame) == (|frame| as real) * x
  {
    if frame != [] {
      SumOfEqual(frame[..|frame| - 1], x);
    }
  }

  lemma {:induction false} SumIsMonotone(a: seq<real>, b: seq<real>)
    requires |a| == |b| && forall i :: 0 <= i < |a| ==> a[i] <= b[i]
    ensures Sum(a) <= Sum(b)
  {
    if a != [] {
      SumIsMonotone(a[..|a| - 1], b[..|b| - 1]);
    }
  }

  lemma QuotientOfSum(a: real, d: real, n: real)
    requires n > 0.0
    ensures (a + d) / n == a / n + d / n
    ensures (n * d) / n == d
    ensures d >= 0.0 ==> d / n >= 0.0
  {
  }

  /** Raising one channel, whichever it is, raises the mono value by its share. */
  lemma ChannelsCountAlike(frame: seq<real>, ch: nat, d: real)
    requires ch < |frame|
    ensures Mean(frame[ch := frame[ch] + d]) == Mean(frame) + d / (|frame| as real)
  {
    SumOfRaised(frame, ch, d);
    QuotientOfSum(Sum(frame), d, |frame| as real);
  }

  /** A frame of equal channels keeps their value. */
  lemma EqualChannelsAreKept(frame: seq<real>, x: real)
    requires frame != [] && forall i :: 0 <= i < |frame| ==> frame[i] == x
    ensures Mean(frame) == x
  {
    SumOfEqual(frame, x);
    QuotientOfSum(0.0, x, |frame| as real);
  }

  lemma MeanIsMonotone(a: seq<real>, b: seq<real>)
    requires |a| == |b| > 0 && forall i :: 0 <= i < |a| ==> a[i] <= b[i]
    ensures Mean(a) <= Mean(b)
  {
    SumIsMonotone(a, b);
    QuotientOfSum(Sum(a), Sum(b) - Sum(a), |a| as real);
  }

  /** The mono value lies between the least and the greatest channel. */
  lemma MeanLiesBetween(frame: seq<real>) returns (least: nat, greatest: nat)
    requires frame != []
    ensures least < |frame| && greatest < |frame|
    ensures frame[least] <= Mean(frame) <= frame[greatest]
    ensures forall i :: 0 <= i < |frame| ==> frame[least] <= frame[i] <= frame[greatest]
  {
    least, greatest := Extremes(frame);
    var low, high := seq(|frame|, _ => frame[least]), seq(|frame|, _ => frame[greatest]);
    EqualChannelsAreKept(low, frame[least]);
    EqualChannelsAreKept(high, frame[greatest]);
    MeanIsMonotone(low, frame);
    MeanIsMonotone(frame, high);
  }

  lemma {:induction false} Extremes(frame: seq<real>) returns (least: nat, greatest: nat)
    requires frame != []
    ensures least < |frame| && greatest < |frame|
    ensures forall i :: 0 <= i < |frame| ==> frame[least] <= frame[i] <= frame[greatest]
  {
    var n := |frame| - 1;
    if n == 0 {
      least, greatest := 0, 0;
    } else {
      var front := frame[..n];
      least, greatest := Extremes(front);
      assert forall i :: 0 <= i < n ==> frame[i] == front[i];
      least := if frame[n] < frame[least] then n else least;
      greatest := if frame[n] > frame[greatest] then n else greatest;
    }
  }

  lemma FrameBounds(frames: nat, channels: nat)
    requires frames > 0
    ensures (frames - 1) * channels + channels == frames * channels
    ensures 0 <= (frames - 1) * channels
  {
  }

  /** The mono value of each of the first `frames` interleaved frames. */
  ghost function Monos(samples: seq<real>, channels: nat, frames: nat): (monos: seq<real>)
    requires channels > 0 && frames * channels <= |samples|
    ensures |monos| == frames
    decreases frames
  {
    if frames == 0 then
      []
    else
      FrameBounds(frames, channels);
      Monos(samples, channels, frames - 1) + [Mean(samples[(frames - 1) * channels..frames * channels])]
  }

  /** Frames of a buffer do not depend on the buffers around it. */
  lemma {:induction false} MonosAppend(a: seq<real>, b: seq<real>, channels: nat, fa: nat, fb: nat)
    requires channels > 0 && |a| == fa * channels && fb * channels <= |b|
    ensures (fa + fb) * channels <= |a + b|
    ensures Monos(a + b, channels, fa + fb) == Monos(a, channels, fa) + Monos(b, channels, fb)
    decreases fb
  {
    assert (fa + fb) * channels == fa * channels + fb * channels;
    if fb == 0 {
      MonosPrefix(a, b, channels, fa);
    } else {
      FrameBounds(fb, channels);
      FrameBounds(fa + fb, channels);
      MonosAppend(a, b, channels, fa, fb - 1);
      assert (a + b)[(fa + fb - 1) * channels..(fa + fb) * channels]
          == b[(fb - 1) * channels..fb * channels];
    }
  }

  lemma {:induction false} MonosPrefix(a: seq<real>, b: seq<real>, channels: nat, frames: nat)
    requires channels > 0 && frames * channels <= |a|
    ensures Monos(a + b, channels, frames) == Monos(a, channels, frames)
    decreases frames
  {
    if frames > 0 {
      FrameBounds(frames, channels);
      MonosPrefix(a, b, channels, frames - 1);
      assert (a + b)[(frames - 1) * channels..frames * channels] == a[(frames - 1) * channels..frames * channels];
    }
  }

  // ----- resampling

  datatype Resampled = Resampled(out: seq<real>, acc: Uint32)

  ghost function Repeat(x: real, n: nat): (s: seq<real>)
    ensures |s| == n && forall i :: 0 <= i < n ==> s[i] == x
  {
    seq(n, _ => x)
  }

  /** Accumulator bump for one frame, with 32-bit wrap-around. */
  function Bump(acc: Uint32): Uint32 {
    (acc + MODEL_RATE) % U32
  }

  /** What stays in the accumulator after its frame's samples were written. */
  function Carry(bumped: Uint32, rate: Uint32): (carry: Uint32)
    requires rate > 0
    ensures carry < rate
  {
    bumped % rate
  }

  function Copies(bumped: Uint32, rate: Uint32): nat
    requires rate > 0
  {
    bumped / rate
  }

  ghost function Resample(monos: seq<real>, rate: Uint32, acc: Uint32): Resampled
    requires rate > 0
  {
    if monos == [] then
      Resampled([], acc)
    else
      var n := |monos| - 1;
      var before := Resample(monos[..n], rate, acc);
      var bumped := Bump(before.acc);
      Resampled(before.out + Repeat(monos[n], Copies(bumped, rate)), Carry(bumped, rate))
  }

  /** How many of the first `frames` bumps wrapped around. */
  ghost function Wraps(monos: seq<real>, rate: Uint32, acc: Uint32): nat
    requires rate > 0
  {
    if monos == [] then
      0
    else
      var n := |monos| - 1;
      Wraps(monos[..n], rate, acc)
      + if Resample(monos[..n], rate, acc).acc + MODEL_RATE >= U32 then 1 else 0
  }

  lemma ResampleOneMore(monos: seq<real>, mono: real, rate: Uint32, acc: Uint32)
    requires rate > 0
    ensures var before := Resample(monos, rate, acc);
            var bumped := Bump(before.acc);
            Resample(monos + [mono], rate, acc)
              == Resampled(before.out + Repeat(mono, Copies(bumped, rate)), Carry(bumped, rate))
  {
  }

  lemma {:induction false} ResampleAppend(a: seq<real>, b: seq<real>, rate: Uint32, acc: Uint32)
    requires rate > 0
    ensures var first := Resample(a, rate, acc);
            var second := Resample(b, rate, first.acc);
            Resample(a + b, rate, acc) == Resampled(first.out + second.out, second.acc)
  {
    if b == [] {
      assert a + b == a;
    } else {
      var n := |b| - 1;
      assert (a + b)[..|a + b| - 1] == a + b[..n];
      ResampleAppend(a, b[..n], rate, acc);
    }
  }

  /**
   Conservation, for every rate: each frame adds 16000, each output sample takes `rate`, and a wrap
   loses 2^32. Nothing else enters or leaves the accumulator.
   */
  lemma {:induction false} ResamplerConserves(monos: seq<real>, rate: Uint32, acc: Uint32)
    requires 0 < rate && acc < rate
    ensures var r := Resample(monos, rate, acc);
            && r.acc < rate
            && acc + 16000 * |monos| == rate * |r.out| + r.acc + 0x1_0000_0000 * Wraps(monos, rate, acc)
  {
    if monos != [] {
      var n := |monos| - 1;
      ResamplerConserves(monos[..n], rate, acc);
      var before := Resample(monos[..n], rate, acc);
      FrameConserves(acc + MODEL_RATE * n, |before.out|, before.acc, Wraps(monos[..n], rate, acc), rate);
    }
  }

  lemma FrameConserves(fed: nat, written: nat, acc: Uint32, wraps: nat, rate: Uint32)
    requires 0 < rate && fed == rate * written + acc + U32 * wraps
    ensures var lost := wraps + if acc + MODEL_RATE >= U32 then 1 else 0;
            fed + MODEL_RATE == rate * (written + Copies(Bump(acc), rate)) + Carry(Bump(acc), rate) + U32 * lost
  {
    var bumped, q := Bump(acc), Copies(Bump(acc), rate);
    assert bumped == rate * q + Carry(bumped, rate);
    assert rate * (written + q) == rate * written + rate * q;
  }

  /** No bump among the first `frames` can wrap, said of the frame numbers alone. */
  ghost predicate NeverWraps(frames: nat, rate: Uint32)
    requires rate > 0
  {
    forall k: nat {:trigger (MODEL_RATE * k) % rate} :: k < frames ==> (MODEL_RATE * k) % rate + MODEL_RATE < U32
  }

  lemma {:induction false} WrapsZero(monos: seq<real>, rate: Uint32)
    requires rate > 0
    ensures Wraps(monos, rate, 0) == 0 <==> NeverWraps(|monos|, rate)
  {
    if monos != [] {
      var n := |monos| - 1;
      WrapsZero(monos[..n], rate);
      if Wraps(monos[..n], rate, 0) == 0 {
        ResamplerConserves(monos[..n], rate, 0);
        var before := Resample(monos[..n], rate, 0);
        DivModUnique(MODEL_RATE * n, |before.out|, before.acc, rate);
        assert (MODEL_RATE * n) % rate == before.acc;
      }
    }
  }

  /**
   Sample count and accumulator have their closed form exactly when no bump has wrapped.
   */
  lemma ClosedFormExactlyWithoutWrap(monos: seq<real>, rate: Uint32)
    requires rate > 0
    ensures var r := Resample(monos, rate, 0);
            (|r.out| == 16000 * |monos| / rate && r.acc == 16000 * |monos| % rate)
            <==> NeverWraps(|monos|, rate)
  {
    ResamplerConserves(monos, rate, 0);
    WrapsZero(monos, rate);
    var r := Resample(monos, rate, 0);
    DivisionWithLoss(MODEL_RATE * |monos|, |r.out|, r.acc, Wraps(monos, rate, 0), rate);
  }

  lemma DivisionWithLoss(fed: nat, q: nat, r: nat, lost: nat, rate: nat)
    requires r < rate && fed == rate * q + r + U32 * lost
    ensures (q == fed / rate && r == fed % rate) <==> lost == 0
  {
    if lost == 0 {
      DivModUnique(fed, q, r, rate);
    } else {
      assert fed == rate * (fed / rate) + fed % rate;
    }
  }

  /** Every rate up to 2^32 - 16000 is safe for streams of any length. */
  lemma SafeRates(frames: nat, rate: Uint32)
    requires 0 < rate <= 0x1_0000_0000 - 16000
    ensures NeverWraps(frames, rate)
  {
  }

  /** The bound is sharp in kind: at the largest 32-bit rate the accumulator does wrap. */
  lemma LargestRateWraps()
    ensures !NeverWraps(268436, 0xffff_ffff)
  {
    assert (MODEL_RATE * 268435) % (U32 - 1) + MODEL_RATE >= U32;
  }

  /** The frame that output sample `j` is taken from: ceil((j + 1) * rate / 16000) - 1. */
  ghost function SourceFrame(j: nat, rate: Uint32): int {
    ((j + 1) * rate + MODEL_RATE - 1) / MODEL_RATE - 1
  }

  lemma OutputFrame(j: nat, frame: nat, rate: Uint32)
    requires rate > 0
    requires MODEL_RATE * frame / rate <= j < MODEL_RATE * (frame + 1) / rate
    ensures SourceFrame(j, rate) == frame
  {
    var low, high := MODEL_RATE * frame, MODEL_RATE * (frame + 1);
    assert low == rate * (low / rate) + low % rate;
    assert high == rate * (high / rate) + high % rate;
    LeMul(rate, low / rate + 1, j + 1);
    LeMul(rate, j + 1, high / rate);
    assert rate * (low / rate + 1) == rate * (low / rate) + rate;
    assert (j + 1) * rate == rate * (j + 1);
  }

  /** Output j is the downmix of exactly that frame. */
  lemma {:induction false} OutputComesFrom(monos: seq<real>, rate: Uint32, j: nat)
    requires rate > 0 && NeverWraps(|monos|, rate)
    requires j < |Resample(monos, rate, 0).out|
    ensures 0 <= SourceFrame(j, rate) < |monos|
    ensures Resample(monos, rate, 0).out[j] == monos[SourceFrame(j, rate)]
    ensures 16000 * SourceFrame(j, rate) < (j + 1) * rate <= 16000 * (SourceFrame(j, rate) + 1)
  {
    var n := |monos| - 1;
    ClosedFormExactlyWithoutWrap(monos[..n], rate);
    ClosedFormExactlyWithoutWrap(monos, rate);
    if j < |Resample(monos[..n], rate, 0).out| {
      OutputComesFrom(monos[..n], rate, j);
    } else {
      OutputFrame(j, n, rate);
    }
  }

  // ----- the audio callback

  /** What a run of callbacks leaves behind. */
  datatype Captured = Captured(history: seq<real>, acc: Uint32)

  ghost function AfterCallback(c: Captured, buffer: seq<real>, channels: nat, rate: Uint32): Captured
    requires channels > 0 && rate > 0
  {
    WholeFrames(|buffer|, channels);
    var r := Resample(Monos(buffer, channels, |buffer| / channels), rate, c.acc);
    Captured(c.history + r.out, r.acc)
  }

  ghost function AfterCallbacks(c: Captured, buffers: seq<seq<real>>, channels: nat, rate: Uint32): Captured
    requires channels > 0 && rate > 0
  {
    if buffers == [] then
      c
    else
      var n := |buffers| - 1;
      AfterCallback(AfterCallbacks(c, buffers[..n], channels, rate), buffers[n], channels, rate)
  }

  ghost function Flatten(buffers: seq<seq<real>>): seq<real> {
    if buffers == [] then [] else Flatten(buffers[..|buffers| - 1]) + buffers[|buffers| - 1]
  }

  lemma WholeFrames(length: nat, channels: nat)
    requires channels > 0
    ensures length / channels * channels <= length
  {
  }

  lemma WholeSum(a: nat, b: nat, m: nat)
    requires m > 0 && a % m == 0 && b % m == 0
    ensures a == a / m * m && b == b / m * m
    ensures (a + b) / m == a / m + b / m && (a + b) % m == 0
  {
    assert a == m * (a / m) && b == m * (b / m);
    DivModUnique(a + b, a / m + b / m, 0, m);
  }

  lemma TwoBuffers(c: Captured, a: seq<real>, b: seq<real>, channels: nat, rate: Uint32)
    requires channels > 0 && rate > 0
    requires |a| % channels == 0 && |b| % channels == 0
    ensures |a + b| % channels == 0
    ensures AfterCallback(AfterCallback(c, a, channels, rate), b, channels, rate)
         == AfterCallback(c, a + b, channels, rate)
  {
    WholeSum(|a|, |b|, channels);
    var fa, fb := |a| / channels, |b| / channels;
    assert |a + b| / channels == fa + fb;
    MonosAppend(a, b, channels, fa, fb);
    ResampleAppend(Monos(a, channels, fa), Monos(b, channels, fb), rate, c.acc);
    var r := Resample(Monos(a, channels, fa), rate, c.acc);
    var s := Resample(Monos(b, channels, fb), rate, r.acc);
    assert c.history + (r.out + s.out) == (c.history + r.out) + s.out;
  }

  /** Samples beyond the last whole frame of a buffer are dropped, and nothing else is. */
  lemma PartialFrameIsDropped(c: Captured, whole: seq<real>, rest: seq<real>, channels: nat, rate: Uint32)
    requires channels > 0 && rate > 0
    requires |whole| % channels == 0 && |rest| < channels
    ensures AfterCallback(c, whole + rest, channels, rate) == AfterCallback(c, whole, channels, rate)
  {
    var frames := |whole| / channels;
    assert |whole| == channels * frames;
    DivModUnique(|whole + rest|, frames, |rest|, channels);
    MonosPrefix(whole, rest, channels, frames);
  }

  /** Buffers that each hold whole frames behave as the single buffer of all their samples. */
  lemma {:induction false} BufferingIsInvisible(c: Captured, buffers: seq<seq<real>>, channels: nat, rate: Uint32)
    requires channels > 0 && rate > 0
    requires forall b :: b in buffers ==> |b| % channels == 0
    ensures |Flatten(buffers)| % channels == 0
    ensures AfterCallbacks(c, buffers, channels, rate) == AfterCallback(c, Flatten(buffers), channels, rate)
  {
    if buffers == [] {
      assert AfterCallback(c, [], channels, rate).history == c.history;
    } else {
      var n := |buffers| - 1;
      BufferingIsInvisible(c, buffers[..n], channels, rate);
      assert buffers[n] in buffers;
      TwoBuffers(c, Flatten(buffers[..n]), buffers[n], channels, rate);
    }
  }

  /** Two ways of cutting one frame stream into callbacks leave equal rings, counters and accumulators. */
  lemma SplittingDoesNotMatter(c: Captured, one: seq<seq<real>>, other: seq<seq<real>>, channels: nat, rate: Uint32,
                               capacity: nat)
    requires channels > 0 && rate > 0 && capacity > 0
    requires forall b :: b in one ==> |b| % channels == 0
    requires forall b :: b in other ==> |b| % channels == 0
    requires Flatten(one) == Flatten(other)
    ensures var a, b := AfterCallbacks(c, one, channels, rate), AfterCallbacks(c, other, channels, rate);
            && Image(a.history, capacity) == Image(b.history, capacity)
            && Slot(|a.history|, capacity) == Slot(|b.history|, capacity)
            && |a.history| % U64 == |b.history| % U64
            && a.acc == b.acc
  {
    BufferingIsInvisible(c, one, channels, rate);
    BufferingIsInvisible(c, other, channels, rate);
  }

  /** Sample `i` of a snapshot of `n` samples, named by the frame it must come from. */
  ghost predicate ShowsFrame(monos: seq<real>, rate: Uint32, snapshot: seq<real>, written: nat, i: nat)
    requires i < |snapshot| <= written
  {
    var source := SourceFrame(written - |snapshot| + i, rate);
    0 <= source < |monos| && snapshot[i] == monos[source]
  }

  lemma LatestFrames(monos: seq<real>, rate: Uint32, capacity: nat, n: nat)
    requires rate > 0 && NeverWraps(|monos|, rate)
    requires n <= capacity && 0 < capacity && n <= |Resample(monos, rate, 0).out|
    ensures var out := Resample(monos, rate, 0).out;
            var snapshot := Copied(Image(out, capacity), Slot(|out|, capacity), n);
            && |out| == MODEL_RATE * |monos| / rate
            && forall i: nat | i < n :: ShowsFrame(monos, rate, snapshot, |out|, i)
  {
    var out := Resample(monos, rate, 0).out;
    var snapshot := Copied(Image(out, capacity), Slot(|out|, capacity), n);
    ClosedFormExactlyWithoutWrap(monos, rate);
    SnapshotIsSuffix(out, capacity, n);
    forall i: nat | i < n
      ensures ShowsFrame(monos, rate, snapshot, |out|, i)
    {
      OutputComesFrom(monos, rate, |out| - n + i);
    }
  }

  /**
   End to end: from an empty ring, however the frames were cut into callbacks, element i of a snapshot
   of n samples is the downmix of one determined input frame.
   */
  lemma SnapshotShowsLatestFrames(buffers: seq<seq<real>>, channels: nat, rate: Uint32, capacity: nat, n: nat)
    requires channels > 0 && rate > 0
    requires forall b :: b in buffers ==> |b| % channels == 0
    requires n <= capacity && 0 < capacity
    ensures var input := Flatten(buffers);
            var frames := |input| / channels;
            var history := AfterCallbacks(Captured([], 0), buffers, channels, rate).history;
            var snapshot := Copied(Image(history, capacity), Slot(|history|, capacity), n);
            && frames * channels == |input|
            && (NeverWraps(frames, rate) ==>
                  && |history| == 16000 * frames / rate
                  && (n <= |history| ==> forall i: nat | i < n ::
                        ShowsFrame(Monos(input, channels, frames), rate, snapshot, |history|, i)))
  {
    BufferingIsInvisible(Captured([], 0), buffers, channels, rate);
    var input := Flatten(buffers);
    WholeSum(|input|, 0, channels);
    var monos := Monos(input, channels, |input| / channels);
    var out := Resample(monos, rate, 0).out;
    assert [] + out == out;
    if NeverWraps(|monos|, rate) {
      ClosedFormExactlyWithoutWrap(monos, rate);
      if n <= |out| {
        LatestFrames(monos, rate, capacity, n);
      }
    }
  }

  class CaptureState {
    const ring: SampleRing
    var negotiatedRate: Uint32
    var negotiatedChannels: Uint32
    var accumulator: Uint32

    constructor (ring: SampleRing)
      ensures this.ring == ring
      ensures negotiatedRate == 16000 && negotiatedChannels == 1 && accumulator == 0
    {
      this.ring := ring;
      negotiatedRate, negotiatedChannels, accumulator := MODEL_RATE, 1, 0;
    }

    /** on_stream_param_changed, after the format was parsed. */
    method ParamChanged(rate: Uint32, channels: Uint32)
      modifies this
      ensures negotiatedRate == rate && negotiatedChannels == channels && accumulator == 0
    {
      accumulator := 0;
      negotiatedRate := rate;
      negotiatedChannels := channels;
    }

    /** on_process for one dequeued F32 buffer; samples beyond the last whole frame are dropped. */
    method OnProcess(samples: seq<real>)
      requires ring.Valid() && negotiatedChannels > 0
      modifies this`accumulator, ring, ring.samples
      ensures ring.Valid() && ring.samples == old(ring.samples)
      ensures Captured(ring.history, accumulator)
           == AfterCallback(old(Captured(ring.history, accumulator)), samples, negotiatedChannels,
                            if negotiatedRate == 0 then 16000 else negotiatedRate)
    {
      var frames := |samples| / negotiatedChannels;
      var rate := if negotiatedRate == 0 then MODEL_RATE else negotiatedRate;
      WholeFrames(|samples|, negotiatedChannels);
      accumulator := MixAndResample(samples, frames, negotiatedChannels, rate, ring, accumulator);
    }
  }

  /** The loop of mix_and_resample_downmix, which on_process repeats. */
  method MixAndResample(samples: seq<real>, frames: nat, channels0: Uint32, rate0: Uint32, ring: SampleRing,
                        accumulator: Uint32)
    returns (acc: Uint32)
    requires ring.Valid()
    requires frames * (if channels0 == 0 then 1 else channels0) <= |samples|
    modifies ring, ring.samples
    ensures ring.Valid() && ring.samples == old(ring.samples)
    ensures var channels, rate := if channels0 == 0 then 1 else channels0, if rate0 == 0 then 16000 else rate0;
            var r := Resample(Monos(samples, channels, frames), rate, accumulator);
            ring.history == old(ring.history) + r.out && acc == r.acc
  {
    var channels := if channels0 == 0 then 1 else channels0;
    var rate := if rate0 == 0 then MODEL_RATE else rate0;
    acc := accumulator;
    ghost var before := ring.history;
    ghost var monos := Monos(samples, channels, frames);
    for frame := 0 to frames
      invariant ring.Valid() && ring.samples == old(ring.samples)
      invariant Captured(ring.history, acc) == Fed(before, Resample(monos[..frame], rate, accumulator))
    {
      FeedOneMore(before, monos, frame, rate, accumulator);
      acc := FeedFrame(samples, frames, channels, frame, rate, ring, acc);
    }
    assert monos[..frames] == monos;
  }

  /** One turn of the frame loop. */
  method FeedFrame(samples: seq<real>, frames: nat, channels: nat, frame: nat, rate: Uint32, ring: SampleRing,
                   accumulator: Uint32)
    returns (acc: Uint32)
    requires ring.Valid() && rate > 0 && channels > 0 && frames * channels <= |samples| && frame < frames
    modifies ring, ring.samples
    ensures ring.Valid() && ring.samples == old(ring.samples)
    ensures ring.history
         == old(ring.history) + Repeat(Monos(samples, channels, frames)[frame], Copies(Bump(accumulator), rate))
    ensures acc == Carry(Bump(accumulator), rate)
  {
    MonoAt(samples, channels, frames, frame);
    var mono := Downmix(samples, frame * channels, channels);
    acc := WriteFrame(mono, rate, ring, accumulator);
  }

  ghost function Fed(before: seq<real>, r: Resampled): Captured {
    Captured(before + r.out, r.acc)
  }

  lemma FeedOneMore(before: seq<real>, monos: seq<real>, frame: nat, rate: Uint32, acc: Uint32)
    requires rate > 0 && frame < |monos|
    ensures var fed := Fed(before, Resample(monos[..frame], rate, acc));
            var bumped := Bump(fed.acc);
            Fed(before, Resample(monos[..frame + 1], rate, acc))
              == Captured(fed.history + Repeat(monos[frame], Copies(bumped, rate)), Carry(bumped, rate))
  {
    assert monos[..frame + 1] == monos[..frame] + [monos[frame]];
    ResampleOneMore(monos[..frame], monos[frame], rate, acc);
  }

  lemma {:induction false} MonoAt(samples: seq<real>, channels: nat, frames: nat, frame: nat)
    requires channels > 0 && frames * channels <= |samples| && frame < frames
    ensures 0 <= frame * channels && frame * channels + channels <= |samples|
    ensures Monos(samples, channels, frames)[frame] == Mean(samples[frame * channels..frame * channels + channels])
    decreases frames
  {
    FrameFits(frame, frames, channels);
    FrameBounds(frames, channels);
    if frame < frames - 1 {
      MonoAt(samples, channels, frames - 1, frame);
    }
  }

  lemma FrameFits(frame: nat, frames: nat, channels: nat)
    requires frame < frames
    ensures frame * channels + channels == (frame + 1) * channels <= frames * channels
  {
  }

  method Downmix(samples: seq<real>, offset: nat, channels: nat) returns (mono: real)
    requires channels > 0 && offset + channels <= |samples|
    ensures mono == Mean(samples[offset..offset + channels])
    ensures exists i, j :: offset <= i < offset + channels && offset <= j < offset + channels
                           && samples[i] <= mono <= samples[j]
  {
    mono := 0.0;
    ghost var frame := samples[offset..offset + channels];
    for ch := 0 to channels
      invariant mono == Sum(frame[..ch])
    {
      assert frame[..ch + 1][..ch] == frame[..ch];
      mono := mono + samples[offset + ch];
    }
    assert frame[..channels] == frame;
    mono := mono / (channels as real);
    ghost var least, greatest := MeanLiesBetween(frame);
    assert samples[offset + least] <= mono <= samples[offset + greatest];
  }

  /** One frame: bump the accumulator, then write the sample once per whole `rate` in it. */
  method WriteFrame(mono: real, rate: Uint32, ring: SampleRing, accumulator: Uint32) returns (acc: Uint32)
    requires ring.Valid() && rate > 0
    modifies ring, ring.samples
    ensures ring.Valid() && ring.samples == old(ring.samples)
    ensures ring.history == old(ring.history) + Repeat(mono, Copies(Bump(accumulator), rate))
    ensures acc == Carry(Bump(accumulator), rate)
  {
    acc := Bump(accumulator);
    ghost var written := 0;
    while acc >= rate
      invariant ring.Valid() && ring.samples == old(ring.samples)
      invariant ring.history == old(ring.history) + Repeat(mono, written)
      invariant Copies(Bump(accumulator), rate) == written + Copies(acc, rate)
      invariant Carry(Bump(accumulator), rate) == Carry(acc, rate)
    {
      TakeOne(acc, rate);
      ring.Write([mono]);
      RepeatOneMore(mono, written);
      acc := acc - rate;
      written := written + 1;
    }
    TakeNone(acc, rate);
  }

  lemma RepeatOneMore(x: real, n: nat)
    ensures Repeat(x, n + 1) == Repeat(x, n) + [x]
  {
  }

  lemma TakeOne(acc: Uint32, rate: Uint32)
    requires 0 < rate <= acc
    ensures Copies(acc, rate) == 1 + Copies(acc - rate, rate)
    ensures Carry(acc, rate) == Carry(acc - rate, rate)
  {
    var rest := acc - rate;
    assert rest == rate * (rest / rate) + rest % rate;
    assert rate * (rest / rate + 1) == rate * (rest / rate) + rate;
    DivModUnique(acc, rest / rate + 1, rest % rate, rate);
  }

  lemma TakeNone(acc: Uint32, rate: Uint32)
    requires acc < rate
    ensures Copies(acc, rate) == 0 && Carry(acc, rate) == acc
  {
  }
}
