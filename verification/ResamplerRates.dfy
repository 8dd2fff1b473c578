/** Which rates the 32-bit resampler accumulator survives on every stream: the exact threshold. */
module ResamplerRates {
  import opened Arithmetic
  import opened SampleRing
  import opened CapturePipeline

  ghost function Gcd(a: nat, b: nat): (g: nat)
    requires a > 0
    ensures g > 0
    decreases b
  {
    if b == 0 then a else Gcd(b, a % b)
  }

  lemma {:induction false} GcdDivides(a: nat, b: nat) returns (p: nat, q: nat)
    requires a > 0
    ensures a == Gcd(a, b) * p && b == Gcd(a, b) * q
    decreases b
  {
    if b == 0 {
      p, q := 1, 0;
    } else {
      var g := Gcd(a, b);
      var p', q' := GcdDivides(b, a % b);
      p, q := p' * (a / b) + q', p';
      DivisorOfSum(g, p', q', a / b);
      assert a == b * (a / b) + a % b;
    }
  }

  lemma DivisorOfSum(g: nat, p: nat, q: nat, n: nat)
    ensures g * (p * n + q) == g * p * n + g * q
  {
  }

  /** The greatest common divisor is a combination of both numbers. */
  lemma {:induction false} Bezout(a: nat, b: nat) returns (x: int, y: int)
    requires a > 0
    ensures a * x + b * y == Gcd(a, b)
    decreases b
  {
    if b == 0 {
      x, y := 1, 0;
    } else {
      var x', y' := Bezout(b, a % b);
      x, y := y', x' - (a / b) * y';
      BezoutStep(a, b, a / b, a % b, x', y');
    }
  }

  lemma BezoutStep(a: nat, b: nat, q: nat, r: nat, x: int, y: int)
    requires a == b * q + r
    ensures a * y + b * (x - q * y) == b * x + r * y
  {
    assert a * y == b * q * y + r * y;
    assert b * (x - q * y) == b * x - b * (q * y);
    assert b * (q * y) == b * q * y;
  }

  /** No accumulator value after a frame comes closer to the rate than the common divisor. */
  lemma RemainderStaysBelow(k: nat, rate: Uint32)
    requires rate > 0
    ensures (MODEL_RATE * k) % rate + Gcd(MODEL_RATE, rate) <= rate
  {
    var g := Gcd(MODEL_RATE, rate);
    var p, q := GcdDivides(MODEL_RATE, rate);
    var fed := MODEL_RATE * k;
    var n, r := fed / rate, fed % rate;
    assert fed == rate * n + r;
    assert fed == g * (p * k) by {
      assert g * p * k == g * (p * k);
    }
    assert rate * n == g * (q * n) by {
      assert g * q * n == g * (q * n);
    }
    assert r == g * (p * k - q * n);
    MultiplesLeaveGap(g, p * k - q * n, q);
  }

  lemma MultiplesLeaveGap(g: nat, m: int, q: nat)
    requires g > 0 && g * m < g * q
    ensures g * m + g <= g * q
  {
    if m + 1 <= q {
      MulMonotone(g, m + 1, q);
    } else {
      MulMonotone(g, q, m);
    }
  }

  lemma MulMonotone(g: nat, a: int, b: int)
    requires a <= b
    ensures g * a <= g * b
  {
    assert g * (b - a) >= 0;
    assert g * b - g * a == g * (b - a);
  }

  /** Some frame count leaves the accumulator exactly that close. */
  lemma RemainderReached(rate: Uint32) returns (k: nat)
    requires rate > 0
    ensures (MODEL_RATE * k) % rate == rate - Gcd(MODEL_RATE, rate)
  {
    var g := Gcd(MODEL_RATE, rate);
    var x, y := Bezout(MODEL_RATE, rate);
    var size := if x < 0 then -x else x;
    RemainderStaysBelow(0, rate);
    assert rate * size >= size by {
      MulMonotone(size, 1, rate);
    }
    k := rate * size - x;
    var q := MODEL_RATE * size + y - 1;
    ShiftedBezout(MODEL_RATE, rate, x, y, size);
    QuotientIsNatural(rate, q, rate - g);
    DivModUnique(MODEL_RATE * k, q, rate - g, rate);
  }

  lemma ShiftedBezout(a: int, b: int, x: int, y: int, size: int)
    ensures a * (b * size - x) == b * (a * size + y - 1) + (b - (a * x + b * y))
  {
    assert a * (b * size) == b * (a * size);
    assert a * (b * size - x) == a * (b * size) - a * x;
    assert b * (a * size + y - 1) == b * (a * size) + b * y - b;
  }

  lemma QuotientIsNatural(m: nat, q: int, r: nat)
    requires r < m && m * q + r >= 0
    ensures q >= 0
  {
    if q < 0 {
      MulMonotone(m, q, -1);
    }
  }

  /**
   Exactly: a rate is safe on streams of every length if and only if it exceeds 2^32 - 16000 by less than
   its greatest common divisor with 16000.
   */
  lemma SafeExactlyWhen(rate: Uint32)
    requires rate > 0
    ensures (forall frames: nat :: NeverWraps(frames, rate)) <==>
              rate - Gcd(16000, rate) + 16000 < 0x1_0000_0000
  {
    if rate - Gcd(MODEL_RATE, rate) + MODEL_RATE < U32 {
      forall frames: nat
        ensures NeverWraps(frames, rate)
      {
        BelowThresholdIsSafe(frames, rate);
      }
    } else {
      var k := RemainderReached(rate);
      var frames := k + 1;
      assert (MODEL_RATE * k) % rate + MODEL_RATE >= U32;
      assert !NeverWraps(frames, rate);
    }
  }

  lemma BelowThresholdIsSafe(frames: nat, rate: Uint32)
    requires rate > 0 && rate - Gcd(MODEL_RATE, rate) + MODEL_RATE < U32
    ensures NeverWraps(frames, rate)
  {
    forall k: nat | k < frames
      ensures (MODEL_RATE * k) % rate + MODEL_RATE < U32
    {
      RemainderStaysBelow(k, rate);
    }
  }
}
