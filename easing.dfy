/** The colour easing of the per-frame step: each frame moves every channel of
    the current colour 1% of the way toward the target, in 0..255 space.
    Reals stand for the source's floating-point numbers, so that the
    contraction is exact.
 */
module Easing {
  import opened HexColor

  /** `lerpSpeed`: the fraction of the remaining distance covered per frame. */
  const LerpSpeed: real := 0.01

  /** The fraction of the distance that remains after one frame. */
  const Retain: real := 1.0 - LerpSpeed

  /** `currentColorRef.current`: three channels in 0..255 space, not rounded. */
  datatype Color = Color(r: real, g: real, b: real)

  /** A target triple as a point of the same space. */
  function ToColor(t: Rgb): Color {
    Color(t.r as real, t.g as real, t.b as real)
  }

  function Min(a: real, b: real): real { if a <= b then a else b }
  function Max(a: real, b: real): real { if a <= b then b else a }
  function Abs(a: real): real { if a < 0.0 then -a else a }

  predicate ChannelInRange(v: real) {
    0.0 <= v <= 255.0
  }

  predicate InRange(c: Color) {
    ChannelInRange(c.r) && ChannelInRange(c.g) && ChannelInRange(c.b)
  }

  /** `c + (t - c) * lerpSpeed` for one channel. */
  function LerpChannel(c: real, t: real): (n: real)
    ensures Min(c, t) <= n <= Max(c, t)
    ensures n - t == Retain * (c - t)
  {
    c + (t - c) * LerpSpeed
  }

  /** A frame never moves a channel by more than 1% of its distance to the
      target, however far the target jumped. */
  lemma StepJump(c: real, t: real)
    ensures Abs(LerpChannel(c, t) - c) == LerpSpeed * Abs(t - c)
  {
  }

  /** A channel is left alone by a frame exactly when it already equals the target. */
  lemma LerpFixedPoint(c: real, t: real)
    ensures LerpChannel(c, t) == c <==> c == t
  {
  }

  /** One frame's easing of all three channels toward the target. */
  function Step(c: Color, t: Rgb): (n: Color)
    ensures IsByteTriple(t) && InRange(c) ==> InRange(n)
    ensures n == c <==> c == ToColor(t)
  {
    Color(LerpChannel(c.r, t.r as real), LerpChannel(c.g, t.g as real), LerpChannel(c.b, t.b as real))
  }

  /** A channel after `k` frames toward a fixed target. */
  function Iterate(c: real, t: real, k: nat): real {
    if k == 0 then c else LerpChannel(Iterate(c, t, k - 1), t)
  }

  /** The colour after `k` frames toward a fixed target. */
  function IterateColor(c: Color, t: Rgb, k: nat): (n: Color)
    ensures n == Color(Iterate(c.r, t.r as real, k), Iterate(c.g, t.g as real, k), Iterate(c.b, t.b as real, k))
  {
    if k == 0 then c else Step(IterateColor(c, t, k - 1), t)
  }

  /** A signed distance to the target after `k` frames: each frame keeps 99% of it. */
  function Decay(d: real, k: nat): real {
    if k == 0 then d else Retain * Decay(d, k - 1)
  }

  function Pow(x: real, n: nat): real {
    if n == 0 then 1.0 else x * Pow(x, n - 1)
  }

  lemma ScaleDistance(r: real, p: real, q: real, now: real, start: real)
    requires q == r * p && now == p * start
    ensures r * now == q * start
  {
  }

  lemma MulUnit(a: real, b: real)
    requires 0.0 <= a <= 1.0 && 0.0 <= b <= 1.0
    ensures 0.0 <= a * b <= b
  {
  }

  // ---------------------------------------------------------------------------
  // Repeated frames
  // ---------------------------------------------------------------------------

  /** After `k` frames the distance to the target is the starting distance
      shrunk by 1% per frame. */
  lemma {:induction false} IterateDistance(c: real, t: real, k: nat)
    ensures Iterate(c, t, k) - t == Decay(c - t, k)
  {
    if k > 0 {
      IterateDistance(c, t, k - 1);
    }
  }

  /** That shrinking is by exactly `0.99^k`. */
  lemma {:induction false} DecayIsPow(d: real, k: nat)
    ensures Decay(d, k) == Pow(Retain, k) * d
  {
    if k > 0 {
      DecayIsPow(d, k - 1);
      ScaleDistance(Retain, Pow(Retain, k - 1), Pow(Retain, k), Decay(d, k - 1), d);
    }
  }

  /** Every frame stays between the starting value and the target, so the
      colour never overshoots. */
  lemma {:induction false} IterateBetween(c: real, t: real, k: nat)
    ensures Min(c, t) <= Iterate(c, t, k) <= Max(c, t)
  {
    if k > 0 {
      IterateBetween(c, t, k - 1);
    }
  }

  /** Starting and target channels in 0..255 keep every later channel in 0..255. */
  lemma IterateColorInRange(c: Color, t: Rgb, k: nat)
    requires InRange(c) && IsByteTriple(t)
    ensures InRange(IterateColor(c, t, k))
  {
    IterateBetween(c.r, t.r as real, k);
    IterateBetween(c.g, t.g as real, k);
    IterateBetween(c.b, t.b as real, k);
  }

  lemma {:induction false} PowUnit(x: real, n: nat)
    requires 0.0 <= x <= 1.0
    ensures 0.0 <= Pow(x, n) <= 1.0
  {
    if n > 0 {
      PowUnit(x, n - 1);
      MulUnit(x, Pow(x, n - 1));
    }
  }

  /** With a base in [0, 1], more frames never leave more distance. */
  lemma {:induction false} PowAntitone(x: real, m: nat, n: nat)
    requires 0.0 <= x <= 1.0 && m <= n
    ensures Pow(x, n) <= Pow(x, m)
  {
    if m < n {
      PowAntitone(x, m, n - 1);
      PowUnit(x, n - 1);
      MulUnit(x, Pow(x, n - 1));
      var q := Pow(x, n);
      assert q <= Pow(x, n - 1);
    }
  }

  lemma {:induction false} PowAdd(x: real, a: nat, b: nat)
    ensures Pow(x, a + b) == Pow(x, a) * Pow(x, b)
  {
    if b > 0 {
      PowAdd(x, a, b - 1);
      ScaleDistance(x, Pow(x, b - 1), Pow(x, b), Pow(x, a + b - 1), Pow(x, a));
    }
  }

  lemma {:induction false} PowMul(x: real, a: nat, b: nat)
    ensures Pow(x, a * b) == Pow(Pow(x, a), b)
  {
    if b > 0 {
      PowMul(x, a, b - 1);
      PowAdd(x, a * (b - 1), a);
      assert a * b == a * (b - 1) + a;
    }
  }

  lemma {:induction false} PowBaseMonotone(x: real, y: real, n: nat)
    requires 0.0 <= x <= y
    ensures 0.0 <= Pow(x, n) <= Pow(y, n)
  {
    if n > 0 {
      PowBaseMonotone(x, y, n - 1);
      assert x * Pow(x, n - 1) <= y * Pow(x, n - 1) <= y * Pow(y, n - 1);
    }
  }

  /** Bernoulli's inequality for the per-frame factor: `0.99^k * (1 + k/100) <= 1`. */
  lemma {:induction false} Bernoulli(k: nat)
    ensures Pow(Retain, k) * (1.0 + k as real * LerpSpeed) <= 1.0
  {
    if k > 0 {
      Bernoulli(k - 1);
      PowUnit(Retain, k - 1);
      var p := Pow(Retain, k - 1);
      var x := LerpSpeed;
      var j := (k - 1) as real;
      calc {
        Pow(Retain, k) * (1.0 + k as real * x);
        p * ((1.0 - x) * (1.0 + j * x + x));
        p * (1.0 + j * x) - p * ((j + 1.0) * x * x);
      <=
        p * (1.0 + j * x);
      <=
        1.0;
      }
    }
  }

  /** A hundred frames at least halve the distance to the target. */
  lemma HundredFramesHalve()
    ensures Pow(Retain, 100) <= 0.5
  {
    Bernoulli(100);
  }

  /** A thousand frames or more leave at most 1/1024 of the distance. */
  lemma ThousandFrames(n: nat)
    requires n >= 1000
    ensures 0.0 <= Pow(Retain, n) <= 1.0 / 1024.0
  {
    PowAntitone(Retain, 1000, n);
    PowUnit(Retain, n);
    PowMul(Retain, 100, 10);
    HundredFramesHalve();
    PowUnit(Retain, 100);
    PowBaseMonotone(Pow(Retain, 100), 0.5, 10);
    assert Pow(0.5, 10) == 1.0 / 1024.0;
  }

  lemma ShrunkDistance(p: real, d: real)
    requires 0.0 <= p <= 1.0 / 1024.0 && -255.0 <= d <= 255.0
    ensures -255.0 / 1024.0 <= p * d <= 255.0 / 1024.0
  {
    if d >= 0.0 {
      assert p * d <= (1.0 / 1024.0) * d;
    } else {
      assert p * (-d) <= (1.0 / 1024.0) * (-d);
    }
  }

  /** Convergence: after a thousand frames or more toward a fixed target, with
      both ends in 0..255, the published channel (the channel divided by 255)
      is within 0.001 of the published target. */
  lemma Converges(c: real, t: real, n: nat)
    requires ChannelInRange(c) && ChannelInRange(t) && n >= 1000
    ensures Abs(Iterate(c, t, n) / 255.0 - t / 255.0) < 0.001
  {
    IterateDistance(c, t, n);
    DecayIsPow(c - t, n);
    ThousandFrames(n);
    ShrunkDistance(Pow(Retain, n), c - t);
  }
}
