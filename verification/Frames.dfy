/**
 * Milliseconds and frame numbers at 30000/1001 frames per second, in integer arithmetic.
 * `MsToFrame` and `FrameToMs` are over unbounded integers; the last section evaluates the same
 * expressions with 64-bit wrap-around and says exactly when the two agree.
 */
module Frames {
  import opened Common

  const FRAME_NUMERATOR := 30000
  const FRAME_DENOMINATOR := 1001

  /** The number of the frame nearest to `ms`. */
  function MsToFrame(ms: int): nat {
    if ms <= 0 then 0 else (ms * FRAME_NUMERATOR / 1000 + FRAME_DENOMINATOR / 2) / FRAME_DENOMINATOR
  }

  /** The millisecond nearest to the start of a frame. */
  function FrameToMs(frame: int): nat {
    if frame <= 0 then 0
    else (frame * FRAME_DENOMINATOR + FRAME_NUMERATOR / 2000) / (FRAME_NUMERATOR / 1000)
  }

  /** `ms` moved to the nearest frame boundary. */
  function QuantizeMs(ms: int): nat {
    FrameToMs(MsToFrame(ms))
  }

  /** No other frame starts nearer to `ms`; times are compared in units of 1/30 ms. */
  lemma NearestFrame(ms: nat, other: nat)
    ensures -500 <= 1001 * MsToFrame(ms) - 30 * ms <= 500
    ensures other != MsToFrame(ms) ==> 1001 * other - 30 * ms > 500 || 1001 * other - 30 * ms < -500
  {
    assert ms * FRAME_NUMERATOR / 1000 == 30 * ms;
  }

  lemma NearestMs(frame: nat)
    ensures -15 <= 30 * FrameToMs(frame) - 1001 * frame <= 15
  {
  }

  /** Frame numbers survive the way through milliseconds. */
  lemma FrameRoundTrip(frame: nat)
    ensures MsToFrame(FrameToMs(frame)) == frame
  {
    NearestMs(frame);
    NearestFrame(FrameToMs(frame), frame);
  }

  lemma FrameToMsStrict(f: nat, g: nat)
    requires f < g
    ensures FrameToMs(f) < FrameToMs(g)
  {
    NearestMs(f);
    NearestMs(g);
  }

  lemma MsToFrameMonotone(a: int, b: int)
    requires a <= b
    ensures MsToFrame(a) <= MsToFrame(b)
  {
    if a > 0 {
      NearestFrame(a, MsToFrame(a));
      NearestFrame(b, MsToFrame(b));
    }
  }

  lemma QuantizeMonotone(a: int, b: int)
    requires a <= b
    ensures QuantizeMs(a) <= QuantizeMs(b)
  {
    MsToFrameMonotone(a, b);
    if MsToFrame(a) < MsToFrame(b) {
      FrameToMsStrict(MsToFrame(a), MsToFrame(b));
    }
  }

  lemma QuantizeIdempotent(ms: int)
    ensures QuantizeMs(QuantizeMs(ms)) == QuantizeMs(ms)
  {
    FrameRoundTrip(MsToFrame(ms));
  }

  /** Quantisation moves a time by at most 17 ms, and 17 is reached on both sides. */
  lemma QuantizeNear(ms: nat)
    ensures -17 <= QuantizeMs(ms) - ms <= 17
    ensures QuantizeMs(50) - 50 == -17 && QuantizeMs(217) - 217 == 17
  {
    NearestFrame(ms, MsToFrame(ms));
    NearestMs(MsToFrame(ms));
  }

  /** Frame numbers and quantised times order times alike. */
  lemma SameOrder(a: int, b: int)
    ensures MsToFrame(a) <= MsToFrame(b) <==> QuantizeMs(a) <= QuantizeMs(b)
  {
    if MsToFrame(a) < MsToFrame(b) {
      FrameToMsStrict(MsToFrame(a), MsToFrame(b));
    } else if MsToFrame(b) < MsToFrame(a) {
      FrameToMsStrict(MsToFrame(b), MsToFrame(a));
    }
  }

  // ----- 64-bit evaluation -----

  /** Go's `/`, which truncates toward zero. */
  function Quo(a: int, b: int): int
    requires b > 0
  {
    if a >= 0 then a / b else -((-a) / b)
  }

  function MsToFrame64(ms: Int64): int {
    if ms <= 0 then 0
    else Quo(Wrap(Quo(Wrap(ms * FRAME_NUMERATOR), 1000) + FRAME_DENOMINATOR / 2), FRAME_DENOMINATOR)
  }

  function FrameToMs64(frame: Int64): int {
    if frame <= 0 then 0
    else Quo(Wrap(Wrap(frame * FRAME_DENOMINATOR) + FRAME_NUMERATOR / 2000), FRAME_NUMERATOR / 1000)
  }

  lemma WrapTooLarge(x: int)
    requires x > MAX_INT64
    ensures Wrap(x) <= x - 2 * (MAX_INT64 + 1)
  {
    var m := 2 * (MAX_INT64 + 1);
    var y := x + (MAX_INT64 + 1);
    assert y == m * (y / m) + y % m;
    assert y / m >= 1;
  }

  /** The 64-bit rounding is right exactly up to MaxInt64 / 30000. */
  lemma MsToFrame64Exact(ms: Int64)
    ensures MsToFrame64(ms) == MsToFrame(ms) <==> ms <= MAX_INT64 / FRAME_NUMERATOR
  {
    if 0 < ms <= MAX_INT64 / FRAME_NUMERATOR {
      WrapInRange(ms * FRAME_NUMERATOR);
      WrapInRange(ms * FRAME_NUMERATOR / 1000 + 500);
    } else if ms > 0 {
      OverflowLosesFrames(ms);
    }
  }

  lemma OverflowLosesFrames(ms: Int64)
    requires ms > MAX_INT64 / FRAME_NUMERATOR
    ensures MsToFrame64(ms) < MsToFrame(ms)
  {
    WrapTooLarge(ms * FRAME_NUMERATOR);
    var w := Wrap(ms * FRAME_NUMERATOR);
    var q := Quo(w, 1000);
    assert q <= 30 * ms - 1_000_000;
    WrapInRange(q + 500);
    assert Quo(q + 500, 1001) < (30 * ms + 500) / 1001;
    assert ms * FRAME_NUMERATOR / 1000 == 30 * ms;
  }

  /** Quantisation in 64 bits is exact on the whole range where the rounding is. */
  lemma Quantize64Exact(ms: Int64)
    requires ms <= MAX_INT64 / FRAME_NUMERATOR
    ensures MsToFrame64(ms) <= MAX_INT64
    ensures FrameToMs64(MsToFrame64(ms)) == QuantizeMs(ms)
  {
    MsToFrame64Exact(ms);
    var f := MsToFrame(ms);
    if ms > 0 {
      NearestFrame(ms, f);
      WrapInRange(f * FRAME_DENOMINATOR);
      WrapInRange(f * FRAME_DENOMINATOR + 15);
    }
  }
}
