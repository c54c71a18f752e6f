/**
 * The two roundings of the pipeline: the frame rate that stretches the frames
 * over the desired duration, and the percentage shown on encoder progress.
 * `Math.round` on the non-negative quotients involved rounds halves up; the
 * quotients are computed here exactly, over the naturals.
 */
module Rates {
  import opened Wrappers

  /**
   * `r` is the quotient `n / d` rounded to the nearest integer, halves up:
   * `r - 1/2 <= n / d < r + 1/2`, with both sides multiplied by `2 * d`.
   */
  predicate NearestHalfUp(n: nat, d: nat, r: nat) {
    d * (2 * r) <= 2 * n + d < d * (2 * r + 2)
  }

  /** `Math.round(n / d)` for `n >= 0`, `d > 0`. */
  function RoundHalfUp(n: nat, d: nat): (r: nat)
    requires d > 0
    ensures NearestHalfUp(n, d, r)
  {
    (2 * n + d) / (2 * d)
  }

  /** Exactly one natural satisfies the rounding bracket, so it determines the result. */
  lemma RoundHalfUpUnique(n: nat, d: nat, r: nat)
    requires d > 0
    ensures r == RoundHalfUp(n, d) <==> NearestHalfUp(n, d, r)
  {
    var q := RoundHalfUp(n, d);
    if NearestHalfUp(n, d, r) {
      if r < q {
        MulMonotone(d, 2 * r + 2, 2 * q);
      } else if r > q {
        MulMonotone(d, 2 * q + 2, 2 * r);
      }
    }
  }

  lemma MulMonotone(d: nat, a: nat, b: nat)
    requires a <= b
    ensures d * a <= d * b
  {
  }

  /** `fps = Math.round(images.length / desiredTime)`. */
  function Fps(frames: nat, desiredTime: nat): (fps: nat)
    requires desiredTime > 0
    ensures NearestHalfUp(frames, desiredTime, fps)
  {
    RoundHalfUp(frames, desiredTime)
  }

  /**
   * The frame rate is 0, which the program hands to the encoder unchecked,
   * exactly when there are fewer frames than half the desired seconds;
   * in particular for an empty game.
   */
  lemma FpsZeroIff(frames: nat, desiredTime: nat)
    requires desiredTime > 0
    ensures Fps(frames, desiredTime) == 0 <==> 2 * frames < desiredTime
  {
    RoundHalfUpUnique(frames, desiredTime, 0);
  }

  /** Exact multiples of the duration give the exact quotient. */
  lemma FpsExact(seconds: nat, desiredTime: nat)
    requires desiredTime > 0
    ensures Fps(seconds * desiredTime, desiredTime) == seconds
  {
    RoundHalfUpUnique(seconds * desiredTime, desiredTime, seconds);
  }

  /**
   * `Math.round(progress.frames / images.length * 100)`; with no images the
   * quotient is not a finite number (NaN or Infinity) and there is no percentage.
   */
  function Percent(done: nat, total: nat): (p: Option<nat>)
    ensures p.None? <==> total == 0
  {
    if total == 0 then None else Some(RoundHalfUp(done * 100, total))
  }

  /** No frames done is 0%, all frames done is 100%, and never more while frames remain. */
  lemma PercentBounds(done: nat, total: nat)
    requires total > 0
    ensures done == 0 ==> Percent(done, total) == Some(0)
    ensures done == total ==> Percent(done, total) == Some(100)
    ensures done <= total ==> Percent(done, total).value <= 100
  {
    RoundHalfUpUnique(0, total, 0);
    RoundHalfUpUnique(total * 100, total, 100);
    if done <= total {
      var p := Percent(done, total).value;
      if p > 100 {
        MulMonotone(total, 202, 2 * p);
      }
    }
  }

  /** More frames processed never shows a smaller percentage. */
  lemma PercentMonotone(done: nat, more: nat, total: nat)
    requires total > 0 && done <= more
    ensures Percent(done, total).value <= Percent(more, total).value
  {
    var p, q := Percent(done, total).value, Percent(more, total).value;
    if p > q {
      MulMonotone(total, 2 * q + 2, 2 * p);
    }
  }
}
