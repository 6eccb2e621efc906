/**
 Run length and progress of one scramble run.

 A run's nominal length is `clamp(length * 150 ms, min, max)`, and its step
 count is that length divided by a nominal interval of 50 ms.  The frames
 themselves are emitted every 30 ms by the transition loops; the 50 ms only
 turns the nominal length into a step count.  The frame counter is mapped to
 the number of positions that are resolved (forward run) or randomised
 (reverse run).  The original computes
 the progress fraction in floating point; here it is exact integer floor
 division, which is the value the floating-point expression approximates.
 */
module Timing {

  import opened Common

  /** The nominal interval the run's length is divided by to get its step count. */
  const Interval: nat := 50
  /** Milliseconds of animation budgeted per character of the target. */
  const PerCharMs: nat := 150

  /** Default duration bounds of the forward (scramble to clear) run. */
  const ForwardMax: nat := 200
  const ForwardMin: nat := 50
  /** Default duration bounds of the reverse (dissolve) run. */
  const ReverseMax: nat := 100
  const ReverseMin: nat := 50

  /** `Math.min(maxDuration, Math.max(minDuration, len * 150))`. */
  function TotalDuration(len: nat, maxDuration: nat, minDuration: nat): (d: nat)
    ensures d <= maxDuration
    ensures minDuration <= maxDuration ==> minDuration <= d
    ensures minDuration <= len * PerCharMs <= maxDuration ==> d == len * PerCharMs
    ensures len * PerCharMs < minDuration <= maxDuration ==> d == minDuration
    ensures maxDuration < len * PerCharMs ==> d == maxDuration
  {
    Min(maxDuration, Max(minDuration, len * PerCharMs))
  }

  /** `Math.floor(totalDuration / interval)`: how many frames the run is cut into. */
  function StepCount(len: nat, maxDuration: nat, minDuration: nat): (steps: nat)
    ensures steps * Interval <= TotalDuration(len, maxDuration, minDuration)
    ensures TotalDuration(len, maxDuration, minDuration) < (steps + 1) * Interval
  {
    TotalDuration(len, maxDuration, minDuration) / Interval
  }

  /** Step counts of a forward run with the default bounds (200 ms, 50 ms). */
  function ForwardSteps(len: nat): nat { StepCount(len, ForwardMax, ForwardMin) }

  /** Step counts of a reverse run with the default bounds (100 ms, 50 ms). */
  function ReverseSteps(len: nat): nat { StepCount(len, ReverseMax, ReverseMin) }

  /**
   With the default bounds every run has at least one step, whatever the
   length of the target (the empty one included), so the progress fraction
   `iteration / steps` is always defined.  The exact table: the forward run
   has 1, 3 and 4 steps for lengths 0, 1 and at least 2; the reverse run has
   1 step for the empty string and 2 otherwise.
   */
  lemma DefaultStepCounts(len: nat)
    ensures 1 <= ForwardSteps(len) <= 4
    ensures 1 <= ReverseSteps(len) <= 2
    ensures ForwardSteps(len) == (if len == 0 then 1 else if len == 1 then 3 else 4)
    ensures ReverseSteps(len) == (if len == 0 then 1 else 2)
  {
    if len >= 2 {
      assert len * PerCharMs >= 300;
    } else if len == 1 {
      assert len * PerCharMs == 150;
    }
  }

  /**
   `Math.floor(Math.min(iteration / steps, 1) * len)`: how many positions a
   frame has resolved (or randomised).  When `steps` is 0 the original divides
   by zero: `0 / 0` is NaN, which the later slices read as 0, and `k / 0` for
   `k > 0` is Infinity, which the `min` turns into full progress.
   */
  function Progress(iteration: nat, steps: nat, len: nat): (m: nat)
    ensures m <= len
    ensures iteration == 0 ==> m == 0
    ensures 0 < steps <= iteration ==> m == len
    ensures steps == 0 < iteration ==> m == len
  {
    if steps == 0 then
      (if iteration == 0 then 0 else len)
    else if iteration >= steps then
      len
    else
      FloorFractionBound(iteration, steps, len);
      iteration * len / steps
  }

  /**
   Before the last step the progress is the floor of `iteration / steps` of
   the length: the largest `m` with `m * steps <= iteration * len`.
   */
  lemma ProgressIsFloor(iteration: nat, steps: nat, len: nat)
    requires iteration < steps
    ensures var m := Progress(iteration, steps, len);
      m * steps <= iteration * len < (m + 1) * steps
  {
    var m := Progress(iteration, steps, len);
    var a := iteration * len;
    assert a == steps * (a / steps) + a % steps;
  }

  /** A fraction below one of `len`, floored, is at most `len`. */
  lemma FloorFractionBound(i: nat, steps: nat, len: nat)
    requires i < steps
    ensures i * len / steps <= len
  {
    MulMonotone(i, steps, len);
    DivMonotone(i * len, steps * len, steps);
    assert steps * len / steps == len;
  }

  lemma MulMonotone(a: nat, b: nat, c: nat)
    requires a <= b
    ensures a * c <= b * c
  {
  }

  lemma DivMonotone(a: nat, b: nat, d: nat)
    requires a <= b && d > 0
    ensures a / d <= b / d
  {
    var q, r := a / d, b / d;
    assert a == d * q + a % d;
    assert b == d * r + b % d;
    assert d * q < d * (r + 1);
    MulCancel(d, q, r + 1);
  }

  lemma MulCancel(d: nat, x: nat, y: nat)
    requires d > 0 && d * x < d * y
    ensures x < y
  {
    if x >= y {
      MulMonotone(y, x, d);
    }
  }

  /**
   Progress never goes down as the frame counter grows: a position resolved
   (or randomised) by one frame stays so in every later frame of the run.
   */
  lemma {:induction false} ProgressMonotone(i: nat, j: nat, steps: nat, len: nat)
    requires i <= j
    ensures Progress(i, steps, len) <= Progress(j, steps, len)
  {
    if steps > 0 && j < steps {
      MulMonotone(i, j, len);
      DivMonotone(i * len, j * len, steps);
    }
  }
}
