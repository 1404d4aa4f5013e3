/** The growth rule shared by `extend` and `extend_realloc`: starting from the current
    capacity, add one fixed step at a time until the requested size is reached. */
module Growth {

  /** Pages added per step; the step is `sysconf(_SC_PAGESIZE) * 4096` bytes. */
  const PAGES_PER_STEP: nat := 4096

  function Step(pageSize: nat): nat
  {
    pageSize * PAGES_PER_STEP
  }

  /** The capacity the growth loop stops at. */
  function GrownSize(current: nat, target: nat, step: nat): nat
    requires step > 0
    decreases target - current
  {
    if current >= target then current else GrownSize(current + step, target, step)
  }

  /** The number of times the growth loop runs. */
  function StepsTaken(current: nat, target: nat, step: nat): nat
    requires step > 0
    decreases target - current
  {
    if current >= target then 0 else 1 + StepsTaken(current + step, target, step)
  }

  /** The loop reaches the target, adds whole steps only, and stops at the first step that
      reaches the target; a target already met leaves the capacity as it is. */
  lemma {:induction false} GrownSizeSpec(current: nat, target: nat, step: nat)
    requires step > 0
    ensures GrownSize(current, target, step) >= target
    ensures GrownSize(current, target, step) >= current
    ensures GrownSize(current, target, step) == current + StepsTaken(current, target, step) * step
    ensures current >= target ==> GrownSize(current, target, step) == current
    ensures current < target ==> GrownSize(current, target, step) - step < target
    decreases target - current
  {
    if current < target {
      var k := StepsTaken(current + step, target, step);
      GrownSizeSpec(current + step, target, step);
      assert (1 + k) * step == k * step + step;
    }
  }

  /** Growing towards a smaller target first and then towards a larger one ends where
      growing straight towards the larger one does. */
  lemma {:induction false} GrownSizeCompose(current: nat, t1: nat, t2: nat, step: nat)
    requires step > 0 && t1 <= t2
    ensures GrownSize(GrownSize(current, t1, step), t2, step) == GrownSize(current, t2, step)
    decreases t1 - current
  {
    if current < t1 {
      GrownSizeCompose(current + step, t1, t2, step);
    }
  }

  /** A larger request never yields a smaller capacity. */
  lemma GrownSizeMonotone(current: nat, t1: nat, t2: nat, step: nat)
    requires step > 0 && t1 <= t2
    ensures GrownSize(current, t1, step) <= GrownSize(current, t2, step)
  {
    GrownSizeCompose(current, t1, t2, step);
    GrownSizeSpec(GrownSize(current, t1, step), t2, step);
  }

  /** Repeated requests of non-increasing size change nothing after the first. */
  lemma GrownSizeIdempotent(current: nat, t1: nat, t2: nat, step: nat)
    requires step > 0 && t2 <= t1
    ensures GrownSize(GrownSize(current, t1, step), t2, step) == GrownSize(current, t1, step)
  {
    GrownSizeSpec(current, t1, step);
    GrownSizeSpec(GrownSize(current, t1, step), t2, step);
  }

  /** The growth loop itself, `while(current < new_size) current += step`. */
  method GrowSize(current: nat, target: nat, step: nat) returns (r: nat)
    requires step > 0
    ensures r == GrownSize(current, target, step)
  {
    r := current;
    while r < target
      invariant GrownSize(r, target, step) == GrownSize(current, target, step)
      decreases target - r
    {
      r := r + step;
    }
  }
}
