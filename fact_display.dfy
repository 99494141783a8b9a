/**
 * FactDisplay's countdown: `progress` starts at 100 and, while the display is
 * not paused, each interval tick lowers it by one step; a tick that finds it
 * at or below 0 calls `onNext` and puts it back to 100.
 */
module FactDisplay {

  /** The dwell time of one fact, in milliseconds. */
  const Duration: int := 10000
  /** The tick period, in milliseconds. */
  const Interval: int := 100
  /** The value progress starts from and is reset to. */
  const Full: int := 100

  /**
   * The amount one tick takes off, `interval / duration * 100`. The source
   * computes it in floating point; its exact value is the integer 1, which
   * double arithmetic also yields, so progress is modelled on integers.
   */
  function Step(): (s: int)
    ensures s as real == Interval as real / Duration as real * 100.0
    ensures s == 1
  {
    Interval * 100 / Duration
  }

  /** The result of one run of the `setProgress` updater. */
  datatype Tick = Tick(progress: int, callsNext: bool)

  /** The `setProgress` updater run by one unpaused tick. */
  function Update(prev: int): (t: Tick)
    ensures t.callsNext <==> prev <= 0
    ensures t.callsNext ==> t.progress == Full
    ensures !t.callsNext ==> t.progress == prev - 1
    ensures 0 <= prev <= Full ==> 0 <= t.progress <= Full
  {
    if prev <= 0 then Tick(Full, true) else Tick(prev - Step(), false)
  }

  /** Progress after `k` unpaused ticks from `p`, and how many of them called `onNext`. */
  function Advance(p: int, k: nat): (r: (int, nat))
    ensures 0 <= p <= Full ==> 0 <= r.0 <= Full
    decreases k
  {
    if k == 0 then (p, 0)
    else
      var t := Update(p);
      var rest := Advance(t.progress, k - 1);
      (rest.0, rest.1 + if t.callsNext then 1 else 0)
  }

  lemma {:induction false} AdvanceAdd(p: int, a: nat, b: nat)
    ensures var first := Advance(p, a);
      var second := Advance(first.0, b);
      Advance(p, a + b) == (second.0, first.1 + second.1)
    decreases a
  {
    if a > 0 {
      AdvanceAdd(Update(p).progress, a - 1, b);
    }
  }

  /** Up to `p` ticks from `p` only count down, one per tick, and never call `onNext`. */
  lemma {:induction false} CountDown(p: int, k: nat)
    requires k <= p
    ensures Advance(p, k) == (p - k, 0)
    decreases k
  {
    if k > 0 {
      CountDown(p - 1, k - 1);
    }
  }

  /**
   * From a full bar, 100 ticks bring progress to 0 without calling `onNext`,
   * and the 101st tick calls it once and refills the bar.
   */
  lemma FullCycle()
    ensures Advance(Full, Full) == (0, 0)
    ensures Advance(Full, Full + 1) == (Full, 1)
  {
    CountDown(Full, Full);
    AdvanceAdd(Full, Full, 1);
  }

  /** While the display runs unpaused, `onNext` is called once every 101 ticks. */
  lemma {:induction false} Periodic(m: nat)
    ensures Advance(Full, (Full + 1) * m) == (Full, m)
    decreases m
  {
    if m > 0 {
      FullCycle();
      AdvanceAdd(Full, Full + 1, (Full + 1) * (m - 1));
      Periodic(m - 1);
    }
  }

  /** The `FactDisplay` component's `progress` state. */
  class FactDisplay {
    var progress: int

    ghost predicate Valid()
      reads this
    {
      0 <= progress <= Full
    }

    constructor ()
      ensures Valid() && progress == Full
    {
      progress := Full;
    }

    /**
     * One tick period elapses. While `isPaused` no interval is set, so
     * nothing runs and progress stays where it froze; otherwise the updater
     * runs once, and `callsNext` says whether it called `onNext`.
     */
    method Elapse(isPaused: bool) returns (callsNext: bool)
      requires Valid()
      modifies this
      ensures Valid()
      ensures isPaused ==> progress == old(progress) && !callsNext
      ensures !isPaused ==> Tick(progress, callsNext) == Update(old(progress))
    {
      callsNext := false;
      if !isPaused {
        if progress <= 0 {
          callsNext := true;
          progress := Full;
        } else {
          progress := progress - Step();
        }
      }
    }
  }
}
