/**
 * The stopwatch `timer` of Source/misc.h: it remembers the instant it was
 * started (or last reset) and reports the time passed since then in whole
 * microseconds.
 */
module Timing {
  import opened SteadyClock

  /**
   * duration_cast<microseconds> of a span of ticks: the whole microseconds
   * in it, truncated toward zero as C++ integer conversion does (Dafny's own
   * `/` rounds toward negative infinity for negative spans, so both signs are
   * written out).
   */
  function WholeMicros(span: int): (r: int)
    ensures span >= 0 ==> 0 <= r && r * NanosPerMicro <= span < (r + 1) * NanosPerMicro
    ensures span < 0 ==> r <= 0 && (r - 1) * NanosPerMicro < span <= r * NanosPerMicro
  {
    if span >= 0 then span / NanosPerMicro else -((-span) / NanosPerMicro)
  }

  /** A longer span never holds fewer whole microseconds. */
  lemma WholeMicrosMonotone(a: int, b: int)
    requires a <= b
    ensures WholeMicros(a) <= WholeMicros(b)
  {
  }

  class Timer {
    /** The message written after the measured time when the timer is destroyed. */
    var str: string
    /** The instant the timer was started on. */
    var start: int
    /** Whether the timer reports on destruction. */
    var output: bool

    /** timer(str, output = true): starts at `now`; reporting is on unless switched off. */
    constructor (str: string, now: int, output: bool := true)
      ensures this.str == str && this.output == output && start == now
    {
      this.str := str;
      this.output := output;
      start := now;
    }

    /** timer(): an unlabelled timer that does not report, started at `now`. */
    constructor Silent(now: int)
      ensures str == "" && !output && start == now
    {
      str := "";
      output := false;
      start := now;
    }

    /** reset(): puts the current instant into `start`; label and reporting stay. */
    method Reset(now: int)
      modifies this`start
      ensures start == now
    {
      start := now;
    }

    /**
     * until_now() before its division by 1000000.0: the whole microseconds
     * from `start` to `now`. Never negative while the clock has not gone back.
     */
    function UntilNow(now: int): (r: int)
      reads this
      ensures start <= now ==> 0 <= r && r * NanosPerMicro <= now - start < (r + 1) * NanosPerMicro
      ensures now == start ==> r == 0
    {
      WholeMicros(now - start)
    }
  }

  /** Two successive readings of one timer on a monotonic clock never decrease. */
  lemma UntilNowNonDecreasing(t: Timer, earlier: int, later: int)
    requires earlier <= later
    ensures t.UntilNow(earlier) <= t.UntilNow(later)
  {
    WholeMicrosMonotone(earlier - t.start, later - t.start);
  }

  /**
   * A reset to an instant at or after the old start, on a monotonic clock,
   * never makes a later reading larger than it would have been without it,
   * and makes it strictly smaller once at least a microsecond has passed
   * between the old start and the reset.
   */
  lemma ResetNeverIncreases(oldStart: int, newStart: int, now: int)
    requires oldStart <= newStart <= now
    ensures 0 <= WholeMicros(now - newStart) <= WholeMicros(now - oldStart)
    ensures newStart - oldStart >= NanosPerMicro ==>
      WholeMicros(now - newStart) < WholeMicros(now - oldStart)
  {
    WholeMicrosMonotone(now - newStart, now - oldStart);
  }

  /** The two constructors and a reset, at concrete instants. */
  method TimerUsage()
  {
    var labelled := new Timer("test", 5000);
    assert labelled.output && labelled.start == 5000;
    assert labelled.UntilNow(105_132_000) == 105_127;
    labelled.Reset(105_132_000);
    assert labelled.UntilNow(105_132_000) == 0 && labelled.str == "test";

    var quiet := new Timer.Silent(7);
    assert !quiet.output && quiet.str == "";
    assert quiet.UntilNow(7 + 999) == 0;
    assert quiet.UntilNow(7 - 1999) == -1;
  }
}
