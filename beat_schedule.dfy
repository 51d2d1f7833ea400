/**
 * Beat alignment of the poll timers (PaletteInsightAgent.cs): a timer starts
 * on the next wall-clock instant that is a whole multiple of its poll interval
 * since the Unix epoch, so agents on machines with synchronised clocks poll
 * at the same moments. The clock is read by the caller: `nowTs` is the time
 * in whole seconds since the epoch and `millisecond` the milliseconds of the
 * current second.
 */
module BeatSchedule {

  /** C#'s `a % b`: truncated division, so the remainder takes the sign of `a`. */
  function CsRem(a: int, b: int): (r: int)
    requires b != 0
    ensures b > 0 && a >= 0 ==> 0 <= r < b
    ensures b > 0 && a < 0 ==> -b < r <= 0
    ensures b > 0 ==> (a - r) % b == 0
  {
    if a >= 0 then
      assert b > 0 ==> a - a % b == b * (a / b);
      if b > 0 then MultipleOf(a / b, b); a % b else a % b
    else
      var m := (-a) % b;
      assert b > 0 ==> a + m == b * (-((-a) / b));
      if b > 0 then MultipleOf(-((-a) / b), b); -m else -m
  }

  /** `b * k` is at least `b` for a positive factor. */
  lemma MulPos(b: int, k: int)
    requires b > 0 && k >= 1
    ensures b * k >= b
  {
  }

  /** `b * k` is not positive for a non-positive factor. */
  lemma MulNonPositive(b: int, k: int)
    requires b > 0 && k <= 0
    ensures b * k <= 0
  {
  }

  /** Division with remainder is unique. */
  lemma DivModUnique(x: int, b: int, q: int, r: int)
    requires b > 0 && x == b * q + r && 0 <= r < b
    ensures x / b == q && x % b == r
  {
    var q', r' := x / b, x % b;
    assert x == b * q' + r';
    if q > q' {
      MulPos(b, q - q');
    } else if q < q' {
      MulPos(b, q' - q);
    }
  }

  /** `b * q` is a multiple of `b`. */
  lemma MultipleOf(q: int, b: int)
    requires b > 0
    ensures (b * q) % b == 0
  {
    DivModUnique(b * q, b, q, 0);
  }

  /**
   * `GetNextTimerBeat(pollInterval)`: whole seconds from `nowTs` to the next
   * beat, 0 when `nowTs` is itself a beat.
   */
  function GetNextTimerBeat(pollInterval: int, nowTs: int): (beat: int)
    requires pollInterval != 0
    ensures pollInterval >= 1 && nowTs >= 0 ==> 0 <= beat < pollInterval
    ensures pollInterval >= 1 && nowTs < 0 ==> beat == 0 || pollInterval < beat < 2 * pollInterval
    ensures pollInterval >= 1 ==> (nowTs + beat) % pollInterval == 0
    ensures pollInterval >= 1 ==> (beat == 0 <==> nowTs % pollInterval == 0)
  {
    var modulo := CsRem(nowTs, pollInterval);
    if modulo == 0 then
      0
    else
      if pollInterval >= 1 then
        ShiftedMultiple(nowTs - modulo, pollInterval);
        RemainderNotMultiple(nowTs, pollInterval, modulo);
        pollInterval - modulo
      else
        pollInterval - modulo
  }

  /** A number that differs from a multiple of `b` by a non-zero remainder is not a multiple. */
  lemma RemainderNotMultiple(x: int, b: int, r: int)
    requires b > 0 && (x - r) % b == 0 && 0 < (if r < 0 then -r else r) < b
    ensures x % b != 0
  {
    var q := (x - r) / b;
    DivModUnique(x - r, b, q, 0);
    if r > 0 {
      DivModUnique(x, b, q, r);
    } else {
      assert x == b * (q - 1) + (b + r);
      DivModUnique(x, b, q - 1, b + r);
    }
  }

  /** Adding `b` to a multiple of `b` gives a multiple of `b`. */
  lemma ShiftedMultiple(x: int, b: int)
    requires b > 0 && x % b == 0
    ensures (x + b) % b == 0
  {
    var q := x / b;
    DivModUnique(x, b, q, 0);
    assert x + b == b * (q + 1);
    MultipleOf(q + 1, b);
  }

  /**
   * `CalculateDueTime(pollInterval)`: milliseconds until the next beat. On a
   * beat exactly (second and millisecond) it is 0; when the beat second has
   * already begun the beat is missed and the next one is a whole interval on.
   */
  function CalculateDueTime(pollInterval: int, nowTs: int, millisecond: int): (dueTime: int)
    requires pollInterval != 0
    requires 0 <= millisecond < 1000
    ensures (dueTime + millisecond) % 1000 == 0
    ensures dueTime == 0 <==> GetNextTimerBeat(pollInterval, nowTs) == 0 && millisecond == 0
  {
    var dueSeconds := GetNextTimerBeat(pollInterval, nowTs);
    if dueSeconds == 0 && millisecond == 0 then 0
    else
      var due := if dueSeconds == 0 then dueSeconds + pollInterval else dueSeconds;
      due * 1000 - millisecond
  }

  /** For a positive interval and a time after the epoch the due time lies in `[0, pollInterval * 1000)`. */
  lemma DueTimeRange(pollInterval: int, nowTs: int, millisecond: int)
    requires pollInterval >= 1 && nowTs >= 0 && 0 <= millisecond < 1000
    ensures 0 <= CalculateDueTime(pollInterval, nowTs, millisecond) < pollInterval * 1000
  {
    var dueSeconds := GetNextTimerBeat(pollInterval, nowTs);
    if dueSeconds != 0 {
      assert 1000 <= dueSeconds * 1000 <= (pollInterval - 1) * 1000;
    }
  }

  /**
   * The timer fires on a beat: the current instant plus the due time is a
   * whole multiple of the interval, in milliseconds.
   */
  lemma DueTimeOnBeat(pollInterval: int, nowTs: int, millisecond: int)
    requires pollInterval >= 1 && 0 <= millisecond < 1000
    ensures (nowTs * 1000 + millisecond + CalculateDueTime(pollInterval, nowTs, millisecond)) % (pollInterval * 1000) == 0
  {
    var dueSeconds := GetNextTimerBeat(pollInterval, nowTs);
    var due := if dueSeconds == 0 && millisecond != 0 then pollInterval else dueSeconds;
    if dueSeconds == 0 && millisecond != 0 {
      ShiftedMultiple(nowTs, pollInterval);
    }
    assert (nowTs + due) % pollInterval == 0;
    assert nowTs * 1000 + millisecond + CalculateDueTime(pollInterval, nowTs, millisecond) == (nowTs + due) * 1000;
    ScaledMultiple(nowTs + due, pollInterval, 1000);
  }

  /** A multiple of `b`, scaled by `k`, is a multiple of `b * k`. */
  lemma ScaledMultiple(x: int, b: int, k: int)
    requires b >= 1 && k >= 1 && x % b == 0
    ensures (x * k) % (b * k) == 0
  {
    var q := x / b;
    DivModUnique(x, b, q, 0);
    assert x * k == (b * k) * q;
    MulPos(b, k);
    MultipleOf(q, b * k);
  }

  /** The due time is 0 exactly on a beat: a multiple of the interval, at millisecond 0. */
  lemma DueTimeZero(pollInterval: int, nowTs: int, millisecond: int)
    requires pollInterval >= 1 && 0 <= millisecond < 1000
    ensures CalculateDueTime(pollInterval, nowTs, millisecond) == 0 <==> nowTs % pollInterval == 0 && millisecond == 0
  {
    var dueSeconds := GetNextTimerBeat(pollInterval, nowTs);
    if dueSeconds != 0 {
      if nowTs >= 0 {
        assert dueSeconds >= 1;
      } else {
        assert CsRem(nowTs, pollInterval) <= 0;
        assert dueSeconds >= pollInterval;
      }
      assert dueSeconds * 1000 >= 1000;
    } else if millisecond != 0 {
      assert pollInterval * 1000 >= 1000;
    }
  }

  /** Just after a beat, the wait is one whole interval less the milliseconds already gone. */
  lemma JustMissedBeat(pollInterval: int, nowTs: int, millisecond: int)
    requires pollInterval >= 1 && nowTs % pollInterval == 0 && 0 < millisecond < 1000
    ensures CalculateDueTime(pollInterval, nowTs, millisecond) == pollInterval * 1000 - millisecond
  {
  }

  /**
   * The due time is the wait until the NEXT beat: no shorter non-negative
   * wait lands on a beat.
   */
  lemma DueTimeIsNextBeat(pollInterval: int, nowTs: int, millisecond: int, wait: int)
    requires pollInterval >= 1 && nowTs >= 0 && 0 <= millisecond < 1000
    requires 0 <= wait < CalculateDueTime(pollInterval, nowTs, millisecond)
    ensures (nowTs * 1000 + millisecond + wait) % (pollInterval * 1000) != 0
  {
    var period := pollInterval * 1000;
    var due := CalculateDueTime(pollInterval, nowTs, millisecond);
    var t := nowTs * 1000 + millisecond;
    DueTimeRange(pollInterval, nowTs, millisecond);
    DueTimeOnBeat(pollInterval, nowTs, millisecond);
    if (t + wait) % period == 0 {
      MultiplesApart(t + due, t + wait, period);
    }
  }

  /** Two distinct multiples of `period` are at least `period` apart. */
  lemma MultiplesApart(x: int, y: int, period: int)
    requires period >= 1 && x % period == 0 && y % period == 0 && y < x
    ensures x - y >= period
  {
    var qx, qy := x / period, y / period;
    DivModUnique(x, period, qx, 0);
    DivModUnique(y, period, qy, 0);
    var k := qx - qy;
    assert x - y == period * k;
    if k <= 0 {
      MulNonPositive(period, k);
      assert false;
    } else {
      MulPos(period, k);
    }
  }
}
