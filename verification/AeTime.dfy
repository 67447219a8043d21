/** Time arithmetic of tflib/ae/ae.c: a clock of seconds and milliseconds, delays, and the poll timeout. */
module AeTime {
  /** Seconds and milliseconds, as two C longs. */
  datatype Time = Time(sec: int, ms: int)

  /** What aeGetTime can return: gettimeofday keeps microseconds below a million. */
  predicate Reading(t: Time) { 0 <= t.ms < 1000 }

  function Millis(t: Time): int { 1000 * t.sec + t.ms }

  /** C's division truncates toward zero. */
  function Quot(a: int): int { if a >= 0 then a / 1000 else -(-a / 1000) }

  function Rem(a: int): int { a - 1000 * Quot(a) }

  lemma RemBounds(a: int)
    ensures -1000 < Rem(a) < 1000 && (a >= 0 ==> Rem(a) >= 0)
  {
  }

  /** aeAddMillisecondsToNow, given the reading it takes. */
  function After(now: Time, delay: int): Time {
    var sec, ms := now.sec + Quot(delay), now.ms + Rem(delay);
    if ms >= 1000 then Time(sec + 1, ms - 1000) else Time(sec, ms)
  }

  /** The delay is added exactly, negative ones included; the milliseconds come out normalized for every
      non-negative delay, and for a negative one exactly when its remainder does not underflow them. */
  lemma AfterIsExact(now: Time, delay: int)
    requires Reading(now)
    ensures Millis(After(now, delay)) == Millis(now) + delay
    ensures -1000 < After(now, delay).ms < 1000
    ensures Reading(After(now, delay)) <==> delay >= 0 || now.ms + Rem(delay) >= 0
  {
    RemBounds(delay);
  }

  /** A concrete negative delay that leaves the milliseconds negative. */
  lemma NegativeDelayUnderflows()
    ensures After(Time(5, 3), -10) == Time(5, -7)
  {
  }

  /** The test both loops use to decide whether a timer's time has come. */
  predicate Due(when: Time, now: Time) {
    now.sec > when.sec || (now.sec == when.sec && now.ms >= when.ms)
  }

  /** The test aeSearchNearestTimer uses. */
  predicate Earlier(a: Time, b: Time) {
    a.sec < b.sec || (a.sec == b.sec && a.ms < b.ms)
  }

  /** On normalized times both tests are comparisons of milliseconds. */
  lemma ComparisonsAreNumeric(a: Time, b: Time)
    requires Reading(a) && Reading(b)
    ensures Due(a, b) <==> Millis(a) <= Millis(b)
    ensures Earlier(a, b) <==> Millis(a) < Millis(b)
  {
  }

  /** A due timer's time has come even if its milliseconds are not normalized. */
  lemma DueMeansPast(when: Time, now: Time)
    requires Due(when, now) && Reading(now) && when.ms < 1000
    ensures Millis(when) <= Millis(now)
  {
  }

  lemma DueStays(when: Time, now: Time, later: Time)
    requires Due(when, now) && Reading(now) && Reading(later) && Millis(now) <= Millis(later)
    ensures Due(when, later)
  {
  }

  /** A timer re-armed by `delay` is due again at once, on a clock standing still, exactly when the delay is not
      positive. */
  lemma RearmedDueAtOnce(now: Time, delay: int)
    requires Reading(now)
    ensures Due(After(now, delay), now) <==> delay <= 0
  {
    RemBounds(delay);
  }

  // ----- the poll timeout -----

  datatype Timeval = Timeval(sec: int, usec: int)

  /** The timeval aeProcessEvents hands to the poll when `when` is the nearest timer. */
  function Timeout(when: Time, now: Time): Timeval {
    var sec := when.sec - now.sec;
    var tv := if when.ms < now.ms then Timeval(sec - 1, (when.ms + 1000 - now.ms) * 1000)
              else Timeval(sec, (when.ms - now.ms) * 1000);
    Timeval(if tv.sec < 0 then 0 else tv.sec, if tv.usec < 0 then 0 else tv.usec)
  }

  /** The poll sleeps exactly until the timer if it lies ahead; if it is overdue by some milliseconds the code
      clears the seconds only, so it sleeps for the distance modulo a second rather than not at all. */
  lemma TimeoutInMilliseconds(when: Time, now: Time)
    requires Reading(when) && Reading(now)
    ensures var d, tv := Millis(when) - Millis(now), Timeout(when, now);
            1000000 * tv.sec + tv.usec == 1000 * (if d >= 0 then d else d % 1000)
    ensures 0 <= Timeout(when, now).usec < 1000000
  {
    var d := Millis(when) - Millis(now);
    if when.ms < now.ms {
      assert d == 1000 * (when.sec - now.sec - 1) + (when.ms + 1000 - now.ms);
    } else {
      assert d == 1000 * (when.sec - now.sec) + (when.ms - now.ms);
    }
  }

  /** The poll does not block for an overdue timer exactly when it is overdue by whole seconds. */
  lemma OverdueBlocksUnlessWholeSeconds(when: Time, now: Time)
    requires Reading(when) && Reading(now) && Millis(when) < Millis(now)
    ensures Timeout(when, now) == Timeval(0, 0) <==> when.ms == now.ms
  {
  }
}
