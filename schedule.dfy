/**
 * Timing arithmetic of the main loop, on integer seconds since the Unix
 * epoch: the wake-up time computed after each poll and the final
 * early/late verdict.
 */
module Schedule {
  const Minute: int := 60
  const Hour: int := 60 * Minute
  const Day: int := 24 * Hour

  /** The decision-release deadline, 2018-12-14 16:00:01 America/Chicago
      (UTC-6 in December), as Unix seconds. */
  const Doomsday: int := 1544824801

  /** The first wake-up time: one day before the deadline. */
  const FirstWake: int := Doomsday - Day

  predicate IsMultiple(t: int, d: int)
    requires d > 0
  {
    t % d == 0
  }

  /** d * k lies in [0, d) only for k == 0. */
  lemma ProductBelowDivisor(d: int, k: int)
    requires d > 0 && 0 <= d * k < d
    ensures k == 0
  {
  }

  /** d * k above -d forces k >= 0. */
  lemma FactorNotNegative(d: int, k: int)
    requires d > 0 && -d < d * k
    ensures k >= 0
  {
  }

  /** A multiple of d leaves no remainder, and the quotient is recovered. */
  lemma MultipleMod(d: int, q: int)
    requires d > 0
    ensures (d * q) % d == 0 && (d * q) / d == q
  {
    var x := d * q;
    var k := q - x / d;
    assert d * k == x % d;
    ProductBelowDivisor(d, k);
  }

  /** time.Time.Truncate: round t down to a multiple of d. Multiples of a
      minute or an hour counted from Go's zero time are the same instants
      as those counted from the Unix epoch, which lies a whole number of
      hours after it. */
  function Truncate(t: int, d: int): (r: int)
    requires d > 0
    ensures IsMultiple(r, d) && r <= t < r + d
  {
    MultipleMod(d, t / d);
    t - t % d
  }

  /** Of two multiples of d less than d apart, the later is not before the other. */
  lemma MultipleNotBefore(a: int, b: int, d: int)
    requires d > 0 && IsMultiple(a, d) && IsMultiple(b, d) && b - d < a
    ensures b <= a
  {
    var k := a / d - b / d;
    assert a - b == d * k;
    FactorNotNegative(d, k);
  }

  /** Truncate gives the greatest multiple of d not after t. */
  lemma TruncateGreatest(t: int, d: int, m: int)
    requires d > 0 && IsMultiple(m, d) && m <= t
    ensures m <= Truncate(t, d)
  {
    MultipleNotBefore(Truncate(t, d), m, d);
  }

  /** The wake-up time chosen after a poll that ended at now: on the next
      full hour before the deadline, and four to five minutes later, on a
      full minute, from the deadline on. */
  function NextWake(now: int, deadline: int): (w: int)
    ensures now < deadline ==> IsMultiple(w, Hour) && now < w <= now + Hour
    ensures deadline <= now ==> IsMultiple(w, Minute) && now + 4 * Minute < w <= now + 5 * Minute
  {
    if now < deadline then Truncate(now + Hour, Hour) else Truncate(now + 5 * Minute, Minute)
  }

  /** Before the deadline the wake-up is the earliest full hour after now. */
  lemma NextWakeEarliestHour(now: int, deadline: int, m: int)
    requires now < deadline && IsMultiple(m, Hour) && now < m
    ensures NextWake(now, deadline) <= m
  {
    MultipleNotBefore(m, NextWake(now, deadline), Hour);
  }

  /** From the deadline on the wake-up is the latest full minute at most
      five minutes after now. */
  lemma NextWakeLatestMinute(now: int, deadline: int, m: int)
    requires deadline <= now && IsMultiple(m, Minute) && m <= now + 5 * Minute
    ensures m <= NextWake(now, deadline)
  {
    TruncateGreatest(now + 5 * Minute, Minute, m);
  }

  datatype Timeliness = Early | Late

  /** The verdict printed at exit: late when the deadline minus the finish
      time is negative, so finishing exactly at the deadline is early. */
  function Verdict(deadline: int, finish: int): (v: Timeliness)
    ensures v == Late <==> deadline < finish
  {
    var diff := deadline - finish;
    if diff < 0 then Late else Early
  }
}
