/** Time as integer milliseconds on the local wall clock (a fixed-offset zone
    without daylight-saving changes), with the calendar-day arithmetic the
    application performs through `Date`. */
module Clock {

  /** Milliseconds in one calendar day: 1000 * 60 * 60 * 24. */
  const DayMs: int := 86_400_000

  /** Midnight at the start of the calendar day holding `t`
      (`d.setHours(0, 0, 0, 0)`). */
  function StartOfDay(t: int): (r: int)
    ensures r <= t < r + DayMs
    ensures r % DayMs == 0
  {
    t - t % DayMs
  }

  /** Two instants fall on the same calendar day (`a.toDateString() === b.toDateString()`). */
  predicate SameDay(a: int, b: int) {
    StartOfDay(a) == StartOfDay(b)
  }

  /** `Math.ceil(n / d)` for a positive divisor. */
  function CeilDiv(n: int, d: int): (r: int)
    requires d > 0
    ensures (r - 1) * d < n <= r * d
  {
    if n % d == 0 then n / d else n / d + 1
  }

  /** The start of a day is the only midnight within a day of `t`. */
  lemma StartOfDayUnique(t: int, m: int)
    requires m % DayMs == 0 && m <= t < m + DayMs
    ensures StartOfDay(t) == m
  {
    var s := StartOfDay(t);
    var k := s / DayMs;
    var j := m / DayMs;
    assert s == k * DayMs;
    assert m == j * DayMs;
  }

  /** An instant is on the day starting at `today` exactly when it lies in
      the half-open interval [today, today + DayMs). */
  lemma SameDayIffInDay(t: int, today: int)
    requires today % DayMs == 0
    ensures StartOfDay(t) == today <==> today <= t < today + DayMs
  {
    if today <= t < today + DayMs {
      StartOfDayUnique(t, today);
    }
  }
}
