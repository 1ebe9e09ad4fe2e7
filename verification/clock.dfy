/**
 * chrono's `DateTime<FixedOffset>` and the `TimeDelta` durations between two
 * of them. A date-time is a local calendar date and time of day, tagged with
 * a fixed UTC offset in seconds; time is kept at nanosecond resolution,
 * because `num_days` truncates toward zero and a partial second can decide
 * the result for a negative duration.
 */
module Clock {
  import opened Calendar

  const NanosPerSecond: int := 1_000_000_000
  const SecondsPerDay: int := 86_400
  const NanosPerDay: int := 86_400_000_000_000

  /** A wall-clock reading: a date and the nanoseconds since that date's midnight. */
  datatype LocalDateTime = LocalDateTime(date: Date, nanoOfDay: int)

  predicate ValidLocal(t: LocalDateTime) {
    ValidDate(t.date) && 0 <= t.nanoOfDay < NanosPerDay
  }

  function Midnight(d: Date): LocalDateTime {
    LocalDateTime(d, 0)
  }

  /** A local reading with the fixed UTC offset it was taken in (local = UTC + offset). */
  datatype DateTime = DateTime(local: LocalDateTime, offsetSeconds: int)

  /** chrono's `FixedOffset` accepts offsets strictly within one day. */
  predicate ValidDateTime(t: DateTime) {
    ValidLocal(t.local) && -SecondsPerDay < t.offsetSeconds < SecondsPerDay
  }

  /** Nanoseconds from 0001-01-01T00:00 to the local reading. */
  function LocalNanos(t: LocalDateTime): int
    requires 1 <= t.date.month <= 12
  {
    DayNumber(t.date) * NanosPerDay + t.nanoOfDay
  }

  /** The instant a date-time denotes, in nanoseconds from 0001-01-01T00:00 UTC. */
  function UtcNanos(t: DateTime): int
    requires 1 <= t.local.date.month <= 12
  {
    LocalNanos(t.local) - t.offsetSeconds * NanosPerSecond
  }

  /** `offset.from_local_datetime(&local)` for a fixed offset: the one date-time showing `local`. */
  function FromLocal(offsetSeconds: int, local: LocalDateTime): (t: DateTime)
    ensures t.local == local && t.offsetSeconds == offsetSeconds
    ensures ValidLocal(local) && -SecondsPerDay < offsetSeconds < SecondsPerDay ==> ValidDateTime(t)
    ensures 1 <= local.date.month <= 12 ==> UtcNanos(t) == LocalNanos(local) - offsetSeconds * NanosPerSecond
  {
    DateTime(local, offsetSeconds)
  }

  /**
   * `a.signed_duration_since(b)` in nanoseconds: the distance between the two
   * instants; when both share an offset it cancels and only the local
   * readings matter.
   */
  function SignedDurationSince(a: DateTime, b: DateTime): (d: int)
    requires 1 <= a.local.date.month <= 12 && 1 <= b.local.date.month <= 12
    ensures a.offsetSeconds == b.offsetSeconds ==> d == LocalNanos(a.local) - LocalNanos(b.local)
  {
    UtcNanos(a) - UtcNanos(b)
  }

  /** Between two date-times in one offset: whole days between their dates, plus the difference of their times of day. */
  lemma DurationInDays(a: DateTime, b: DateTime)
    requires 1 <= a.local.date.month <= 12 && 1 <= b.local.date.month <= 12
    requires a.offsetSeconds == b.offsetSeconds
    ensures SignedDurationSince(a, b)
      == (DayNumber(a.local.date) - DayNumber(b.local.date)) * NanosPerDay + a.local.nanoOfDay - b.local.nanoOfDay
  {
    var x, y := DayNumber(a.local.date), DayNumber(b.local.date);
    assert (x - y) * NanosPerDay == x * NanosPerDay - y * NanosPerDay;
  }

  /**
   * `TimeDelta::num_seconds`: the duration is stored as floored seconds plus
   * a non-negative nanosecond part, and a negative value with a nanosecond
   * part is moved one second toward zero. The result is the duration rounded
   * toward zero to whole seconds.
   */
  function NumSeconds(d: int): (s: int)
    ensures 0 <= d ==> 0 <= s && s * NanosPerSecond <= d < (s + 1) * NanosPerSecond
    ensures d < 0 ==> s <= 0 && (s - 1) * NanosPerSecond < d <= s * NanosPerSecond
  {
    var secs := d / NanosPerSecond;
    var nanos := d % NanosPerSecond;
    if secs < 0 && nanos > 0 then secs + 1 else secs
  }

  /** Division rounding toward zero, as Rust's `/` on `i64` does. */
  function TruncDiv(a: int, b: int): (q: int)
    requires b > 0
    ensures 0 <= a ==> 0 <= q && q * b <= a < q * b + b
    ensures a < 0 ==> q <= 0 && q * b - b < a <= q * b
  {
    if a >= 0 then a / b else -((-a) / b)
  }

  /**
   * `TimeDelta::num_days`: whole seconds divided by the seconds in a day,
   * rounding toward zero; the result is the duration rounded toward zero to
   * whole days, so a negative duration of less than a day counts as 0 days.
   */
  function NumDays(d: int): (days: int)
    ensures 0 <= d ==> 0 <= days && days * NanosPerDay <= d < (days + 1) * NanosPerDay
    ensures d < 0 ==> days <= 0 && (days - 1) * NanosPerDay < d <= days * NanosPerDay
  {
    var s := NumSeconds(d);
    var days := TruncDiv(s, SecondsPerDay);
    assert 0 <= d ==> days * SecondsPerDay <= s < (days + 1) * SecondsPerDay;
    assert d < 0 ==> (days - 1) * SecondsPerDay < s <= days * SecondsPerDay;
    days
  }

  /** A duration of `k` whole days plus less than a day has `k` days when non-negative. */
  lemma NumDaysOfSpan(k: int, rest: int)
    requires 0 <= k && 0 <= rest < NanosPerDay
    ensures NumDays(k * NanosPerDay + rest) == k
  {
    var days := NumDays(k * NanosPerDay + rest);
    assert days * NanosPerDay <= k * NanosPerDay + rest < (days + 1) * NanosPerDay;
  }

  /** `k` whole days minus less than a day counts `k - 1` days, except that a shortfall with `k == 0`, or none at all, counts `k`. */
  lemma NumDaysOfShortSpan(k: int, rest: int)
    requires 0 <= k && 0 <= rest < NanosPerDay
    ensures NumDays(k * NanosPerDay - rest) == if rest == 0 || k == 0 then k else k - 1
  {
    var days := NumDays(k * NanosPerDay - rest);
  }
}
