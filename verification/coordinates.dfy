/**
 * `generate_coordinates`: where a fixed-offset timestamp sits in its
 * calendar quarter. Every instant it builds shares the input's offset, so
 * all durations between them come down to local calendar arithmetic.
 */
module Coordinates {
  import opened Calendar
  import opened Clock
  import opened Decimal

  const U32Modulus: int := 0x1_0000_0000

  /** The nominal quarter length in weeks, a literal in the source (52 / 4). */
  const NominalWeeksInQuarter: int := 13

  /** The record the computation returns; the `u32` fields are kept as `int`s within `0 .. 2^32`. */
  datatype CorporateCoordinates = CorporateCoordinates(
    generationTime: DateTime,
    year: string,
    quarter: int,
    startOfQuarter: DateTime,
    endOfQuarter: DateTime,
    fullWeekOfQuarterDone: int,
    weeksInQuarter: int,
    daysLeftInQuarter: int,
    daysInQuarter: int)

  /** `x as u32` for an `i64`: keeps the low 32 bits. */
  function WrapToU32(x: int): (r: int)
    ensures 0 <= r < U32Modulus
    ensures (x - r) % U32Modulus == 0
    ensures 0 <= x < U32Modulus ==> r == x
  {
    x % U32Modulus
  }

  /** `x as u32` for an `f64` that holds a whole number: saturates at both ends of the range. */
  function SaturateToU32(x: int): (r: int)
    ensures 0 <= r < U32Modulus
    ensures x < 0 ==> r == 0
    ensures x >= U32Modulus ==> r == U32Modulus - 1
    ensures 0 <= x < U32Modulus ==> r == x
  {
    if x < 0 then 0 else if x >= U32Modulus then U32Modulus - 1 else x
  }

  /** `(m as f64 / 3.0).ceil()`: exact, since the operands are small whole numbers. */
  function CeilThird(m: int): (q: int)
    ensures 3 * (q - 1) < m <= 3 * q
  {
    (m + 2) / 3
  }

  /** `(d as f64 / 7.0).floor()`: exact, since the operands are small whole numbers. */
  function FloorSeventh(d: int): (w: int)
    ensures 7 * w <= d < 7 * (w + 1)
  {
    d / 7
  }

  /**
   * The timestamps the computation accepts: a valid fixed-offset date-time
   * whose year keeps every intermediate date inside chrono's range, so that
   * none of the `unwrap` calls can fail.
   */
  predicate ValidNow(now: DateTime) {
    ValidDateTime(now) && MinYear < now.local.date.year < MaxYear
  }

  /** The quarter of a month: 1 for January to March, ..., 4 for October to December. */
  function QuarterOf(month: int): (q: int)
    requires 1 <= month <= 12
    ensures 1 <= q <= 4
    ensures 3 * (q - 1) < month <= 3 * q
  {
    SaturateToU32(CeilThird(month))
  }

  /** The first day of quarter `q` of `year`, given independently of chrono's month arithmetic. */
  function FirstDayOfQuarter(year: int, q: int): Date {
    Date(year, 3 * (q - 1) + 1, 1)
  }

  /** The last day of quarter `q` of `year`: the last day of its third month. */
  function LastDayOfQuarter(year: int, q: int): Date
    requires 1 <= q <= 4
  {
    Date(year, 3 * q, DaysInMonth(year, 3 * q))
  }

  /** Midnight, January 1 of the year of `now` (a naive date-time in the source). */
  function StartOfYear(now: DateTime): (d: Date)
    ensures ValidDate(d) && d.year == now.local.date.year
    ensures DayNumber(d) == DaysBeforeYear(now.local.date.year)
  {
    Date(now.local.date.year, 1, 1)
  }

  /** `start_of_quarter`: the start of the year plus `3 * (quarter - 1)` months, in `now`'s offset. */
  function StartOfQuarter(now: DateTime): (s: DateTime)
    requires ValidNow(now)
    ensures ValidDateTime(s) && s.offsetSeconds == now.offsetSeconds
    ensures s.local == Midnight(FirstDayOfQuarter(now.local.date.year, QuarterOf(now.local.date.month)))
  {
    var q := QuarterOf(now.local.date.month);
    var first := AddMonths(StartOfYear(now), (q - 1) * 3);
    AddMonthsToFirst(StartOfYear(now), (q - 1) * 3);
    assert first.year == now.local.date.year && first.month == 3 * (q - 1) + 1;
    FromLocal(now.offsetSeconds, Midnight(first))
  }

  /**
   * `end_of_quarter`: the start of the year plus `3 * quarter` months, minus
   * one day, in `now`'s offset. For the fourth quarter the month step lands
   * on January 1 of the next year and the day step brings it back to
   * December 31.
   */
  function EndOfQuarter(now: DateTime): (e: DateTime)
    requires ValidNow(now)
    ensures ValidDateTime(e) && e.offsetSeconds == now.offsetSeconds
    ensures e.local == Midnight(LastDayOfQuarter(now.local.date.year, QuarterOf(now.local.date.month)))
  {
    var q := QuarterOf(now.local.date.month);
    FromLocal(now.offsetSeconds, Midnight(SubDays(AddMonths(StartOfYear(now), q * 3), 1)))
  }

  /** The number of calendar days in quarter `q` of `year`: its three month lengths added up. */
  function QuarterLength(year: int, q: int): int
    requires 1 <= q <= 4
  {
    DaysInMonth(year, 3 * q - 2) + DaysInMonth(year, 3 * q - 1) + DaysInMonth(year, 3 * q)
  }

  /** The date of `now` lies between the first and the last day of its quarter. */
  lemma DateWithinQuarter(now: DateTime)
    requires ValidNow(now)
    ensures var q := QuarterOf(now.local.date.month);
      && DayNumber(FirstDayOfQuarter(now.local.date.year, q)) <= DayNumber(now.local.date)
      && DayNumber(now.local.date) <= DayNumber(LastDayOfQuarter(now.local.date.year, q))
  {
    var d := now.local.date;
    var q := QuarterOf(d.month);
    DayNumberOrder(FirstDayOfQuarter(d.year, q), d);
    DayNumberOrder(d, LastDayOfQuarter(d.year, q));
  }

  /** Last day minus first day spans the quarter's length less one: there is no `+ 1`. */
  lemma QuarterSpan(year: int, q: int)
    requires 1 <= q <= 4
    ensures DayNumber(LastDayOfQuarter(year, q)) - DayNumber(FirstDayOfQuarter(year, q)) == QuarterLength(year, q) - 1
  {
    assert DaysBeforeMonth(year, 3 * q) == DaysBeforeMonth(year, 3 * q - 2) + DaysInMonth(year, 3 * q - 2) + DaysInMonth(year, 3 * q - 1);
  }

  /**
   * `full_week_of_quarter_done`: the whole days from `start_of_quarter` to
   * `now`, floored to weeks. Since the start is a midnight no later than
   * `now`, this is the number of whole weeks between the quarter's first
   * day and the date of `now`.
   */
  function FullWeeksDone(now: DateTime): (w: int)
    requires ValidNow(now)
    ensures var d := now.local.date;
      w == (DayNumber(d) - DayNumber(FirstDayOfQuarter(d.year, QuarterOf(d.month)))) / 7
  {
    var d := now.local.date;
    var start := StartOfQuarter(now);
    var elapsed := DayNumber(d) - DayNumber(FirstDayOfQuarter(d.year, QuarterOf(d.month)));
    DateWithinQuarter(now);
    DurationInDays(now, start);
    NumDaysOfSpan(elapsed, now.local.nanoOfDay);
    SaturateToU32(FloorSeventh(NumDays(SignedDurationSince(now, start))))
  }

  /**
   * `days_left_in_quarter`: the whole days from `now` to `end_of_quarter`,
   * plus one. With `D` the date of `now` and `E` the quarter's last day this
   * is `E - D + 1` at midnight and on the last day itself, but `E - D` at
   * any later time of an earlier day, because the whole-day count drops the
   * partial day; on the last day the negative partial day truncates to 0.
   */
  function DaysLeft(now: DateTime): (n: int)
    requires ValidNow(now)
    ensures var d := now.local.date;
      var left := DayNumber(LastDayOfQuarter(d.year, QuarterOf(d.month))) - DayNumber(d);
      n == if now.local.nanoOfDay == 0 || left == 0 then left + 1 else left
  {
    var d := now.local.date;
    var q := QuarterOf(d.month);
    var end := EndOfQuarter(now);
    var left := DayNumber(LastDayOfQuarter(d.year, q)) - DayNumber(d);
    DateWithinQuarter(now);
    QuarterSpan(d.year, q);
    DurationInDays(end, now);
    NumDaysOfShortSpan(left, now.local.nanoOfDay);
    WrapToU32(NumDays(SignedDurationSince(end, now)) + 1)
  }

  /** `days_in_quarter`: the whole days from `start_of_quarter` to `end_of_quarter`, with no `+ 1`. */
  function DaysInQuarter(now: DateTime): (n: int)
    requires ValidNow(now)
    ensures var d := now.local.date; var q := QuarterOf(d.month);
      n == DayNumber(LastDayOfQuarter(d.year, q)) - DayNumber(FirstDayOfQuarter(d.year, q))
  {
    var d := now.local.date;
    var q := QuarterOf(d.month);
    var start, end := StartOfQuarter(now), EndOfQuarter(now);
    var span := DayNumber(LastDayOfQuarter(d.year, q)) - DayNumber(FirstDayOfQuarter(d.year, q));
    QuarterSpan(d.year, q);
    DurationInDays(end, start);
    NumDaysOfSpan(span, 0);
    WrapToU32(NumDays(SignedDurationSince(end, start)))
  }

  /** `generate_coordinates(&now)`. */
  function GenerateCoordinates(now: DateTime): (c: CorporateCoordinates)
    requires ValidNow(now)
    ensures c.generationTime == now
    ensures c.year == IntToString(now.local.date.year)
    ensures ParseInt(c.year) == Some(now.local.date.year)
    ensures 1 <= c.quarter <= 4 && 3 * (c.quarter - 1) < now.local.date.month <= 3 * c.quarter
    ensures c.startOfQuarter == DateTime(Midnight(FirstDayOfQuarter(now.local.date.year, c.quarter)), now.offsetSeconds)
    ensures c.endOfQuarter == DateTime(Midnight(LastDayOfQuarter(now.local.date.year, c.quarter)), now.offsetSeconds)
    ensures c.weeksInQuarter == 13
  {
    var year := now.local.date.year;
    IntRoundTrip(year);
    CorporateCoordinates(
      now,
      IntToString(year),
      QuarterOf(now.local.date.month),
      StartOfQuarter(now),
      EndOfQuarter(now),
      FullWeeksDone(now),
      NominalWeeksInQuarter,
      DaysLeft(now),
      DaysInQuarter(now))
  }

  /** The record's completed weeks are the whole weeks from the quarter's first day to the date of `now`. */
  lemma WeeksDoneCount(now: DateTime)
    requires ValidNow(now)
    ensures var d, c := now.local.date, GenerateCoordinates(now);
      c.fullWeekOfQuarterDone == (DayNumber(d) - DayNumber(FirstDayOfQuarter(d.year, c.quarter))) / 7
  {
  }

  /** The record's days left: from the date of `now` to the quarter's last day, one more at midnight or on the last day. */
  lemma DaysLeftCount(now: DateTime)
    requires ValidNow(now)
    ensures var d, c := now.local.date, GenerateCoordinates(now);
      var left := DayNumber(LastDayOfQuarter(d.year, c.quarter)) - DayNumber(d);
      c.daysLeftInQuarter == if now.local.nanoOfDay == 0 || left == 0 then left + 1 else left
  {
  }

  /** The record's days in the quarter: from its first day to its last day. */
  lemma DaysInQuarterCount(now: DateTime)
    requires ValidNow(now)
    ensures var d, c := now.local.date, GenerateCoordinates(now);
      c.daysInQuarter == DayNumber(LastDayOfQuarter(d.year, c.quarter)) - DayNumber(FirstDayOfQuarter(d.year, c.quarter))
  {
  }

  /**
   * `days_in_quarter` is the quarter's length less one: 89 for January to
   * March (90 in a leap year), 90 for April to June, 91 for July to
   * September and for October to December.
   */
  lemma DaysInQuarterValues(now: DateTime)
    requires ValidNow(now)
    ensures var c := GenerateCoordinates(now);
      && c.daysInQuarter == QuarterLength(now.local.date.year, c.quarter) - 1
      && (c.quarter == 1 ==> c.daysInQuarter == if IsLeapYear(now.local.date.year) then 90 else 89)
      && (c.quarter == 2 ==> c.daysInQuarter == 90)
      && (c.quarter == 3 ==> c.daysInQuarter == 91)
      && (c.quarter == 4 ==> c.daysInQuarter == 91)
  {
    QuarterSpan(now.local.date.year, QuarterOf(now.local.date.month));
  }

  /** Completed weeks are never negative and never more than the weeks in `days_in_quarter`. */
  lemma FullWeeksBounded(now: DateTime)
    requires ValidNow(now)
    ensures var c := GenerateCoordinates(now);
      0 <= c.fullWeekOfQuarterDone <= c.daysInQuarter / 7
  {
    DateWithinQuarter(now);
  }

  /** At least one day is always left, and never more than `days_in_quarter + 1`. */
  lemma DaysLeftBounded(now: DateTime)
    requires ValidNow(now)
    ensures var c := GenerateCoordinates(now);
      1 <= c.daysLeftInQuarter <= c.daysInQuarter + 1
  {
    DateWithinQuarter(now);
  }

  /** On the quarter's last day, at any time of day, exactly one day is left. */
  lemma LastDayLeavesOne(now: DateTime)
    requires ValidNow(now)
    requires now.local.date == LastDayOfQuarter(now.local.date.year, QuarterOf(now.local.date.month))
    ensures GenerateCoordinates(now).daysLeftInQuarter == 1
  {
  }

  /** `start_of_quarter` never comes after `now`. */
  lemma StartNotAfterNow(now: DateTime)
    requires ValidNow(now)
    ensures UtcNanos(GenerateCoordinates(now).startOfQuarter) <= UtcNanos(now)
  {
    var c := GenerateCoordinates(now);
    DateWithinQuarter(now);
    assert UtcNanos(now) - UtcNanos(c.startOfQuarter) == SignedDurationSince(now, c.startOfQuarter);
  }

  /**
   * `end_of_quarter` is midnight of the last day, so it is before `now`
   * whenever `now` is later on that same day: `now <= end_of_quarter` is not
   * an invariant of the computation.
   */
  lemma EndPrecedesLateLastDay(now: DateTime)
    requires ValidNow(now)
    requires now.local.date == LastDayOfQuarter(now.local.date.year, QuarterOf(now.local.date.month))
    requires now.local.nanoOfDay > 0
    ensures UtcNanos(GenerateCoordinates(now).endOfQuarter) < UtcNanos(now)
  {
    var c := GenerateCoordinates(now);
    assert UtcNanos(now) - UtcNanos(c.endOfQuarter) == SignedDurationSince(now, c.endOfQuarter);
  }

  /**
   * The offset only tags the instants: two timestamps showing the same local
   * time in different offsets get the same year, quarter and local quarter
   * boundaries ...
   */
  lemma OffsetKeepsQuarter(a: DateTime, b: DateTime)
    requires ValidNow(a) && ValidNow(b) && a.local == b.local
    ensures var ca, cb := GenerateCoordinates(a), GenerateCoordinates(b);
      && ca.year == cb.year && ca.quarter == cb.quarter
      && ca.startOfQuarter.local == cb.startOfQuarter.local
      && ca.endOfQuarter.local == cb.endOfQuarter.local
  {
  }

  /** ... the same count of completed weeks ... */
  lemma OffsetKeepsWeeks(a: DateTime, b: DateTime)
    requires ValidNow(a) && ValidNow(b) && a.local == b.local
    ensures GenerateCoordinates(a).fullWeekOfQuarterDone == GenerateCoordinates(b).fullWeekOfQuarterDone
  {
  }

  /** ... the same count of days left ... */
  lemma OffsetKeepsDaysLeft(a: DateTime, b: DateTime)
    requires ValidNow(a) && ValidNow(b) && a.local == b.local
    ensures GenerateCoordinates(a).daysLeftInQuarter == GenerateCoordinates(b).daysLeftInQuarter
  {
  }

  /** ... and the same length of quarter. */
  lemma OffsetKeepsDaysInQuarter(a: DateTime, b: DateTime)
    requires ValidNow(a) && ValidNow(b) && a.local == b.local
    ensures GenerateCoordinates(a).daysInQuarter == GenerateCoordinates(b).daysInQuarter
  {
  }
}
