/**
 * The concrete values the repository's tests pin down, for timestamps in
 * 1999 at 16:39:57 with offset +00:00.
 */
module Examples1999 {
  import opened Calendar
  import opened Clock
  import opened Coordinates

  /** 16:39:57 as nanoseconds since midnight. */
  const AfternoonNanos: int := (16 * 3600 + 39 * 60 + 57) * 1_000_000_000

  /** `1999-MM-DDT16:39:57+00:00`. */
  function At(month: int, day: int): (t: DateTime)
    requires 1 <= month <= 12 && 1 <= day <= DaysInMonth(1999, month)
    ensures ValidNow(t)
  {
    DateTime(LocalDateTime(Date(1999, month, day), AfternoonNanos), 0)
  }

  /** `1999-MM-DDT00:00:00+00:00`. */
  function MidnightOf(month: int, day: int): DateTime {
    DateTime(Midnight(Date(1999, month, day)), 0)
  }

  /** January 1999 has 31 days. */
  lemma JanuaryLength()
    ensures DayNumber(Date(1999, 2, 1)) - DayNumber(Date(1999, 1, 1)) == 31
  {
  }

  /** From April 1 to June 30, 1999, is 90 days. */
  lemma AprilToJuneEnd()
    ensures DayNumber(Date(1999, 6, 30)) - DayNumber(Date(1999, 4, 1)) == 90
  {
  }

  /*
   * The lemmas below hold for every valid timestamp on the date the
   * repository's tests use, at any time of day; the boundaries are stated
   * for offset +00:00, as in those tests, and the days-left comparison for
   * 16:39:57 exactly.
   */

  /** A timestamp in month `m` of 1999 falls in quarter 1 for January to March, 2 for April to June, 3 for July to September and 4 for October to December. */
  lemma QuarterOfMonth(m: int, t: DateTime)
    requires ValidNow(t) && t.local.date.year == 1999 && t.local.date.month == m
    ensures GenerateCoordinates(t).quarter == if m <= 3 then 1 else if m <= 6 then 2 else if m <= 9 then 3 else 4
  {
  }

  /** On February 1, 1999, at offset +00:00, the quarter runs from midnight on January 1 to midnight on March 31. */
  lemma BoundariesOnFebruary1(t: DateTime)
    requires ValidNow(t) && t.offsetSeconds == 0 && t.local.date == Date(1999, 2, 1)
    ensures GenerateCoordinates(t).startOfQuarter == MidnightOf(1, 1)
    ensures GenerateCoordinates(t).endOfQuarter == MidnightOf(3, 31)
  {
    assert LastDayOfQuarter(1999, 1) == Date(1999, 3, 31);
  }

  /** On May 1, 1999, at offset +00:00, the quarter runs from midnight on April 1 to midnight on June 30. */
  lemma BoundariesOnMay1(t: DateTime)
    requires ValidNow(t) && t.offsetSeconds == 0 && t.local.date == Date(1999, 5, 1)
    ensures GenerateCoordinates(t).startOfQuarter == MidnightOf(4, 1)
    ensures GenerateCoordinates(t).endOfQuarter == MidnightOf(6, 30)
  {
  }

  /** On August 1, 1999, at offset +00:00, the quarter runs from midnight on July 1 to midnight on September 30. */
  lemma BoundariesOnAugust1(t: DateTime)
    requires ValidNow(t) && t.offsetSeconds == 0 && t.local.date == Date(1999, 8, 1)
    ensures GenerateCoordinates(t).startOfQuarter == MidnightOf(7, 1)
    ensures GenerateCoordinates(t).endOfQuarter == MidnightOf(9, 30)
  {
  }

  /** On November 1, 1999, at offset +00:00, the quarter runs from midnight on October 1 to midnight on December 31. */
  lemma BoundariesOnNovember1(t: DateTime)
    requires ValidNow(t) && t.offsetSeconds == 0 && t.local.date == Date(1999, 11, 1)
    ensures GenerateCoordinates(t).startOfQuarter == MidnightOf(10, 1)
    ensures GenerateCoordinates(t).endOfQuarter == MidnightOf(12, 31)
  {
  }

  /** Weeks done, given the quarter's first day and how many days after it `t` falls. */
  lemma WeeksAfter(t: DateTime, first: Date, elapsed: int, weeks: int)
    requires ValidNow(t)
    requires first == FirstDayOfQuarter(1999, QuarterOf(t.local.date.month)) && t.local.date.year == 1999
    requires DayNumber(t.local.date) - DayNumber(first) == elapsed
    requires 7 * weeks <= elapsed < 7 * weeks + 7
    ensures GenerateCoordinates(t).fullWeekOfQuarterDone == weeks
  {
    WeeksDoneCount(t);
  }

  /** No week of the first quarter is complete on January 1. */
  lemma WeeksDoneOnJanuary1(t: DateTime)
    requires ValidNow(t) && t.local.date == Date(1999, 1, 1)
    ensures GenerateCoordinates(t).fullWeekOfQuarterDone == 0
  {
    WeeksAfter(t, Date(1999, 1, 1), 0, 0);
  }

  /** Four weeks of the first quarter are complete on February 1, 31 days in. */
  lemma WeeksDoneOnFebruary1(t: DateTime)
    requires ValidNow(t) && t.local.date == Date(1999, 2, 1)
    ensures GenerateCoordinates(t).fullWeekOfQuarterDone == 4
  {
    JanuaryLength();
    WeeksAfter(t, Date(1999, 1, 1), 31, 4);
  }

  /** No week of the second quarter is complete on April 1. */
  lemma WeeksDoneOnApril1(t: DateTime)
    requires ValidNow(t) && t.local.date == Date(1999, 4, 1)
    ensures GenerateCoordinates(t).fullWeekOfQuarterDone == 0
  {
    WeeksAfter(t, Date(1999, 4, 1), 0, 0);
  }

  /** Twelve weeks of the second quarter are complete on June 30, 90 days in. */
  lemma WeeksDoneOnJune30(t: DateTime)
    requires ValidNow(t) && t.local.date == Date(1999, 6, 30)
    ensures GenerateCoordinates(t).fullWeekOfQuarterDone == 12
  {
    AprilToJuneEnd();
    WeeksAfter(t, Date(1999, 4, 1), 90, 12);
  }

  /**
   * On April 1 at 16:39:57, days left equal the whole days from then to the
   * same time of day on June 30, which is 90.
   */
  lemma DaysLeftOnApril1(t: DateTime, u: DateTime)
    requires t == At(4, 1) && u == At(6, 30)
    ensures GenerateCoordinates(t).daysLeftInQuarter == NumDays(SignedDurationSince(u, t))
    ensures GenerateCoordinates(t).daysLeftInQuarter == 90
  {
    AprilToJuneEnd();
    assert LastDayOfQuarter(1999, QuarterOf(4)) == Date(1999, 6, 30);
    DaysLeftCount(t);
    DurationInDays(u, t);
    NumDaysOfSpan(90, 0);
  }

  /** On June 30, the last day of the second quarter, one day is left at any time of day. */
  lemma DaysLeftOnJune30(t: DateTime)
    requires ValidNow(t) && t.local.date == Date(1999, 6, 30)
    ensures GenerateCoordinates(t).daysLeftInQuarter == 1
  {
    LastDayLeavesOne(t);
  }

  /** The second quarter of 1999 has 90 days from its first to its last day. */
  lemma DaysInSecondQuarter(t: DateTime)
    requires ValidNow(t) && t.local.date == Date(1999, 4, 1)
    ensures GenerateCoordinates(t).daysInQuarter == 90
  {
    DaysInQuarterValues(t);
  }
}
