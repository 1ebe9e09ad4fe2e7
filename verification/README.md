# corporate-clock: where a timestamp sits in its calendar quarter

The program reads the local time. It reports which calendar quarter that time
falls in, when the quarter starts and ends, and how many weeks have passed
and how many days are left. The computation is `generate_coordinates`. It
takes a `DateTime<FixedOffset>` and fills a `CorporateCoordinates` record with
these fields:

- the time itself and its year as text;
- the quarter, 1 to 4;
- midnight of the quarter's first day and of its last day, in the input's offset;
- the whole weeks completed since the quarter started;
- the nominal 13 weeks per quarter;
- the days left;
- the days from the quarter's first to its last day.

The project models that function, together with the parts of chrono it relies on:

- `Calendar`: the proleptic Gregorian calendar of chrono's `NaiveDate`.
  - Month lengths and the leap-year rule.
  - A day number for every date.
  - `checked_add_months`, which clamps the day to the length of the target month.
  - `checked_sub_days`.
- `Clock`: `DateTime<FixedOffset>` as a local reading plus an offset in seconds.
  - `signed_duration_since` as a difference of instants, in nanoseconds.
  - `TimeDelta::num_seconds` and `num_days`, both rounding toward zero.
- `Decimal`: `format!("{}", year)`. The program never parses the year back; `Decimal.ParseInt` is a reference reader, the partner through which `Decimal.IntRoundTrip` shows that the text determines the year.
- `Coordinates`: `generate_coordinates` itself and what its record means in calendar terms.
  - The `as u32` casts are modelled as written: wrap-around for an `i64` and saturation for an `f64`.
  - The `f64` ceiling and floor of small whole numbers are modelled as exact integer arithmetic.
- `Examples1999`: the values the repository's tests expect for dates in 1999.

Timestamps are accepted when they pass `ValidNow`:

- the date and time of day are valid;
- the offset is strictly within one day;
- the year lies strictly inside chrono's representable range. This keeps every `unwrap` in the model from failing; it excludes more than the code needs (see below).

Time of day is kept to the nanosecond. `num_days` truncates toward zero, so for
a negative duration a fraction of a second can change the result.

The record's counts, in terms of the date `D` of `now`, the first day `F` of its
quarter, the last day `E`, and the day numbers of those dates:

- completed weeks are `(D - F) / 7`;
- days in the quarter are `E - F`, one less than the quarter's length;
- days left are `E - D + 1` at midnight and on the last day itself, but `E - D`
  at any later time of an earlier day. The whole-day count from `now` to the
  midnight that starts `E` drops the partial day. On April 1, 1999 at 16:39:57
  this gives 90, the value the repository's test expects.

## Model

| member | source | states |
|---|---|---|
| Calendar.DaysInMonth | src/main.rs:36-38 | Every month has 28 to 31 days; February has 29 exactly in a leap year and 28 otherwise |
| Calendar.MonthsFillYear | src/main.rs:35-38 | The twelve month lengths add up to the leap-year-rule length of the year, so stepping back a day from January 1 lands on December 31 |
| Calendar.YearLength | src/main.rs:35-38 | The day number of January 1 advances by exactly 365 or 366 from one year to the next |
| Calendar.DayNumberOrder | src/main.rs:49-56 | Day numbers order valid dates exactly as the calendar does, and distinct dates get distinct numbers |
| Calendar.PredDay | src/main.rs:38 | Stepping back one day gives a valid date whose day number is one less |
| Calendar.SubDays | src/main.rs:38 | `checked_sub_days(n)` gives a valid date whose day number is `n` less |
| Calendar.AddMonths | src/main.rs:27 | `checked_add_months(n)` gives a valid date `n` months later; the day is kept unless the target month is shorter, and then it is that month's last day |
| Calendar.AddMonthsToFirst | src/main.rs:19-27 | Adding months to the first of a month never clamps: the result is again the first of a month |
| Clock.UtcNanos | src/main.rs:49-56 | The instant a date-time denotes: its local reading, in nanoseconds since 0001-01-01, minus its offset |
| Clock.FromLocal | src/main.rs:23-30 | `from_local_datetime` on a fixed offset gives the date-time showing that local reading in that offset; it is valid when the reading is valid and the offset lies within one day, and it denotes the local instant minus the offset |
| Clock.SignedDurationSince | src/main.rs:49 | When both date-times share an offset, the duration is the difference of their local readings |
| Clock.DurationInDays | src/main.rs:49-56 | Within one offset, a duration is the whole days between the two dates plus the difference of the times of day |
| Clock.NumSeconds | src/main.rs:49-56 | `num_seconds` rounds a duration toward zero to whole seconds, in both signs |
| Clock.TruncDiv | src/main.rs:49-56 | Rust's `/` on `i64` with a positive divisor rounds the quotient toward zero, in both signs |
| Clock.NumDays | src/main.rs:49-56 | `num_days` rounds a duration toward zero to whole days; a negative duration of less than a day counts 0 |
| Clock.NumDaysOfSpan | src/main.rs:49-56 | `k` whole days plus less than one more day counts `k` days |
| Clock.NumDaysOfShortSpan | src/main.rs:53 | `k` whole days minus less than a day counts `k - 1` days, or `k` when nothing is taken off or `k` is 0 |
| Decimal.NatToDigits | src/main.rs:45 | The decimal digits of a natural number are non-empty and start with `0` only for zero itself |
| Decimal.IntToString | src/main.rs:45 | `format!("{}", year)` is the canonical rendering: a `-` exactly for negative years, then digits with no leading zero |
| Decimal.DigitsRoundTrip | src/main.rs:45 | Reading back the decimal digits of a natural number gives that number |
| Decimal.IntRoundTrip | src/main.rs:45 | Parsing the rendering of any integer gives that integer back |
| Decimal.IntToStringInjective | src/main.rs:45 | Distinct years get distinct text |
| Coordinates.CorporateCoordinates | src/main.rs:5-15 | The record has the struct's nine fields in order; the `u32` fields hold integers, whose ranges `Coordinates.FullWeeksBounded`, `Coordinates.DaysLeftBounded` and `Coordinates.DaysInQuarterValues` state |
| Coordinates.WrapToU32 | src/main.rs:53-56 | `as u32` on an `i64` gives the value in `0 .. 2^32` congruent to the input modulo `2^32`, so values already in that range are unchanged |
| Coordinates.SaturateToU32 | src/main.rs:18 | `as u32` on an `f64` saturates: negative values give 0, values from `2^32` on give `2^32 - 1`, and values in between are unchanged |
| Coordinates.CeilThird | src/main.rs:18 | `ceil(m / 3)` is the `q` with `3(q - 1) < m <= 3q` |
| Coordinates.FloorSeventh | src/main.rs:49-51 | `floor(d / 7)` is the `w` with `7w <= d < 7(w + 1)` |
| Coordinates.QuarterOf | src/main.rs:18 | The quarter is between 1 and 4 and is the one whose three months contain the month of `now` |
| Coordinates.StartOfYear | src/main.rs:19-22 | January 1 of the year of `now` is a valid date whose day number is the closed-form count of days before that year |
| Coordinates.StartOfQuarter | src/main.rs:19-30 | The start of the quarter is midnight of its first day, in the offset of `now` |
| Coordinates.EndOfQuarter | src/main.rs:32-41 | The end of the quarter is midnight of its last day, in the offset of `now`; for the fourth quarter the month step crosses into the next year and the day step comes back to December 31 |
| Coordinates.DateWithinQuarter | src/main.rs:18-41 | The date of `now` lies between the first and the last day of its quarter |
| Coordinates.QuarterSpan | src/main.rs:54-56 | The last day minus the first day of a quarter is the quarter's length less one |
| Coordinates.FullWeeksDone | src/main.rs:49-51 | Completed weeks are the whole weeks between the quarter's first day and the date of `now` |
| Coordinates.DaysLeft | src/main.rs:53 | Days left are `E - D + 1` at midnight or on the last day, and `E - D` otherwise |
| Coordinates.DaysInQuarter | src/main.rs:54-56 | Days in the quarter are the last day minus the first day |
| Coordinates.GenerateCoordinates | src/main.rs:17-58 | The record keeps `now`; its year text is the canonical rendering of the year of `now` and reads back as that year; the quarter contains the month of `now`; the boundaries are midnight of the quarter's first and last day in `now`'s offset; the nominal weeks are 13 |
| Coordinates.WeeksDoneCount | src/main.rs:49-51 | The record's completed weeks are the whole weeks from the quarter's first day to the date of `now` |
| Coordinates.DaysLeftCount | src/main.rs:53 | The record's days left are `E - D + 1` at midnight or on the last day, and `E - D` otherwise |
| Coordinates.DaysInQuarterCount | src/main.rs:54-56 | The record's days in the quarter are the last day minus the first day |
| Coordinates.DaysInQuarterValues | src/main.rs:54-56 | Days in the quarter are the quarter's length less one: 89 or 90 for the first quarter, 90 for the second, 91 for the third and fourth |
| Coordinates.FullWeeksBounded | src/main.rs:49-51 | Completed weeks are never negative and never more than the weeks in `days_in_quarter` |
| Coordinates.DaysLeftBounded | src/main.rs:53 | At least one day is left, and never more than `days_in_quarter + 1` |
| Coordinates.LastDayLeavesOne | src/main.rs:53 | On the quarter's last day exactly one day is left, at any time of day |
| Coordinates.StartNotAfterNow | src/main.rs:23-30 | The start of the quarter is never later than `now` |
| Coordinates.EndPrecedesLateLastDay | src/main.rs:32-41 | Later than midnight on the quarter's last day, the end of the quarter is already before `now` |
| Coordinates.OffsetKeepsQuarter | src/main.rs:17-41 | Two timestamps showing the same local time in different offsets get the same year, quarter and local boundaries |
| Coordinates.OffsetKeepsWeeks | src/main.rs:49-51 | ... and the same completed weeks |
| Coordinates.OffsetKeepsDaysLeft | src/main.rs:53 | ... and the same days left |
| Coordinates.OffsetKeepsDaysInQuarter | src/main.rs:54-56 | ... and the same days in the quarter |
| Examples1999.At | src/main.rs:131 | A 1999 timestamp at 16:39:57+00:00 is accepted |
| Examples1999.JanuaryLength | src/main.rs:205-209 | February 1, 1999 is 31 days after January 1 |
| Examples1999.AprilToJuneEnd | src/main.rs:226-232 | June 30, 1999 is 90 days after April 1 |
| Examples1999.QuarterOfMonth | src/main.rs:130-161 | Months 1-3 of 1999 fall in quarter 1, 4-6 in quarter 2, 7-9 in quarter 3 and 10-12 in quarter 4 |
| Examples1999.BoundariesOnFebruary1 | src/main.rs:171-174 | On February 1, 1999 the quarter runs from midnight January 1 to midnight March 31 |
| Examples1999.BoundariesOnMay1 | src/main.rs:176-179 | On May 1, 1999 the quarter runs from midnight April 1 to midnight June 30 |
| Examples1999.BoundariesOnAugust1 | src/main.rs:181-184 | On August 1, 1999 the quarter runs from midnight July 1 to midnight September 30 |
| Examples1999.BoundariesOnNovember1 | src/main.rs:186-189 | On November 1, 1999 the quarter runs from midnight October 1 to midnight December 31 |
| Examples1999.WeeksAfter | src/main.rs:198-222 | Completed weeks on a 1999 date are the whole weeks since the quarter's first day |
| Examples1999.WeeksDoneOnJanuary1 | src/main.rs:199-203 | No week is complete on January 1, 1999 |
| Examples1999.WeeksDoneOnFebruary1 | src/main.rs:205-209 | Four weeks are complete on February 1, 1999 |
| Examples1999.WeeksDoneOnApril1 | src/main.rs:211-215 | No week is complete on April 1, 1999 |
| Examples1999.WeeksDoneOnJune30 | src/main.rs:217-221 | Twelve weeks are complete on June 30, 1999 |
| Examples1999.DaysLeftOnApril1 | src/main.rs:226-235 | On April 1, 1999 at 16:39:57 the days left equal the whole days until June 30 at the same time, 90 |
| Examples1999.DaysLeftOnJune30 | src/main.rs:233 | On June 30, 1999 one day is left |
| Examples1999.DaysInSecondQuarter | src/main.rs:238-239 | The second quarter of 1999 has `days_in_quarter` 90 |

## Left out

- `main`, `local_to_fixed` and `print_summary` are left out. They read the system clock and the local time zone, and print coloured text. The percentage that `print_summary` computes in floating point is left out with them.
- Leap seconds are left out. chrono can represent a leap second as a time of day of 60 seconds or more; the model's time of day stays below 24 hours.
- Timestamps in the first or last year chrono can represent (-262144 and 262143) are excluded as a whole, as a simplification. The code fails in only part of them: in 262143 only the fourth quarter panics, because adding twelve months in `src/main.rs:35-37` leaves the range; in -262144 only `from_local_datetime` in `src/main.rs:23-30` fails, for the first quarter at a positive offset.
- Coordinates.CeilThird and Coordinates.FloorSeventh compute the `f64` ceiling and floor exactly. The operands are whole numbers far below 2^53, so no rounding can occur.
- Examples1999.BoundariesOnFebruary1 and the other boundary examples compare date-times structurally: the same local reading and the same offset. chrono compares instants. The structural equality is the stronger of the two.
- Coordinates.GenerateCoordinates does not promise that `now` is no later than the end of the quarter. The code does not guarantee it: the end is midnight of the last day, and `Coordinates.EndPrecedesLateLastDay` shows `now` passing it.
- Coordinates.DaysLeft states the count the code computes. This is not "days until the end of the last day, inclusive", which is one more at any time after midnight on days before the last.
