/**
 * The proleptic Gregorian calendar as chrono's `NaiveDate` implements it,
 * restricted to what the quarter computation uses: month lengths, a day
 * number for every date, stepping back by days and adding whole months.
 */
module Calendar {

  /** Smallest and largest year chrono's `NaiveDate` can represent. */
  const MinYear: int := -262144
  const MaxYear: int := 262143

  predicate IsLeapYear(year: int) {
    year % 4 == 0 && (year % 100 != 0 || year % 400 == 0)
  }

  function DaysInYear(year: int): int {
    if IsLeapYear(year) then 366 else 365
  }

  function DaysInMonth(year: int, month: int): (n: int)
    requires 1 <= month <= 12
    ensures 28 <= n <= 31
    ensures n == 29 <==> month == 2 && IsLeapYear(year)
    ensures n == 28 <==> month == 2 && !IsLeapYear(year)
  {
    if month == 2 then (if IsLeapYear(year) then 29 else 28)
    else if month in {4, 6, 9, 11} then 30
    else 31
  }

  function Min(a: int, b: int): int {
    if a <= b then a else b
  }

  /** A calendar date; `month` and `day` are 1-based. */
  datatype Date = Date(year: int, month: int, day: int)

  predicate ValidDate(d: Date) {
    1 <= d.month <= 12 && 1 <= d.day <= DaysInMonth(d.year, d.month)
  }

  /** Days in the months of `year` before `month`; month 13 stands for the whole year. */
  function DaysBeforeMonth(year: int, month: int): int
    requires 1 <= month <= 13
    decreases month
  {
    if month == 1 then 0 else DaysBeforeMonth(year, month - 1) + DaysInMonth(year, month - 1)
  }

  /**
   * Days from 0001-01-01 to January 1 of `year`, negative before year 1.
   * Euclidean division counts the leap years correctly on both sides of year 0.
   */
  function DaysBeforeYear(year: int): int {
    var p := year - 1;
    365 * p + p / 4 - p / 100 + p / 400
  }

  /** The day number of a date: 0001-01-01 is day 0 and consecutive days differ by one. */
  function DayNumber(d: Date): int
    requires 1 <= d.month <= 12
  {
    DaysBeforeYear(d.year) + DaysBeforeMonth(d.year, d.month) + d.day - 1
  }

  /** The twelve month lengths add up to the year length given by the leap-year rule. */
  lemma {:induction false} MonthsFillYear(year: int)
    ensures DaysBeforeMonth(year, 13) == DaysInYear(year)
  {
    var leap := if IsLeapYear(year) then 1 else 0;
    assert DaysBeforeMonth(year, 2) == 31;
    assert DaysBeforeMonth(year, 3) == 59 + leap;
    assert DaysBeforeMonth(year, 4) == 90 + leap;
    assert DaysBeforeMonth(year, 5) == 120 + leap;
    assert DaysBeforeMonth(year, 6) == 151 + leap;
    assert DaysBeforeMonth(year, 7) == 181 + leap;
    assert DaysBeforeMonth(year, 8) == 212 + leap;
    assert DaysBeforeMonth(year, 9) == 243 + leap;
    assert DaysBeforeMonth(year, 10) == 273 + leap;
    assert DaysBeforeMonth(year, 11) == 304 + leap;
    assert DaysBeforeMonth(year, 12) == 334 + leap;
  }

  /** One more multiple of `k` lies in `(year - 1, year]` exactly when `k` divides `year`. */
  lemma DivStep(year: int, k: int)
    requires k == 4 || k == 100 || k == 400
    ensures year / k - (year - 1) / k == if year % k == 0 then 1 else 0
  {
  }

  /** Multiples of 400 are multiples of 100, which are multiples of 4. */
  lemma DivisorsNest(year: int)
    ensures year % 400 == 0 ==> year % 100 == 0
    ensures year % 100 == 0 ==> year % 4 == 0
  {
  }

  /** The closed form for January 1 advances by exactly the leap-year-rule length of each year. */
  lemma YearLength(year: int)
    ensures DaysBeforeYear(year + 1) == DaysBeforeYear(year) + DaysInYear(year)
  {
    DivStep(year, 4);
    DivStep(year, 100);
    DivStep(year, 400);
    DivisorsNest(year);
    var fours := year / 4 - (year - 1) / 4;
    var hundreds := year / 100 - (year - 1) / 100;
    var fourHundreds := year / 400 - (year - 1) / 400;
    assert DaysBeforeYear(year + 1) - DaysBeforeYear(year) == 365 + fours - hundreds + fourHundreds;
  }

  /** Every valid date of `year` gets a day number between January 1 of that year and of the next. */
  lemma DayNumberWithinYear(d: Date)
    requires ValidDate(d)
    ensures DaysBeforeYear(d.year) <= DayNumber(d) < DaysBeforeYear(d.year + 1)
  {
    MonthsFillYear(d.year);
    YearLength(d.year);
    DaysBeforeMonthGrows(d.year, d.month + 1, 13);
  }

  lemma {:induction false} DaysBeforeMonthGrows(year: int, m: int, n: int)
    requires 1 <= m <= n <= 13
    ensures DaysBeforeMonth(year, m) <= DaysBeforeMonth(year, n)
    decreases n - m
  {
    if m < n {
      DaysBeforeMonthGrows(year, m, n - 1);
    }
  }

  /** Lexicographic order of dates. */
  predicate Before(a: Date, b: Date) {
    a.year < b.year
    || (a.year == b.year && a.month < b.month)
    || (a.year == b.year && a.month == b.month && a.day < b.day)
  }

  /** A valid date's day number lies inside its own month's span. */
  lemma DayNumberWithinMonth(d: Date)
    requires ValidDate(d)
    ensures DaysBeforeYear(d.year) + DaysBeforeMonth(d.year, d.month) <= DayNumber(d)
    ensures DayNumber(d) < DaysBeforeYear(d.year) + DaysBeforeMonth(d.year, d.month + 1)
  {
  }

  /** Day numbers order valid dates exactly as the calendar does, so distinct dates never share one. */
  lemma DayNumberOrder(a: Date, b: Date)
    requires ValidDate(a) && ValidDate(b)
    ensures DayNumber(a) < DayNumber(b) <==> Before(a, b)
    ensures DayNumber(a) == DayNumber(b) <==> a == b
  {
    if Before(a, b) {
      BeforeSmaller(a, b);
    } else if Before(b, a) {
      BeforeSmaller(b, a);
    } else {
      assert a == b;
    }
  }

  lemma BeforeSmaller(a: Date, b: Date)
    requires ValidDate(a) && ValidDate(b) && Before(a, b)
    ensures DayNumber(a) < DayNumber(b)
  {
    if a.year < b.year {
      EarlierYearSmaller(a, b);
    } else if a.month < b.month {
      DayNumberWithinMonth(a);
      DayNumberWithinMonth(b);
      DaysBeforeMonthGrows(a.year, a.month + 1, b.month);
    }
  }

  lemma EarlierYearSmaller(a: Date, b: Date)
    requires ValidDate(a) && ValidDate(b) && a.year < b.year
    ensures DayNumber(a) < DayNumber(b)
  {
    DayNumberWithinYear(a);
    DayNumberWithinYear(b);
    YearsGrow(a.year + 1, b.year);
  }

  lemma {:induction false} YearsGrow(x: int, y: int)
    requires x <= y
    ensures DaysBeforeYear(x) <= DaysBeforeYear(y)
    decreases y - x
  {
    if x < y {
      YearsGrow(x, y - 1);
      YearLength(y - 1);
    }
  }

  /** The date one day earlier, as `checked_sub_days(Days::new(1))` produces it. */
  function PredDay(d: Date): (r: Date)
    requires ValidDate(d)
    ensures ValidDate(r)
    ensures DayNumber(r) == DayNumber(d) - 1
  {
    if d.day > 1 then
      Date(d.year, d.month, d.day - 1)
    else if d.month > 1 then
      Date(d.year, d.month - 1, DaysInMonth(d.year, d.month - 1))
    else
      MonthsFillYear(d.year - 1);
      YearLength(d.year - 1);
      Date(d.year - 1, 12, 31)
  }

  /** chrono's `checked_sub_days(Days::new(n))`: the date `n` days earlier. */
  function SubDays(d: Date, n: nat): (r: Date)
    requires ValidDate(d)
    ensures ValidDate(r)
    ensures DayNumber(r) == DayNumber(d) - n
    decreases n
  {
    if n == 0 then d else SubDays(PredDay(d), n - 1)
  }

  /** Months elapsed since January of year 0. */
  function MonthIndex(d: Date): int {
    d.year * 12 + d.month - 1
  }

  /**
   * chrono's `checked_add_months(Months::new(n))`: move `n` months forward,
   * keeping the day of the month unless the target month is shorter, in
   * which case the day is clamped to that month's last day.
   */
  function AddMonths(d: Date, n: nat): (r: Date)
    requires ValidDate(d)
    ensures ValidDate(r)
    ensures MonthIndex(r) == MonthIndex(d) + n
    ensures r.day == d.day || (r.day == DaysInMonth(r.year, r.month) < d.day)
  {
    var index := MonthIndex(d) + n;
    var year := index / 12;
    var month := index % 12 + 1;
    Date(year, month, Min(d.day, DaysInMonth(year, month)))
  }

  /** Adding whole months to the first of a month lands on the first of a month, with no clamping. */
  lemma AddMonthsToFirst(d: Date, n: nat)
    requires ValidDate(d) && d.day == 1
    ensures AddMonths(d, n).day == 1
  {
  }
}
