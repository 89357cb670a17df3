/**
 * The calendar helpers of the `Dates` class. A `datetime` is modelled by its
 * calendar date; the moment `datetime.now()` returns is passed in as `now`,
 * and each random draw as a number, as `RandomUtils` does.
 */
module Dates {
  import opened Results
  import RandomUtils

  /** The calendar part of a `datetime`. */
  datatype Date = Date(year: int, month: int, day: int)

  /** `datetime.MINYEAR` and `datetime.MAXYEAR`. */
  const MinYear := 1
  const MaxYear := 9999

  /**
   * `is_leap_year(year)`. Python's `%` rounds toward negative infinity, which
   * for the positive moduli used here agrees with Dafny's `%`.
   */
  function IsLeapYear(year: int): bool {
    year % 4 == 0 && (year % 100 != 0 || year % 400 == 0)
  }

  /** `get_last_day_of_month(month, year)`: the length of the month, or ValueError. */
  function GetLastDayOfMonth(month: int, year: int): (r: Result<int>)
    ensures r.Ok? <==> 1 <= month <= 12
    ensures r.Ok? ==> 28 <= r.value <= 31
    ensures r.Err? ==> r.error == ValueError("Invalid month")
  {
    if month in [1, 3, 5, 7, 8, 10, 12] then Ok(31)
    else if month in [4, 6, 9, 11] then Ok(30)
    else if month == 2 then (if IsLeapYear(year) then Ok(29) else Ok(28))
    else Err(ValueError("Invalid month"))
  }

  /** The leap years of the proleptic Gregorian calendar that `datetime` follows. */
  predicate IsGregorianLeapYear(year: int) {
    year % 400 == 0 || (year % 4 == 0 && year % 100 != 0)
  }

  /** The length of a month in the calendar `datetime` follows, independent of the table above. */
  function DaysInMonth(year: int, month: int): int
    requires 1 <= month <= 12
  {
    if month == 2 && IsGregorianLeapYear(year) then 29
    else [31, 28, 31, 30, 31, 30, 31, 31, 30, 31, 30, 31][month - 1]
  }

  /** `get_last_day_of_month` agrees with the calendar for every month of every year. */
  lemma LastDayOfMonthIsCalendar(month: int, year: int)
    requires 1 <= month <= 12
    ensures GetLastDayOfMonth(month, year) == Ok(DaysInMonth(year, month))
  {
    if month == 2 {
      LeapYearIsGregorian(year);
    }
  }

  /** `is_leap_year` is the Gregorian rule. */
  lemma LeapYearIsGregorian(year: int)
    ensures IsLeapYear(year) <==> IsGregorianLeapYear(year)
  {
  }

  /** A date that `datetime` accepts. */
  predicate IsValidDate(d: Date) {
    && MinYear <= d.year <= MaxYear
    && 1 <= d.month <= 12
    && 1 <= d.day <= DaysInMonth(d.year, d.month)
  }

  /** The constructor `datetime(year, month, day)`, which rejects a date that does not exist. */
  function NewDate(year: int, month: int, day: int): (r: Result<Date>)
    ensures r.Ok? <==> IsValidDate(Date(year, month, day))
    ensures r.Ok? ==> r.value == Date(year, month, day)
    ensures r.Err? ==> r.error == InvalidDate
  {
    if IsValidDate(Date(year, month, day)) then Ok(Date(year, month, day)) else Err(InvalidDate)
  }

  /** `is_last_day_of_month(date)`: the next day does not exist in the same month. */
  function IsLastDayOfMonth(d: Date): (r: bool)
    requires IsValidDate(d)
    ensures r <==> NewDate(d.year, d.month, d.day + 1).Err?
  {
    LastDayOfMonthIsCalendar(d.month, d.year);
    d.day == GetLastDayOfMonth(d.month, d.year).value
  }

  /** `is_last_month_of_year(date)`: no month follows in the same year. */
  function IsLastMonthOfYear(d: Date): (r: bool)
    requires IsValidDate(d)
    ensures r <==> NewDate(d.year, d.month + 1, 1).Err?
  {
    d.month == 12
  }

  /** `is_last_day_of_year(date)`: exactly the 31st of December. */
  function IsLastDayOfYear(d: Date): (r: bool)
    requires IsValidDate(d)
    ensures r <==> d.month == 12 && d.day == 31
  {
    IsLastMonthOfYear(d) && IsLastDayOfMonth(d)
  }

  /** `a` comes before `b` within a year: an earlier month, or the same month and an earlier day. */
  predicate EarlierInYear(a: Date, b: Date) {
    a.month < b.month || (a.month == b.month && a.day < b.day)
  }

  const MonthOverMessage := "This month is over."
  const YearOverMessage := "This year is over."

  /**
   * `get_future_date_this_month()`: a later day of the current month, drawn
   * from `randint(now.day + 1, last_day)`; it raises on the last day of the month.
   */
  function GetFutureDateThisMonth(now: Date, rawDay: nat): (r: Result<Date>)
    requires IsValidDate(now)
    ensures r.Err? <==> IsLastDayOfMonth(now)
    ensures r.Err? ==> r.error == Exception(MonthOverMessage)
    ensures r.Ok? ==> && IsValidDate(r.value)
                      && r.value.year == now.year && r.value.month == now.month
                      && now.day < r.value.day <= DaysInMonth(now.year, now.month)
  {
    if IsLastDayOfMonth(now) then Err(Exception(MonthOverMessage))
    else
      LastDayOfMonthIsCalendar(now.month, now.year);
      var maxDays := GetLastDayOfMonth(now.month, now.year).value;
      match RandomUtils.GetRandomIntInRange(now.day + 1, maxDays, rawDay)
      case Err(e) => Err(e)
      case Ok(day) => NewDate(now.year, now.month, day)
  }

  /**
   * `get_future_date_this_year()`: the month is drawn from the current month
   * on (from the next month on, on the last day of a month), then the day
   * from the day after `now` (in the current month) or from the 1st; it
   * raises on the last day of the year.
   */
  function GetFutureDateThisYear(now: Date, rawMonth: nat, rawDay: nat): (r: Result<Date>)
    requires IsValidDate(now)
    ensures r.Err? <==> IsLastDayOfYear(now)
    ensures r.Err? ==> r.error == Exception(YearOverMessage)
    ensures r.Ok? ==> && IsValidDate(r.value)
                      && r.value.year == now.year
                      && EarlierInYear(now, r.value)
  {
    if IsLastDayOfYear(now) then Err(Exception(YearOverMessage))
    else
      var firstMonth := if IsLastDayOfMonth(now) then now.month + 1 else now.month;
      match RandomUtils.GetRandomIntInRange(firstMonth, 12, rawMonth)
      case Err(e) => Err(e)
      case Ok(month) =>
        LastDayOfMonthIsCalendar(month, now.year);
        var maxDays := GetLastDayOfMonth(month, now.year).value;
        var firstDay := if month == now.month then now.day + 1 else 1;
        match RandomUtils.GetRandomIntInRange(firstDay, maxDays, rawDay)
        case Err(e) => Err(e)
        case Ok(day) => NewDate(now.year, month, day)
  }

  // Properties of the calendar model.

  /** The Gregorian rule at the century boundaries. */
  lemma LeapYearExamples()
    ensures IsLeapYear(2000) && IsLeapYear(2024)
    ensures !IsLeapYear(1900) && !IsLeapYear(2023)
  {
  }

  /** Leap years repeat every 400 years. */
  lemma LeapYearCycle(year: int)
    ensures IsLeapYear(year + 400) <==> IsLeapYear(year)
  {
    assert (year + 400) % 4 == year % 4;
    assert (year + 400) % 100 == year % 100;
    assert (year + 400) % 400 == year % 400;
  }

  /** February has 29 days exactly in leap years, and 28 otherwise. */
  lemma FebruaryLength(year: int)
    ensures GetLastDayOfMonth(2, year) == if IsLeapYear(year) then Ok(29) else Ok(28)
  {
  }

  /** The days of the months `1` to `month` of `year`. */
  function DaysThroughMonth(month: nat, year: int): (r: int)
    requires month <= 12
  {
    if month == 0 then 0 else DaysThroughMonth(month - 1, year) + GetLastDayOfMonth(month, year).value
  }

  /** The twelve month lengths add up to 366 in a leap year and 365 otherwise. */
  lemma YearLength(year: int)
    ensures DaysThroughMonth(12, year) == if IsLeapYear(year) then 366 else 365
  {
    var feb := GetLastDayOfMonth(2, year).value;
    assert DaysThroughMonth(1, year) == 31;
    assert DaysThroughMonth(2, year) == 31 + feb;
    assert DaysThroughMonth(3, year) == 62 + feb;
    assert DaysThroughMonth(4, year) == 92 + feb;
    assert DaysThroughMonth(5, year) == 123 + feb;
    assert DaysThroughMonth(6, year) == 153 + feb;
    assert DaysThroughMonth(7, year) == 184 + feb;
    assert DaysThroughMonth(8, year) == 215 + feb;
    assert DaysThroughMonth(9, year) == 245 + feb;
    assert DaysThroughMonth(10, year) == 276 + feb;
    assert DaysThroughMonth(11, year) == 306 + feb;
  }

  /** Every later day of the current month is a possible result. */
  lemma FutureDateThisMonthReachesAll(now: Date, d: Date)
    requires IsValidDate(now)
    requires d.year == now.year && d.month == now.month
    requires now.day < d.day <= DaysInMonth(now.year, now.month)
    ensures exists rawDay: nat :: GetFutureDateThisMonth(now, rawDay) == Ok(d)
  {
    LastDayOfMonthIsCalendar(now.month, now.year);
    var rawDay := d.day - now.day - 1;
    var maxDays := GetLastDayOfMonth(now.month, now.year).value;
    RandomUtils.GetRandomIntInRangeReachesAll(now.day + 1, maxDays, d.day);
    assert IsValidDate(d);
    assert GetFutureDateThisMonth(now, rawDay) == Ok(d);
  }

  /** Before 31 December, the draws that give month `m` and day `day` make the chooser build that date. */
  lemma FutureDateThisYearFromDraws(now: Date, rawMonth: nat, rawDay: nat, m: int, day: int)
    requires IsValidDate(now) && !IsLastDayOfYear(now)
    requires RandomUtils.GetRandomIntInRange(if IsLastDayOfMonth(now) then now.month + 1 else now.month, 12, rawMonth) == Ok(m)
    requires 1 <= m <= 12
    requires RandomUtils.GetRandomIntInRange(if m == now.month then now.day + 1 else 1,
                                             GetLastDayOfMonth(m, now.year).value, rawDay) == Ok(day)
    ensures GetFutureDateThisYear(now, rawMonth, rawDay) == NewDate(now.year, m, day)
  {
  }

  /** A later date of the same year is not preceded by 31 December and lies in a month the chooser draws from. */
  lemma FutureDateThisYearBounds(now: Date, d: Date)
    requires IsValidDate(now) && IsValidDate(d)
    requires d.year == now.year && EarlierInYear(now, d)
    ensures !IsLastDayOfYear(now)
    ensures (if IsLastDayOfMonth(now) then now.month + 1 else now.month) <= d.month
  {
  }

  /** Every later date of the current year is a possible result. */
  lemma FutureDateThisYearReachesAll(now: Date, d: Date)
    requires IsValidDate(now) && IsValidDate(d)
    requires d.year == now.year && EarlierInYear(now, d)
    ensures exists rawMonth: nat, rawDay: nat :: GetFutureDateThisYear(now, rawMonth, rawDay) == Ok(d)
  {
    FutureDateThisYearBounds(now, d);
    LastDayOfMonthIsCalendar(d.month, now.year);
    var firstMonth := if IsLastDayOfMonth(now) then now.month + 1 else now.month;
    var rawMonth: nat := d.month - firstMonth;
    RandomUtils.GetRandomIntInRangeReachesAll(firstMonth, 12, d.month);
    var firstDay := if d.month == now.month then now.day + 1 else 1;
    var maxDays := GetLastDayOfMonth(d.month, now.year).value;
    var rawDay: nat := d.day - firstDay;
    RandomUtils.GetRandomIntInRangeReachesAll(firstDay, maxDays, d.day);
    FutureDateThisYearFromDraws(now, rawMonth, rawDay, d.month, d.day);
    assert GetFutureDateThisYear(now, rawMonth, rawDay) == Ok(d);
  }
}
