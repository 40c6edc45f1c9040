/**
 * Calendar instants, standing in for JavaScript `Date` values read in local
 * time to the second. Months are numbered 1..12 here; `Date.getMonth()` is
 * `month - 1`.
 */
module Timestamps {

  datatype Timestamp = Timestamp(year: int, month: int, day: int, hour: int, minute: int, second: int)

  predicate IsLeapYear(year: int)
  {
    (year % 4 == 0 && year % 100 != 0) || year % 400 == 0
  }

  /** Days in a month of the proleptic Gregorian calendar that `Date` uses. */
  function DaysInMonth(year: int, month: int): (n: int)
    requires 1 <= month <= 12
    ensures 28 <= n <= 31
    ensures n == 29 <==> month == 2 && IsLeapYear(year)
  {
    if month == 2 then (if IsLeapYear(year) then 29 else 28)
    else if month == 4 || month == 6 || month == 9 || month == 11 then 30
    else 31
  }

  predicate Valid(t: Timestamp)
  {
    && 1 <= t.month <= 12
    && 1 <= t.day <= DaysInMonth(t.year, t.month)
    && 0 <= t.hour < 24 && 0 <= t.minute < 60 && 0 <= t.second < 60
  }

  /** `a < b` on dates: `a` is strictly earlier than `b`. */
  predicate Before(a: Timestamp, b: Timestamp)
  {
    if a.year != b.year then a.year < b.year
    else if a.month != b.month then a.month < b.month
    else if a.day != b.day then a.day < b.day
    else if a.hour != b.hour then a.hour < b.hour
    else if a.minute != b.minute then a.minute < b.minute
    else a.second < b.second
  }

  /** `a <= b` on dates. */
  predicate NotAfter(a: Timestamp, b: Timestamp)
  {
    !Before(b, a)
  }

  /**
   * `new Date(year, monthIndex, day, hour, minute, second)`: the month index is
   * zero-based and may run past December or before January (the year carries),
   * and day 0 names the last day of the previous month.
   */
  function MakeDate(year: int, monthIndex: int, day: int, hour: int, minute: int, second: int): (t: Timestamp)
    requires 0 <= day <= DaysInMonth(year + monthIndex / 12, monthIndex % 12 + 1)
    requires 0 <= hour < 24 && 0 <= minute < 60 && 0 <= second < 60
    ensures Valid(t)
    ensures (t.hour, t.minute, t.second) == (hour, minute, second)
    ensures day >= 1 ==> (t.year, t.month, t.day) == (year + monthIndex / 12, monthIndex % 12 + 1, day)
    ensures day == 0 ==>
      && t.day == DaysInMonth(t.year, t.month)
      && (if t.month == 12 then (t.year + 1, 1) else (t.year, t.month + 1))
         == (year + monthIndex / 12, monthIndex % 12 + 1)
  {
    var y := year + monthIndex / 12;
    var m := monthIndex % 12 + 1;
    if day > 0 then Timestamp(y, m, day, hour, minute, second)
    else if m == 1 then Timestamp(y - 1, 12, DaysInMonth(y - 1, 12), hour, minute, second)
    else Timestamp(y, m - 1, DaysInMonth(y, m - 1), hour, minute, second)
  }
}
