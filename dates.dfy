/** The slice of java.time the summary relies on: LocalDate, YearMonth, the length of a
    month under the proleptic Gregorian calendar, and date order. */
module Dates {
  type MonthOfYear = m: int | 1 <= m <= 12 witness 1

  /** java.time.YearMonth; its month is always 1..12. */
  datatype YearMonth = YearMonth(year: int, month: MonthOfYear)

  /** The Gregorian rule java.time uses. The remainders are only compared with 0, so Java's
      truncating `%` and Dafny's Euclidean `%` agree here, negative years included. */
  predicate IsLeapYear(year: int) {
    year % 4 == 0 && (year % 100 != 0 || year % 400 == 0)
  }

  /** `YearMonth.lengthOfMonth()`. */
  function LengthOfMonth(ym: YearMonth): (n: int)
    ensures 28 <= n <= 31
    ensures n == 29 <==> ym.month == 2 && IsLeapYear(ym.year)
    ensures n == 28 <==> ym.month == 2 && !IsLeapYear(ym.year)
  {
    if ym.month == 2 then (if IsLeapYear(ym.year) then 29 else 28)
    else if ym.month == 4 || ym.month == 6 || ym.month == 9 || ym.month == 11 then 30
    else 31
  }

  datatype Ymd = Ymd(year: int, month: MonthOfYear, day: int)

  predicate IsValidDate(d: Ymd) {
    1 <= d.day <= LengthOfMonth(YearMonth(d.year, d.month))
  }

  /** java.time.LocalDate: a day that exists in the calendar. */
  type LocalDate = d: Ymd | IsValidDate(d) witness Ymd(1970, 1, 1)

  /** `!a.isAfter(b)`: dates compare by year, then month, then day. */
  predicate IsOnOrBefore(a: LocalDate, b: LocalDate) {
    a.year < b.year
    || (a.year == b.year && (a.month < b.month || (a.month == b.month && a.day <= b.day)))
  }

  /** SQL `d BETWEEN start AND end`, which includes both bounds. */
  predicate IsBetween(d: LocalDate, start: LocalDate, end: LocalDate) {
    IsOnOrBefore(start, d) && IsOnOrBefore(d, end)
  }

  /** `ym.atDay(1)`. */
  function StartOfMonth(ym: YearMonth): LocalDate {
    Ymd(ym.year, ym.month, 1)
  }

  /** `ym.atEndOfMonth()`. */
  function EndOfMonth(ym: YearMonth): LocalDate {
    Ymd(ym.year, ym.month, LengthOfMonth(ym))
  }

  /** The inclusive range from the first to the last day of a month holds exactly the
      dates of that month. */
  lemma MonthRange(d: LocalDate, ym: YearMonth)
    ensures IsBetween(d, StartOfMonth(ym), EndOfMonth(ym)) <==> d.year == ym.year && d.month == ym.month
  {
  }
}
