/** Calendar dates and times of day as the reservation code uses them:
    proleptic Gregorian dates in Python's range 1..9999 and minute-precision
    times of day. */
module Calendar {

  const MinYear: int := 1
  const MaxYear: int := 9999
  const MinutesPerDay: int := 24 * 60

  /** Gregorian leap year rule, which `datetime.date` applies. */
  predicate IsLeapYear(year: int) {
    year % 4 == 0 && (year % 100 != 0 || year % 400 == 0)
  }

  function DaysInMonth(month: int, year: int): (n: int)
    requires 1 <= month <= 12
    ensures 28 <= n <= 31
    ensures n == 29 <==> month == 2 && IsLeapYear(year)
  {
    if month == 2 then (if IsLeapYear(year) then 29 else 28)
    else if month == 4 || month == 6 || month == 9 || month == 11 then 30
    else 31
  }

  datatype CalendarDate = CalendarDate(day: int, month: int, year: int)

  /** A triple `datetime.date(year, month, day)` accepts without `ValueError`. */
  predicate IsValidDate(d: CalendarDate) {
    && MinYear <= d.year <= MaxYear
    && 1 <= d.month <= 12
    && 1 <= d.day <= DaysInMonth(d.month, d.year)
  }

  type Date = d: CalendarDate | IsValidDate(d) witness CalendarDate(1, 1, 1)

  /** Minutes since midnight; `HH:MM` is `60 * HH + MM`. */
  type TimeOfDay = m: int | 0 <= m < MinutesPerDay

  /** Strictly earlier calendar day. */
  predicate Before(a: CalendarDate, b: CalendarDate) {
    || a.year < b.year
    || (a.year == b.year && a.month < b.month)
    || (a.year == b.year && a.month == b.month && a.day < b.day)
  }

  lemma BeforeIsStrictTotalOrder(a: CalendarDate, b: CalendarDate, c: CalendarDate)
    ensures !Before(a, a)
    ensures Before(a, b) ==> !Before(b, a)
    ensures Before(a, b) && Before(b, c) ==> Before(a, c)
    ensures a == b || Before(a, b) || Before(b, a)
  {
  }

  function LastDate(): Date {
    CalendarDate(31, 12, MaxYear)
  }

  /** The calendar day after `d`: the next day of the month, else the first
      of the next month, else the first of January of the next year. */
  function NextDay(d: Date): (n: Date)
    requires d != LastDate()
    ensures Before(d, n)
    ensures forall e: CalendarDate :: IsValidDate(e) && Before(d, e) ==> e == n || Before(n, e)
  {
    if d.day < DaysInMonth(d.month, d.year) then CalendarDate(d.day + 1, d.month, d.year)
    else if d.month < 12 then CalendarDate(1, d.month + 1, d.year)
    else CalendarDate(1, 1, d.year + 1)
  }
}
