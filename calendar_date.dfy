/**
  Calendar days as XDate (a wrapper around the JavaScript Date object) sees them once the
  time of day is cleared: a year, a month and a day of the month in the proleptic Gregorian
  calendar. Months are numbered 1 to 12 here (JavaScript numbers them 0 to 11; only equality
  of month numbers is ever observed by the component, so the shift changes nothing).

  The setters of a JavaScript Date accept out-of-range fields and normalise them: month 13
  is January of the next year, day 0 is the last day of the previous month, and 31 February
  is 2 or 3 March. `Normalize` is that rule; `AddMonths`, `AddDays` and `SetDate` are the
  XDate operations built on it (without XDate's optional overflow protection).
*/
module CalendarDate {

  datatype Date = Date(year: int, month: int, day: int)

  predicate IsLeapYear(year: int)
  {
    year % 4 == 0 && (year % 100 != 0 || year % 400 == 0)
  }

  function DaysInMonth(year: int, month: int): (n: int)
    requires 1 <= month <= 12
    ensures 28 <= n <= 31
  {
    if month == 2 then (if IsLeapYear(year) then 29 else 28)
    else if month == 4 || month == 6 || month == 9 || month == 11 then 30
    else 31
  }

  /** A date whose month and day are in range: every value a Date object can hold. */
  predicate Valid(d: Date)
  {
    1 <= d.month <= 12 && 1 <= d.day <= DaysInMonth(d.year, d.month)
  }

  type Day = d: Date | Valid(d) witness Date(1970, 1, 1)

  /** Months elapsed since January of year 0; consecutive calendar months differ by one. */
  function MonthCount(year: int, month: int): int
  {
    year * 12 + month - 1
  }

  function YearOfCount(count: int): int
  {
    count / 12
  }

  function MonthOfCount(count: int): (m: int)
    ensures 1 <= m <= 12
  {
    count % 12 + 1
  }

  lemma CountOfValidMonth(year: int, month: int)
    requires 1 <= month <= 12
    ensures YearOfCount(MonthCount(year, month)) == year
    ensures MonthOfCount(MonthCount(year, month)) == month
  {
    var c := MonthCount(year, month);
    assert c == year * 12 + (month - 1) && 0 <= month - 1 < 12;
  }

  /**
    JavaScript's `MakeDay`: the year and month are first brought into range (carrying
    whole years), then surplus days roll forward into later months and missing days
    roll back into earlier ones.
  */
  function Normalize(year: int, month: int, day: int): Day
    decreases if day < 1 then 1 else 0, if day < 1 then -day else day
  {
    var count := MonthCount(year, month);
    var y, m := YearOfCount(count), MonthOfCount(count);
    if day < 1 then
      var py, pm := YearOfCount(count - 1), MonthOfCount(count - 1);
      Normalize(py, pm, day + DaysInMonth(py, pm))
    else if day > DaysInMonth(y, m) then
      Normalize(y, m + 1, day - DaysInMonth(y, m))
    else
      Date(y, m, day)
  }

  /** `d.setDate(n)`: the day of the month replaced by `n`, normalised. */
  function SetDate(d: Day, n: int): Day
  {
    Normalize(d.year, d.month, n)
  }

  /** `d.addMonths(n)` without overflow protection: the month moves, the day stays and may overflow. */
  function AddMonths(d: Day, n: int): Day
  {
    Normalize(d.year, d.month + n, d.day)
  }

  /** `d.addDays(n)`. */
  function AddDays(d: Day, n: int): Day
  {
    Normalize(d.year, d.month, d.day + n)
  }

  /** The calendar month before and after (year, month), as (year, month) pairs. */
  function PreviousYearMonth(year: int, month: int): (r: (int, int))
    requires 1 <= month <= 12
    ensures 1 <= r.1 <= 12 && MonthCount(r.0, r.1) == MonthCount(year, month) - 1
  {
    if month == 1 then (year - 1, 12) else (year, month - 1)
  }

  function NextYearMonth(year: int, month: int): (r: (int, int))
    requires 1 <= month <= 12
    ensures 1 <= r.1 <= 12 && MonthCount(r.0, r.1) == MonthCount(year, month) + 1
  {
    if month == 12 then (year + 1, 1) else (year, month + 1)
  }

  /** A day that is already in range is left alone by the normalisation. */
  lemma NormalizeInRange(year: int, month: int, day: int)
    requires Valid(Date(year, month, day))
    ensures Normalize(year, month, day) == Date(year, month, day)
  {
    CountOfValidMonth(year, month);
  }

  /** A day past the end of a month lands in the following month, if it fits there. */
  lemma NormalizeOverflow(year: int, month: int, day: int)
    requires 1 <= month <= 12
    requires DaysInMonth(year, month) < day
    requires day - DaysInMonth(year, month) <= DaysInMonth(NextYearMonth(year, month).0, NextYearMonth(year, month).1)
    ensures Normalize(year, month, day)
         == Date(NextYearMonth(year, month).0, NextYearMonth(year, month).1, day - DaysInMonth(year, month))
  {
    CountOfValidMonth(year, month);
    var (ny, nm) := NextYearMonth(year, month);
    CountOfValidMonth(ny, nm);
    assert MonthCount(year, month + 1) == MonthCount(ny, nm);
    NormalizeInRange(ny, nm, day - DaysInMonth(year, month));
  }

  /** Day 0 of a month is the last day of the month before. */
  lemma NormalizeDayZero(year: int, month: int)
    requires 1 <= month <= 12
    ensures Normalize(year, month, 0)
         == Date(PreviousYearMonth(year, month).0, PreviousYearMonth(year, month).1,
                 DaysInMonth(PreviousYearMonth(year, month).0, PreviousYearMonth(year, month).1))
  {
    CountOfValidMonth(year, month);
    var (py, pm) := PreviousYearMonth(year, month);
    CountOfValidMonth(py, pm);
    NormalizeInRange(py, pm, DaysInMonth(py, pm));
  }

  // ---------------------------------------------------------------------------------
  // Time values. XDate compares dates by their time value; for dates whose time of day
  // is cleared, that order is the order of the day's serial number counted from 1 January
  // of year 0.

  function DaysInYear(year: int): int
  {
    if IsLeapYear(year) then 366 else 365
  }

  function DaysBeforeMonth(year: int, month: int): (n: int)
    requires 1 <= month <= 12
  {
    var cumulative := [0, 31, 59, 90, 120, 151, 181, 212, 243, 273, 304, 334];
    cumulative[month - 1] + (if month > 2 && IsLeapYear(year) then 1 else 0)
  }

  function DaysBeforeYear(year: int): int
    decreases if year < 0 then -year else year
  {
    if year == 0 then 0
    else if year > 0 then DaysBeforeYear(year - 1) + DaysInYear(year - 1)
    else DaysBeforeYear(year + 1) - DaysInYear(year)
  }

  function DayNumber(d: Day): int
  {
    DaysBeforeYear(d.year) + DaysBeforeMonth(d.year, d.month) + d.day - 1
  }

  /** Calendar order: by year, then month, then day. */
  predicate CalendarBefore(a: Date, b: Date)
  {
    a.year < b.year
    || (a.year == b.year && a.month < b.month)
    || (a.year == b.year && a.month == b.month && a.day < b.day)
  }

  /** Each month's days sit right after the previous month's, and December ends the year. */
  lemma DaysBeforeNextMonth(year: int, month: int)
    requires 1 <= month <= 12
    ensures month < 12 ==> DaysBeforeMonth(year, month + 1) == DaysBeforeMonth(year, month) + DaysInMonth(year, month)
    ensures month == 12 ==> DaysInYear(year) == DaysBeforeMonth(year, month) + DaysInMonth(year, month)
  {
  }

  lemma {:induction false} DaysBeforeMonthMonotone(year: int, m1: int, m2: int)
    requires 1 <= m1 < m2 <= 12
    ensures DaysBeforeMonth(year, m1) + DaysInMonth(year, m1) <= DaysBeforeMonth(year, m2)
    decreases m2 - m1
  {
    if m1 + 1 < m2 {
      DaysBeforeMonthMonotone(year, m1 + 1, m2);
      DaysBeforeNextMonth(year, m1 + 1);
    }
    DaysBeforeNextMonth(year, m1);
  }

  lemma DaysBeforeYearStep(year: int)
    ensures DaysBeforeYear(year + 1) == DaysBeforeYear(year) + DaysInYear(year)
  {
  }

  lemma {:induction false} DaysBeforeYearMonotone(y1: int, y2: int)
    requires y1 < y2
    ensures DaysBeforeYear(y1) + DaysInYear(y1) <= DaysBeforeYear(y2)
    decreases y2 - y1
  {
    DaysBeforeYearStep(y1);
    if y1 + 1 < y2 {
      DaysBeforeYearMonotone(y1 + 1, y2);
    }
  }

  /** A day's serial number lies inside its year. */
  lemma DayNumberInYear(d: Day)
    ensures DaysBeforeYear(d.year) <= DayNumber(d) < DaysBeforeYear(d.year) + DaysInYear(d.year)
  {
    if d.month < 12 {
      DaysBeforeMonthMonotone(d.year, d.month, 12);
    }
    DaysBeforeNextMonth(d.year, 12);
  }

  /** Comparing time values of day-truncated dates is comparing them in calendar order. */
  lemma DayNumberOrder(a: Day, b: Day)
    ensures DayNumber(a) < DayNumber(b) <==> CalendarBefore(a, b)
    ensures DayNumber(a) == DayNumber(b) <==> a == b
  {
    if a.year < b.year {
      DayNumberInYear(a);
      DayNumberInYear(b);
      DaysBeforeYearMonotone(a.year, b.year);
    } else if b.year < a.year {
      DayNumberInYear(a);
      DayNumberInYear(b);
      DaysBeforeYearMonotone(b.year, a.year);
    } else if a.month < b.month {
      DaysBeforeMonthMonotone(a.year, a.month, b.month);
    } else if b.month < a.month {
      DaysBeforeMonthMonotone(a.year, b.month, a.month);
    }
  }
}
