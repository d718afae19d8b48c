/**
 * pkg/event/event.go: an event is a user id and a date, and three predicates
 * place it in a day, in the days of a week up to a given day, or in a month.
 * A time.Time is modelled by its calendar date in the proleptic Gregorian
 * calendar: year, month and day of month, from which YearDay is derived the
 * way Go derives it.
 */
module Event {

  datatype Date = Date(year: int, month: int, day: int)

  /** Go's leap-year rule. */
  predicate IsLeap(year: int) {
    year % 4 == 0 && (year % 100 != 0 || year % 400 == 0)
  }

  function DaysIn(month: int, year: int): (n: int)
    requires 1 <= month <= 12
    ensures 28 <= n <= 31
    ensures month == 2 ==> (n == 29 <==> IsLeap(year))
  {
    if month == 2 then (if IsLeap(year) then 29 else 28)
    else if month == 4 || month == 6 || month == 9 || month == 11 then 30
    else 31
  }

  predicate IsValid(d: Date) {
    1 <= d.month <= 12 && 1 <= d.day <= DaysIn(d.month, d.year)
  }

  /** The dates a time.Time can denote. */
  type CalendarDate = d: Date | IsValid(d) witness Date(1970, 1, 1)

  /** Days of the year before the first of the month: Go's daysBefore table, plus the leap day after February. */
  function DaysBefore(month: int, year: int): int
    requires 1 <= month <= 12
  {
    var table := [0, 31, 59, 90, 120, 151, 181, 212, 243, 273, 304, 334];
    table[month - 1] + if IsLeap(year) && month > 2 then 1 else 0
  }

  /** time.Time.YearDay: 1 on January 1st, 365 or 366 on December 31st. */
  function YearDay(d: CalendarDate): (r: int)
    ensures 1 <= r <= if IsLeap(d.year) then 366 else 365
  {
    DaysBefore(d.month, d.year) + d.day
  }

  /** Every day of a month comes before every day of a later month. */
  lemma MonthsInOrder(m: int, later: int, year: int)
    requires 1 <= m < later <= 12
    ensures DaysBefore(m, year) + DaysIn(m, year) <= DaysBefore(later, year)
  {
  }

  /** Within a year, the day of the year determines the date. */
  lemma YearDayDeterminesDate(d1: CalendarDate, d2: CalendarDate)
    requires d1.year == d2.year && YearDay(d1) == YearDay(d2)
    ensures d1 == d2
  {
    if d1.month < d2.month {
      MonthsInOrder(d1.month, d2.month, d1.year);
    } else if d2.month < d1.month {
      MonthsInOrder(d2.month, d1.month, d1.year);
    }
  }

  datatype Event = Event(userID: int, date: CalendarDate)

  /** event.New: an event holding the given user id and date, unchanged. */
  function New(userID: int, date: CalendarDate): (e: Event)
    ensures e.userID == userID && e.date == date
  {
    Event(userID, date)
  }

  /** Only days 1 to 365, or 366 in a leap year, hold any event. */
  predicate IncludeInDay(e: Event, year: int, yearDay: int)
    ensures IncludeInDay(e, year, yearDay) ==> 1 <= yearDay <= if IsLeap(year) then 366 else 365
  {
    e.date.year == year && YearDay(e.date) == yearDay
  }

  /**
   * The days from yearDay - weekday up to yearDay, all in the given year:
   * the event lies in one of those days, and no event lies in a week with
   * a negative weekday.
   */
  predicate IncludeInWeek(e: Event, year: int, yearDay: int, weekday: int)
    ensures IncludeInWeek(e, year, yearDay, weekday)
            <==> exists day :: yearDay - weekday <= day <= yearDay && IncludeInDay(e, year, day)
    ensures IncludeInWeek(e, year, yearDay, weekday) ==> 0 <= weekday
  {
    assert IncludeInDay(e, year, YearDay(e.date)) <==> e.date.year == year;
    e.date.year == year && YearDay(e.date) >= yearDay - weekday && YearDay(e.date) <= yearDay
  }

  /** A month holds events only when it is one of 1 to 12, and they fall in its run of year-days. */
  predicate IncludeInMonth(e: Event, year: int, month: int)
    ensures IncludeInMonth(e, year, month)
            ==> 1 <= month <= 12 && DaysBefore(month, year) < YearDay(e.date) <= DaysBefore(month, year) + DaysIn(month, year)
  {
    e.date.year == year && e.date.month == month
  }

  /** The month of an event of the year is exactly the month whose run of year-days holds its day of the year. */
  lemma MonthIsYearDayRange(e: Event, year: int, month: int)
    requires e.date.year == year && 1 <= month <= 12
    ensures IncludeInMonth(e, year, month)
            <==> DaysBefore(month, year) < YearDay(e.date) <= DaysBefore(month, year) + DaysIn(month, year)
  {
    if e.date.month < month {
      MonthsInOrder(e.date.month, month, year);
    } else if month < e.date.month {
      MonthsInOrder(month, e.date.month, year);
    }
  }

  /** An event is in the day of a date exactly when it falls on that date. */
  lemma DayMeansSameDate(e: Event, d: CalendarDate)
    ensures IncludeInDay(e, d.year, YearDay(d)) <==> e.date == d
  {
    if IncludeInDay(e, d.year, YearDay(d)) {
      YearDayDeterminesDate(e.date, d);
    }
  }

  /** An event in the day of a date is in that date's month. */
  lemma DayWithinMonth(e: Event, d: CalendarDate)
    requires IncludeInDay(e, d.year, YearDay(d))
    ensures IncludeInMonth(e, d.year, d.month)
  {
    DayMeansSameDate(e, d);
  }

  /**
   * The day lies within its week for every weekday offset from 0 on, and
   * with offset 0 (a Sunday) the week is that day alone.
   */
  lemma DayWithinWeek(e: Event, year: int, yearDay: int, weekday: int)
    ensures weekday >= 0 && IncludeInDay(e, year, yearDay) ==> IncludeInWeek(e, year, yearDay, weekday)
    ensures IncludeInWeek(e, year, yearDay, 0) <==> IncludeInDay(e, year, yearDay)
  {
  }

  /** The week never reaches past its reference day, nor into another year. */
  lemma WeekEndsAtDay(e: Event, year: int, yearDay: int, weekday: int)
    requires IncludeInWeek(e, year, yearDay, weekday)
    ensures e.date.year == year && YearDay(e.date) <= yearDay
  {
  }

  /** An event of another year is in none of the periods. */
  lemma OtherYearExcluded(e: Event, year: int, yearDay: int, weekday: int, month: int)
    requires e.date.year != year
    ensures !IncludeInDay(e, year, yearDay)
    ensures !IncludeInWeek(e, year, yearDay, weekday)
    ensures !IncludeInMonth(e, year, month)
  {
  }

  /**
   * The week of Thursday January 2nd (weekday 4) does not reach back into
   * December: the week is cut at the start of the year.
   */
  lemma WeekCutAtNewYear()
    ensures !IncludeInWeek(Event(1, Date(2024, 12, 30)), 2025, YearDay(Date(2025, 1, 2)), 4)
    ensures IncludeInWeek(Event(1, Date(2025, 1, 1)), 2025, YearDay(Date(2025, 1, 2)), 4)
  {
  }
}
