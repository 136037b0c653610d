/**
 The calendar itself, stated by the lengths of the months and one day following another, as the
 reference for both conversions of `IecCalendar`: no cumulative table, no closed form, no search.
 */
module IecAlmanac {

  import opened IecCalendar

  datatype Date = Date(day: int, month: int, year: int)

  predicate Leap(year: int) {
    if year % 100 == 0 then year % 400 == 0 else year % 4 == 0
  }

  function DaysIn(month: int, year: int): int {
    if month == 2 then (if Leap(year) then 29 else 28)
    else if month == 4 || month == 6 || month == 9 || month == 11 then 30
    else 31
  }

  predicate Exists(d: Date) {
    1 <= d.month <= 12 && 1 <= d.day <= DaysIn(d.month, d.year)
  }

  function NextDay(d: Date): Date {
    if d.day < DaysIn(d.month, d.year) then Date(d.day + 1, d.month, d.year)
    else if d.month < 12 then Date(1, d.month + 1, d.year)
    else Date(1, 1, d.year + 1)
  }

  function DayBefore(d: Date): Date {
    if d.day > 1 then Date(d.day - 1, d.month, d.year)
    else if d.month > 1 then Date(DaysIn(d.month - 1, d.year), d.month - 1, d.year)
    else Date(31, 12, d.year - 1)
  }

  /** The date `n` days after the epoch, or before it for a negative count. */
  function Almanac(n: int): Date
    decreases if n < 0 then -n else n
  {
    if n == 0 then Date(1, 1, 1970)
    else if n > 0 then NextDay(Almanac(n - 1))
    else DayBefore(Almanac(n + 1))
  }

  lemma DayBeforeUndoesNextDay(d: Date)
    requires Exists(d)
    ensures Exists(NextDay(d)) && DayBefore(NextDay(d)) == d
    ensures Exists(DayBefore(d)) && NextDay(DayBefore(d)) == d
  {
  }

  /** The table of the source is the running sum of the lengths of the months. */
  lemma MonthLengths(month: int, year: int)
    requires 1 <= month <= 12
    ensures MonthEnd(IsLeap(year), 0) == 0
    ensures MonthEnd(IsLeap(year), month) - MonthEnd(IsLeap(year), month - 1) == DaysIn(month, year)
  {
    LeapIsIsLeap(year);
    hide IsLeap, Leap;
  }

  lemma LeapIsIsLeap(year: int)
    ensures Leap(year) == IsLeap(year)
  {
  }

  /** The closed form numbers the days. */
  function Number(d: Date): int
    requires 1 <= d.month <= 12
  {
    DaysBefore(d.year) + MonthEnd(IsLeap(d.year), d.month - 1) + d.day - 1
  }

  lemma NextNumber(d: Date)
    requires Exists(d)
    ensures Exists(NextDay(d)) && Number(NextDay(d)) == Number(d) + 1
  {
    MonthLengths(d.month, d.year);
    MonthLengths(1, d.year + 1);
    OneYear(d.year);
    MonthEndsRise(IsLeap(d.year), 12);
    hide MonthEnd, DaysBefore, IsLeap, Leap;
  }

  lemma {:induction false} AlmanacNumber(n: int)
    ensures Exists(Almanac(n)) && Number(Almanac(n)) == n
    decreases if n < 0 then -n else n
  {
    if n > 0 {
      AlmanacNumber(n - 1);
      NextNumber(Almanac(n - 1));
    } else if n < 0 {
      AlmanacNumber(n + 1);
      DayBeforeUndoesNextDay(Almanac(n + 1));
      NextNumber(Almanac(n));
    }
  }

  lemma SecondsOfDate(d: Date)
    requires Exists(d)
    ensures DateToTimespec(d.day, d.month, d.year) == (Number(d) * 24 * 60 * 60, false)
  {
    hide MonthEnd, DaysBefore, IsLeap, DaysIn;
    MonthLengths(d.month, d.year);
  }

  /** Each day of the almanac is turned into the second it starts at, and no error is reported. */
  lemma DayOfAlmanacIsItsNumber(n: int)
    ensures var d := Almanac(n); Exists(d) && DateToTimespec(d.day, d.month, d.year) == (n * 86400, false)
  {
    hide Number, DateToTimespec, Almanac, Exists;
    AlmanacNumber(n);
    SecondsOfDate(Almanac(n));
  }

  /** Fields that are no date count on from the first of their month, and too many days are an error. */
  lemma AnyDayCountsOn(day: int, month: int, year: int)
    requires 1 <= month <= 12
    ensures DateToTimespec(day, month, year).0 == DateToTimespec(1, month, year).0 + (day - 1) * 86400
    ensures DateToTimespec(day, month, year).1 <==> day > DaysIn(month, year)
  {
    hide MonthEnd, DaysBefore, IsLeap, DaysIn;
    MonthLengths(month, year);
  }

  /** What the fields are for every second: the clock, and the date in the almanac or what stands for it. */
  predicate Shows(f: Fields, d: Date) {
    if d.day == 1 && d.month > 1
    then f.day == DaysIn(d.month - 1, d.year) + 1 && f.mon == d.month - 1 && f.year == d.year
    else f.day == d.day && f.mon == d.month && f.year == d.year
  }

  /**
   Every second count, negative ones too, is shown as the date that many days from the epoch, with
   the first day of each month from February on shown as one day too many of the month before.
   */
  lemma FieldsAreAlmanac(seconds: int)
    ensures Shows(Convert(seconds), Almanac(seconds / 86400))
    ensures Convert(seconds).hour == seconds % 86400 / 3600
    ensures Convert(seconds).min == seconds % 86400 % 3600 / 60 && Convert(seconds).sec == seconds % 86400 % 60
  {
    ClockOfDay(seconds);
    var n := seconds / SECONDS_PER_DAY;
    var d := Almanac(n);
    AlmanacNumber(n);
    DayOfAlmanacIsItsNumber(n);
    MonthLengths(d.month, d.year);
    if d.month > 1 { MonthLengths(d.month - 1, d.year); }
    hide MonthEnd, DaysBefore, IsLeap, Leap, Almanac, DaysIn, Convert, DateToTimespec;
    DateAndBack(d.day, d.month, d.year);
  }

  /** The date fields depend on the day alone. */
  lemma ClockOfDay(seconds: int)
    ensures var f, g := Convert(seconds), Convert(seconds / SECONDS_PER_DAY * 86400);
            f.day == g.day && f.mon == g.mon && f.year == g.year
    ensures var f, rem := Convert(seconds), seconds % 86400;
            f.hour == rem / 3600 && f.min == rem % 3600 / 60 && f.sec == rem % 60
  {
    hide CeilingYear, MonthEnd, SearchMonth, IsLeap;
  }

  /** The epoch, and 10 May 2023. */
  lemma TwoDays()
    ensures Convert(0) == Fields(0, 0, 0, 1, 1, 1970)
    ensures DateToTimespec(10, 5, 2023).0 == 1683676800 && Convert(1683676800) == Fields(0, 0, 0, 10, 5, 2023)
  {
    hide CeilingYear, SearchMonth, Convert;
    DateAndBack(1, 1, 1970);
    DateAndBack(10, 5, 2023);
  }
}
