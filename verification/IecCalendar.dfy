/**
 Seconds since the epoch to calendar fields and back. The way there searches year by year and
 month by month; the way back has a closed form for the leap days. They agree on every day, but
 the month search stops a month early on the first day of each month from February on.
 */
module IecCalendar {

  const EPOCH_YEAR := 1970
  const SECONDS_PER_HOUR := 3600
  const SECONDS_PER_DAY := 86400

  /** C division and remainder, towards zero. */
  function Quot(a: int, b: int): int
    requires b > 0
  {
    if a >= 0 then a / b else -((-a) / b)
  }

  function Rem(a: int, b: int): int
    requires b > 0
  {
    a - b * Quot(a, b)
  }

  predicate IsLeap(year: int) {
    year % 4 == 0 && (year % 100 != 0 || year % 400 == 0)
  }

  function YearLength(year: int): int {
    if IsLeap(year) then 366 else 365
  }

  /** __mon_yday: the days of a year before and up to the end of each month. */
  function MonthEnd(leap: bool, month: int): int
    requires 0 <= month <= 12
  {
    (if leap
     then [0, 31, 60, 91, 121, 152, 182, 213, 244, 274, 305, 335, 366]
     else [0, 31, 59, 90, 120, 151, 181, 212, 243, 273, 304, 334, 365])[month]
  }

  lemma MonthEndsRise(leap: bool, month: int)
    requires 1 <= month <= 12
    ensures MonthEnd(leap, month - 1) + 28 <= MonthEnd(leap, month) <= MonthEnd(leap, 12) == if leap then 366 else 365
    ensures MonthEnd(leap, 0) == 0
  {
  }

  datatype Fields = Fields(sec: int, min: int, hour: int, day: int, mon: int, year: int)

  // ---------- seconds to fields ----------

  function CeilingYear(days: int, year: int): (int, int)
    decreases days < 0, if days < 0 then -days else days
  {
    if days >= YearLength(year) then CeilingYear(days - YearLength(year), year + 1)
    else if days < 0 then CeilingYear(days + YearLength(year - 1), year - 1)
    else (year, days)
  }

  /** The month search: the first month whose end is not before `yday`, which it should have to be after. */
  function SearchMonth(leap: bool, yday: int, mon: int): (m: int)
    requires 1 <= mon <= 12 && yday <= MonthEnd(leap, 12)
    ensures mon <= m <= 12 && yday <= MonthEnd(leap, m) && (m > mon ==> MonthEnd(leap, m - 1) < yday)
    decreases 12 - mon
  {
    if yday > MonthEnd(leap, mon) then
      assert mon < 12;
      SearchMonth(leap, yday, mon + 1)
    else mon
  }

  lemma YearFound(days: int, year: int)
    ensures var (y, yday) := CeilingYear(days, year); 0 <= yday < YearLength(y)
    decreases days < 0, if days < 0 then -days else days
  {
  }

  function Convert(seconds: int): Fields {
    var days, rem := seconds / SECONDS_PER_DAY, seconds % SECONDS_PER_DAY;
    var (year, yday) := CeilingYear(days, EPOCH_YEAR);
    YearFound(days, EPOCH_YEAR);
    MonthEndsRise(IsLeap(year), 12);
    var mon := SearchMonth(IsLeap(year), yday, 1);
    Fields(rem % 60, rem % SECONDS_PER_HOUR / 60, rem / SECONDS_PER_HOUR, yday - MonthEnd(IsLeap(year), mon - 1) + 1, mon, year)
  }

  /** convert_seconds_to_date_and_time */
  method ConvertSecondsToDateAndTime(seconds: int) returns (dt: Fields)
    ensures dt == Convert(seconds)
  {
    var days, rem := Quot(seconds, SECONDS_PER_DAY), Rem(seconds, SECONDS_PER_DAY);
    if rem < 0 {
      rem := rem + SECONDS_PER_DAY;
      days := days - 1;
    }
    QuotThenAdjust(seconds);
    var hour := rem / SECONDS_PER_HOUR;
    rem := rem % SECONDS_PER_HOUR;
    var min, sec := rem / 60, rem % 60;
    var year, yday := FindYear(days);
    var mon := FindMonth(IsLeap(year), yday);
    dt := Fields(sec, min, hour, yday - MonthEnd(IsLeap(year), mon - 1) + 1, mon, year);
  }

  /** The two year loops: forward while the days fill a year, back while they are negative. */
  method FindYear(daysFromEpoch: int) returns (year: int, days: int)
    ensures (year, days) == CeilingYear(daysFromEpoch, EPOCH_YEAR) && 0 <= days < YearLength(year)
  {
    year, days := EPOCH_YEAR, daysFromEpoch;
    while days >= YearLength(year)
      invariant CeilingYear(days, year) == CeilingYear(daysFromEpoch, EPOCH_YEAR)
      decreases days
    {
      days, year := days - YearLength(year), year + 1;
    }
    while days < 0
      invariant CeilingYear(days, year) == CeilingYear(daysFromEpoch, EPOCH_YEAR) && days < YearLength(year)
      decreases -days
    {
      year := year - 1;
      days := days + YearLength(year);
    }
  }

  /** The month loop. */
  method FindMonth(leap: bool, days: int) returns (mon: int)
    requires days < if leap then 366 else 365
    ensures MonthEnd(leap, 12) == (if leap then 366 else 365) && mon == SearchMonth(leap, days, 1)
  {
    MonthEndsRise(leap, 12);
    mon := 1;
    while days > MonthEnd(leap, mon)
      invariant 1 <= mon <= 12 && SearchMonth(leap, days, mon) == SearchMonth(leap, days, 1)
      decreases 12 - mon
    {
      mon := mon + 1;
    }
  }

  lemma QuotThenAdjust(a: int)
    ensures var q, r := Quot(a, SECONDS_PER_DAY), Rem(a, SECONDS_PER_DAY);
            if r < 0 then a / SECONDS_PER_DAY == q - 1 && a % SECONDS_PER_DAY == r + SECONDS_PER_DAY
            else a / SECONDS_PER_DAY == q && a % SECONDS_PER_DAY == r
    ensures a % SECONDS_PER_DAY % SECONDS_PER_HOUR % 60 == a % SECONDS_PER_DAY % 60
  {
  }

  // ---------- fields to seconds ----------

  /** a4, a100 and a400 of a year, with the shifts and the corrected divisions of the source. */
  function FourYears(year: int): int {
    year / 4 - if year % 4 == 0 then 1 else 0
  }

  function Centuries(a4: int): int {
    Quot(a4, 25) - if Rem(a4, 25) < 0 then 1 else 0
  }

  function InterveningLeapDays(year: int): int {
    var a4, b4 := FourYears(year), FourYears(EPOCH_YEAR);
    var a100, b100 := Centuries(a4), Centuries(b4);
    (a4 - b4) - (a100 - b100) + (a100 / 4 - b100 / 4)
  }

  /** The days from the epoch to the first day of a year. */
  function DaysBefore(year: int): int {
    (year - EPOCH_YEAR) * 365 + InterveningLeapDays(year)
  }

  /** __date_to_timespec: the seconds, and whether __iec_error was called for the day of the year. */
  function DateToTimespec(day: int, month: int, year: int): (int, bool)
    requires 1 <= month <= 12
  {
    var yday := MonthEnd(IsLeap(year), month - 1) + day;
    ((DaysBefore(year) + yday - 1) * 24 * 60 * 60, yday > MonthEnd(IsLeap(year), month))
  }

  /** The leap days counted one year at a time. */
  function LeapDaysByYear(year: int): int
    decreases if year < EPOCH_YEAR then EPOCH_YEAR - year else year - EPOCH_YEAR
  {
    if year == EPOCH_YEAR then 0
    else if year > EPOCH_YEAR then LeapDaysByYear(year - 1) + (if IsLeap(year - 1) then 1 else 0)
    else LeapDaysByYear(year + 1) - (if IsLeap(year) then 1 else 0)
  }

  lemma FourYearsIsFloor(year: int)
    ensures FourYears(year) == (year - 1) / 4 && Centuries(FourYears(year)) == (year - 1) / 100
    ensures Centuries(FourYears(year)) / 4 == (year - 1) / 400
  {
  }

  lemma OneYear(year: int)
    ensures InterveningLeapDays(year + 1) == InterveningLeapDays(year) + if IsLeap(year) then 1 else 0
    ensures DaysBefore(year + 1) == DaysBefore(year) + YearLength(year)
  {
    FourYearsIsFloor(year);
    FourYearsIsFloor(year + 1);
    MultiplesPassed(year);
    hide FourYears, Centuries;
  }

  /** Going from one year to the next passes a multiple of 4, 100 or 400 exactly when the year is one. */
  lemma MultiplesPassed(year: int)
    ensures year / 4 == (year - 1) / 4 + if year % 4 == 0 then 1 else 0
    ensures year / 100 == (year - 1) / 100 + if year % 100 == 0 then 1 else 0
    ensures year / 400 == (year - 1) / 400 + if year % 400 == 0 then 1 else 0
    ensures (year % 400 == 0 ==> year % 100 == 0) && (year % 100 == 0 ==> year % 4 == 0)
  {
  }

  /** The closed form counts what the years count. */
  lemma {:induction false} ClosedFormCountsLeapDays(year: int)
    ensures InterveningLeapDays(year) == LeapDaysByYear(year)
    decreases if year < EPOCH_YEAR then EPOCH_YEAR - year else year - EPOCH_YEAR
  {
    if year > EPOCH_YEAR {
      ClosedFormCountsLeapDays(year - 1);
      OneYear(year - 1);
    } else if year < EPOCH_YEAR {
      ClosedFormCountsLeapDays(year + 1);
      OneYear(year);
    }
  }

  // ---------- there and back ----------

  lemma {:induction false} YearSearchIsClosedForm(days: int, year: int)
    ensures var (y, yday) := CeilingYear(days, year);
            DaysBefore(year) + days == DaysBefore(y) + yday && 0 <= yday < YearLength(y)
    decreases days < 0, if days < 0 then -days else days
  {
    hide DaysBefore, YearLength;
    LengthPositive(year);
    LengthPositive(year - 1);
    if days >= YearLength(year) {
      OneYear(year);
      YearSearchIsClosedForm(days - YearLength(year), year + 1);
    } else if days < 0 {
      OneYear(year - 1);
      YearSearchIsClosedForm(days + YearLength(year - 1), year - 1);
    }
  }

  lemma LengthPositive(year: int)
    ensures YearLength(year) > 0
  {
  }

  /** The start of the day a second belongs to, and the day counted from the epoch. */
  function StartOfDay(seconds: int): int {
    seconds - seconds % SECONDS_PER_DAY
  }

  /** Any second count, negative ones too, comes back as the start of its day. */
  lemma ConvertAndBack(seconds: int)
    ensures var f := Convert(seconds);
            && 1 <= f.mon <= 12 && 1 <= f.day && 0 <= f.hour < 24 && 0 <= f.min < 60 && 0 <= f.sec < 60
            && DateToTimespec(f.day, f.mon, f.year).0 == StartOfDay(seconds)
            && StartOfDay(seconds) + f.hour * 3600 + f.min * 60 + f.sec == seconds
  {
    YearSearchIsClosedForm(seconds / SECONDS_PER_DAY, EPOCH_YEAR);
    var f := Convert(seconds);
    MonthEndsRise(IsLeap(f.year), f.mon);
  }

  /** A day that the calendar has. */
  predicate ValidDate(day: int, month: int, year: int) {
    1 <= month <= 12 && 1 <= day <= MonthEnd(IsLeap(year), month) - MonthEnd(IsLeap(year), month - 1)
  }

  lemma {:induction false} YearOfDay(days: int, year: int, y: int, yday: int)
    requires 0 <= yday < YearLength(y) && DaysBefore(year) + days == DaysBefore(y) + yday
    ensures CeilingYear(days, year) == (y, yday)
  {
    hide DaysBefore, YearLength, CeilingYear;
    YearSearchIsClosedForm(days, year);
    var (y', yday') := CeilingYear(days, year);
    if y' < y { YearsRise(y' + 1, y); OneYear(y'); }
    if y < y' { YearsRise(y + 1, y'); OneYear(y); }
  }

  lemma {:induction false} YearsRise(a: int, b: int)
    requires a <= b
    ensures DaysBefore(a) <= DaysBefore(b)
    decreases b - a
  {
    if a < b {
      OneYear(b - 1);
      YearsRise(a, b - 1);
    }
  }

  /** The search from January: one month early exactly on first days from February on. */
  lemma MonthSearched(leap: bool, yday: int, month: int)
    requires 1 <= month <= 12 && MonthEnd(leap, month - 1) <= yday < MonthEnd(leap, month)
    ensures SearchMonth(leap, yday, 1) == if yday == MonthEnd(leap, month - 1) && month > 1 then month - 1 else month
  {
    var m := SearchMonth(leap, yday, 1);
    if m < month { MonthsRise(leap, m, month - 1); }
    if month < m { MonthsRise(leap, month, m - 1); }
    if m < month - 1 {
      MonthsRise(leap, m + 1, month - 1);
      MonthEndsRise(leap, m + 1);
    }
  }

  lemma {:induction false} MonthsRise(leap: bool, a: int, b: int)
    requires 0 <= a <= b <= 12
    ensures MonthEnd(leap, a) <= MonthEnd(leap, b)
    decreases b - a
  {
    if a < b {
      MonthEndsRise(leap, b);
      MonthsRise(leap, a, b - 1);
    }
  }

  /**
   A date turned into seconds and back is the same date, except for the first day of a month from
   February on, which comes back as one day too many of the month before.
   */
  lemma DateAndBack(day: int, month: int, year: int)
    requires ValidDate(day, month, year)
    ensures var f := Convert(DateToTimespec(day, month, year).0);
            if day == 1 && month > 1
            then f == Fields(0, 0, 0, MonthEnd(IsLeap(year), month - 1) - MonthEnd(IsLeap(year), month - 2) + 1, month - 1, year)
            else f == Fields(0, 0, 0, day, month, year)
  {
    var leap, yday := IsLeap(year), MonthEnd(IsLeap(year), month - 1) + day - 1;
    var days := DaysBefore(year) + yday;
    DateIsDay(day, month, year);
    WholeDays(days);
    ConvertWholeDays(days, year, yday);
    MonthSearched(leap, yday, month);
    hide MonthEnd, DaysBefore, CeilingYear, SearchMonth, IsLeap, Convert;
  }

  lemma DateIsDay(day: int, month: int, year: int)
    requires ValidDate(day, month, year)
    ensures var yday := MonthEnd(IsLeap(year), month - 1) + day - 1;
            && 0 <= yday < YearLength(year) == MonthEnd(IsLeap(year), 12)
            && DateToTimespec(day, month, year).0 == (DaysBefore(year) + yday) * 24 * 60 * 60
            && CeilingYear(DaysBefore(year) + yday, EPOCH_YEAR) == (year, yday)
  {
    assert DaysBefore(EPOCH_YEAR) == 0;
    hide DaysBefore, CeilingYear, IsLeap;
    var leap := IsLeap(year);
    var yday := MonthEnd(leap, month - 1) + day - 1;
    MonthEndsRise(leap, month);
    MonthsRise(leap, 0, month - 1);
    MonthsRise(leap, month, 12);
    YearOfDay(DaysBefore(year) + yday, EPOCH_YEAR, year, yday);
  }

  lemma ConvertWholeDays(days: int, year: int, yday: int)
    requires CeilingYear(days, EPOCH_YEAR) == (year, yday) && 0 <= yday <= MonthEnd(IsLeap(year), 12)
    ensures var mon := SearchMonth(IsLeap(year), yday, 1);
            Convert(days * 24 * 60 * 60) == Fields(0, 0, 0, yday - MonthEnd(IsLeap(year), mon - 1) + 1, mon, year)
  {
    hide MonthEnd, CeilingYear, SearchMonth, IsLeap;
    WholeDays(days);
  }

  lemma WholeDays(days: int)
    ensures var s := days * 24 * 60 * 60; s / SECONDS_PER_DAY == days && s % SECONDS_PER_DAY == 0
  {
  }

  /** The way back notices: it reports an error exactly for the fields that are no calendar date. */
  lemma ErrorIffNoDate(seconds: int)
    ensures var f := Convert(seconds);
            DateToTimespec(f.day, f.mon, f.year).1 <==> !ValidDate(f.day, f.mon, f.year)
    ensures var f := Convert(seconds);
            !ValidDate(f.day, f.mon, f.year) <==> exists m :: 2 <= m <= 12 && StartOfDay(seconds) == DateToTimespec(1, m, f.year).0
  {
    var f := Convert(seconds);
    DayFound(seconds);
    if !ValidDate(f.day, f.mon, f.year) {
      assert StartOfDay(seconds) == DateToTimespec(1, f.mon + 1, f.year).0;
    }
    forall m | 2 <= m <= 12 && StartOfDay(seconds) == DateToTimespec(1, m, f.year).0
      ensures !ValidDate(f.day, f.mon, f.year)
    {
      FirstDayIsNoDate(seconds, m);
    }
  }

  /** The day of the year behind the fields: at most one more than the month has. */
  lemma DayFound(seconds: int)
    ensures var f := Convert(seconds);
            && 1 <= f.mon <= 12
            && var yday := MonthEnd(IsLeap(f.year), f.mon - 1) + f.day - 1;
            && StartOfDay(seconds) == (DaysBefore(f.year) + yday) * 24 * 60 * 60
            && 0 <= yday < YearLength(f.year) && f.mon == SearchMonth(IsLeap(f.year), yday, 1)
            && (!ValidDate(f.day, f.mon, f.year) <==> f.mon < 12 && yday == MonthEnd(IsLeap(f.year), f.mon))
  {
    FieldsFound(seconds);
    var f := Convert(seconds);
    hide Convert, IsLeap, DaysBefore, SearchMonth;
    var leap := IsLeap(f.year);
    var yday := MonthEnd(leap, f.mon - 1) + f.day - 1;
    DayOfYear(leap, yday, f.mon);
    hide MonthEnd;
  }

  lemma FieldsFound(seconds: int)
    ensures var f := Convert(seconds);
            && 1 <= f.mon <= 12
            && var yday := MonthEnd(IsLeap(f.year), f.mon - 1) + f.day - 1;
            && StartOfDay(seconds) == (DaysBefore(f.year) + yday) * 24 * 60 * 60
            && 0 <= yday < YearLength(f.year) && yday < MonthEnd(IsLeap(f.year), 12)
            && f.mon == SearchMonth(IsLeap(f.year), yday, 1)
  {
    hide *;
    var year, yday := YearAndDay(seconds);
    ConvertAndBack(seconds);
    SameStart(Convert(seconds), yday);
  }

  /** The date fields come from the year found and the day in it. */
  lemma YearAndDay(seconds: int) returns (year: int, yday: int)
    ensures var f := Convert(seconds);
            && 0 <= yday < YearLength(year) == MonthEnd(IsLeap(year), 12)
            && f.year == year && f.mon == SearchMonth(IsLeap(year), yday, 1)
            && f.day == yday - MonthEnd(IsLeap(year), f.mon - 1) + 1
  {
    year, yday := CeilingYear(seconds / SECONDS_PER_DAY, EPOCH_YEAR).0, CeilingYear(seconds / SECONDS_PER_DAY, EPOCH_YEAR).1;
    YearFound(seconds / SECONDS_PER_DAY, EPOCH_YEAR);
    MonthEndsRise(IsLeap(year), 12);
    hide MonthEnd, CeilingYear, SearchMonth, IsLeap;
  }

  lemma SameStart(f: Fields, yday: int)
    requires 1 <= f.mon <= 12 && f.day == yday - MonthEnd(IsLeap(f.year), f.mon - 1) + 1
    ensures DateToTimespec(f.day, f.mon, f.year).0 == (DaysBefore(f.year) + yday) * 24 * 60 * 60
  {
    hide MonthEnd, DaysBefore, IsLeap;
  }

  lemma DayOfYear(leap: bool, yday: int, mon: int)
    requires 0 <= yday < MonthEnd(leap, 12) && mon == SearchMonth(leap, yday, 1)
    ensures MonthEnd(leap, mon - 1) <= yday <= MonthEnd(leap, mon)
    ensures yday == MonthEnd(leap, mon) ==> mon < 12
  {
    MonthEndsRise(leap, 1);
    hide MonthEnd;
  }

  lemma FirstDayIsNoDate(seconds: int, m: int)
    requires 2 <= m <= 12 && StartOfDay(seconds) == DateToTimespec(1, m, Convert(seconds).year).0
    ensures var f := Convert(seconds); !ValidDate(f.day, f.mon, f.year)
  {
    hide Convert, DaysBefore, IsLeap, StartOfDay, MonthEnd, SearchMonth;
    DayFound(seconds);
    var f := Convert(seconds);
    var leap := IsLeap(f.year);
    MonthEndsRise(leap, m);
    MonthSearched(leap, MonthEnd(leap, m - 1), m);
  }

  /** In 32-bit arithmetic the product fits for these days and no others: to 2038-01-19. */
  lemma ProductFits(days: int)
    ensures -0x8000_0000 <= days * 24 * 60 * 60 < 0x8000_0000 <==> -24855 <= days <= 24855
  {
  }
}
