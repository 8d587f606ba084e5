/** The calendar dimension: one row per day from January 1 of the start year to
    December 31 of the end year, each carrying the attributes derived from its
    date (src/ingest/data.py, create_calendar_dimension). */
module CalendarDimension {
  import opened Gregorian
  import opened Wrappers

  datatype CalendarRow = CalendarRow(
    dateKey: int,
    date: Date,
    year: int,
    quarter: int,
    month: int,
    monthName: string,
    week: int,
    day: int,
    dayOfWeek: int,
    dayName: string,
    isWeekend: int,
    isMonthStart: int,
    isMonthEnd: int,
    isQuarterStart: int,
    isQuarterEnd: int,
    isYearStart: int,
    isYearEnd: int)

  /** English month names, as strftime('%B') prints them. */
  const MonthNames: seq<string> := [
    "January", "February", "March", "April", "May", "June", "July",
    "August", "September", "October", "November", "December"]

  /** English day names, Monday first, as strftime('%A') prints them. */
  const DayNames: seq<string> := [
    "Monday", "Tuesday", "Wednesday", "Thursday", "Friday", "Saturday", "Sunday"]

  /** A boolean column cast to integer. */
  function Flag(b: bool): int {
    if b then 1 else 0
  }

  /** The date printed as YYYYMMDD and read back as an integer. */
  function DateKey(d: Date): int {
    d.year * 10000 + d.month * 100 + d.day
  }

  function Quarter(month: int): int
    requires 1 <= month <= 12
  {
    (month - 1) / 3 + 1
  }

  /** The attributes of one day. */
  function RowOf(d: Date): CalendarRow
    requires ValidDate(d)
  {
    var weekday0 := DayOfWeek(d) - 1;   // Monday = 0, as the frame library counts
    var last := DaysInMonth(d.year, d.month);
    CalendarRow(
      dateKey := DateKey(d),
      date := d,
      year := d.year,
      quarter := Quarter(d.month),
      month := d.month,
      monthName := MonthNames[d.month - 1],
      week := IsoCalendar(d).week,
      day := d.day,
      dayOfWeek := weekday0 + 1,
      dayName := DayNames[weekday0],
      isWeekend := Flag(weekday0 >= 5),
      isMonthStart := Flag(d.day == 1),
      isMonthEnd := Flag(d.day == last),
      isQuarterStart := Flag(d.day == 1 && d.month % 3 == 1),
      isQuarterEnd := Flag(d.day == last && d.month % 3 == 0),
      isYearStart := Flag(d.month == 1 && d.day == 1),
      isYearEnd := Flag(d.month == 12 && d.day == 31))
  }

  /** The integer key is a faithful encoding of the date, and it orders dates
      as the calendar does. */
  lemma DateKeyFacts(a: Date, b: Date)
    requires ValidDate(a) && ValidDate(b)
    ensures DateKey(a) / 10000 == a.year && DateKey(a) / 100 % 100 == a.month && DateKey(a) % 100 == a.day
    ensures DateKey(a) < DateKey(b) <==> Before(a, b)
    ensures DateKey(a) == DateKey(b) <==> a == b
  {
    var k := DateKey(a);
    assert k == 10000 * a.year + (100 * a.month + a.day) && 0 <= 100 * a.month + a.day < 10000;
    assert k / 100 == 100 * a.year + a.month;
    if a.year < b.year {
      assert DateKey(a) < (a.year + 1) * 10000 <= DateKey(b);
    } else if a.year > b.year {
      assert DateKey(b) < (b.year + 1) * 10000 <= DateKey(a);
    }
  }

  /** A row's date key decodes to the row's own year, month and day. */
  lemma RowKeyFacts(d: Date)
    requires ValidDate(d)
    ensures var r := RowOf(d);
      r.dateKey / 10000 == r.year && r.dateKey / 100 % 100 == r.month && r.dateKey % 100 == r.day
  {
    DateKeyFacts(d, d);
  }

  /** A row's quarter holds its month, its ISO week is one of the 53 weeks and
      its day name is the name of its day number. */
  lemma RowRangeFacts(d: Date)
    requires ValidDate(d)
    ensures var r := RowOf(d);
      && 1 <= r.quarter <= 4 && 3 * r.quarter - 2 <= r.month <= 3 * r.quarter
      && 1 <= r.week <= 53
      && 1 <= r.dayOfWeek <= 7 && r.dayName == DayNames[r.dayOfWeek - 1]
      && (r.isWeekend == 1 <==> r.dayName == "Saturday" || r.dayName == "Sunday")
  {
    IsoWeekRange(d);
  }

  /** The month of a quarter's first and last months. */
  lemma QuarterBounds(m: int)
    requires 1 <= m <= 12
    ensures m % 3 == 1 <==> m in {1, 4, 7, 10}
    ensures m % 3 == 0 <==> m in {3, 6, 9, 12}
    ensures Quarter(m) == 1 <==> m <= 3
    ensures Quarter(m) == 4 <==> 10 <= m
  {
  }

  /** Quarter and year boundaries are month boundaries in the right months. */
  lemma RowFlagFacts(d: Date)
    requires ValidDate(d)
    ensures var r := RowOf(d);
      && (r.isQuarterStart == 1 <==> r.isMonthStart == 1 && r.month in {1, 4, 7, 10})
      && (r.isQuarterEnd == 1 <==> r.isMonthEnd == 1 && r.month in {3, 6, 9, 12})
      && (r.isYearStart == 1 <==> r.isQuarterStart == 1 && r.quarter == 1)
      && (r.isYearEnd == 1 <==> r.isQuarterEnd == 1 && r.quarter == 4)
  {
    QuarterBounds(d.month);
  }

  /** Date keys increase from one day to the next. */
  lemma NextRowKey(d: Date)
    requires ValidDate(d)
    ensures RowOf(d).dateKey < RowOf(Next(d)).dateKey
  {
    DateKeyFacts(d, Next(d));
  }

  /** A day ends its month exactly when the next day lies in another month,
      and the next day then starts that month. */
  lemma NextRowMonth(d: Date)
    requires ValidDate(d)
    ensures RowOf(d).isMonthEnd == 1 <==> RowOf(Next(d)).month != RowOf(d).month
    ensures RowOf(Next(d)).isMonthStart == 1 <==> RowOf(Next(d)).month != RowOf(d).month
  {
    var n := Next(d);
    if d.day < DaysInMonth(d.year, d.month) {
      assert n == Date(d.year, d.month, d.day + 1);
    } else if d.month < 12 {
      assert n == Date(d.year, d.month + 1, 1);
    } else {
      assert n == Date(d.year + 1, 1, 1);
    }
  }

  /** A day ends its quarter exactly when the next day lies in another
      quarter, and the next day then starts that quarter. */
  lemma NextRowQuarter(d: Date)
    requires ValidDate(d)
    ensures RowOf(d).isQuarterEnd == 1 <==> RowOf(Next(d)).quarter != RowOf(d).quarter
    ensures RowOf(Next(d)).isQuarterStart == 1 <==> RowOf(Next(d)).quarter != RowOf(d).quarter
  {
    if d.day < DaysInMonth(d.year, d.month) {
      QuarterInsideMonth(d);
    } else if d.month < 12 {
      QuarterAtMonthEnd(d);
    } else {
      QuarterAtYearEnd(d);
    }
  }

  /** Inside a month the quarter stays and no boundary is flagged. */
  lemma QuarterInsideMonth(d: Date)
    requires ValidDate(d) && d.day < DaysInMonth(d.year, d.month)
    ensures RowOf(d).isQuarterEnd == 1 <==> RowOf(Next(d)).quarter != RowOf(d).quarter
    ensures RowOf(Next(d)).isQuarterStart == 1 <==> RowOf(Next(d)).quarter != RowOf(d).quarter
  {
    assert Next(d) == Date(d.year, d.month, d.day + 1);
  }

  /** At the end of a month before December the quarter changes exactly
      after its third month. */
  lemma QuarterAtMonthEnd(d: Date)
    requires ValidDate(d) && d.day == DaysInMonth(d.year, d.month) && d.month < 12
    ensures RowOf(d).isQuarterEnd == 1 <==> RowOf(Next(d)).quarter != RowOf(d).quarter
    ensures RowOf(Next(d)).isQuarterStart == 1 <==> RowOf(Next(d)).quarter != RowOf(d).quarter
  {
    assert Next(d) == Date(d.year, d.month + 1, 1);
    QuarterStep(d.month);
  }

  /** December 31 ends the fourth quarter and January 1 starts the first. */
  lemma QuarterAtYearEnd(d: Date)
    requires ValidDate(d) && d.day == DaysInMonth(d.year, d.month) && d.month == 12
    ensures RowOf(d).isQuarterEnd == 1 <==> RowOf(Next(d)).quarter != RowOf(d).quarter
    ensures RowOf(Next(d)).isQuarterStart == 1 <==> RowOf(Next(d)).quarter != RowOf(d).quarter
  {
    assert Next(d) == Date(d.year + 1, 1, 1);
  }

  /** A day ends its year exactly when the next day lies in another year, and
      the next day then starts that year. */
  lemma NextRowYear(d: Date)
    requires ValidDate(d)
    ensures RowOf(d).isYearEnd == 1 <==> RowOf(Next(d)).year != RowOf(d).year
    ensures RowOf(Next(d)).isYearStart == 1 <==> RowOf(Next(d)).year != RowOf(d).year
  {
    var n := Next(d);
    if d.day < DaysInMonth(d.year, d.month) {
      assert n == Date(d.year, d.month, d.day + 1);
    } else if d.month < 12 {
      assert n == Date(d.year, d.month + 1, 1);
    } else {
      assert n == Date(d.year + 1, 1, 1);
    }
  }

  /** The quarter changes after its third month, and only then. */
  lemma QuarterStep(m: int)
    requires 1 <= m < 12
    ensures Quarter(m + 1) != Quarter(m) <==> m % 3 == 0
    ensures (m + 1) % 3 == 1 <==> m % 3 == 0
  {
    var q, r := (m - 1) / 3, (m - 1) % 3;
    assert m - 1 == 3 * q + r && 0 <= r < 3;
    if r < 2 {
      assert m == 3 * q + (r + 1);
    } else {
      assert m == 3 * (q + 1);
    }
  }

  /** Weekdays advance cyclically from one day to the next, and the ISO week
      changes only on Mondays. */
  lemma NextRowWeekday(d: Date)
    requires ValidDate(d)
    ensures var r, s := RowOf(d), RowOf(Next(d));
      && s.dayOfWeek == r.dayOfWeek % 7 + 1
      && (s.dayOfWeek != 1 ==> s.week == r.week)
  {
    NextDayOfWeek(d);
    NextIsoWeek(d);
  }

  /** Every day from a to b inclusive, in order. */
  function DateRange(a: Date, b: Date): (ds: seq<Date>)
    requires ValidDate(a) && ValidDate(b)
    ensures |ds| == if Ordinal(b) < Ordinal(a) then 0 else Ordinal(b) - Ordinal(a) + 1
    ensures forall i :: 0 <= i < |ds| ==> ValidDate(ds[i]) && Ordinal(ds[i]) == Ordinal(a) + i
    decreases Ordinal(b) - Ordinal(a)
  {
    if Ordinal(b) < Ordinal(a) then [] else [a] + DateRange(Next(a), b)
  }

  /** The frame library's timestamps are 64-bit nanosecond counts, so they only
      reach from 1677-09-21 00:12:43.145224193 to 2262-04-11 23:47:16.854775807.
      A midnight inside that span falls strictly after the first day and no
      later than the last. */
  const FirstTimestampDay := Date(1677, 9, 21)
  const LastTimestampDay := Date(2262, 4, 11)

  predicate InTimestampRange(d: Date) {
    Before(FirstTimestampDay, d) && !Before(LastTimestampDay, d)
  }

  /** The calendar table for the inclusive year range, or None when one of the
      range's end points cannot be represented as a timestamp. */
  function Calendar(startYear: int, endYear: int): Option<seq<CalendarRow>> {
    var first, last := Date(startYear, 1, 1), Date(endYear, 12, 31);
    if !InTimestampRange(first) || !InTimestampRange(last) then None
    else
      var ds := DateRange(first, last);
      Some(seq(|ds|, i requires 0 <= i < |ds| => RowOf(ds[i])))
  }

  /** Days in the years lo ..= hi. */
  function YearsLength(lo: int, hi: int): int
    decreases hi - lo
  {
    if hi < lo then 0 else YearsLength(lo, hi - 1) + YearLength(hi)
  }

  lemma {:induction false} YearsLengthSpan(lo: int, hi: int)
    requires lo <= hi + 1
    ensures YearsLength(lo, hi) == DaysBeforeYear(hi + 1) - DaysBeforeYear(lo)
    decreases hi - lo
  {
    YearStep(hi);
    if lo <= hi {
      YearsLengthSpan(lo, hi - 1);
    }
  }

  /** The calendar is built exactly for the year ranges whose end points fit
      the timestamp range. */
  lemma CalendarDefined(startYear: int, endYear: int)
    ensures Calendar(startYear, endYear).Some? <==> 1678 <= startYear <= 2262 && 1677 <= endYear <= 2261
  {
  }

  /** One row per day of the years startYear ..= endYear: 365 per common year
      and 366 per leap year, none for an empty range. */
  lemma CalendarRowCount(startYear: int, endYear: int)
    requires Calendar(startYear, endYear).Some?
    ensures |Calendar(startYear, endYear).value| == YearsLength(startYear, endYear)
  {
    var first, last := Date(startYear, 1, 1), Date(endYear, 12, 31);
    OrdinalInYear(first);
    OrdinalInYear(last);
    assert Ordinal(first) == DaysBeforeYear(startYear) + 1;
    assert Ordinal(last) == DaysBeforeYear(endYear + 1) by {
      MonthStep(endYear, 12);
      YearStep(endYear);
    }
    if startYear <= endYear + 1 {
      YearsLengthSpan(startYear, endYear);
    } else {
      YearsMonotone(endYear + 1, startYear);
    }
  }

  /** Row i describes the i-th day after January 1 of the start year; date
      keys strictly increase down the table, so they are unique. */
  lemma CalendarOrdered(startYear: int, endYear: int)
    requires Calendar(startYear, endYear).Some?
    ensures var rows := Calendar(startYear, endYear).value;
      && (forall i :: 0 <= i < |rows| ==>
            ValidDate(rows[i].date) && rows[i] == RowOf(rows[i].date)
            && Ordinal(rows[i].date) == Ordinal(Date(startYear, 1, 1)) + i)
      && (forall i, j :: 0 <= i < j < |rows| ==> rows[i].dateKey < rows[j].dateKey)
  {
    var rows := Calendar(startYear, endYear).value;
    forall i, j | 0 <= i < j < |rows|
      ensures rows[i].dateKey < rows[j].dateKey
    {
      var a, b := rows[i].date, rows[j].date;
      OrdinalOrder(a, b);
      DateKeyFacts(a, b);
    }
  }

  /** The calendar holds exactly the days whose year lies in the range. */
  lemma CalendarCoversYears(startYear: int, endYear: int, d: Date)
    requires Calendar(startYear, endYear).Some?
    ensures var rows := Calendar(startYear, endYear).value;
      (exists i :: 0 <= i < |rows| && rows[i].date == d) <==> ValidDate(d) && startYear <= d.year <= endYear
  {
    var rows := Calendar(startYear, endYear).value;
    var first, last := Date(startYear, 1, 1), Date(endYear, 12, 31);
    CalendarOrdered(startYear, endYear);
    if i :| 0 <= i < |rows| && rows[i].date == d {
      OrdinalOrder(d, first);
      OrdinalOrder(last, d);
    }
    if ValidDate(d) && startYear <= d.year <= endYear {
      OrdinalOrder(first, d);
      OrdinalOrder(d, last);
      var i := Ordinal(d) - Ordinal(first);
      assert 0 <= i < |rows|;
      OrdinalOrder(rows[i].date, d);
    }
  }

  /** A single year gives one row per day of that year: 365 for a common
      year and 366 for a leap year. */
  lemma SingleYearRowCount(y: int)
    requires 1678 <= y <= 2261
    ensures |Calendar(y, y).value| == YearLength(y)
    ensures |Calendar(y, y).value| == if IsLeapYear(y) then 366 else 365
  {
    CalendarRowCount(y, y);
  }

  /** The default range 2016 ..= 2025 (three leap years) gives 3653 rows. */
  lemma DefaultCalendarRowCount()
    ensures Calendar(2016, 2025).Some?
    ensures |Calendar(2016, 2025).value| == 3653
  {
    assert YearsLength(2016, 2025) == 3653;
    CalendarRowCount(2016, 2025);
  }

  /** The first row of the default calendar: Friday 1 January 2016, which
      belongs to ISO week 53 of 2015. */
  lemma FirstDefaultRow()
    ensures var r := RowOf(Date(2016, 1, 1));
      && r.dateKey == 20160101 && r.dayOfWeek == 5 && r.dayName == "Friday"
      && r.week == 53 && r.isWeekend == 0 && r.isYearStart == 1 && r.quarter == 1
  {
    DaysBeforeYearClosedForm(2015);
    DaysBeforeYearClosedForm(2016);
    DaysBeforeYearClosedForm(2017);
  }
}
