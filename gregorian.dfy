/** Proleptic Gregorian calendar arithmetic: leap years, month lengths, the day
    count (ordinal) of a date, the successor of a date, the day of the week and
    the ISO 8601 week date. Ordinals follow the convention that 0001-01-01 is
    day 1 (a Monday). */
module Gregorian {

  datatype Date = Date(year: int, month: int, day: int)

  predicate IsLeapYear(y: int) {
    y % 4 == 0 && (y % 100 != 0 || y % 400 == 0)
  }

  function YearLength(y: int): int {
    if IsLeapYear(y) then 366 else 365
  }

  function DaysInMonth(y: int, m: int): (n: int)
    requires 1 <= m <= 12
    ensures 28 <= n <= 31
    ensures DaysBeforeMonth(y, m) + n == (if m < 12 then DaysBeforeMonth(y, m + 1) else YearLength(y))
  {
    if m == 2 then (if IsLeapYear(y) then 29 else 28)
    else if m == 4 || m == 6 || m == 9 || m == 11 then 30
    else 31
  }

  /** A date that exists in the proleptic Gregorian calendar, from year 1 on. */
  predicate ValidDate(d: Date) {
    d.year >= 1 && 1 <= d.month <= 12 && 1 <= d.day <= DaysInMonth(d.year, d.month)
  }

  /** Days in the years before year y, counted from the start of year 1
      (negative for the years before it). */
  function DaysBeforeYear(y: int): int
    decreases if y >= 1 then y - 1 else 1 - y
  {
    if y == 1 then 0
    else if y > 1 then DaysBeforeYear(y - 1) + YearLength(y - 1)
    else DaysBeforeYear(y + 1) - YearLength(y)
  }

  /** Days in the months of year y before month m. */
  function DaysBeforeMonth(y: int, m: int): int
    requires 1 <= m <= 12
  {
    var common := [0, 31, 59, 90, 120, 151, 181, 212, 243, 273, 304, 334];
    common[m - 1] + (if m > 2 && IsLeapYear(y) then 1 else 0)
  }

  /** The day number of a date; 0001-01-01 is day 1. */
  function Ordinal(d: Date): int
    requires 1 <= d.month <= 12
  {
    DaysBeforeYear(d.year) + DaysBeforeMonth(d.year, d.month) + d.day
  }

  /** Lexicographic order on (year, month, day). */
  predicate Before(a: Date, b: Date) {
    a.year < b.year
    || (a.year == b.year && a.month < b.month)
    || (a.year == b.year && a.month == b.month && a.day < b.day)
  }

  /** Stepping a (Euclidean) quotient by a constant divisor. */
  lemma DivStep(p: int)
    ensures (p + 1) / 4 - p / 4 == if (p + 1) % 4 == 0 then 1 else 0
    ensures (p + 1) / 100 - p / 100 == if (p + 1) % 100 == 0 then 1 else 0
    ensures (p + 1) / 400 - p / 400 == if (p + 1) % 400 == 0 then 1 else 0
  {
  }

  lemma YearStep(y: int)
    ensures DaysBeforeYear(y + 1) == DaysBeforeYear(y) + YearLength(y)
  {
  }

  /** The closed form 365 p + p/4 - p/100 + p/400 of the days in the first p
      years: one leap day every fourth year, except centuries not divisible
      by 400. */
  function ClosedFormDays(p: int): int {
    365 * p + p / 4 - p / 100 + p / 400
  }

  /** Every fourth century year is a century year. */
  lemma Div400Div100(x: int)
    requires x % 400 == 0
    ensures x % 100 == 0
  {
    var m := 4 * (x / 400);
    assert x == 100 * m;
  }

  /** Every century year is a fourth year. */
  lemma Div100Div4(x: int)
    requires x % 100 == 0
    ensures x % 4 == 0
  {
    var m := 25 * (x / 100);
    assert x == 4 * m;
  }

  lemma DivisibilityChain(x: int)
    ensures x % 400 == 0 ==> x % 100 == 0
    ensures x % 100 == 0 ==> x % 4 == 0
  {
    if x % 400 == 0 {
      Div400Div100(x);
    }
    if x % 100 == 0 {
      Div100Div4(x);
    }
  }

  lemma ClosedFormStep(p: int)
    ensures ClosedFormDays(p + 1) == ClosedFormDays(p) + YearLength(p + 1)
  {
    DivStep(p);
    DivisibilityChain(p + 1);
  }

  lemma {:induction false} DaysBeforeYearClosedForm(y: int)
    ensures DaysBeforeYear(y) == ClosedFormDays(y - 1)
    decreases if y >= 1 then y - 1 else 1 - y
  {
    if y > 1 {
      DaysBeforeYearClosedForm(y - 1);
      ClosedFormStep(y - 2);
    } else if y < 1 {
      DaysBeforeYearClosedForm(y + 1);
      ClosedFormStep(y - 1);
    }
  }

  lemma {:induction false} YearsMonotone(a: int, b: int)
    requires a <= b
    ensures DaysBeforeYear(b) - DaysBeforeYear(a) >= 365 * (b - a)
    decreases b - a
  {
    if a < b {
      YearsMonotone(a, b - 1);
      YearStep(b - 1);
    }
  }

  lemma MonthStep(y: int, m: int)
    requires 1 <= m <= 12
    ensures m < 12 ==> DaysBeforeMonth(y, m + 1) == DaysBeforeMonth(y, m) + DaysInMonth(y, m)
    ensures m == 12 ==> DaysBeforeMonth(y, m) + DaysInMonth(y, m) == YearLength(y)
  {
  }

  /** A valid date lies inside its own year's span of ordinals. */
  lemma OrdinalInYear(d: Date)
    requires ValidDate(d)
    ensures DaysBeforeYear(d.year) < Ordinal(d) <= DaysBeforeYear(d.year + 1)
  {
    YearStep(d.year);
    var m := d.month;
    MonthStep(d.year, 12);
    MonthsMonotone(d.year, m, 12);
  }

  lemma {:induction false} MonthsMonotone(y: int, m1: int, m2: int)
    requires 1 <= m1 <= m2 <= 12
    ensures DaysBeforeMonth(y, m2) - DaysBeforeMonth(y, m1) >= 28 * (m2 - m1)
    ensures m1 < m2 ==> DaysBeforeMonth(y, m1) + DaysInMonth(y, m1) <= DaysBeforeMonth(y, m2)
    decreases m2 - m1
  {
    if m1 < m2 {
      MonthsMonotone(y, m1, m2 - 1);
      MonthStep(y, m2 - 1);
      MonthStep(y, m1);
    }
  }

  /** The ordinal respects the calendar order of valid dates; in particular it
      is one-to-one on them. */
  lemma OrdinalOrder(a: Date, b: Date)
    requires ValidDate(a) && ValidDate(b)
    ensures Before(a, b) <==> Ordinal(a) < Ordinal(b)
    ensures Ordinal(a) == Ordinal(b) <==> a == b
  {
    if a.year < b.year {
      OrdinalInYear(a);
      OrdinalInYear(b);
      YearsMonotone(a.year + 1, b.year);
    } else if a.year == b.year && a.month < b.month {
      MonthsMonotone(a.year, a.month, b.month);
    } else if a.year > b.year {
      OrdinalInYear(a);
      OrdinalInYear(b);
      YearsMonotone(b.year + 1, a.year);
    } else if a.year == b.year && a.month > b.month {
      MonthsMonotone(a.year, b.month, a.month);
    }
  }

  /** The following day. */
  function Next(d: Date): (n: Date)
    requires ValidDate(d)
    ensures ValidDate(n) && Before(d, n)
    ensures Ordinal(n) == Ordinal(d) + 1
  {
    MonthStep(d.year, d.month);
    YearStep(d.year);
    if d.day < DaysInMonth(d.year, d.month) then Date(d.year, d.month, d.day + 1)
    else if d.month < 12 then Date(d.year, d.month + 1, 1)
    else Date(d.year + 1, 1, 1)
  }

  /** Day of the week with Monday = 1 ... Sunday = 7. */
  function DayOfWeek(d: Date): (w: int)
    requires 1 <= d.month <= 12
    ensures 1 <= w <= 7
  {
    Weekday0(Ordinal(d)) + 1
  }

  /** Weekday index, Monday = 0, of the day numbered x. */
  function Weekday0(x: int): (w: int)
    ensures 0 <= w < 7
  {
    (x + 6) % 7
  }

  lemma WeekdaySucc(x: int)
    ensures Weekday0(x + 1) == (Weekday0(x) + 1) % 7
  {
  }

  lemma SameWeekday(a: int, b: int)
    requires Weekday0(a) == Weekday0(b)
    ensures (b - a) % 7 == 0
  {
  }

  /** Weekdays repeat with period seven along consecutive days. */
  lemma NextDayOfWeek(d: Date)
    requires ValidDate(d)
    ensures DayOfWeek(Next(d)) == DayOfWeek(d) % 7 + 1
  {
    var t := Ordinal(d);
    assert DayOfWeek(Next(d)) == Weekday0(t + 1) + 1;
    WeekdaySucc(t);
  }

  /** The Monday of the week holding the first Thursday on or after day j. */
  function FirstWeekMonday(j: int): int {
    var wd := Weekday0(j);
    if wd > 3 then j - wd + 7 else j - wd
  }

  lemma FirstWeekMondayFacts(j: int)
    ensures Weekday0(FirstWeekMonday(j)) == 0
    ensures j <= FirstWeekMonday(j) + 3 < j + 7
  {
  }

  /** Ordinal of the Monday that starts ISO week 1 of year y: the Monday of the
      week that holds the year's first Thursday (equivalently, January 4). */
  function Week1Monday(y: int): int {
    FirstWeekMonday(DaysBeforeYear(y) + 1)
  }

  datatype IsoWeekDate = IsoWeekDate(isoYear: int, week: int)

  /** ISO 8601 week-numbering year and week of a date. */
  function IsoCalendar(d: Date): IsoWeekDate
    requires ValidDate(d)
  {
    var today := Ordinal(d);
    var w1 := Week1Monday(d.year);
    if today < w1 then
      IsoWeekDate(d.year - 1, (today - Week1Monday(d.year - 1)) / 7 + 1)
    else if today >= Week1Monday(d.year + 1) then
      IsoWeekDate(d.year + 1, 1)
    else
      IsoWeekDate(d.year, (today - w1) / 7 + 1)
  }

  /** Week 1 starts on a Monday and holds the year's first Thursday. */
  lemma Week1MondayFacts(y: int)
    ensures Weekday0(Week1Monday(y)) == 0
    ensures DaysBeforeYear(y) < Week1Monday(y) + 3 <= DaysBeforeYear(y) + 7
  {
    FirstWeekMondayFacts(DaysBeforeYear(y) + 1);
  }

  /** ISO years are 52 or 53 weeks long. */
  lemma Week1MondayStep(y: int)
    ensures Week1Monday(y + 1) - Week1Monday(y) == 364
         || Week1Monday(y + 1) - Week1Monday(y) == 371
  {
    var a, b := Week1Monday(y), Week1Monday(y + 1);
    var d0, d1 := DaysBeforeYear(y), DaysBeforeYear(y + 1);
    assert 365 <= d1 - d0 <= 366 by {
      YearStep(y);
    }
    assert d0 < a + 3 <= d0 + 7 && Weekday0(a) == 0 by {
      Week1MondayFacts(y);
    }
    assert d1 < b + 3 <= d1 + 7 && Weekday0(b) == 0 by {
      Week1MondayFacts(y + 1);
    }
    SameWeekday(a, b);
    MondayGap(a, b, d0, d1);
  }

  /** Two Mondays each starting the week that holds the fourth day of a year,
      for consecutive years, are 52 or 53 weeks apart. */
  lemma MondayGap(a: int, b: int, d0: int, d1: int)
    requires (b - a) % 7 == 0
    requires 365 <= d1 - d0 <= 366
    requires d0 < a + 3 <= d0 + 7 && d1 < b + 3 <= d1 + 7
    ensures b - a == 364 || b - a == 371
  {
    var k := (b - a) / 7;
    assert b - a == 7 * k;
  }

  /** The case analysis of IsoCalendar, on plain day numbers: t is the date's
      day number, inside (d0, d1] (its year), and w0 .. w3 are the week 1
      Mondays of the years before, of, and the two after the date's year. */
  lemma IsoBranches(t: int, d0: int, d1: int, w0: int, w1: int, w2: int, w3: int)
    requires d0 < t <= d1
    requires d0 < w1 + 3 <= d0 + 7 && d1 < w2 + 3 <= d1 + 7
    requires w1 - w0 >= 364 && w2 - w1 >= 364 && w3 - w2 >= 364
    ensures t < w1 ==> w0 <= t
    ensures t >= w2 ==> t < w3 && (t - w2) / 7 == 0
  {
  }

  /** The choice IsoCalendar makes, on plain day numbers: the result is the
      ISO year among y - 1, y, y + 1 whose span [w_k, w_k+1) holds t. */
  lemma IsoPick(t: int, y: int, w0: int, w1: int, w2: int, w3: int, r: IsoWeekDate)
    requires t < w1 ==> w0 <= t
    requires t >= w2 ==> t < w3 && (t - w2) / 7 == 0
    requires r == if t < w1 then IsoWeekDate(y - 1, (t - w0) / 7 + 1)
                  else if t >= w2 then IsoWeekDate(y + 1, 1)
                  else IsoWeekDate(y, (t - w1) / 7 + 1)
    ensures || (r.isoYear == y - 1 && w0 <= t < w1 && r.week == (t - w0) / 7 + 1)
            || (r.isoYear == y && w1 <= t < w2 && r.week == (t - w1) / 7 + 1)
            || (r.isoYear == y + 1 && w2 <= t < w3 && r.week == (t - w2) / 7 + 1)
  {
  }

  /** The ISO year of a date is the one whose week 1 Monday is the latest not
      after the date, and the week counts whole weeks since that Monday. */
  lemma IsoCalendarSpec(d: Date)
    requires ValidDate(d)
    ensures var iw := IsoCalendar(d);
      && d.year - 1 <= iw.isoYear <= d.year + 1
      && Week1Monday(iw.isoYear) <= Ordinal(d) < Week1Monday(iw.isoYear + 1)
      && iw.week == (Ordinal(d) - Week1Monday(iw.isoYear)) / 7 + 1
  {
    var y, t := d.year, Ordinal(d);
    var w0, w1, w2, w3 := Week1Monday(y - 1), Week1Monday(y), Week1Monday(y + 1), Week1Monday(y + 2);
    assert (t < w1 ==> w0 <= t) && (t >= w2 ==> t < w3 && (t - w2) / 7 == 0) by {
      OrdinalInYear(d);
      Week1MondayFacts(y);
      Week1MondayFacts(y + 1);
      Week1MondayStep(y - 1);
      Week1MondayStep(y);
      Week1MondayStep(y + 1);
      IsoBranches(t, DaysBeforeYear(y), DaysBeforeYear(y + 1), w0, w1, w2, w3);
    }
    IsoPick(t, y, w0, w1, w2, w3, IsoCalendar(d));
  }

  lemma {:induction false} Week1MondayMonotone(a: int, b: int)
    requires a <= b
    ensures Week1Monday(b) - Week1Monday(a) >= 364 * (b - a)
    decreases b - a
  {
    if a < b {
      Week1MondayMonotone(a, b - 1);
      Week1MondayStep(b - 1);
    }
  }

  /** A day number lies in the ISO year of exactly one year. */
  lemma IsoYearUnique(t: int, y1: int, y2: int)
    requires Week1Monday(y1) <= t < Week1Monday(y1 + 1)
    requires Week1Monday(y2) <= t < Week1Monday(y2 + 1)
    ensures y1 == y2
  {
    if y1 < y2 {
      Week1MondayMonotone(y1 + 1, y2);
    } else if y2 < y1 {
      Week1MondayMonotone(y2 + 1, y1);
    }
  }

  /** Day number of the Thursday of the (Monday-based) week holding day t. */
  function Thursday(t: int): int {
    t - Weekday0(t) + 3
  }

  lemma ThursdayArith(t: int, w: int, w2: int, d0: int, d1: int)
    requires Weekday0(w) == 0 && Weekday0(w2) == 0
    requires w <= t < w2
    requires d0 < w + 3 <= d0 + 7 && d1 < w2 + 3 <= d1 + 7
    ensures d0 < Thursday(t) <= d1
    ensures (t - w) / 7 == (Thursday(t) - d0 - 1) / 7
  {
    var m := t - Weekday0(t);
    assert Weekday0(m) == 0;
    SameWeekday(w, m);
    SameWeekday(m, w2);
    assert w <= m;
    assert m + 7 <= w2;
    var k := (m - w) / 7;
    assert m - w == 7 * k;
    assert t - w == 7 * k + Weekday0(t);
    assert Thursday(t) - d0 - 1 == 7 * k + (w + 2 - d0);
  }

  /** The ISO 8601 rule: a week belongs to the year that holds its Thursday,
      and its number is the rank of that Thursday among the year's Thursdays. */
  lemma IsoThursdayRule(d: Date)
    requires ValidDate(d)
    ensures var iw := IsoCalendar(d);
      && DaysBeforeYear(iw.isoYear) < Thursday(Ordinal(d)) <= DaysBeforeYear(iw.isoYear + 1)
      && iw.week == (Thursday(Ordinal(d)) - DaysBeforeYear(iw.isoYear) - 1) / 7 + 1
  {
    var iw := IsoCalendar(d);
    IsoCalendarSpec(d);
    Week1MondayFacts(iw.isoYear);
    Week1MondayFacts(iw.isoYear + 1);
    ThursdayArith(Ordinal(d), Week1Monday(iw.isoYear), Week1Monday(iw.isoYear + 1),
      DaysBeforeYear(iw.isoYear), DaysBeforeYear(iw.isoYear + 1));
  }

  /** ISO week numbers run from 1 to 53. */
  lemma IsoWeekRange(d: Date)
    requires ValidDate(d)
    ensures 1 <= IsoCalendar(d).week <= 53
  {
    IsoThursdayRule(d);
    YearStep(IsoCalendar(d).isoYear);
  }

  /** January 4 always falls in week 1 of its own year. */
  lemma IsoWeekOfJanuary4(y: int)
    requires y >= 1
    ensures IsoCalendar(Date(y, 1, 4)) == IsoWeekDate(y, 1)
  {
    var d := Date(y, 1, 4);
    IsoCalendarSpec(d);
    Week1MondayFacts(y);
    Week1MondayStep(y - 1);
    Week1MondayStep(y);
    IsoYearUnique(Ordinal(d), IsoCalendar(d).isoYear, y);
  }

  /** Along consecutive days the ISO week changes only on Mondays, and then it
      advances by one or starts week 1 of the next ISO year. */
  lemma NextIsoWeek(d: Date)
    requires ValidDate(d)
    ensures var a, b := IsoCalendar(d), IsoCalendar(Next(d));
      if DayOfWeek(Next(d)) != 1 then b == a
      else b == IsoWeekDate(a.isoYear, a.week + 1) || b == IsoWeekDate(a.isoYear + 1, 1)
  {
    ConsecutiveIsoWeeks(d, Next(d));
  }

  lemma ConsecutiveIsoWeeks(d: Date, n: Date)
    requires ValidDate(d) && ValidDate(n) && Ordinal(n) == Ordinal(d) + 1
    ensures var a, b := IsoCalendar(d), IsoCalendar(n);
      if DayOfWeek(n) != 1 then b == a
      else b == IsoWeekDate(a.isoYear, a.week + 1) || b == IsoWeekDate(a.isoYear + 1, 1)
  {
    var a := IsoCalendar(d);
    var t := Ordinal(d);
    assert Week1Monday(a.isoYear) <= t < Week1Monday(a.isoYear + 1)
      && a.week == (t - Week1Monday(a.isoYear)) / 7 + 1 by {
      IsoCalendarSpec(d);
    }
    if t + 1 < Week1Monday(a.isoYear + 1) {
      NextDayIsoWeek(n, a.isoYear, a.isoYear, t, a.week);
    } else {
      assert Week1Monday(a.isoYear + 2) - Week1Monday(a.isoYear + 1) >= 364 by {
        Week1MondayStep(a.isoYear + 1);
      }
      NextDayIsoWeek(n, a.isoYear + 1, a.isoYear, t, a.week);
    }
  }

  /** The ISO week of the day n after day t, when n falls in the ISO year ny
      and t is in week w of the ISO year y. */
  lemma NextDayIsoWeek(n: Date, ny: int, y: int, t: int, w: int)
    requires ValidDate(n) && Ordinal(n) == t + 1
    requires Week1Monday(ny) <= t + 1 < Week1Monday(ny + 1)
    requires ny == y || ny == y + 1
    requires Week1Monday(y) <= t < Week1Monday(y + 1) && w == (t - Week1Monday(y)) / 7 + 1
    ensures if DayOfWeek(n) != 1 then IsoCalendar(n) == IsoWeekDate(y, w)
      else IsoCalendar(n) == IsoWeekDate(y, w + 1) || IsoCalendar(n) == IsoWeekDate(y + 1, 1)
  {
    var nw := (t + 1 - Week1Monday(ny)) / 7 + 1;
    IsoCalendarIs(n, ny);
    NextIsoWeekAt(t, t + 1, y, w, ny, nw);
  }

  /** The ISO year and week of a date, given any year whose ISO span holds it. */
  lemma IsoCalendarIs(d: Date, y: int)
    requires ValidDate(d) && Week1Monday(y) <= Ordinal(d) < Week1Monday(y + 1)
    ensures IsoCalendar(d) == IsoWeekDate(y, (Ordinal(d) - Week1Monday(y)) / 7 + 1)
  {
    IsoCalendarSpec(d);
    IsoYearUnique(Ordinal(d), IsoCalendar(d).isoYear, y);
  }

  /** NextIsoWeek on day numbers: t and u = t + 1 with their ISO years and weeks. */
  lemma NextIsoWeekAt(t: int, u: int, ay: int, aw: int, ny: int, nw: int)
    requires u == t + 1
    requires Week1Monday(ay) <= t < Week1Monday(ay + 1) && aw == (t - Week1Monday(ay)) / 7 + 1
    requires Week1Monday(ny) <= u < Week1Monday(ny + 1) && nw == (u - Week1Monday(ny)) / 7 + 1
    ensures if Weekday0(u) != 0 then ny == ay && nw == aw
            else (ny == ay && nw == aw + 1) || (ny == ay + 1 && nw == 1)
  {
    var wa, wa1 := Week1Monday(ay), Week1Monday(ay + 1);
    Week1MondayFacts(ay);
    Week1MondayFacts(ay + 1);
    if t + 1 < wa1 {
      IsoYearUnique(t + 1, ay, ny);
      if Weekday0(t + 1) != 0 {
        SameWeekArith(t, wa);
      } else {
        NextWeekArith(t, wa);
      }
    } else {
      IsoYearUnique(t + 1, ay + 1, ny);
    }
  }

  lemma SameWeekArith(t: int, w: int)
    requires Weekday0(w) == 0 && w <= t && Weekday0(t + 1) != 0
    ensures (t + 1 - w) / 7 == (t - w) / 7
  {
  }

  lemma NextWeekArith(t: int, w: int)
    requires Weekday0(w) == 0 && w <= t && Weekday0(t + 1) == 0
    ensures (t + 1 - w) / 7 == (t - w) / 7 + 1
  {
    SameWeekday(w, t + 1);
  }
}
