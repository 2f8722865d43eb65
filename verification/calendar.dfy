/**
 * Civil dates in the proleptic Gregorian calendar, and Ruby's
 * `Date.new(year, month, day)` constructor with its negative-count rule.
 */
module Calendar {
  import opened Values

  datatype Date = Date(year: int, month: int, day: int)

  predicate IsLeapYear(y: int) {
    y % 4 == 0 && (y % 100 != 0 || y % 400 == 0)
  }

  function DaysInMonth(y: int, m: int): (n: int)
    requires 1 <= m <= 12
    ensures 28 <= n <= 31
    ensures m != 2 ==> n >= 30
  {
    if m == 2 then (if IsLeapYear(y) then 29 else 28)
    else if m == 4 || m == 6 || m == 9 || m == 11 then 30
    else 31
  }

  /** A date that exists in the calendar. */
  predicate Valid(d: Date) {
    1 <= d.month <= 12 && 1 <= d.day <= DaysInMonth(d.year, d.month)
  }

  /** Ruby `Date.new(y, m, d)`: a negative month counts back from
      December and a negative day back from the month's last day; any date
      that still does not exist raises, modelled as `None`. */
  function Civil(y: int, m: int, d: int): (r: Option<Date>)
    ensures r.Some? ==> Valid(r.value) && r.value.year == y
    ensures Valid(Date(y, m, d)) ==> r == Some(Date(y, m, d))
    ensures m == 0 || m > 12 || m < -12 || d == 0 ==> r.None?
    ensures 1 <= m <= 12 && d < 0 ==> (r.Some? <==> -d <= DaysInMonth(y, m))
    ensures 1 <= m <= 12 && d > DaysInMonth(y, m) ==> r.None?
    ensures 1 <= m <= 12 && -DaysInMonth(y, m) <= d < 0 ==>
              r == Some(Date(y, m, DaysInMonth(y, m) + d + 1))
  {
    var month := if m < 0 then m + 13 else m;
    if month < 1 || month > 12 then None
    else
      var last := DaysInMonth(y, month);
      var day := if d < 0 then last + d + 1 else d;
      if day < 1 || day > last then None else Some(Date(y, month, day))
  }

  /** A negative month counts back from December: -1 is December, -12 January. */
  lemma CivilNegativeMonth(y: int, m: int, d: int)
    requires -12 <= m <= -1
    ensures Civil(y, m, d) == Civil(y, m + 13, d)
    ensures Civil(y, m, d).Some? ==> Civil(y, m, d).value.month == m + 13
  {
  }

  /** `a` falls strictly before `b`, comparing year, then month, then day. */
  predicate Before(a: Date, b: Date) {
    a.year < b.year
    || (a.year == b.year && a.month < b.month)
    || (a.year == b.year && a.month == b.month && a.day < b.day)
  }

  function YearLength(y: int): int {
    if IsLeapYear(y) then 366 else 365
  }

  /** Leap years among the years before `y`, counted from a fixed origin. */
  function LeapsBefore(y: int): int {
    (y - 1) / 4 - (y - 1) / 100 + (y - 1) / 400
  }

  /** Days from 1 January 1970 to 1 January of `y`. */
  function DaysBeforeYear(y: int): int {
    365 * (y - 1970) + LeapsBefore(y) - LeapsBefore(1970)
  }

  /** Days of the year before the first of month `m`. */
  function DaysBeforeMonth(y: int, m: int): (n: int)
    requires 1 <= m <= 12
    ensures 0 <= n <= 31 * (m - 1)
    decreases m
  {
    if m == 1 then 0 else DaysBeforeMonth(y, m - 1) + DaysInMonth(y, m - 1)
  }

  /** The day number of a date, 1 January 1970 being day 0: the ordinal
      Ruby compares dates by. */
  function DayNumber(d: Date): int
    requires Valid(d)
  {
    DaysBeforeYear(d.year) + DaysBeforeMonth(d.year, d.month) + d.day - 1
  }

  lemma YearStep(y: int)
    ensures DaysBeforeYear(y + 1) == DaysBeforeYear(y) + YearLength(y)
  {
    Step4(y);
    Step100(y);
    Step400(y);
  }

  lemma Step4(y: int)
    ensures y / 4 - (y - 1) / 4 == if y % 4 == 0 then 1 else 0
  {
  }

  lemma Step100(y: int)
    ensures y / 100 - (y - 1) / 100 == if y % 100 == 0 then 1 else 0
  {
  }

  lemma Step400(y: int)
    ensures y / 400 - (y - 1) / 400 == if y % 400 == 0 then 1 else 0
  {
  }

  lemma {:induction false} YearsAhead(a: int, b: int)
    requires a < b
    ensures DaysBeforeYear(a) + YearLength(a) <= DaysBeforeYear(b)
    decreases b - a
  {
    YearStep(a);
    if a + 1 < b {
      YearsAhead(a + 1, b);
    }
  }

  lemma {:induction false} MonthsAhead(y: int, a: int, b: int)
    requires 1 <= a < b <= 12
    ensures DaysBeforeMonth(y, a) + DaysInMonth(y, a) <= DaysBeforeMonth(y, b)
    decreases b - a
  {
    if a + 1 < b {
      MonthsAhead(y, a + 1, b);
    }
  }

  /** Every day of a year lies between its first day and the next year's. */
  lemma WithinYear(d: Date)
    requires Valid(d)
    ensures DaysBeforeYear(d.year) <= DayNumber(d) < DaysBeforeYear(d.year) + YearLength(d.year)
  {
    LastMonth(d.year, d.month, 12);
  }

  /** Month `m` ends no later than the year does. December is passed as the
      parameter `december` (always 12) rather than written as a literal, so
      that the verifier does not unfold the month table at the literal on
      every use of the lemma. */
  lemma LastMonth(y: int, m: int, december: int)
    requires 1 <= m <= 12 && december == 12
    ensures DaysBeforeMonth(y, m) + DaysInMonth(y, m) <= YearLength(y)
  {
    if m < december {
      MonthsAhead(y, m, december);
    }
    DaysBeforeDecember(y, december);
  }

  /** The eleven months before December leave 31 days of the year; `december`
      is 12, passed as a parameter for the same reason as in `LastMonth`. */
  lemma DaysBeforeDecember(y: int, december: int)
    requires december == 12
    ensures DaysBeforeMonth(y, december) + 31 == YearLength(y)
  {
    var leap := if IsLeapYear(y) then 1 else 0;
    assert DaysBeforeMonth(y, 3) == 59 + leap;
    assert DaysBeforeMonth(y, 6) == 151 + leap;
    assert DaysBeforeMonth(y, 9) == 243 + leap;
  }

  /** Day numbers order dates as the calendar does, and tell them apart. */
  lemma DayNumberOrder(a: Date, b: Date)
    requires Valid(a) && Valid(b)
    ensures Before(a, b) <==> DayNumber(a) < DayNumber(b)
    ensures a == b <==> DayNumber(a) == DayNumber(b)
  {
    if a.year != b.year {
      WithinYear(a);
      WithinYear(b);
      if a.year < b.year { YearsAhead(a.year, b.year); } else { YearsAhead(b.year, a.year); }
    } else if a.month < b.month {
      MonthsAhead(a.year, a.month, b.month);
    } else if b.month < a.month {
      MonthsAhead(a.year, b.month, a.month);
    }
  }

  /** Day of the week of a day number, Monday being 0: day 0 was a Thursday. */
  function Weekday(n: int): (w: int)
    ensures 0 <= w < 7
  {
    (n + 3) % 7
  }

  lemma KnownDays()
    ensures DayNumber(Date(1970, 1, 1)) == 0 && Weekday(0) == 3
    ensures DayNumber(Date(2021, 1, 1)) == 18628 && Weekday(18628) == 4
    ensures DayNumber(Date(2021, 1, 14)) == 18641
  {
  }
}
