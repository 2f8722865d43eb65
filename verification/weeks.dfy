/**
 * The weeks of the weekly diagnosis report. Days are day numbers (see
 * `Calendar.DayNumber`). The first week runs from the start date to the
 * Sunday after it; every later week starts on a Monday; the last one is
 * cut short at the end date.
 */
module Weeks {
  import opened Calendar

  /** `d.monday`: the Monday on or before day `d`. */
  function Monday(d: int): (m: int)
    ensures m <= d < m + 7 && Weekday(m) == 0
  {
    d - Weekday(d)
  }

  /** `1.weeks.from_now(t.monday)`: the first day of the week after `t`'s. */
  function NextStart(t: int): (n: int)
    ensures t < n <= t + 7 && Weekday(n) == 0
  {
    Monday(t) + 7
  }

  /** Two Mondays are a whole number of weeks apart, so none falls after
      `t` and before the week that follows `t`'s. */
  lemma NoMondayBetween(t: int, d: int)
    requires t < d && Weekday(d) == 0
    ensures NextStart(t) <= d
  {
    var m := Monday(t);
    assert (d - m) % 7 == 0 by {
      assert (d + 3) % 7 == 0 && (m + 3) % 7 == 0;
    }
  }

  /** The week starts the loop of `weekly_report` collects, from `t` on:
      it keeps going while the day lies within `start..end`. */
  function StartsFrom(start: int, t: int, end: int): (r: seq<int>)
    requires start <= t
    ensures r != [] <==> t <= end
    ensures r != [] ==> r[0] == t
    ensures forall i :: 0 <= i < |r| ==> t <= r[i] <= end
    decreases end - t
  {
    if start <= t && t <= end then [t] + StartsFrom(start, NextStart(t), end) else []
  }

  /** Each week start after the first is the Monday after the one before. */
  lemma {:induction false} StartsFromStep(start: int, t: int, end: int, i: int)
    requires start <= t
    requires 0 <= i && i + 1 < |StartsFrom(start, t, end)|
    ensures var r := StartsFrom(start, t, end); r[i + 1] == NextStart(r[i])
    decreases end - t
  {
    var r := StartsFrom(start, t, end);
    var rest := StartsFrom(start, NextStart(t), end);
    assert r == [t] + rest;
    if i > 0 {
      StartsFromStep(start, NextStart(t), end, i - 1);
      assert r[i] == rest[i - 1] && r[i + 1] == rest[i];
    }
  }

  /** The loop stops because the week after the last one starts past the end date. */
  lemma {:induction false} StartsFromLast(start: int, t: int, end: int)
    requires start <= t <= end
    ensures var r := StartsFrom(start, t, end); NextStart(r[|r| - 1]) > end
    decreases end - t
  {
    var r := StartsFrom(start, t, end);
    var rest := StartsFrom(start, NextStart(t), end);
    assert r == [t] + rest;
    if rest != [] {
      StartsFromLast(start, NextStart(t), end);
      assert r[|r| - 1] == rest[|rest| - 1];
    }
  }

  /** The loop misses no Monday: every Monday after `t` and up to the end
      date is one of the week starts it collects. */
  lemma {:induction false} StartsFromComplete(start: int, t: int, end: int, d: int)
    requires start <= t < d <= end && Weekday(d) == 0
    ensures d in StartsFrom(start, t, end)
    decreases end - t
  {
    var r := StartsFrom(start, t, end);
    var n := NextStart(t);
    var rest := StartsFrom(start, n, end);
    assert r == [t] + rest;
    NoMondayBetween(t, d);
    if d == n {
      assert rest[0] == d;
      assert r[1] == d;
    } else {
      StartsFromComplete(start, n, end, d);
    }
  }

  /** `@times`: the first days of the report's weeks. */
  function WeekStarts(start: int, end: int): (times: seq<int>)
    ensures times != [] <==> start <= end
    ensures times != [] ==> times[0] == start
    ensures forall i :: 0 <= i < |times| ==> start <= times[i] <= end
  {
    StartsFrom(start, start, end)
  }

  /** Every week but the first starts on a Monday. */
  lemma WeekStartsMonday(start: int, end: int, i: int)
    requires 0 < i < |WeekStarts(start, end)|
    ensures Weekday(WeekStarts(start, end)[i]) == 0
  {
    StartsFromStep(start, start, end, i - 1);
  }

  /** The weeks come in order: a later week starts on a later day. */
  lemma {:induction false} WeekStartsIncreasing(start: int, end: int, i: int, j: int)
    requires 0 <= i < j < |WeekStarts(start, end)|
    ensures WeekStarts(start, end)[i] < WeekStarts(start, end)[j]
    decreases j - i
  {
    StartsFromStep(start, start, end, j - 1);
    if i < j - 1 {
      WeekStartsIncreasing(start, end, i, j - 1);
    }
  }

  /** Every Monday of the range starts one of the report's weeks. */
  lemma WeekStartsComplete(start: int, end: int, d: int)
    requires start <= d <= end && Weekday(d) == 0
    ensures d in WeekStarts(start, end)
  {
    if d == start {
      assert WeekStarts(start, end)[0] == d;
    } else {
      StartsFromComplete(start, start, end, d);
    }
  }

  /** The last day of the week that starts on `t`, cut at the end date. */
  function WeekEnd(t: int, end: int): (e: int)
    ensures e <= end && e < NextStart(t)
    ensures e == end || e == NextStart(t) - 1
  {
    if NextStart(t) - 1 >= end then end else NextStart(t) - 1
  }

  /** Every day of a week lies in the same Monday-to-Sunday week as its
      first day. */
  lemma SameWeek(t: int, end: int, d: int)
    requires t <= d <= WeekEnd(t, end)
    ensures Monday(d) == Monday(t)
  {
    var m := Monday(t);
    assert m <= d < m + 7;
    assert (d + 3) % 7 == ((m + 3) % 7 + (d - m)) % 7;
  }

  /** The weeks tile the range: the first starts on the start date (see
      `WeekStarts`), each later one starts the day after the one before
      ends, and the last ends on the end date. */
  lemma Tiling(start: int, end: int, i: int)
    requires 0 <= i < |WeekStarts(start, end)|
    ensures var times := WeekStarts(start, end);
      && (i + 1 < |times| ==> times[i + 1] == WeekEnd(times[i], end) + 1)
      && (i + 1 == |times| ==> WeekEnd(times[i], end) == end)
  {
    var times := WeekStarts(start, end);
    if i + 1 < |times| {
      StartsFromStep(start, start, end, i);
      assert times[i + 1] <= end;
    } else {
      StartsFromLast(start, start, end);
    }
  }

  /** 1 to 14 January 2021 (days 18628 to 18641; the 1st was a Friday)
      falls into three weeks: the 1st to the 3rd, the 4th to the 10th, and
      the 11th to the 14th. */
  lemma JanuaryWeeks()
    ensures WeekStarts(18628, 18641) == [18628, 18631, 18638]
    ensures WeekEnd(18628, 18641) == 18630
    ensures WeekEnd(18631, 18641) == 18637
    ensures WeekEnd(18638, 18641) == 18641
  {
    assert NextStart(18628) == 18631;
    assert NextStart(18631) == 18638;
    assert NextStart(18638) == 18645;
    assert StartsFrom(18628, 18645, 18641) == [];
    assert StartsFrom(18628, 18638, 18641) == [18638];
    assert StartsFrom(18628, 18631, 18641) == [18631, 18638];
  }
}
