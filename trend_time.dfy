/**
 * The two date-hour tests of map_station_trends.py: `is_one_hour_after`, which decides
 * whether two stored hourly samples are adjacent, and `in_time_interval`, which picks the
 * samples whose hour-of-day and weekday class the run asked for. The module globals
 * `desired_hour` and `is_weekend` are parameters here.
 */
module TrendTime {
  import opened Feed

  /** `is_one_hour_after(dt2, dt1)`: is the date-hour `later` exactly one hour after `earlier`? */
  predicate IsOneHourAfter(later: LocalTime, earlier: LocalTime)
  {
    if earlier.day == later.day then later.hour - earlier.hour == 1
    else if later.day - earlier.day == 1 then later.hour == 0 && earlier.hour == 23
    else false
  }

  /** The date-hour that follows `t`, rolling over to midnight of the next day after 23:00. */
  function NextHour(t: LocalTime): (n: LocalTime)
    ensures HourIndex(n) == HourIndex(t) + 1
  {
    if t.hour == 23 then LocalTime(t.day + 1, 0) else LocalTime(t.day, t.hour + 1)
  }

  /**
   * The adjacency test agrees with the linear clock: `later` is one hour after `earlier`
   * exactly when it is the next hour, including the 23:00 to 00:00 day rollover.
   */
  lemma OneHourAfterIsNextHour(later: LocalTime, earlier: LocalTime)
    ensures IsOneHourAfter(later, earlier) <==> later == NextHour(earlier)
    ensures IsOneHourAfter(later, earlier) <==> HourIndex(later) == HourIndex(earlier) + 1
  {
    HourIndexOrder(later, NextHour(earlier));
  }

  /**
   * The cases the test distinguishes: on one date the hours differ by one; across one
   * date boundary only 23:00 to 00:00 is adjacent; a later gap or an earlier time never is.
   */
  lemma OneHourAfterCases(later: LocalTime, earlier: LocalTime)
    ensures later.day == earlier.day ==> (IsOneHourAfter(later, earlier) <==> later.hour == earlier.hour + 1)
    ensures later.day == earlier.day + 1 ==> (IsOneHourAfter(later, earlier) <==> earlier.hour == 23 && later.hour == 0)
    ensures (later.day >= earlier.day + 2 || later.day < earlier.day) ==> !IsOneHourAfter(later, earlier)
    ensures IsOneHourAfter(later, earlier) ==> !IsOneHourAfter(earlier, later)
  {
  }

  /** Saturday and Sunday, in `date.weekday()` numbering. */
  predicate IsWeekendDay(day: int)
  {
    Weekday(day) >= 5
  }

  /** `in_time_interval(dt)` with `desired_hour` and `is_weekend` passed in. */
  predicate InTimeInterval(t: LocalTime, desiredHour: int, isWeekend: bool)
  {
    var desiredDays := if isWeekend then [5, 6] else [0, 1, 2, 3, 4];
    Weekday(t.day) in desiredDays && t.hour == desiredHour
  }

  /**
   * The day lists pick out exactly one weekday class: a date-hour is in the interval
   * iff its day is a weekend day precisely when weekends were asked for, and its hour
   * is the desired one.
   */
  lemma InTimeIntervalClassifies(t: LocalTime, desiredHour: int, isWeekend: bool)
    ensures InTimeInterval(t, desiredHour, isWeekend) <==> (IsWeekendDay(t.day) == isWeekend && t.hour == desiredHour)
  {
    var w := Weekday(t.day);
    assert 0 <= w < 7;
    if isWeekend {
      assert (w in [5, 6]) <==> w >= 5;
    } else {
      assert (w in [0, 1, 2, 3, 4]) <==> w < 5;
    }
  }

  /** Every date-hour falls in exactly one of the two classes for its own hour. */
  lemma WeekdayClassesPartition(t: LocalTime)
    ensures InTimeInterval(t, t.hour, true) != InTimeInterval(t, t.hour, false)
  {
    InTimeIntervalClassifies(t, t.hour, true);
    InTimeIntervalClassifies(t, t.hour, false);
  }

  /** The interval test repeats every week. */
  lemma InTimeIntervalWeekly(t: LocalTime, desiredHour: int, isWeekend: bool)
    ensures InTimeInterval(LocalTime(t.day + 7, t.hour), desiredHour, isWeekend) == InTimeInterval(t, desiredHour, isWeekend)
  {
    assert Weekday(t.day + 7) == Weekday(t.day);
  }
}
