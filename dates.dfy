/**
 * Calendar days and the rolling window of days shown in the grid and
 * exported as CSV rows.
 *
 * A day is a whole number of days from a fixed origin and stands for the
 * `YYYY-MM-DD` key the application stores for it. Measuring the distance
 * between two keys becomes integer subtraction.
 */
module Dates {
  /** A stored date key, counted in days from a fixed origin. */
  type Day = int

  /** Width of the grid in weeks. */
  const WEEKS: nat := 53
  const DAYS_PER_WEEK: nat := 7
  /** Number of days in the window: 53 * 7 = 371. */
  const TOTAL_DAYS: nat := WEEKS * DAYS_PER_WEEK

  /** Whole days from `a` to `b` (the rounded millisecond distance of two local midnights). */
  function DaysBetween(a: Day, b: Day): (r: int)
    ensures a + r == b
  {
    b - a
  }

  /** `dates` holds TOTAL_DAYS days, each one day after the previous, the last being `today`. */
  predicate IsWindow(dates: seq<Day>, today: Day) {
    |dates| == TOTAL_DAYS &&
    dates[|dates| - 1] == today &&
    forall i :: 0 < i < |dates| ==> dates[i] == dates[i - 1] + 1
  }

  /** Builds the window of days ending today, earliest first. */
  method BuildDates(today: Day) returns (dates: seq<Day>)
    ensures IsWindow(dates, today)
  {
    var totalDays := WEEKS * DAYS_PER_WEEK;
    dates := [];
    var startDate := today - (totalDays - 1);
    for i := 0 to totalDays
      invariant |dates| == i
      invariant forall k :: 0 <= k < i ==> dates[k] == startDate + k
    {
      dates := dates + [startDate + i];
    }
  }

  /** Every entry of a window is its first entry plus its position. */
  lemma {:induction false} WindowOffset(dates: seq<Day>, today: Day, k: nat)
    requires IsWindow(dates, today)
    requires k < |dates|
    ensures dates[k] == dates[0] + k
  {
    if k > 0 {
      WindowOffset(dates, today, k - 1);
    }
  }

  /**
   * A window is strictly ascending and holds exactly the days from
   * today - 370 to today.
   */
  lemma WindowContents(dates: seq<Day>, today: Day)
    requires IsWindow(dates, today)
    ensures dates[0] == today - (TOTAL_DAYS - 1)
    ensures forall i, j :: 0 <= i < j < |dates| ==> dates[i] < dates[j]
    ensures forall d :: d in dates <==> today - (TOTAL_DAYS - 1) <= d <= today
  {
    forall k | 0 <= k < |dates|
      ensures dates[k] == today - (TOTAL_DAYS - 1) + k
    {
      WindowOffset(dates, today, k);
      WindowOffset(dates, today, |dates| - 1);
    }
    forall d | today - (TOTAL_DAYS - 1) <= d <= today
      ensures d in dates
    {
      assert dates[d - (today - (TOTAL_DAYS - 1))] == d;
    }
  }
}
