/**
 * Per-habit statistics (`computeAndDisplayStats`): total count, current
 * streak ending today and best streak anywhere in the log.
 */
module Streaks {
  import opened Dates
  import opened Logs

  /** The current streak looks back at most this many days, today included. */
  const LOOKBACK: nat := 365

  /** The `len` days ending with `last` are all logged. */
  ghost predicate Covered(logs: seq<Day>, last: Day, len: nat) {
    forall d :: last - len < d <= last ==> d in logs
  }

  /** Logged days counted backward from `day`, stopping at the first gap or after `window` days. */
  function RunBack(logs: seq<Day>, day: Day, window: nat): (r: nat)
    ensures r <= window
    ensures r > 0 ==> day in logs
    decreases window
  {
    if window == 0 || day !in logs then 0
    else 1 + RunBack(logs, day - 1, window - 1)
  }

  /** The current streak: consecutive logged days ending today, capped at LOOKBACK. */
  function CurrentStreakOf(logs: seq<Day>, today: Day): (r: nat)
    ensures r <= LOOKBACK
    ensures r == 0 <==> today !in logs
  {
    RunBack(logs, today, LOOKBACK)
  }

  /**
   * The days counted back from `day` are all logged, and when the count
   * stops short of the window the next earlier day is not logged.
   */
  lemma {:induction false} RunBackSpec(logs: seq<Day>, day: Day, window: nat)
    ensures Covered(logs, day, RunBack(logs, day, window))
    ensures RunBack(logs, day, window) < window ==> day - RunBack(logs, day, window) !in logs
    decreases window
  {
    if window > 0 && day in logs {
      RunBackSpec(logs, day - 1, window - 1);
    }
  }

  /**
   * The current streak is the largest k <= 365 such that today, today - 1,
   * ..., today - (k - 1) are all logged; it is 0 exactly when today is not.
   */
  lemma CurrentStreakSpec(logs: seq<Day>, today: Day)
    ensures CurrentStreakOf(logs, today) <= LOOKBACK
    ensures Covered(logs, today, CurrentStreakOf(logs, today))
    ensures forall k: nat :: k <= LOOKBACK && Covered(logs, today, k) ==> k <= CurrentStreakOf(logs, today)
    ensures CurrentStreakOf(logs, today) == 0 <==> today !in logs
  {
    var c := CurrentStreakOf(logs, today);
    RunBackSpec(logs, today, LOOKBACK);
    forall k: nat | k <= LOOKBACK && Covered(logs, today, k) ensures k <= c {
    }
  }

  /** Entries lo .. hi - 1 of `arr` are consecutive days. */
  ghost predicate Consecutive(arr: seq<Day>, lo: nat, hi: nat)
    requires lo <= hi <= |arr|
  {
    forall k :: lo < k < hi ==> arr[k] == arr[k - 1] + 1
  }

  /** Length of the run of consecutive days that ends at entry `i`. */
  function RunEnding(arr: seq<Day>, i: nat): (r: nat)
    requires i < |arr|
    ensures 1 <= r <= i + 1
  {
    if i == 0 then 1
    else if DaysBetween(arr[i - 1], arr[i]) == 1 then RunEnding(arr, i - 1) + 1
    else 1
  }

  function Max(a: nat, b: nat): nat {
    if a >= b then a else b
  }

  /** Longest run of consecutive days among the first `n` entries. */
  function LongestRun(arr: seq<Day>, n: nat): (r: nat)
    requires n <= |arr|
    ensures r <= n
    ensures n > 0 ==> r >= 1
  {
    if n == 0 then 0 else Max(LongestRun(arr, n - 1), RunEnding(arr, n - 1))
  }

  /** The best streak: longest run over the sorted distinct logged days. */
  function BestStreakOf(logs: seq<Day>): (r: nat)
    ensures r <= |logs|
    ensures r == 0 <==> logs == []
  {
    var ds := Dedup(logs);
    var arr := SortAsc(ds);
    assert |arr| == |multiset(arr)| == |multiset(ds)| == |ds|;
    assert logs != [] ==> logs[0] in ds;
    LongestRun(arr, |arr|)
  }

  /** The run ending at entry i is a run, and the entry before it does not extend it. */
  lemma {:induction false} RunEndingSpec(arr: seq<Day>, i: nat)
    requires i < |arr|
    ensures Consecutive(arr, i + 1 - RunEnding(arr, i), i + 1)
    ensures RunEnding(arr, i) <= i ==> arr[i + 1 - RunEnding(arr, i)] != arr[i - RunEnding(arr, i)] + 1
  {
    if i > 0 && arr[i] == arr[i - 1] + 1 {
      RunEndingSpec(arr, i - 1);
    }
  }

  lemma {:induction false} LongestRunSpec(arr: seq<Day>, n: nat)
    requires n <= |arr|
    ensures n > 0 ==> exists lo: nat, hi: nat :: lo <= hi <= n && hi - lo == LongestRun(arr, n) && Consecutive(arr, lo, hi)
    ensures forall lo: nat, hi: nat :: lo <= hi <= n && Consecutive(arr, lo, hi) ==> hi - lo <= LongestRun(arr, n)
  {
    if n > 0 {
      LongestRunSpec(arr, n - 1);
      RunEndingSpec(arr, n - 1);
      var r := LongestRun(arr, n);
      if r == RunEnding(arr, n - 1) {
        assert Consecutive(arr, n - r, n);
      } else {
        var lo: nat, hi: nat :| lo <= hi <= n - 1 && hi - lo == LongestRun(arr, n - 1) && Consecutive(arr, lo, hi);
        assert hi - lo == r;
      }
      forall lo: nat, hi: nat | lo <= hi <= n && Consecutive(arr, lo, hi)
        ensures hi - lo <= r
      {
      }
    }
  }

  /** In a run, each entry is the first entry plus its distance from it. */
  lemma {:induction false} ConsecutiveValue(arr: seq<Day>, lo: nat, hi: nat, k: nat)
    requires lo <= k < hi <= |arr| && Consecutive(arr, lo, hi)
    ensures arr[k] == arr[lo] + (k - lo)
  {
    if k > lo {
      ConsecutiveValue(arr, lo, hi, k - 1);
    }
  }

  /** A run of entries covers the days it spans. */
  lemma ConsecutiveCovered(arr: seq<Day>, lo: nat, hi: nat)
    requires lo < hi <= |arr| && Consecutive(arr, lo, hi)
    ensures Covered(arr, arr[hi - 1], hi - lo)
  {
    ConsecutiveValue(arr, lo, hi, hi - 1);
    forall d | arr[hi - 1] - (hi - lo) < d <= arr[hi - 1] ensures d in arr {
      var k := lo + (d - arr[lo]);
      ConsecutiveValue(arr, lo, hi, k);
    }
  }

  /** On a strictly sorted list, entries m - t, ..., m are the days arr[m] - t, ..., arr[m]. */
  lemma {:induction false} CoveredBackward(arr: seq<Day>, m: nat, len: nat, t: nat)
    requires StrictlySorted(arr) && m < |arr|
    requires Covered(arr, arr[m], len) && t < len
    ensures t <= m && arr[m - t] == arr[m] - t
  {
    if t > 0 {
      CoveredBackward(arr, m, len, t - 1);
      var target := arr[m] - t;
      assert target in arr;
      var p :| 0 <= p < |arr| && arr[p] == target;
      assert p < m - (t - 1);
      assert arr[p] <= arr[m - t];
    }
  }

  /** Covered days of a strictly sorted list form a run of entries. */
  lemma CoveredConsecutive(arr: seq<Day>, last: Day, len: nat)
    requires StrictlySorted(arr) && len >= 1 && Covered(arr, last, len)
    ensures exists lo: nat, hi: nat :: lo <= hi <= |arr| && hi - lo == len && Consecutive(arr, lo, hi)
  {
    assert last in arr;
    var m :| 0 <= m < |arr| && arr[m] == last;
    CoveredBackward(arr, m, len, len - 1);
    forall k | m + 1 - len < k < m + 1 ensures arr[k] == arr[k - 1] + 1 {
      CoveredBackward(arr, m, len, m - k);
      CoveredBackward(arr, m, len, m - k + 1);
    }
    assert Consecutive(arr, m + 1 - len, m + 1);
  }

  /**
   * The best streak is 0 exactly for empty logs and otherwise at most the
   * number of distinct days; some run of that many days is logged and no
   * longer run is.
   */
  lemma BestStreakSpec(logs: seq<Day>)
    ensures BestStreakOf(logs) == 0 <==> |logs| == 0
    ensures BestStreakOf(logs) <= |Dedup(logs)|
    ensures BestStreakOf(logs) > 0 ==> exists last :: Covered(logs, last, BestStreakOf(logs))
    ensures forall last, len: nat :: Covered(logs, last, len) ==> len <= BestStreakOf(logs)
  {
    var arr := SortAsc(Dedup(logs));
    var b := BestStreakOf(logs);
    SortedDistinctDays(logs);
    LongestRunSpec(arr, |arr|);
    if b > 0 {
      var lo: nat, hi: nat :| lo <= hi <= |arr| && hi - lo == b && Consecutive(arr, lo, hi);
      ConsecutiveCovered(arr, lo, hi);
      CoveredSameDays(arr, logs, arr[hi - 1], b);
    }
    forall last, len: nat | Covered(logs, last, len) ensures len <= b {
      if len >= 1 {
        CoveredSameDays(logs, arr, last, len);
        CoveredConsecutive(arr, last, len);
      }
    }
  }

  /** The list the best-streak scan walks is strictly sorted and holds each logged day once. */
  lemma SortedDistinctDays(logs: seq<Day>)
    ensures StrictlySorted(SortAsc(Dedup(logs)))
    ensures |SortAsc(Dedup(logs))| == |Dedup(logs)|
    ensures forall x :: x in SortAsc(Dedup(logs)) <==> x in logs
    ensures |logs| > 0 ==> |Dedup(logs)| > 0
  {
    var dd := Dedup(logs);
    var arr := SortAsc(dd);
    SortAscStrict(dd);
    assert |arr| == |multiset(arr)| == |multiset(dd)| == |dd|;
    forall x ensures x in arr <==> x in logs {
      assert x in arr <==> x in multiset(arr);
    }
    if |logs| > 0 {
      assert logs[0] in dd;
    }
  }

  /** Coverage depends only on which days are logged. */
  lemma CoveredSameDays(a: seq<Day>, b: seq<Day>, last: Day, len: nat)
    requires forall x :: x in a <==> x in b
    requires Covered(a, last, len)
    ensures Covered(b, last, len)
  {
  }

  /** The best streak is never below the current streak. */
  lemma BestAtLeastCurrent(logs: seq<Day>, today: Day)
    ensures CurrentStreakOf(logs, today) <= BestStreakOf(logs)
  {
    CurrentStreakSpec(logs, today);
    BestStreakSpec(logs);
  }

  /** Three consecutive days ending today: current streak 3, best streak 3. */
  lemma ThreeDayRun(d: Day)
    ensures CurrentStreakOf([d, d + 1, d + 2], d + 2) == 3
    ensures BestStreakOf([d, d + 1, d + 2]) == 3
  {
    var logs := [d, d + 1, d + 2];
    CurrentStreakSpec(logs, d + 2);
    assert Covered(logs, d + 2, 3);
    assert d - 1 !in logs;
    BestStreakSpec(logs);
    assert |Dedup(logs)| <= 3;
  }

  /** A missed day breaks the run: with days d and d + 2 logged, both streaks are 1. */
  lemma GapBreaksRun(d: Day)
    ensures CurrentStreakOf([d, d + 2], d + 2) == 1
    ensures BestStreakOf([d, d + 2]) == 1
  {
    var logs := [d, d + 2];
    CurrentStreakSpec(logs, d + 2);
    assert Covered(logs, d + 2, 1);
    assert d + 1 !in logs;
    BestStreakSpec(logs);
    if BestStreakOf(logs) >= 2 {
      var last :| Covered(logs, last, BestStreakOf(logs));
      CoveredLastTwo(logs, last, BestStreakOf(logs));
      assert false;
    }
  }

  /** A covered stretch of two or more days contains its last day and the one before. */
  lemma CoveredLastTwo(logs: seq<Day>, last: Day, len: nat)
    requires Covered(logs, last, len) && len >= 2
    ensures last in logs && last - 1 in logs
  {
  }

  /** Empty logs: both streaks are 0. */
  lemma NoLogs(today: Day)
    ensures CurrentStreakOf([], today) == 0
    ensures BestStreakOf([]) == 0
  {
    BestStreakSpec([]);
  }

  /** The three numbers shown on a habit card. */
  datatype Stats = Stats(total: nat, current: nat, best: nat)

  /** The first loop of the stats computation: walks back from today while days are logged. */
  method CurrentStreak(logs: seq<Day>, today: Day) returns (cur: nat)
    ensures cur == CurrentStreakOf(logs, today)
  {
    cur := 0;
    var i := 0;
    while i < LOOKBACK
      invariant 0 <= i <= LOOKBACK
      invariant cur == i
      invariant CurrentStreakOf(logs, today) == i + RunBack(logs, today - i, LOOKBACK - i)
    {
      if today - i in logs {
        cur := cur + 1;
      } else {
        break;
      }
      i := i + 1;
    }
  }

  /** The second loop: scans the sorted distinct days for the longest run. */
  method BestStreak(logs: seq<Day>) returns (best: nat)
    ensures best == BestStreakOf(logs)
  {
    var arr := SortAsc(Dedup(logs));
    var run := 0;
    best := 0;
    for j := 0 to |arr|
      invariant best == LongestRun(arr, j)
      invariant j > 0 ==> run == RunEnding(arr, j - 1)
    {
      if j == 0 {
        run := 1;
      } else {
        var prev := arr[j - 1];
        var curr := arr[j];
        if DaysBetween(prev, curr) == 1 {
          run := run + 1;
        } else {
          run := 1;
        }
      }
      if run > best {
        best := run;
      }
    }
  }

  /** Computes the total, the current streak and the best streak of one habit's logs. */
  method ComputeStats(logs: seq<Day>, today: Day) returns (stats: Stats)
    ensures stats.total == |logs|
    ensures stats.current == CurrentStreakOf(logs, today)
    ensures stats.best == BestStreakOf(logs)
  {
    var cur := CurrentStreak(logs, today);
    var best := BestStreak(logs);
    stats := Stats(|logs|, cur, best);
  }
}
