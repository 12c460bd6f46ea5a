/**
 * The completion log of one habit: the days it was marked done.
 * Marking and unmarking a day (the data part of `toggleHabitDay`) and the
 * sort used by it and by the best-streak scan.
 */
module Logs {
  import opened Wrappers
  import opened Dates

  predicate Sorted(s: seq<Day>) {
    forall i, j :: 0 <= i < j < |s| ==> s[i] <= s[j]
  }

  /** Ascending without duplicates: the invariant the mutation code keeps. */
  predicate StrictlySorted(s: seq<Day>) {
    forall i, j :: 0 <= i < j < |s| ==> s[i] < s[j]
  }

  predicate Distinct(s: seq<Day>) {
    forall i, j :: 0 <= i < j < |s| ==> s[i] != s[j]
  }

  /** Inserts `x` in front of the first entry not below it. */
  function Insert(s: seq<Day>, x: Day): (r: seq<Day>)
    ensures multiset(r) == multiset(s) + multiset{x}
  {
    if s == [] then [x]
    else if x <= s[0] then [x] + s
    else
      assert s == [s[0]] + s[1..];
      [s[0]] + Insert(s[1..], x)
  }

  /** Inserting into a sorted list keeps it sorted. */
  lemma {:induction false} InsertSorted(s: seq<Day>, x: Day)
    requires Sorted(s)
    ensures Sorted(Insert(s, x))
  {
    if s != [] && x > s[0] {
      var tail := s[1..];
      assert Sorted(tail);
      InsertSorted(tail, x);
      var rest := Insert(tail, x);
      forall j | 0 <= j < |rest| ensures s[0] <= rest[j] {
        assert rest[j] in multiset(rest);
        if rest[j] != x {
          assert rest[j] in multiset(tail);
          var k :| 0 <= k < |tail| && tail[k] == rest[j];
          assert s[k + 1] == rest[j];
        }
      }
      var r := [s[0]] + rest;
      forall a, b | 0 <= a < b < |r| ensures r[a] <= r[b] {
        assert r[b] == rest[b - 1];
        if a > 0 {
          assert r[a] == rest[a - 1];
        }
      }
    }
  }

  /** Ascending sort of a list of days (`Array.prototype.sort`). */
  function SortAsc(s: seq<Day>): (r: seq<Day>)
    ensures Sorted(r)
    ensures multiset(r) == multiset(s)
  {
    if s == [] then []
    else
      var p := SortAsc(s[..|s| - 1]);
      assert s == s[..|s| - 1] + [s[|s| - 1]];
      InsertSorted(p, s[|s| - 1]);
      Insert(p, s[|s| - 1])
  }

  /** Each logged day of `s` once (`Array.from(new Set(s))`); the caller sorts it, so no order is stated. */
  function Dedup(s: seq<Day>): (r: seq<Day>)
    ensures Distinct(r)
    ensures |r| <= |s|
    ensures forall x :: x in r <==> x in s
  {
    if s == [] then []
    else
      var p := Dedup(s[..|s| - 1]);
      var x := s[|s| - 1];
      assert s == s[..|s| - 1] + [x];
      if x in p then p else p + [x]
  }

  /** Position of the first occurrence of `x` in `s` (`indexOf`), None when absent. */
  function IndexOf(s: seq<Day>, x: Day): (r: Option<nat>)
    ensures r.None? <==> x !in s
    ensures r.Some? ==> r.value < |s| && s[r.value] == x && x !in s[..r.value]
  {
    if s == [] then None
    else if s[0] == x then Some(0)
    else
      match IndexOf(s[1..], x)
      case None => None
      case Some(i) =>
        assert s[..i + 1] == [s[0]] + s[1..][..i];
        Some(i + 1)
  }

  /**
   * The logs after toggling day `d`: a logged day is spliced out at its first
   * position (unmark); otherwise it is pushed and the list re-sorted (mark).
   */
  function ToggleDay(logs: seq<Day>, d: Day): (r: seq<Day>)
    ensures d in logs ==> |r| == |logs| - 1 && multiset(r) == multiset(logs) - multiset{d}
    ensures d in logs ==> exists k :: 0 <= k < |logs| && logs[k] == d && d !in logs[..k] && r == logs[..k] + logs[k + 1..]
    ensures d !in logs ==> |r| == |logs| + 1 && Sorted(r) && multiset(r) == multiset(logs) + multiset{d}
  {
    match IndexOf(logs, d)
    case Some(k) =>
      assert logs == logs[..k] + [logs[k]] + logs[k + 1..];
      logs[..k] + logs[k + 1..]
    case None =>
      assert |multiset(SortAsc(logs + [d]))| == |logs + [d]|;
      SortAsc(logs + [d])
  }

  /** Inserting a new day into a strictly sorted list keeps it strictly sorted. */
  lemma {:induction false} InsertStrict(s: seq<Day>, x: Day)
    requires StrictlySorted(s) && x !in s
    ensures StrictlySorted(Insert(s, x))
  {
    if s != [] && x > s[0] {
      assert s == [s[0]] + s[1..];
      InsertStrict(s[1..], x);
      var rest := Insert(s[1..], x);
      forall y | y in rest ensures s[0] < y {
        assert y in multiset(rest);
      }
      var r := [s[0]] + rest;
      forall i, j | 0 <= i < j < |r| ensures r[i] < r[j] {
        if i == 0 {
          assert r[j] == rest[j - 1];
          assert rest[j - 1] in rest;
        }
      }
    }
  }

  /** Sorting a list without duplicates gives a strictly sorted list. */
  lemma {:induction false} SortAscStrict(s: seq<Day>)
    requires Distinct(s)
    ensures StrictlySorted(SortAsc(s))
  {
    if s != [] {
      var p := s[..|s| - 1];
      var x := s[|s| - 1];
      assert Distinct(p);
      SortAscStrict(p);
      assert x !in p;
      assert x !in multiset(SortAsc(p));
      InsertStrict(SortAsc(p), x);
    }
  }

  /** Inserting a day no smaller than every entry appends it. */
  lemma {:induction false} InsertAtEnd(p: seq<Day>, x: Day)
    requires Sorted(p)
    requires forall i :: 0 <= i < |p| ==> p[i] <= x
    ensures Insert(p, x) == p + [x]
  {
    if p != [] {
      if x <= p[0] {
        assert forall i :: 0 <= i < |p| ==> p[i] == x;
        assert [x] + p == p + [x];
      } else {
        InsertAtEnd(p[1..], x);
        assert p == [p[0]] + p[1..];
      }
    }
  }

  /** Sorting an already sorted list changes nothing. */
  lemma {:induction false} SortAscOfSorted(s: seq<Day>)
    requires Sorted(s)
    ensures SortAsc(s) == s
  {
    if s != [] {
      var p := s[..|s| - 1];
      var x := s[|s| - 1];
      assert s == p + [x];
      assert Sorted(p);
      assert forall i :: 0 <= i < |p| ==> p[i] <= x;
      SortAscOfSorted(p);
      assert SortAsc(s) == Insert(SortAsc(p), x);
      InsertAtEnd(p, x);
    }
  }

  /** Two strictly sorted lists with the same entries are equal. */
  lemma {:induction false} StrictUnique(a: seq<Day>, b: seq<Day>)
    requires StrictlySorted(a) && StrictlySorted(b)
    requires forall x :: x in a <==> x in b
    ensures a == b
  {
    assert a != [] ==> a[0] in a && a[0] in b;
    assert b != [] ==> b[0] in b && b[0] in a;
    if a != [] && b != [] {
      assert a[0] in a;
      var j :| 0 <= j < |b| && b[j] == a[0];
      assert b[0] in b;
      var i :| 0 <= i < |a| && a[i] == b[0];
      assert a[0] == b[0];
      forall x ensures x in a[1..] <==> x in b[1..] {
        TailMembers(a, x);
        TailMembers(b, x);
      }
      StrictUnique(a[1..], b[1..]);
      assert a == [a[0]] + a[1..];
      assert b == [b[0]] + b[1..];
    }
  }

  /** The tail of a strictly sorted list holds every entry except the head. */
  lemma TailMembers(a: seq<Day>, x: Day)
    requires StrictlySorted(a) && a != []
    ensures x in a[1..] <==> x in a && x != a[0]
  {
    if x in a[1..] {
      var i :| 0 <= i < |a[1..]| && a[1..][i] == x;
      assert a[i + 1] == x;
    }
    if x in a && x != a[0] {
      var i :| 0 <= i < |a| && a[i] == x;
      assert a[1..][i - 1] == x;
    }
  }

  /** Marking an unlogged day on strictly sorted logs inserts it in order. */
  lemma ToggleAbsent(logs: seq<Day>, d: Day)
    requires StrictlySorted(logs) && d !in logs
    ensures ToggleDay(logs, d) == Insert(logs, d)
    ensures StrictlySorted(ToggleDay(logs, d))
    ensures forall x :: x in ToggleDay(logs, d) <==> x in logs || x == d
  {
    var s := logs + [d];
    assert s[..|s| - 1] == logs;
    SortAscOfSorted(logs);
    InsertStrict(logs, d);
    var r := Insert(logs, d);
    forall x ensures x in r <==> x in logs || x == d {
      assert x in r <==> x in multiset(r);
    }
  }

  /** Splicing entry k out of a strictly sorted list keeps it strictly sorted and drops exactly that entry's day. */
  lemma SpliceStrict(logs: seq<Day>, k: nat)
    requires StrictlySorted(logs) && k < |logs|
    ensures StrictlySorted(logs[..k] + logs[k + 1..])
    ensures forall x :: x in logs[..k] + logs[k + 1..] <==> x in logs && x != logs[k]
  {
    var r := logs[..k] + logs[k + 1..];
    forall i, j | 0 <= i < j < |r| ensures r[i] < r[j] {
      assert r[i] == logs[if i < k then i else i + 1];
      assert r[j] == logs[if j < k then j else j + 1];
    }
    forall x ensures x in r <==> x in logs && x != logs[k] {
      if x in r {
        var i :| 0 <= i < |r| && r[i] == x;
        assert logs[if i < k then i else i + 1] == x;
      }
      if x in logs && x != logs[k] {
        var i :| 0 <= i < |logs| && logs[i] == x;
        if i < k {
          assert r[i] == x;
        } else {
          assert r[i - 1] == x;
        }
      }
    }
  }

  /** Unmarking a logged day on strictly sorted logs removes exactly that day. */
  lemma TogglePresent(logs: seq<Day>, d: Day)
    requires StrictlySorted(logs) && d in logs
    ensures StrictlySorted(ToggleDay(logs, d))
    ensures forall x :: x in ToggleDay(logs, d) <==> x in logs && x != d
  {
    var k := IndexOf(logs, d).value;
    assert ToggleDay(logs, d) == logs[..k] + logs[k + 1..];
    SpliceStrict(logs, k);
  }

  /**
   * On strictly sorted logs a toggle flips exactly the toggled day and keeps
   * the list strictly sorted.
   */
  lemma ToggleFlips(logs: seq<Day>, d: Day)
    requires StrictlySorted(logs)
    ensures StrictlySorted(ToggleDay(logs, d))
    ensures d in ToggleDay(logs, d) <==> d !in logs
    ensures forall x :: x != d ==> (x in ToggleDay(logs, d) <==> x in logs)
  {
    if d in logs {
      TogglePresent(logs, d);
    } else {
      ToggleAbsent(logs, d);
    }
  }

  /** On strictly sorted logs, toggling the same day twice restores the logs. */
  lemma ToggleTwice(logs: seq<Day>, d: Day)
    requires StrictlySorted(logs)
    ensures ToggleDay(ToggleDay(logs, d), d) == logs
  {
    var once := ToggleDay(logs, d);
    ToggleFlips(logs, d);
    ToggleFlips(once, d);
    var twice := ToggleDay(once, d);
    StrictUnique(twice, logs);
  }

  /**
   * The restoring property needs sorted logs: on the unsorted list [2, 1]
   * (possible after an import) two toggles of day 1 leave [1, 2].
   */
  lemma ToggleTwiceUnsorted()
    ensures ToggleDay(ToggleDay([2, 1], 1), 1) == [1, 2]
  {
    UnmarkSecond();
    MarkBelow();
  }

  /** Unmarking day 1 of [2, 1] splices out position 1. */
  lemma UnmarkSecond()
    ensures ToggleDay([2, 1], 1) == [2]
  {
    var t: seq<Day> := [2, 1];
    assert t[1] == 1;
    var k :| 0 <= k < |t| && t[k] == 1 && 1 !in t[..k] && ToggleDay(t, 1) == t[..k] + t[k + 1..];
    assert k == 1;
    assert t[..1] + t[2..] == [2];
  }

  /** Marking day 1 on [2] sorts it in front. */
  lemma MarkBelow()
    ensures ToggleDay([2], 1) == [1, 2]
  {
    var u: seq<Day> := [2];
    assert IndexOf(u, 1) == None;
    assert (u + [1])[..1] == u;
    assert u[..0] == [];
    assert SortAsc(u) == [2];
  }
}
