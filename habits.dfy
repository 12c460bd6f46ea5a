/**
 * Habits and the list of habits in the store: lookup by id, deletion by
 * id, name trimming, the global total, and the store-level effect of a
 * toggle.
 */
module Habits {
  import opened Wrappers
  import opened Dates
  import opened Logs

  /**
   * A tracked habit. `color` is the palette chosen at creation, `createdAt`
   * an ISO timestamp, `logs` the days it was marked done.
   */
  datatype Habit = Habit(id: string, name: string, color: seq<string>, createdAt: string, logs: seq<Day>)

  /** The palettes a new habit's colour is drawn from. */
  const PALETTES: seq<seq<string>> := [
    ["#ff7eb3", "#ff758c", "#ffb347"],
    ["#7ce1ff", "#5ee7df", "#a78bfa"],
    ["#ffd86b", "#ffb86b", "#ff8a65"],
    ["#a6ffcb", "#67f3a6", "#34b3ff"],
    ["#ffd6f5", "#ffa6f3", "#c39cff"],
    ["#b8f18b", "#78ffb6", "#32d6b6"],
    ["#ffd4b5", "#ff8fb1", "#ff6969"]
  ]

  /** Every habit's logs are ascending without duplicates. */
  predicate AllLogsStrict(hs: seq<Habit>) {
    forall i :: 0 <= i < |hs| ==> StrictlySorted(hs[i].logs)
  }

  /** No two habits share an id. */
  predicate UniqueIds(hs: seq<Habit>) {
    forall i, j :: 0 <= i < j < |hs| ==> hs[i].id != hs[j].id
  }

  /** The characters `String.prototype.trim` removes: white space and line terminators. */
  predicate IsWhitespace(c: char) {
    c == '\t' || c == '\n' || c == '\U{000B}' || c == '\U{000C}' || c == '\r' || c == ' ' ||
    c == '\U{00A0}' || c == '\U{1680}' || ('\U{2000}' <= c <= '\U{200A}') ||
    c == '\U{2028}' || c == '\U{2029}' || c == '\U{202F}' || c == '\U{205F}' || c == '\U{3000}' ||
    c == '\U{FEFF}'
  }

  predicate Blank(s: string) {
    forall i :: 0 <= i < |s| ==> IsWhitespace(s[i])
  }

  /** `s` without its leading white space. */
  function TrimStart(s: string): (r: string)
    ensures |r| <= |s| && r == s[|s| - |r|..]
    ensures Blank(s[..|s| - |r|])
    ensures r == [] || !IsWhitespace(r[0])
  {
    if s == [] || !IsWhitespace(s[0]) then s
    else
      var r := TrimStart(s[1..]);
      assert s[..|s| - |r|] == [s[0]] + s[1..][..|s| - 1 - |r|];
      r
  }

  /** `s` without its trailing white space. */
  function TrimEnd(s: string): (r: string)
    ensures |r| <= |s| && r == s[..|r|]
    ensures Blank(s[|r|..])
    ensures r == [] || !IsWhitespace(r[|r| - 1])
  {
    if s == [] || !IsWhitespace(s[|s| - 1]) then s
    else
      var r := TrimEnd(s[..|s| - 1]);
      assert s[|r|..] == s[..|s| - 1][|r|..] + [s[|s| - 1]];
      r
  }

  /** `String.prototype.trim`: no longer than `s` and with no white space at either end. */
  function Trim(s: string): (r: string)
    ensures |r| <= |s|
    ensures r == [] || (!IsWhitespace(r[0]) && !IsWhitespace(r[|r| - 1]))
  {
    var a := TrimStart(s);
    var r := TrimEnd(a);
    assert r != [] ==> r[0] == a[0];
    r
  }

  /**
   * Trimming keeps a contiguous part of the input, drops only white space
   * around it, leaves no white space at either end, and is empty exactly
   * when the input is blank.
   */
  lemma TrimSpec(s: string)
    ensures exists lo :: 0 <= lo <= |s| && Trim(s) <= s[lo..] && Blank(s[..lo]) && Blank(s[lo + |Trim(s)|..])
    ensures Trim(s) == [] || (!IsWhitespace(Trim(s)[0]) && !IsWhitespace(Trim(s)[|Trim(s)| - 1]))
    ensures Trim(s) == [] <==> Blank(s)
  {
    var a := TrimStart(s);
    var r := TrimEnd(a);
    var lo := |s| - |a|;
    assert s[lo..] == a;
    assert s[lo + |r|..] == a[|r|..];
    if r != [] {
      assert r[0] == a[0];
    }
    if r == [] {
      assert s == s[..lo] + a;
      assert a == a[|r|..];
    }
  }

  /** Prepending a habit with a fresh id and no logs keeps the ids unique and the logs sorted. */
  lemma PrependKeeps(h: Habit, hs: seq<Habit>)
    requires forall i :: 0 <= i < |hs| ==> hs[i].id != h.id
    requires h.logs == []
    ensures UniqueIds(hs) ==> UniqueIds([h] + hs)
    ensures AllLogsStrict(hs) ==> AllLogsStrict([h] + hs)
  {
    var r := [h] + hs;
    assert forall i :: 1 <= i < |r| ==> r[i] == hs[i - 1];
  }

  /** Changing one habit's name keeps the ids unique and the logs sorted. */
  lemma RenameKeeps(hs: seq<Habit>, k: nat, name: string)
    requires k < |hs|
    ensures UniqueIds(hs) ==> UniqueIds(hs[k := hs[k].(name := name)])
    ensures AllLogsStrict(hs) ==> AllLogsStrict(hs[k := hs[k].(name := name)])
  {
    var r := hs[k := hs[k].(name := name)];
    assert forall i :: 0 <= i < |r| ==> r[i].id == hs[i].id && r[i].logs == hs[i].logs;
  }

  /** Index of the first habit with id `id` (`Array.prototype.find`). */
  function FindHabit(hs: seq<Habit>, id: string): (r: Option<nat>)
    ensures r.None? <==> forall i :: 0 <= i < |hs| ==> hs[i].id != id
    ensures r.Some? ==> r.value < |hs| && hs[r.value].id == id &&
                        forall i :: 0 <= i < r.value ==> hs[i].id != id
  {
    if hs == [] then None
    else if hs[0].id == id then Some(0)
    else
      match FindHabit(hs[1..], id)
      case None => None
      case Some(i) => Some(i + 1)
  }

  /** Lookup only depends on the ids, in order. */
  lemma FindHabitSameIds(hs: seq<Habit>, gs: seq<Habit>, id: string)
    requires |hs| == |gs|
    requires forall i :: 0 <= i < |hs| ==> hs[i].id == gs[i].id
    ensures FindHabit(hs, id) == FindHabit(gs, id)
  {
  }

  /** The habits whose id differs from `id`, in their order (`filter`). */
  function RemoveHabit(hs: seq<Habit>, id: string): (r: seq<Habit>)
    ensures |r| <= |hs|
    ensures forall h :: h in r <==> h in hs && h.id != id
    ensures (forall i :: 0 <= i < |hs| ==> hs[i].id != id) ==> r == hs
  {
    if hs == [] then []
    else
      assert hs == [hs[0]] + hs[1..];
      (if hs[0].id == id then [] else [hs[0]]) + RemoveHabit(hs[1..], id)
  }

  /** Filtering works piecewise, so the kept habits stay in their order. */
  lemma {:induction false} RemoveHabitAppend(a: seq<Habit>, b: seq<Habit>, id: string)
    ensures RemoveHabit(a + b, id) == RemoveHabit(a, id) + RemoveHabit(b, id)
  {
    if a != [] {
      assert (a + b)[1..] == a[1..] + b;
      RemoveHabitAppend(a[1..], b, id);
    } else {
      assert a + b == b;
    }
  }

  /** Deleting habits keeps the remaining ids unique. */
  lemma {:induction false} RemoveHabitIds(hs: seq<Habit>, id: string)
    requires UniqueIds(hs)
    ensures UniqueIds(RemoveHabit(hs, id))
  {
    if hs != [] {
      var tail := hs[1..];
      assert UniqueIds(tail);
      RemoveHabitIds(tail, id);
      var rest := RemoveHabit(tail, id);
      if hs[0].id != id {
        var r := [hs[0]] + rest;
        forall i, j | 0 <= i < j < |r| ensures r[i].id != r[j].id {
          if i == 0 {
            assert r[j] == rest[j - 1] && rest[j - 1] in rest;
            var k :| 0 <= k < |tail| && tail[k] == r[j];
            assert hs[k + 1] == r[j];
          } else {
            assert r[i] == rest[i - 1] && r[j] == rest[j - 1];
          }
        }
      } else {
        assert [] + rest == rest;
      }
    }
  }

  /** Deleting habits keeps every remaining habit's logs strictly ascending. */
  lemma RemoveHabitStrict(hs: seq<Habit>, id: string)
    requires AllLogsStrict(hs)
    ensures AllLogsStrict(RemoveHabit(hs, id))
  {
    var r := RemoveHabit(hs, id);
    forall i | 0 <= i < |r| ensures StrictlySorted(r[i].logs) {
      assert r[i] in r;
      var k :| 0 <= k < |hs| && hs[k] == r[i];
    }
  }

  /** Logged days over all habits (the `reduce` in `updateGlobalStats`). */
  function TotalDone(hs: seq<Habit>): (r: nat)
    ensures forall i :: 0 <= i < |hs| ==> |hs[i].logs| <= r
    ensures r == 0 <==> forall i :: 0 <= i < |hs| ==> hs[i].logs == []
  {
    if hs == [] then 0
    else
      var rest := TotalDone(hs[1..]);
      assert forall i :: 1 <= i < |hs| ==> hs[i] == hs[1..][i - 1];
      |hs[0].logs| + rest
  }

  /** Replacing one habit changes the total by the difference of their log counts. */
  lemma {:induction false} TotalDoneUpdate(hs: seq<Habit>, k: nat, h: Habit)
    requires k < |hs|
    ensures TotalDone(hs[k := h]) == TotalDone(hs) - |hs[k].logs| + |h.logs|
  {
    if k > 0 {
      assert hs[k := h][1..] == hs[1..][k - 1 := h];
      TotalDoneUpdate(hs[1..], k - 1, h);
    }
  }

  /** Deleting habits never raises the total. */
  lemma {:induction false} TotalDoneRemove(hs: seq<Habit>, id: string)
    ensures TotalDone(RemoveHabit(hs, id)) <= TotalDone(hs)
  {
    if hs != [] {
      TotalDoneRemove(hs[1..], id);
      var rest := RemoveHabit(hs[1..], id);
      if hs[0].id != id {
        assert ([hs[0]] + rest)[1..] == rest;
      } else {
        assert [] + rest == rest;
      }
    }
  }

  /** The habits after toggling day `d` of the first habit with id `id`; unchanged if there is none. */
  function ToggleInStore(hs: seq<Habit>, id: string, d: Day): (r: seq<Habit>)
    ensures |r| == |hs|
    ensures forall i :: 0 <= i < |hs| ==> r[i].id == hs[i].id && r[i].name == hs[i].name
    ensures FindHabit(hs, id).None? ==> r == hs
  {
    match FindHabit(hs, id)
    case None => hs
    case Some(k) => hs[k := hs[k].(logs := ToggleDay(hs[k].logs, d))]
  }

  /**
   * A toggle touches only the logs of the first habit with that id: the
   * other habits and that habit's other fields stay as they were.
   */
  lemma ToggleInStoreFrame(hs: seq<Habit>, id: string, d: Day)
    ensures FindHabit(hs, id).None? ==> ToggleInStore(hs, id, d) == hs
    ensures forall i :: 0 <= i < |hs| && Some(i) != FindHabit(hs, id) ==> ToggleInStore(hs, id, d)[i] == hs[i]
    ensures forall i :: 0 <= i < |hs| ==> ToggleInStore(hs, id, d)[i] == hs[i].(logs := ToggleInStore(hs, id, d)[i].logs)
  {
    match FindHabit(hs, id)
    case None =>
    case Some(k) =>
      assert ToggleInStore(hs, id, d) == hs[k := hs[k].(logs := ToggleDay(hs[k].logs, d))];
  }

  /** A toggle keeps every habit's logs sorted and duplicate-free, and the ids unique. */
  lemma ToggleInStoreKeeps(hs: seq<Habit>, id: string, d: Day)
    ensures AllLogsStrict(hs) ==> AllLogsStrict(ToggleInStore(hs, id, d))
    ensures UniqueIds(hs) ==> UniqueIds(ToggleInStore(hs, id, d))
  {
    ToggleInStoreFrame(hs, id, d);
    match FindHabit(hs, id)
    case None =>
    case Some(k) =>
      var r := ToggleInStore(hs, id, d);
      if AllLogsStrict(hs) {
        ToggleFlips(hs[k].logs, d);
        assert r[k].logs == ToggleDay(hs[k].logs, d);
      }
      assert forall i :: 0 <= i < |hs| ==> r[i].id == hs[i].id;
  }

  /** On a store whose logs are sorted and duplicate-free, toggling the same day twice restores it. */
  lemma ToggleInStoreTwice(hs: seq<Habit>, id: string, d: Day)
    requires AllLogsStrict(hs)
    ensures ToggleInStore(ToggleInStore(hs, id, d), id, d) == hs
  {
    var once := ToggleInStore(hs, id, d);
    ToggleInStoreFrame(hs, id, d);
    assert forall i :: 0 <= i < |hs| ==> once[i].id == hs[i].id;
    FindHabitSameIds(hs, once, id);
    if FindHabit(hs, id).Some? {
      var k := FindHabit(hs, id).value;
      ToggleTwice(hs[k].logs, d);
    }
  }

  /** A mark adds one to the global total, an unmark takes one away, a miss changes nothing. */
  lemma ToggleInStoreTotal(hs: seq<Habit>, id: string, d: Day)
    ensures TotalDone(ToggleInStore(hs, id, d)) ==
      match FindHabit(hs, id)
      case None => TotalDone(hs)
      case Some(k) => if d in hs[k].logs then TotalDone(hs) - 1 else TotalDone(hs) + 1
  {
    if FindHabit(hs, id).Some? {
      var k := FindHabit(hs, id).value;
      TotalDoneUpdate(hs, k, hs[k].(logs := ToggleDay(hs[k].logs, d)));
    }
  }
}
