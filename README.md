# Streak Lab habit tracker: a Dafny model of its store and streak logic

Streak Lab is a browser habit tracker. The user creates named habits and
marks days as done on a grid of the last 53 weeks. Each habit card has
places for a total count, the current streak ending today and the best
streak ever, filled in when a day of that habit is toggled. Data
lives in one store document in browser storage and can be exported (JSON,
CSV), imported, or reset.

This project models the data side of `script.js`:

- `dates.dfy` (module `Dates`): calendar days as integer day numbers and
  the 53 x 7 = 371-day window ending today (`buildDates`).
- `logs.dfy` (module `Logs`): one habit's `logs` list. It covers the
  array `sort`, `indexOf`, the `Set`-based deduplication, and the data part
  of `toggleHabitDay`: splice out a logged day, or push a new day and
  re-sort. It also proves that toggling keeps the list sorted without
  duplicates.
- `streaks.dfy` (module `Streaks`): `computeAndDisplayStats`, with its two
  loops as the methods `CurrentStreak` and `BestStreak`. They are proved
  against spec functions for the current streak (walk back from today, at
  most 365 days) and the best streak (longest run over the sorted distinct
  days). Lemmas characterise both streaks, and another proves the best
  streak is never below the current one.
- `habits.dfy` (module `Habits`): the `Habit` record, the palettes,
  `String.prototype.trim`, `find` by id, the delete `filter`, the global
  total of `updateGlobalStats`, and a toggle seen at the level of the whole
  habit list.
- `store.dfy` (module `HabitStore`): the store as a class with the habit
  list and the last persisted value. It covers load, save, toggle, add,
  rename, delete, import, export and reset. The user's answers to
  `prompt`/`confirm`, the fresh id, the chosen palette and the creation time
  are parameters.
- `csv.dfy` (module `CsvExport`): the CSV table built row by row.

Dates are whole day numbers, each standing for the `YYYY-MM-DD` key that
`dateToISO` writes. `dateToISO` formats local midnight with `toISOString()`,
which is UTC. East of UTC every key therefore names the previous calendar
day, so `isoToDate(dateToISO(d))` is the day before `d`. In a zone
without daylight saving the shift is the same for every date, so distances,
toggles and streaks do not depend on it, and the model describes that case.
With daylight saving the 24-hour steps of the source can repeat or skip a
day (see "Daylight saving" under "## Left out").
The model works on the keys: `today` is the key `dateToISO(TODAY)`, and
`daysBetween` is subtraction (`Dates.DaysBetween`). The source sorts key
strings, and for four-digit years string order is day order. So its `sort()`
is modelled as an ascending sort on day numbers.

The model follows the code where it departs from what is evidently
intended:

- Adding a habit checks the untrimmed answer (`if(!name)`) and stores the
  trimmed one. A blank answer such as `"  "` therefore adds a habit whose
  name is empty (`Store.AddHabit` with `Habits.TrimSpec`); a name that is
  blank after trimming is evidently not meant to be added. The habit is
  saved before the redraw, and every redraw then throws at
  `habit.name[0].toUpperCase()` (script.js:104), including the redraw at
  start-up (script.js:372).
- Import replaces and saves the store, then redraws, all inside the `try`
  that reports a parse failure. A confirmed file holding a habit with an
  empty name is imported and saved but reported as "Failed to parse file."
  (`Store.ImportSnapshot`, `HasUnnamedHabit`).
- Toggling a day twice is guaranteed to restore the logs when they are
  sorted without duplicates (`Logs.ToggleTwice`), which every mutation
  keeps. An imported store can hold unsorted logs, and there it need not:
  on `[2, 1]`, two toggles of day 1 give `[1, 2]`
  (`Logs.ToggleTwiceUnsorted`).
- Toggle and rename act on the first habit with the given id. Delete
  removes every habit with that id.
- Import accepts any parsed document whose `habits` field is present and
  truthy, including an empty list. It does no further validation.
- Delete asks for confirmation before looking the id up. Once confirmed it
  saves even when no habit matched.
- The current streak stops after 365 days, though the grid shows 371.
- A redraw does not show the numbers. `renderHabitCard` fills in the
  total and the streaks (script.js:162) before `render` attaches the card
  to the page (script.js:88). So the lookups by element id (script.js:200,
  226-227) find nothing, and after every redraw each card shows the
  template's 0, 0 and 0. Only a toggle of that habit (script.js:192) fills
  in its numbers. The model computes the numbers (`Streaks.ComputeStats`)
  and leaves their display out.

## Model

| member | source | states |
|---|---|---|
| `Dates.BuildDates` | script.js:71-81 | returns 371 days, each one day after the previous, the last being today |
| `Dates.DaysBetween` | script.js:68 | the signed whole-day distance from a to b: a moved by it is b |
| `Dates.WindowOffset` | script.js:75-78 | every window entry is the first entry plus its position |
| `Dates.WindowContents` | script.js:71-81 | the window starts at today - 370, is strictly ascending and holds exactly the days from today - 370 to today |
| `Logs.Insert` | script.js:181-183 | the result holds the old entries plus the new day, as a multiset |
| `Logs.InsertSorted` | script.js:181-183 | inserting into a sorted list keeps it sorted |
| `Logs.SortAsc` | script.js:183 | the sort returns a sorted permutation of its input |
| `Logs.Dedup` | script.js:199 | deduplication keeps exactly the logged days, each once, in a list no longer than the input |
| `Logs.IndexOf` | script.js:174 | returns the first position of the day, or None exactly when the day is not logged |
| `Logs.ToggleDay` | script.js:174-183 | a logged day is spliced out at its first position, the rest kept in order; a new day is added and the result is sorted; the length changes by one either way |
| `Logs.InsertStrict` | script.js:181-183 | inserting a new day into strictly ascending logs keeps them strictly ascending |
| `Logs.SortAscStrict` | script.js:213 | sorting a duplicate-free list gives a strictly ascending list |
| `Logs.SortAscOfSorted` | script.js:183 | sorting an already sorted list changes nothing |
| `Logs.ToggleAbsent` | script.js:180-183 | marking a new day on strictly ascending logs inserts it in order, keeps them strictly ascending and adds exactly that day |
| `Logs.TogglePresent` | script.js:175-176 | unmarking a logged day keeps the logs strictly ascending and removes exactly that day |
| `Logs.ToggleFlips` | script.js:174-184 | on strictly ascending logs a toggle flips exactly the toggled day and keeps the invariant |
| `Logs.ToggleTwice` | script.js:174-184 | on strictly ascending logs two toggles of the same day restore the logs |
| `Logs.ToggleTwiceUnsorted` | script.js:174-183 | on the unsorted logs [2, 1] two toggles of day 1 give [1, 2], not the original |
| `Streaks.RunBack` | script.js:204-210 | the backward count never exceeds its window and is positive only when the start day is logged |
| `Streaks.RunBackSpec` | script.js:204-210 | the counted days are all logged and, short of the window, the next earlier day is not |
| `Streaks.CurrentStreakOf` | script.js:204-210 | the current streak is at most 365 and is 0 exactly when today is not logged |
| `Streaks.CurrentStreakSpec` | script.js:204-210 | the current streak is the largest k <= 365 with today .. today - (k - 1) all logged, and is 0 exactly when today is not logged |
| `Streaks.RunEnding` | script.js:215-222 | the run ending at entry i has length between 1 and i + 1 |
| `Streaks.RunEndingSpec` | script.js:215-222 | the run ending at entry i is consecutive days and the entry before it does not extend it |
| `Streaks.LongestRun` | script.js:214-224 | the longest run over n entries is at most n, and at least 1 when n > 0 |
| `Streaks.LongestRunSpec` | script.js:214-224 | some run of consecutive days has the longest run's length and no run is longer |
| `Streaks.BestStreakOf` | script.js:212-224 | the best streak is at most the number of log entries and is 0 exactly for empty logs |
| `Streaks.ConsecutiveCovered` | script.js:215-222 | a run of entries covers every day it spans |
| `Streaks.CoveredConsecutive` | script.js:213-220 | covered days of a strictly ascending list form a run of entries |
| `Streaks.SortedDistinctDays` | script.js:199-213 | the list the best-streak scan walks is strictly ascending and holds each logged day once |
| `Streaks.BestStreakSpec` | script.js:212-224 | the best streak is 0 exactly for empty logs and is at most the number of distinct days; some stretch of that many consecutive days is logged and no longer stretch is |
| `Streaks.BestAtLeastCurrent` | script.js:204-224 | the best streak is never below the current streak |
| `Streaks.ThreeDayRun` | script.js:197-230 | logs d, d + 1, d + 2 with today d + 2 give current 3 and best 3 |
| `Streaks.GapBreaksRun` | script.js:197-230 | logs d, d + 2 with today d + 2 give current 1 and best 1 |
| `Streaks.NoLogs` | script.js:197-230 | empty logs give current 0 and best 0 |
| `Streaks.CurrentStreak` | script.js:203-210 | the first loop computes exactly the current streak function |
| `Streaks.BestStreak` | script.js:212-224 | the second loop computes exactly the best streak function |
| `Streaks.ComputeStats` | script.js:197-230 | total is the number of log entries; current and best are exactly the current and best streak functions |
| `Habits.TrimStart` | script.js:239 | drops exactly the leading white space: the result is a suffix of the input, the dropped prefix is blank and the result does not start with white space |
| `Habits.TrimEnd` | script.js:239 | drops exactly the trailing white space |
| `Habits.Trim` | script.js:239 | trimming never lengthens the text and leaves no white space at either end |
| `Habits.TrimSpec` | script.js:249-250 | trimming keeps a contiguous part, drops only white space around it, leaves none at either end, and is empty exactly for blank input |
| `Habits.PrependKeeps` | script.js:238-240 | prepending a habit with a fresh id and no logs keeps the ids unique and every habit's logs strictly ascending |
| `Habits.RenameKeeps` | script.js:250 | changing one habit's name keeps the ids unique and the logs strictly ascending |
| `Habits.FindHabit` | script.js:172 | returns the first habit with the id, or None exactly when no habit has it |
| `Habits.RemoveHabit` | script.js:258 | the result holds exactly the habits whose id differs, and equals the input when no habit has the id |
| `Habits.RemoveHabitAppend` | script.js:258 | filtering works piecewise, so the kept habits stay in their order |
| `Habits.RemoveHabitIds` | script.js:258 | deleting habits keeps the remaining ids unique |
| `Habits.RemoveHabitStrict` | script.js:258 | deleting habits keeps every remaining habit's logs strictly ascending |
| `Habits.TotalDone` | script.js:323 | the global total is at least each habit's log count and is 0 exactly when no habit has a log entry |
| `Habits.TotalDoneUpdate` | script.js:323 | replacing one habit changes the global total by the difference of the log counts |
| `Habits.TotalDoneRemove` | script.js:323 | deleting habits never raises the global total |
| `Habits.ToggleInStore` | script.js:172-183 | a toggle keeps the number of habits and every habit's id and name, and an unknown id changes nothing |
| `Habits.ToggleInStoreFrame` | script.js:172-184 | a toggle changes only the logs of the first habit with the id; an unknown id changes nothing |
| `Habits.ToggleInStoreKeeps` | script.js:174-184 | a toggle keeps every habit's logs strictly ascending and the ids unique |
| `Habits.ToggleInStoreTwice` | script.js:172-184 | on a store with strictly ascending logs, two toggles of the same day restore the store |
| `Habits.ToggleInStoreTotal` | script.js:174-193 | a mark adds one to the global total, an unmark takes one away, an unknown id changes nothing |
| `HabitStore.Store.Load` | script.js:49-62 | an absent value gives an empty store that is written back; a corrupt value gives an empty store and stays stored; a stored document is used as is |
| `HabitStore.Store.Save` | script.js:63 | the persisted value becomes the current store, which is unchanged |
| `HabitStore.Store.ToggleHabitDay` | script.js:171-194 | the store becomes the list-level toggle; the outcome tells marked from unmarked from unknown id; saves unless the id is unknown; keeps sorted logs and unique ids |
| `HabitStore.Store.AddHabit` | script.js:233-243 | a non-empty answer prepends a habit with the trimmed name, the given id and palette and no logs; otherwise nothing changes; ids stay unique |
| `HabitStore.Store.RenameHabit` | script.js:245-254 | renames only the first habit with the id, only when the trimmed answer is non-empty; every other field and habit is unchanged |
| `HabitStore.Store.DeleteHabit` | script.js:256-261 | once confirmed the store becomes the filtered list and no habit with the id remains; unconfirmed, nothing changes; unique ids and strictly ascending logs are kept |
| `HabitStore.Store.ImportSnapshot` | script.js:296-307 | replaces and saves the store exactly for a parsed document with a habits field that the user confirms; reports a parse failure for an unparsable file and for an imported store the redraw cannot draw (a habit with an empty name), invalid format or declined otherwise, changing nothing in those cases |
| `HabitStore.Store.ExportSnapshot` | script.js:264-265 | the export is the whole current store |
| `HabitStore.Store.Reset` | script.js:312-318 | once confirmed the store is empty and saved; otherwise unchanged |
| `HabitStore.ExportImportRoundTrip` | script.js:264-302 | importing a just-exported snapshot and confirming gives back and saves the same habits; it reports Imported unless some habit has an empty name |
| `CsvExport.BuildCsvRows` | script.js:273-282 | one header row `date` plus the habit names, then one row per day; a cell is 1 exactly when that habit logged that day |

## Left out

- Rendering, event wiring, `escapeHtml`, the confetti engine, `animatePulse` and service-worker registration (script.js:84-168, 328-379) and `sw.js`: presentation and caching only.
- ISO date text. The model's `today` stands for the key `dateToISO(TODAY)`, and `isoToDate`/`daysBetween` become subtraction on keys. The UTC shift of that key east of UTC (every grid cell and CSV row then carries the previous day's date, so the last one reads yesterday) and the millisecond arithmetic of `TODAY ± i*MS_DAY` are not modelled.
- Daylight saving. The source steps through days as exact 24-hour steps from the current instant (`TODAY ± i*MS_DAY`, script.js:75-77, 206). In any zone with daylight saving, loaded within an hour of midnight, such a step can land on the same calendar day twice or skip one. The window and the backward walk of the current streak can then repeat or skip a day. A repeated day can be counted twice, so the current streak can exceed the best streak (the model's `Streaks.BestAtLeastCurrent` does not hold there). A skipped day is missing from the grid and a gap on it does not break the streak. In addition, where the offset is 0 in winter and positive in summer (London, Dublin, Lisbon), `dateToISO` writes the true date in winter and the previous date in summer, so around the changes two days can get the same key or a key is never written. In all these cases `Dates.IsWindow` does not describe the window.
- `localStorage` and `JSON.parse`/`JSON.stringify`. Storage is the `Stored` value: absent, corrupt, or a parsed habit list. A storage write that fails (quota) is not modelled.
- A stored value that parses but is not a store document (no `habits` list) cannot be represented by `Stored`.
- `HabitStore.Store.ImportSnapshot`: of the failures the redraw can raise, only the empty name is modelled. The card puts the habit id into its markup without escaping (script.js:111-112, 146-149). An id such as `"><!--` can remove the Rename button, and the lookup at script.js:154 then throws. Such a failure is also reported as a parse failure, but the model reports `Imported`, because HTML parsing is not modelled.
- `HabitStore.ExportImportRoundTrip`: its outcome clause has the same gap. A store holding an id that breaks the card markup is reported by the source as a parse failure, where the model says `Imported`.
- Import parsing. The file is reduced to `ImportInput`. A truthy `habits` field that is not a list of habits (a string, a number) is accepted by the source but cannot be represented here.
- `HabitStore.ExportImportRoundTrip`: assumes that parsing the JSON text of a store gives back the same habits, since serialisation is not modelled.
- CSV text. The rows are kept as cells; joining them with `,` and newlines and the file download are not modelled. A habit name that contains a comma is not quoted by the source and shifts the columns of the text.
- `uid()`, `Math.random()` and `new Date()` for the id, palette and creation time. They are parameters of `Store.AddHabit`, with the id required fresh and the palette one of `PALETTES`.
- The total-habits figure of `updateGlobalStats` is just the length of the habit list and has no member.
