/**
 * The habit store and the operations the UI runs on it. Each operation
 * that changes the habits writes the whole store to persistent storage.
 * Answers the user gives to prompt and confirm dialogs, the fresh id, the
 * chosen palette and the current time are parameters.
 */
module HabitStore {
  import opened Wrappers
  import opened Dates
  import opened Logs
  import opened Habits

  /** What persistent storage holds under the store's key. */
  datatype Stored =
    | Absent                        // nothing (or an empty string) under the key
    | Corrupt                       // text that does not parse
    | Snapshot(habits: seq<Habit>)  // a parsed store document

  /** Which transition a toggle made; only Marked triggers the celebration. */
  datatype ToggleOutcome = NoSuchHabit | Marked | Unmarked

  /** An import file after parsing: its `habits` field when that field is present and truthy. */
  datatype ImportInput = Unparsable | Parsed(habitsField: Option<seq<Habit>>)

  datatype ImportOutcome = ParseFailed | InvalidFormat | Declined | Imported

  /**
   * Drawing a habit card shows the first letter of its name in upper case,
   * which throws for an empty name; so drawing fails when some habit has
   * one. Failures caused by markup inside an id are not modelled.
   */
  predicate HasUnnamedHabit(hs: seq<Habit>) {
    exists i :: 0 <= i < |hs| && hs[i].name == []
  }

  class Store {
    var habits: seq<Habit>
    /** The value last written to persistent storage. */
    var persisted: Stored

    /**
     * Loads the store: an absent value is replaced by an empty store that is
     * also written back; a corrupt value gives an empty store and is left
     * as it is.
     */
    constructor Load(stored: Stored)
      ensures habits == (if stored.Snapshot? then stored.habits else [])
      ensures persisted == (if stored.Absent? then Snapshot([]) else stored)
    {
      match stored
      case Absent =>
        habits := [];
        persisted := Snapshot([]);
      case Corrupt =>
        habits := [];
        persisted := Corrupt;
      case Snapshot(hs) =>
        habits := hs;
        persisted := stored;
    }

    /** Writes the whole store to persistent storage. */
    method Save()
      modifies this
      ensures habits == old(habits)
      ensures persisted == Snapshot(habits)
    {
      persisted := Snapshot(habits);
    }

    /**
     * Toggles day `day` of the first habit with id `habitId` and reports
     * whether it marked or unmarked the day; an unknown id changes nothing.
     */
    method ToggleHabitDay(habitId: string, day: Day) returns (outcome: ToggleOutcome)
      modifies this
      ensures habits == ToggleInStore(old(habits), habitId, day)
      ensures outcome == match FindHabit(old(habits), habitId)
                         case None => NoSuchHabit
                         case Some(k) => if day in old(habits)[k].logs then Unmarked else Marked
      ensures outcome.NoSuchHabit? ==> persisted == old(persisted)
      ensures !outcome.NoSuchHabit? ==> persisted == Snapshot(habits)
      ensures AllLogsStrict(old(habits)) ==> AllLogsStrict(habits)
      ensures UniqueIds(old(habits)) ==> UniqueIds(habits)
    {
      ToggleInStoreKeeps(habits, habitId, day);
      var found := FindHabit(habits, habitId);
      if found.None? {
        return NoSuchHabit;
      }
      var k := found.value;
      var habit := habits[k];
      var idx := IndexOf(habit.logs, day);
      if idx.Some? {
        habit := habit.(logs := habit.logs[..idx.value] + habit.logs[idx.value + 1..]);
        outcome := Unmarked;
      } else {
        habit := habit.(logs := SortAsc(habit.logs + [day]));
        outcome := Marked;
      }
      habits := habits[k := habit];
      Save();
    }

    /**
     * Adds a habit from the prompt's answer (None when cancelled). A missing
     * or empty answer adds nothing; otherwise the trimmed name heads the list
     * with no logs.
     */
    method AddHabit(answer: Option<string>, id: string, palette: seq<string>, createdAt: string)
      returns (added: bool)
      requires forall i :: 0 <= i < |habits| ==> habits[i].id != id
      requires palette in PALETTES
      modifies this
      ensures added <==> answer.Some? && answer.value != []
      ensures added ==> habits == [Habit(id, Trim(answer.value), palette, createdAt, [])] + old(habits)
      ensures added ==> persisted == Snapshot(habits)
      ensures !added ==> habits == old(habits) && persisted == old(persisted)
      ensures UniqueIds(old(habits)) ==> UniqueIds(habits)
      ensures AllLogsStrict(old(habits)) ==> AllLogsStrict(habits)
    {
      if answer.None? || answer.value == [] {
        return false;
      }
      var name := answer.value;
      var habit := Habit(id, Trim(name), palette, createdAt, []);
      PrependKeeps(habit, habits);
      habits := [habit] + habits;
      Save();
      added := true;
    }

    /**
     * Renames the first habit with id `id` to the trimmed answer, when the
     * habit exists and the trimmed answer is not empty; nothing else changes.
     */
    method RenameHabit(id: string, answer: Option<string>) returns (renamed: bool)
      modifies this
      ensures renamed <==> FindHabit(old(habits), id).Some? && answer.Some? && Trim(answer.value) != []
      ensures renamed ==>
        var k := FindHabit(old(habits), id).value;
        habits == old(habits)[k := old(habits)[k].(name := Trim(answer.value))] &&
        persisted == Snapshot(habits)
      ensures !renamed ==> habits == old(habits) && persisted == old(persisted)
      ensures UniqueIds(old(habits)) ==> UniqueIds(habits)
      ensures AllLogsStrict(old(habits)) ==> AllLogsStrict(habits)
    {
      var found := FindHabit(habits, id);
      if found.None? {
        return false;
      }
      var k := found.value;
      if answer.Some? && answer.value != [] && Trim(answer.value) != [] {
        RenameKeeps(habits, k, Trim(answer.value));
        habits := habits[k := habits[k].(name := Trim(answer.value))];
        Save();
        renamed := true;
      } else {
        renamed := false;
      }
    }

    /** Once confirmed, removes every habit with id `id`, keeping the others in order. */
    method DeleteHabit(id: string, confirmed: bool)
      modifies this
      ensures confirmed ==> habits == RemoveHabit(old(habits), id) && persisted == Snapshot(habits)
      ensures !confirmed ==> habits == old(habits) && persisted == old(persisted)
      ensures confirmed ==> forall i :: 0 <= i < |habits| ==> habits[i].id != id
      ensures UniqueIds(old(habits)) ==> UniqueIds(habits)
      ensures AllLogsStrict(old(habits)) ==> AllLogsStrict(habits)
    {
      if !confirmed {
        return;
      }
      if UniqueIds(habits) {
        RemoveHabitIds(habits, id);
      }
      if AllLogsStrict(habits) {
        RemoveHabitStrict(habits, id);
      }
      habits := RemoveHabit(habits, id);
      Save();
    }

    /**
     * Imports a parsed file: it replaces and saves the whole store only when
     * the file parsed, has a `habits` field and the user confirms. The
     * redraw that follows runs inside the same `try`, so a replaced store
     * holding a habit without a name is reported as a parse failure.
     */
    method ImportSnapshot(input: ImportInput, confirmed: bool) returns (outcome: ImportOutcome)
      modifies this
      ensures outcome == (if input.Unparsable? then ParseFailed
                          else if input.habitsField.None? then InvalidFormat
                          else if !confirmed then Declined
                          else if HasUnnamedHabit(input.habitsField.value) then ParseFailed
                          else Imported)
      ensures input.Parsed? && input.habitsField.Some? && confirmed ==>
                habits == input.habitsField.value && persisted == Snapshot(habits)
      ensures !(input.Parsed? && input.habitsField.Some? && confirmed) ==>
                habits == old(habits) && persisted == old(persisted)
    {
      match input
      case Unparsable =>
        outcome := ParseFailed;
      case Parsed(None) =>
        outcome := InvalidFormat;
      case Parsed(Some(hs)) =>
        if confirmed {
          habits := hs;
          Save();
          outcome := if HasUnnamedHabit(habits) then ParseFailed else Imported;
        } else {
          outcome := Declined;
        }
    }

    /** The JSON export: a snapshot of the whole store. */
    method ExportSnapshot() returns (snapshot: seq<Habit>)
      ensures snapshot == habits
    {
      snapshot := habits;
    }

    /** Once confirmed, empties the store. */
    method Reset(confirmed: bool)
      modifies this
      ensures confirmed ==> habits == [] && persisted == Snapshot([])
      ensures !confirmed ==> habits == old(habits) && persisted == old(persisted)
    {
      if confirmed {
        habits := [];
        Save();
      }
    }
  }

  /**
   * Importing what was just exported, and confirming, gives back the same
   * habits, whatever the import reports.
   */
  method ExportImportRoundTrip(s: Store) returns (outcome: ImportOutcome)
    modifies s
    ensures s.habits == old(s.habits) && s.persisted == Snapshot(s.habits)
    ensures outcome == (if HasUnnamedHabit(s.habits) then ParseFailed else Imported)
  {
    var snapshot := s.ExportSnapshot();
    outcome := s.ImportSnapshot(Parsed(Some(snapshot)), true);
  }
}
