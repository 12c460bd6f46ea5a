/** The CSV export: one header row, then one row per day of the window. */
module CsvExport {
  import opened Dates
  import opened Habits

  /** A CSV field: text, a day (written as its ISO date) or a 0/1 flag. */
  /** A 0/1 cell value. */
  type Bit = b: nat | b <= 1

  datatype Cell = Text(text: string) | Date(day: Day) | Flag(bit: Bit)

  /**
   * Builds the rows: `date` followed by the habit names, then for each day
   * the day followed by 1 or 0 per habit, 1 exactly when that habit logged
   * that day.
   */
  method BuildCsvRows(habits: seq<Habit>, dates: seq<Day>) returns (rows: seq<seq<Cell>>)
    ensures |rows| == |dates| + 1
    ensures |rows[0]| == |habits| + 1 && rows[0][0] == Text("date")
    ensures forall j :: 1 <= j < |rows[0]| ==> rows[0][j] == Text(habits[j - 1].name)
    ensures forall i :: 1 <= i < |rows| ==> |rows[i]| == |habits| + 1 && rows[i][0] == Date(dates[i - 1])
    ensures forall i, j :: 1 <= i < |rows| && 1 <= j < |rows[i]| ==>
      rows[i][j] == Flag(if dates[i - 1] in habits[j - 1].logs then 1 else 0)
  {
    var headers := [Text("date")];
    for j := 0 to |habits|
      invariant |headers| == j + 1 && headers[0] == Text("date")
      invariant forall m :: 1 <= m < |headers| ==> headers[m] == Text(habits[m - 1].name)
    {
      headers := headers + [Text(habits[j].name)];
    }
    rows := [headers];
    for i := 0 to |dates|
      invariant |rows| == i + 1 && rows[0] == headers
      invariant forall r :: 1 <= r < |rows| ==> |rows[r]| == |habits| + 1 && rows[r][0] == Date(dates[r - 1])
      invariant forall r, c :: 1 <= r < |rows| && 1 <= c < |rows[r]| ==>
        rows[r][c] == Flag(if dates[r - 1] in habits[c - 1].logs then 1 else 0)
    {
      var d := dates[i];
      var row := [Date(d)];
      for j := 0 to |habits|
        invariant |row| == j + 1 && row[0] == Date(d)
        invariant forall c :: 1 <= c < |row| ==> row[c] == Flag(if d in habits[c - 1].logs then 1 else 0)
      {
        row := row + [Flag(if d in habits[j].logs then 1 else 0)];
      }
      rows := rows + [row];
    }
  }
}
