/** The grid of strings written to the spreadsheet: a header row, then one
    row per reservation in collection order. Dates are written `DD-MM-YYYY`,
    times `HH:MM`, and every null cell as the empty string. Reading a written
    date or time cell back with the load-time coercion gives the stored
    value again, null included. */
module Table {
  import opened Wrappers
  import opened Text
  import opened Calendar
  import opened Formats
  import opened Reservations

  const Header: seq<string> := ["Name", "Date", "Time", "Number of Guests"]

  /** The date cell; the load-time coercion reads it back. */
  function DateCell(d: Option<Date>): (cell: string)
    ensures ParseDate(cell) == d
    ensures d.None? <==> cell == ""
    ensures d.Some? ==> IsCanonicalDateText(cell)
  {
    match d
    case None => ""
    case Some(v) => ParseFormatDate(v); FormatDate(v)
  }

  /** The time cell; the load-time coercion reads it back. */
  function TimeCell(t: Option<TimeOfDay>): (cell: string)
    ensures ParseTime(cell) == t
    ensures t.None? <==> cell == ""
    ensures t.Some? ==> IsCanonicalTimeText(cell)
  {
    match t
    case None => ""
    case Some(v) => ParseFormatTime(v); FormatTime(v)
  }

  /** The guest-count cell; `int()` reads a written count back. */
  function GuestsCell(g: Option<GuestCount>): (cell: string)
    ensures ParseInt(cell) == g
    ensures g.None? <==> cell == ""
  {
    match g
    case None => ""
    case Some(n) => ParseFormatInt(n); FormatInt(n)
  }

  function Row(r: Reservation): (row: seq<string>)
    ensures RowReadsAs(row, r)
  {
    var dateCell, timeCell, guestsCell := DateCell(r.date), TimeCell(r.time), GuestsCell(r.guests);
    assert ParseDate(dateCell) == r.date && ParseTime(timeCell) == r.time;
    assert ParseInt(guestsCell) == r.guests;
    [r.name, dateCell, timeCell, guestsCell]
  }

  /** The rows `save_reservations` hands to the worksheet update: the
      header, then one row per reservation in collection order. */
  function Serialise(c: seq<Reservation>): (grid: seq<seq<string>>)
    ensures |grid| == |c| + 1
    ensures grid[0] == Header
    ensures forall i :: 0 <= i < |c| ==> RowReadsAs(grid[i + 1], c[i])
  {
    var grid := [Header] + seq(|c|, i requires 0 <= i < |c| => Row(c[i]));
    assert forall i :: 0 <= i < |c| ==> grid[i + 1] == Row(c[i]);
    grid
  }

  /** The row holds the reservation's fields: dates and times in their
      zero-padded written forms, null cells empty, and every cell reads back
      as the field it was written from. */
  predicate RowReadsAs(row: seq<string>, r: Reservation) {
    && |row| == |Header|
    && row[0] == r.name
    && ParseDate(row[1]) == r.date && (r.date.None? <==> row[1] == "")
    && (r.date.Some? ==> IsCanonicalDateText(row[1]))
    && ParseTime(row[2]) == r.time && (r.time.None? <==> row[2] == "")
    && (r.time.Some? ==> IsCanonicalTimeText(row[2]))
    && ParseInt(row[3]) == r.guests && (r.guests.None? <==> row[3] == "")
  }

  /** A written date or time cell is exactly what `strftime` writes for the
      stored value. */
  lemma SerialisedCellsAreFormatted(c: seq<Reservation>, i: nat)
    requires i < |c|
    ensures c[i].date.Some? ==> Serialise(c)[i + 1][1] == FormatDate(c[i].date.value)
    ensures c[i].time.Some? ==> Serialise(c)[i + 1][2] == FormatTime(c[i].time.value)
  {
    var row := Serialise(c)[i + 1];
    assert RowReadsAs(row, c[i]);
    if c[i].date.Some? {
      FormatParseDate(row[1]);
    }
    if c[i].time.Some? {
      FormatParseTime(row[2]);
    }
  }
}
