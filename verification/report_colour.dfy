/** Row colouring of the per-category comparison sheets
    (`apply_color_format`, FormComparator.py:202-212): each data row whose
    status mentions "added" is painted green, else "removed" red, else
    "modified" orange. Sheet row 0 is the header, so data row i is sheet row
    i + 1. The worksheet's `set_row` calls are modelled as the list of
    (sheet row, colour) pairs they would issue, in order. */
module ReportColour {
  import opened Wrappers
  import opened Seqs
  import opened ReportSummary

  datatype Colour = Green | Red | Orange

  /** One `worksheet.set_row(sheetRow, None, <colour>_format)` call. */
  datatype RowFormat = RowFormat(sheetRow: nat, colour: Colour)

  /** Why reading the status cell `df.iloc[row - 1, j]` fails: the column is
      out of range (IndexError), or the cell is NaN and `'added' in status`
      raises TypeError. Both carry the sheet row being formatted. */
  datatype FormatError = ColumnOutOfRange(sheetRow: nat) | StatusNotText(sheetRow: nat)

  /** The colour of a status, first match wins: added, removed, modified. */
  function ColourOf(status: string): Option<Colour> {
    if Contains(status, "added") then Some(Green)
    else if Contains(status, "removed") then Some(Red)
    else if Contains(status, "modified") then Some(Orange)
    else None
  }

  /** The status cell can be read and tested as text. */
  predicate HasStatus(row: seq<Option<string>>, j: nat) {
    j < |row| && row[j].Some?
  }

  function StatusAt(row: seq<Option<string>>, j: nat): string
    requires HasStatus(row, j)
  {
    row[j].value
  }

  /** The error raised on a row whose status cannot be read. */
  function RowError(row: seq<Option<string>>, j: nat, sheetRow: nat): FormatError {
    if j < |row| then StatusNotText(sheetRow) else ColumnOutOfRange(sheetRow)
  }

  /** `e` is the error of the first data row whose status cannot be read. */
  predicate FirstUnreadable(table: seq<seq<Option<string>>>, j: nat, e: FormatError) {
    1 <= e.sheetRow <= |table|
    && !HasStatus(table[e.sheetRow - 1], j)
    && e == RowError(table[e.sheetRow - 1], j, e.sheetRow)
    && forall k :: 0 <= k < e.sheetRow - 1 ==> HasStatus(table[k], j)
  }

  /** Formatting calls go to strictly increasing sheet rows. */
  predicate Ascending(formats: seq<RowFormat>) {
    forall a, b :: 0 <= a < b < |formats| ==> formats[a].sheetRow < formats[b].sheetRow
  }

  /** `formats` paints exactly the data rows whose status has a colour, each
      in that colour. */
  predicate Colouring(table: seq<seq<Option<string>>>, j: nat, formats: seq<RowFormat>) {
    (forall i :: 0 <= i < |table| ==> HasStatus(table[i], j))
    && Ascending(formats)
    && (forall k :: 0 <= k < |formats| ==>
          1 <= formats[k].sheetRow <= |table|
          && ColourOf(StatusAt(table[formats[k].sheetRow - 1], j)) == Some(formats[k].colour))
    && (forall i :: 0 <= i < |table| && ColourOf(StatusAt(table[i], j)).Some? ==>
          RowFormat(i + 1, ColourOf(StatusAt(table[i], j)).value) in formats)
  }

  method ApplyColorFormat(table: seq<seq<Option<string>>>, j: nat) returns (r: Result<seq<RowFormat>, FormatError>)
    ensures r.Failure? <==> exists i :: 0 <= i < |table| && !HasStatus(table[i], j)
    ensures r.Failure? ==> FirstUnreadable(table, j, r.error)
    ensures r.Success? ==> Colouring(table, j, r.value)
  {
    var formats: seq<RowFormat> := [];
    var i := 0;
    while i < |table|
      invariant 0 <= i <= |table|
      invariant forall k :: 0 <= k < i ==> HasStatus(table[k], j)
      invariant Ascending(formats)
      invariant forall k :: 0 <= k < |formats| ==>
        1 <= formats[k].sheetRow <= i
        && ColourOf(StatusAt(table[formats[k].sheetRow - 1], j)) == Some(formats[k].colour)
      invariant forall k :: 0 <= k < i && ColourOf(StatusAt(table[k], j)).Some? ==>
        RowFormat(k + 1, ColourOf(StatusAt(table[k], j)).value) in formats
    {
      var row := table[i];
      if !HasStatus(row, j) {
        return Failure(RowError(row, j, i + 1));
      }
      var c := ColourOf(row[j].value);
      if c.Some? {
        formats := formats + [RowFormat(i + 1, c.value)];
      }
      i := i + 1;
    }
    return Success(formats);
  }

  /** On the four exact outcomes the colours are distinct, and an unchanged
      row is left unpainted. */
  lemma ColourOfOutcomes()
    ensures ColourOf("added") == Some(Green)
    ensures ColourOf("removed") == Some(Red)
    ensures ColourOf("modified") == Some(Orange)
    ensures ColourOf("unchanged") == None
  {
    ContainsSelf("added");
    ContainsSelf("removed");
    ContainsSelf("modified");
    NoOtherAdded();
    NoOtherRemoved();
    NoOtherModified();
  }

  /** The colouring agrees with the overview counts: on an exact status a row
      is green exactly when it is counted as Added, red when Deleted, orange
      when Modified. */
  lemma ColourMatchesStatus(r: DiffRow)
    requires Exact(r)
    ensures ColourOf(r.status.value) == Some(Green) <==> r.status == Some("added")
    ensures ColourOf(r.status.value) == Some(Red) <==> r.status == Some("removed")
    ensures ColourOf(r.status.value) == Some(Orange) <==> r.status == Some("modified")
    ensures ColourOf(r.status.value) == None <==> r.status == Some("unchanged")
  {
    ColourOfOutcomes();
  }

  /** A compound status is painted by the first keyword in priority order:
      a choice whose list was added and that mentions "removed" is green. */
  lemma CompoundStatusColour()
    ensures ColourOf("list_name_added") == Some(Green)
    ensures ColourOf("removed_added") == Some(Green)
  {
    assert OccursAt("list_name_added", "added", 10);
    ContainsAt("list_name_added", "added");
    assert OccursAt("removed_added", "added", 8);
    ContainsAt("removed_added", "added");
  }
}
