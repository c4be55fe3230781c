/** The overview table of the XLSForm comparison report
    (FormComparator.py:64-108): for each of seven comparison categories, how
    many rows are unchanged, added, deleted and modified, and their total.
    The per-category comparison tables themselves come from comparators
    outside this model; only their `status` and `current_type` columns are
    read here. */
module ReportSummary {
  import opened Wrappers
  import opened Seqs

  /** A row of a per-category comparison table. A missing cell (NaN) is None:
      it never equals a string and `str.contains(..., na = False)` skips it. */
  datatype DiffRow = DiffRow(status: Option<string>, currentType: Option<string>)

  datatype Category =
    | SurveyColumns | SurveyGroups | SurveyRepeats | SurveyQuestions
    | ChoiceLists | Choices | Settings

  /** A count cell, or the empty string FormComparator.py puts where a category has
      no "Modified" count. */
  datatype Cell = Num(n: nat) | Blank

  datatype SummaryRow = SummaryRow(
    category: Category,
    unchangedCell: Cell,
    addedCell: Cell,
    deletedCell: Cell,
    modifiedCell: Cell,
    total: nat)

  /** `df["status"] == s` */
  function StatusIs(s: string): DiffRow -> bool {
    (r: DiffRow) => r.status == Some(s)
  }

  /** `df["status"].str.contains(s, na = False)` */
  function StatusContains(s: string): DiffRow -> bool {
    (r: DiffRow) => r.status.Some? && Contains(r.status.value, s)
  }

  /** `(df["status"] == s) & (df["current_type"] == t)` */
  function StatusAndType(s: string, t: string): DiffRow -> bool {
    (r: DiffRow) => r.status == Some(s) && r.currentType == Some(t)
  }

  /** `pd.to_numeric(cell, errors = 'coerce').fillna(0)` */
  function CellValue(c: Cell): nat {
    if c.Num? then c.n else 0
  }

  /** A summary row with its "Total" column: the sum of the four count
      cells, a blank cell counting 0. */
  function MakeRow(category: Category, u: Cell, a: Cell, d: Cell, m: Cell): (row: SummaryRow)
    ensures row.total >= CellValue(u) && row.total >= CellValue(a)
    ensures row.total >= CellValue(d) && row.total >= CellValue(m)
    ensures row.total == 0 <==> CellValue(u) == 0 && CellValue(a) == 0 && CellValue(d) == 0 && CellValue(m) == 0
  {
    SummaryRow(category, u, a, d, m, CellValue(u) + CellValue(a) + CellValue(d) + CellValue(m))
  }

  function CountIs(rows: seq<DiffRow>, s: string): nat {
    Count(rows, StatusIs(s))
  }

  function CountContaining(rows: seq<DiffRow>, s: string): nat {
    Count(rows, StatusContains(s))
  }

  function CountTyped(rows: seq<DiffRow>, s: string, t: string): nat {
    Count(rows, StatusAndType(s, t))
  }

  /** A category counted by exact match for Unchanged/Added/Deleted and by
      substring for Modified (survey columns, questions). */
  function SubstringModifiedRow(category: Category, rows: seq<DiffRow>): SummaryRow {
    MakeRow(category,
      Num(CountIs(rows, "unchanged")), Num(CountIs(rows, "added")),
      Num(CountIs(rows, "removed")), Num(CountContaining(rows, "modified")))
  }

  /** A category counted by exact match throughout (settings). */
  function ExactRow(category: Category, rows: seq<DiffRow>): SummaryRow {
    MakeRow(category,
      Num(CountIs(rows, "unchanged")), Num(CountIs(rows, "added")),
      Num(CountIs(rows, "removed")), Num(CountIs(rows, "modified")))
  }

  function GroupsRow(groups: seq<DiffRow>): SummaryRow {
    MakeRow(SurveyGroups,
      Num(CountTyped(groups, "unchanged", "group")), Num(CountTyped(groups, "added", "group")),
      Num(CountTyped(groups, "removed", "group")), Num(CountIs(groups, "modified")))
  }

  function RepeatsRow(groups: seq<DiffRow>): SummaryRow {
    MakeRow(SurveyRepeats,
      Num(CountTyped(groups, "unchanged", "repeat")), Num(CountTyped(groups, "added", "repeat")),
      Num(CountTyped(groups, "removed", "repeat")), Blank)
  }

  function ListNamesRow(listNames: seq<DiffRow>): SummaryRow {
    MakeRow(ChoiceLists,
      Num(CountIs(listNames, "unchanged")), Num(CountIs(listNames, "added")),
      Num(CountIs(listNames, "removed")), Blank)
  }

  function ChoicesRow(choices: seq<DiffRow>): SummaryRow {
    MakeRow(Choices,
      Num(CountIs(choices, "unchanged")), Num(CountContaining(choices, "added")),
      Num(CountContaining(choices, "removed")), Num(CountContaining(choices, "modified")))
  }

  /** The overview rows, in the order FormComparator.py lists them. */
  function Summary(
    columns: seq<DiffRow>, groups: seq<DiffRow>, questions: seq<DiffRow>,
    listNames: seq<DiffRow>, choices: seq<DiffRow>, settings: seq<DiffRow>): seq<SummaryRow>
  {
    [ SubstringModifiedRow(SurveyColumns, columns),
      GroupsRow(groups),
      RepeatsRow(groups),
      SubstringModifiedRow(SurveyQuestions, questions),
      ListNamesRow(listNames),
      ChoicesRow(choices),
      ExactRow(Settings, settings) ]
  }

  /** A row counted by exact match is also counted by substring match. */
  lemma {:induction false} CountIsAtMostContaining(rows: seq<DiffRow>, s: string)
    ensures CountIs(rows, s) <= CountContaining(rows, s)
  {
    if |rows| > 0 {
      CountIsAtMostContaining(rows[1..], s);
      if rows[0].status == Some(s) {
        ContainsSelf(s);
      }
    }
  }

  predicate GroupOrRepeat(r: DiffRow) {
    r.currentType == Some("group") || r.currentType == Some("repeat")
  }

  /** The group and repeat counts of a status never overlap; they add up to
      the plain count when every row is a group or a repeat. */
  lemma {:induction false} GroupRepeatSplit(rows: seq<DiffRow>, s: string)
    ensures CountTyped(rows, s, "group") + CountTyped(rows, s, "repeat") <= CountIs(rows, s)
    ensures (forall i :: 0 <= i < |rows| ==> GroupOrRepeat(rows[i])) ==>
      CountTyped(rows, s, "group") + CountTyped(rows, s, "repeat") == CountIs(rows, s)
  {
    if |rows| > 0 {
      GroupRepeatSplit(rows[1..], s);
      assert "group" != "repeat";
    }
  }

  /** A status that is exactly one of the four comparison outcomes. */
  predicate Exact(r: DiffRow) {
    r.status == Some("unchanged") || r.status == Some("added")
    || r.status == Some("removed") || r.status == Some("modified")
  }

  /** Which of the four keywords each exact status contains: none but its own. */
  lemma NoOtherModified()
    ensures !Contains("unchanged", "modified") && !Contains("added", "modified") && !Contains("removed", "modified")
  {
    MissingCharNotContained("unchanged", "modified", 1);
    MissingCharNotContained("added", "modified", 0);
    MissingCharNotContained("removed", "modified", 4);
  }

  lemma NoOtherAdded()
    ensures !Contains("unchanged", "added") && !Contains("removed", "added") && !Contains("modified", "added")
  {
    MissingCharNotContained("removed", "added", 0);
    MissingCharNotContained("modified", "added", 0);
    UnchangedLacksAdded();
  }

  lemma NoOtherRemoved()
    ensures !Contains("unchanged", "removed") && !Contains("added", "removed") && !Contains("modified", "removed")
  {
    MissingCharNotContained("unchanged", "removed", 0);
    MissingCharNotContained("added", "removed", 0);
    MissingCharNotContained("modified", "removed", 0);
  }

  lemma MissingCharNotContained(s: string, t: string, k: nat)
    requires k < |t| && forall i :: 0 <= i < |s| ==> s[i] != t[k]
    ensures !Contains(s, t)
  {
    if Contains(s, t) {
      ContainsChar(s, t, k);
    }
  }

  /** "added" could only start at the one 'a' of "unchanged", too near its end. */
  lemma UnchangedLacksAdded()
    ensures !Contains("unchanged", "added")
  {
    ContainsAt("unchanged", "added");
    forall i | 0 <= i <= 4
      ensures !OccursAt("unchanged", "added", i)
    {
      var w := "unchanged"[i..i + 5];
      if i < 4 {
        assert w[0] == "unchanged"[i] != 'a';
      } else {
        assert w[1] == 'n' != 'd';
      }
    }
  }

  /** For a category counted exactly for Unchanged/Added/Deleted and by
      substring for Modified, every row with an exact status is counted once. */
  lemma {:induction false} ExactRowsCountedOnce(rows: seq<DiffRow>)
    requires forall i :: 0 <= i < |rows| ==> Exact(rows[i])
    ensures CountIs(rows, "unchanged") + CountIs(rows, "added") + CountIs(rows, "removed")
      + CountContaining(rows, "modified") == |rows|
  {
    if |rows| > 0 {
      ExactRowsCountedOnce(rows[1..]);
      NoOtherModified();
      ContainsSelf("modified");
    }
  }

  /** The same for a category whose four counts are all exact matches. */
  lemma {:induction false} ExactRowsCountedOnceExactly(rows: seq<DiffRow>)
    requires forall i :: 0 <= i < |rows| ==> Exact(rows[i])
    ensures CountIs(rows, "unchanged") + CountIs(rows, "added") + CountIs(rows, "removed")
      + CountIs(rows, "modified") == |rows|
  {
    if |rows| > 0 {
      ExactRowsCountedOnceExactly(rows[1..]);
    }
  }

  /** The choices row: all four counts by substring. */
  lemma {:induction false} ExactChoicesCountedOnce(rows: seq<DiffRow>)
    requires forall i :: 0 <= i < |rows| ==> Exact(rows[i])
    ensures CountIs(rows, "unchanged") + CountContaining(rows, "added") + CountContaining(rows, "removed")
      + CountContaining(rows, "modified") == |rows|
  {
    if |rows| > 0 {
      ExactChoicesCountedOnce(rows[1..]);
      NoOtherModified();
      NoOtherAdded();
      NoOtherRemoved();
      ContainsSelf("added");
      ContainsSelf("removed");
      ContainsSelf("modified");
    }
  }

  /* When every status in a category's table is exactly one of the four
     outcomes, the row's Total counts each row of the table once, except
     where the category has no Modified column. */

  /** Survey columns and questions: every row counted once, the Modified
      count by substring. */
  lemma SubstringModifiedRowTotal(category: Category, rows: seq<DiffRow>)
    requires forall i :: 0 <= i < |rows| ==> Exact(rows[i])
    ensures SubstringModifiedRow(category, rows).total == |rows|
  {
    ExactRowsCountedOnce(rows);
  }

  /** Groups and repeats: the two rows together count every group-table row
      once; modified groups and repeats are all on the group row. */
  lemma GroupRowsTotal(groups: seq<DiffRow>)
    requires forall i :: 0 <= i < |groups| ==> Exact(groups[i]) && GroupOrRepeat(groups[i])
    ensures GroupsRow(groups).total + RepeatsRow(groups).total == |groups|
  {
    ExactRowsCountedOnceExactly(groups);
    GroupRepeatSplit(groups, "unchanged");
    GroupRepeatSplit(groups, "added");
    GroupRepeatSplit(groups, "removed");
  }

  /** Choice lists: the row has no Modified count, so modified list names are
      left out of the Total. */
  lemma ListNamesRowTotal(listNames: seq<DiffRow>)
    requires forall i :: 0 <= i < |listNames| ==> Exact(listNames[i])
    ensures ListNamesRow(listNames).total == |listNames| - CountIs(listNames, "modified")
  {
    ExactRowsCountedOnceExactly(listNames);
  }

  /** Choices: every row counted once, though Added, Deleted and Modified are
      substring counts. */
  lemma ChoicesRowTotal(choices: seq<DiffRow>)
    requires forall i :: 0 <= i < |choices| ==> Exact(choices[i])
    ensures ChoicesRow(choices).total == |choices|
  {
    ExactChoicesCountedOnce(choices);
  }

  /** Settings: every row counted once. */
  lemma ExactRowTotal(category: Category, rows: seq<DiffRow>)
    requires forall i :: 0 <= i < |rows| ==> Exact(rows[i])
    ensures ExactRow(category, rows).total == |rows|
  {
    ExactRowsCountedOnceExactly(rows);
  }

  /** Substring tests count compound statuses: a choice whose status is
      "list_name_added" is counted as Added, though it is not exactly "added". */
  lemma CompoundChoiceStatusCounted()
    ensures CountContaining([DiffRow(Some("list_name_added"), None)], "added") == 1
    ensures CountIs([DiffRow(Some("list_name_added"), None)], "added") == 0
  {
    assert OccursAt("list_name_added", "added", 10);
    ContainsAt("list_name_added", "added");
  }
}
