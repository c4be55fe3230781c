# dct-comparator core, modelled in Dafny

This project models the comparison core of dct-comparator. The tool compares
two versions of a survey definition and reports what changed between them.

- **REDCap data-dictionary comparator** (`redcap.py`, class `DataDic`):
  - `get_normalized_edit_distance`: the Levenshtein distance normalised by the longer length, with 1.0 as the fallback.
  - The count messages `print_n_diff_in_forms` and `compareNumForms`.
  - `detectIdenticalVariables`: the outer merge on every column, its split into identical and nonidentical rows, and the bucketing by fuzzy distance into same-name, renamed and added.
  - The key filter of `detectDeletedVariables`.
  - `detectModifiedLabels`: major and minor label changes, split at 0.2.
  - `detectModifiedTypes`.
  - `detectSimilarLabels`: the labelled-variable filter, the join rows it produces, the 0.6 threshold and the sort.
- **XLSForm report** (`FormComparator.py`):
  - The report file name `<cur id>#<cur version>!<ref id>#<ref version>.xlsx` and the output path.
  - The seven-row overview table with its Total column.
  - `apply_color_format`, which paints each data row green, red or orange by its status.

Conventions:
- A pandas table is a `seq` of rows.
- A NaN cell is `None` in an `Option`.
- Distances and scores are `real`.
- A Python exception the code can raise is the failure side of a `Result`.
- Module layout:
  - `Wrappers` and `Seqs` hold the generic pieces: filters, counts, and the substring test `Contains`.
  - `Joins` models pandas `merge` on a key, inner and outer.
  - `EditDistance`, `Decimal`, `CountMessages`, `DataDictionary`, `Modifications` and `SimilarLabels` follow `redcap.py`.
  - `ReportNames`, `ReportSummary` and `ReportColour` follow `FormComparator.py`.
- The all-columns merge of `detectIdenticalVariables` uses the CSV's column names (`Variables`, `Forms`). The later methods are written against columns `name`, `type` and `label`, which the constructor never creates; `index` does exist, added by `reset_index` (see "## Left out"). Both are modelled as the fields of one `Variable` record: `name`, `form`, `vtype`, `fieldLabel` and `row`.

## Model

| member | source | states |
|---|---|---|
| EditDistance.Levenshtein | redcap.py:21 | the row-by-row dynamic programme returns the Levenshtein distance of the two strings |
| EditDistance.LevSymmetric | redcap.py:21 | the Levenshtein distance does not depend on argument order |
| EditDistance.LevZeroIff | redcap.py:21 | the Levenshtein distance is 0 exactly for equal strings |
| EditDistance.Distance | redcap.py:19-25 | the normalised distance lies in [0, 1]; it is 0 exactly when both labels are present, equal and non-empty; a missing side gives 1.0 |
| EditDistance.DistanceFallback | redcap.py:23-24 | a missing side or two empty strings take the `except` branch and give 1.0 |
| EditDistance.DistanceSymmetric | redcap.py:19-25 | swapping the two strings leaves the normalised distance unchanged |
| EditDistance.LevCommonSuffix | redcap.py:21 | appending the same characters to both strings never increases the Levenshtein distance |
| EditDistance.SubstitutionIsOneEdit | redcap.py:21 | two strings that differ by one substituted character, in any position, are at Levenshtein distance exactly 1 |
| EditDistance.DistanceOneInFive | redcap.py:21-22 | one substituted character, in any position, between two five-character strings is distance exactly 0.2 |
| EditDistance.NormalizedEditDistance | redcap.py:19-25 | the executable computation agrees with the reference definition on every input |
| Decimal.ParseNatToString | redcap.py:80 | the decimal rendering `format` uses for a count can be read back to the same count |
| CountMessages.DiffMessage | redcap.py:73-84 | the message is "Same number of variables" iff N == N0; it ends in " Variables added" iff N > N0 and in " Variables deleted" iff N < N0 |
| CountMessages.ReadDiffMessageRoundTrip | redcap.py:73-84 | the message determines the change: reading it back gives exactly N - N0, with its sign |
| CountMessages.DiffMessageInjective | redcap.py:73-84 | two messages are equal only when the changes they report are equal |
| CountMessages.CompareNumForms | redcap.py:193-203 | the message starts "Increased", "Decreased" or "Same number of forms" exactly when the current count is greater than, less than or equal to the reference count |
| CountMessages.ReadFormCountsRoundTrip | redcap.py:193-203 | the message determines both counts: reading it back gives the current and the reference number of forms |
| Joins.OuterJoin | redcap.py:235-240 | an outer merge gives a "both" row for each same-key pair, a "left_only" row for each unmatched left row and a "right_only" row for each unmatched right row; it is empty iff both inputs are |
| Joins.LeftOnlyIsUnmatchedLeft | redcap.py:242-244 | the "left_only" rows of an outer merge are exactly the left rows without a key match, in order and with multiplicity |
| DataDictionary.SplitIdentical | redcap.py:234-244 | the identical rows are exactly the (current row, reference row) pairs that agree on every column but the index, so each keeps its reference twin; the nonidentical rows are exactly the twinless current rows, in order, and together with the twinned ones they make up every current row, with multiplicity |
| DataDictionary.IdenticalPairsCoverTwinned | redcap.py:238-242 | a current row has an all-columns twin in the reference iff it appears in some identical pair |
| DataDictionary.FuzzyJoin | redcap.py:247-252 | the fuzzy join keeps every nonidentical row (`drop_unmatched = False`), in order, each with its closest reference variable and the match distance |
| DataDictionary.FuzzyJoinMembers | redcap.py:247-252 | a joined row is exactly the match of one of the input rows, and every input row's match is there |
| DataDictionary.BucketRows | redcap.py:253-256 | each joined row falls in exactly one of same-name (distance 0), renamed (0 < distance < 1) and added (distance >= 1), by its distance, and keeps its closest reference variable |
| DataDictionary.DetectIdenticalAsWritten | redcap.py:224-258 | the method as written fails with UnboundLocalError exactly when every current variable has an identical twin in the reference |
| DataDictionary.SelfComparisonRaises | redcap.py:224-258 | comparing a dictionary with itself makes the method as written raise |
| DataDictionary.DetectIdenticalVariables | redcap.py:224-258 | corrected: the identical pairs are present iff the merge is non-empty, and are then exactly the (current, reference) pairs that agree on every column but the index; the three buckets are present together, iff some row is nonidentical; then every nonidentical variable's joined row, with its closest reference variable, is in the same-name, renamed or added bucket iff its distance is 0, in (0, 1) or >= 1, the buckets hold nothing else, every bucket row's closest variable is a reference row (absent only when the reference is empty), and together they are the joined rows with multiplicity |
| DataDictionary.DetectIdenticalAgrees | redcap.py:224-258 | wherever the method as written returns, the corrected one returns the same report |
| DataDictionary.SelfComparisonIdentical | redcap.py:224-258 | with the correction, a self-comparison pairs every variable with itself as identical, leaves no nonidentical row and reports none of the three buckets |
| DataDictionary.DetectDeletedVariables | redcap.py:338-357 | a typed current variable is reported iff its name is missing from the reference or held there by an untyped row; nothing else is reported; the result is None iff nothing qualifies |
| DataDictionary.DeletedWhenReferenceTyped | redcap.py:340-344 | when every reference row has a type, exactly the typed current variables whose name the reference lacks are reported |
| Modifications.DetectModifiedLabels | redcap.py:383-423 | every same-name pair with a present current label is reported as major iff its distance is > 0.2 and as minor iff it is in (0, 0.2]; only such pairs appear, and never in both reports; each report is None iff no same-name pair belongs in it |
| Modifications.LabelTiers | redcap.py:392-408 | a pair with a current label is unchanged, minor or major; a pair without one is never reported; distance 0 is never reported |
| Modifications.LabelReportedIff | redcap.py:383-408 | a pair is reported in some tier iff its current label is present and differs from the reference label, or both labels are empty |
| Modifications.MissingReferenceLabelIsMajor | redcap.py:389-392 | a present current label against a missing reference label is a major change |
| Modifications.OneEditInFiveIsMinor | redcap.py:392-408 | the 0.2 boundary belongs to the minor tier: one substituted character in five, in any position, is minor and not major |
| Modifications.DetectModifiedTypes | redcap.py:425-448 | a same-name pair is reported iff its current type is present and at positive distance from the reference type; only such pairs appear; the result is None iff no same-name pair qualifies |
| Modifications.PairFilterEmptyIff | redcap.py:404-405 | a filter of the same-name pairs is empty exactly when no same-name pair passes it, which is when a report is None |
| Modifications.TypeChangeIff | redcap.py:431-433 | a type change is reported iff the current type is present and differs from the reference type, or both are empty |
| Modifications.SelfComparisonUnchanged | redcap.py:383-448 | with unique names and no label or type that is the empty string (a CSV cell is NaN when empty), a dictionary compared with itself reports no label change and no type change |
| SimilarLabels.LabelledVariables | redcap.py:452-453 | only current variables with a label take part in the fuzzy join; the filter keeps exactly those, and with the unlabelled ones they make up the variables |
| SimilarLabels.SimilarJoinMembers | redcap.py:458-463 | the left join has a row for every labelled current variable, and each of its rows is the match of one |
| SimilarLabels.DetectSimilarLabels | redcap.py:450-480 | the result is None iff no labelled current variable scores >= 0.6; otherwise every such variable's joined row is in it, every row in it is a joined row scoring >= 0.6, the rows are those joined rows with multiplicity, sorted by score descending and then by current row ascending; the reference side of each row is a labelled reference variable, absent only when the reference has no labelled row |
| SimilarLabels.SortedUnique | redcap.py:474-475 | two orderings by (score descending, current row ascending) of the same rows are equal when no two different rows share a current row |
| SimilarLabels.SimilarLabelsOrderDetermined | redcap.py:450-480 | with distinct CSV row indices, the result is the only sorted arrangement of the kept rows, so the sort fixes the order completely |
| ReportNames.OutputFileName | FormComparator.py:45 | the file name ends in ".xlsx" and is 8 characters longer than the four fields together |
| ReportNames.ParseOutputFileNameRoundTrip | FormComparator.py:45 | the file name can be read back to the two ids and versions, provided the ids hold no '#' and the current version no '!' |
| ReportNames.OutputPath | FormComparator.py:48-52 | "." gives the bare file name; otherwise the name is joined under the directory, which ends the path; the empty directory fails in `makedirs` |
| ReportNames.OutputPathBareIff | FormComparator.py:48-52 | for a non-empty directory and a relative name, the path is the bare name iff the directory is "." |
| ReportSummary.MakeRow | FormComparator.py:107-108 | the Total is at least each count cell, a blank counts 0, and the Total is 0 iff every count is 0 |
| ReportSummary.SubstringModifiedRowTotal | FormComparator.py:74-108 | for survey columns and questions with exact statuses, the Total counts every row once |
| ReportSummary.GroupRowsTotal | FormComparator.py:76-108 | the group row and the repeat row together count every group-table row once; modified groups and repeats are all on the group row |
| ReportSummary.ListNamesRowTotal | FormComparator.py:79-108 | the choice-list row has no Modified count, so its Total leaves out the modified list names |
| ReportSummary.ChoicesRowTotal | FormComparator.py:80-108 | the choices Total counts every exact-status row once, even though three columns match substrings |
| ReportSummary.ExactRowTotal | FormComparator.py:81-108 | the settings Total counts every exact-status row once |
| ReportSummary.GroupRepeatSplit | FormComparator.py:76-93 | the group and repeat counts of a status never overlap, and they sum to the status count when every row is a group or a repeat |
| ReportSummary.CountIsAtMostContaining | FormComparator.py:83-104 | an exact-status count never exceeds the substring count for the same word |
| ReportSummary.CompoundChoiceStatusCounted | FormComparator.py:88 | a choice whose status is "list_name_added" is counted as Added by the substring test, though it is not exactly "added" |
| ReportColour.ApplyColorFormat | FormComparator.py:202-212 | rows are painted in ascending sheet-row order, each row whose status has a colour exactly once and in that colour; a NaN status or a missing column fails at the first such row |
| ReportColour.ColourMatchesStatus | FormComparator.py:206-211 | on the four exact statuses, green, red and orange mean added, removed and modified, and an unchanged row stays unpainted |
| ReportColour.CompoundStatusColour | FormComparator.py:206-207 | "added" wins over the other keywords in a compound status |

## Left out

- File reading is not modelled: the CSV and XLSX files, `reset_index`, and `Form` construction (`Form.py`). The dictionaries and per-category tables are inputs.
- The per-category comparators (`compareSettings`, `compareSurveyColumns`, ...) are not part of this model. Their outputs enter only through the `status` and `current_type` columns.
- Printing and the Excel writer are left out: sheet creation, tab colours, hyperlink formulas, column widths.
- Label preprocessing is left out: common-word removal and `process_label`.
- `skrub.fuzzy_join` is a library call. Which reference variable is closest, and at what distance or score, is a parameter: a function from a current variable to its match, for `detectIdenticalVariables` and for `detectSimilarLabels`. The parameter is required to name a row of the join's right table: a reference variable for `detectIdenticalVariables`, a labelled one for `detectSimilarLabels` (redcap.py:455-456). It may be absent only when that table is empty. That the match is the closest one is not stated.
- The fuzzy closest-label annotation at the end of `detectDeletedVariables` is left out. Only the key filter that decides which variables are reported is modelled.
- The per-form `groupby(...).count()` tally of `detectIdenticalVariables` is left out.
- `detectIdenticalVarNames`, `detectModificationsInSameForms` and `detectModificationsInRenamedForms` are left out, as are the accessors.
- Joins.OuterJoin: gives the merged rows in left-then-right order, not pandas' key-sorted order.
- DataDictionary.SplitIdentical: keeps each nonidentical row's index. The source projects those rows onto the merge columns, which drops the index.
- DataDictionary.DetectDeletedVariables, Modifications.DetectModifiedLabels, Modifications.DetectModifiedTypes, SimilarLabels.DetectSimilarLabels: as written, each raises AttributeError before any row is compared. `self._label` is never assigned (redcap.py:340, 385, 427, 452) and `getMainLabel` is not defined on `DataDic` (redcap.py:341, 386, 428, 455). Besides, `_vars` has no `name` or `type` column (redcap.py:127-128). The model states the row logic these methods evidently intend, on the fields of `Variable`.
- DataDictionary.SplitIdentical: compares every field of a row, so both dictionaries are assumed to have the same columns. The merge key is the current table's columns (redcap.py:234), after each dictionary has dropped its all-empty columns (redcap.py:118). A column only the current dictionary has makes the merge raise KeyError; a column only the reference has is ignored. Neither case is modelled.
- ReportNames.OutputPath: joins with "/" as posixpath does. FormComparator.py:50 calls `os.path.join`, which on Windows is ntpath and joins with a backslash.
- ReportSummary.SubstringModifiedRowTotal: counts 0 where a status column is entirely NaN. pandas then gives the column a float type, and `.str.contains` (FormComparator.py:99, 102) raises AttributeError instead.
- ReportSummary.ChoicesRowTotal: counts 0 where the choices status column is entirely NaN. `.str.contains` (FormComparator.py:88, 96, 104) raises AttributeError on such a column instead.
- EditDistance.Distance: is exact real division. The source's floating-point rounding is not modelled.
- ReportNames.OutputPath: models only the `makedirs` failure on the empty path. Permission errors and a file in the way depend on the file system.
- ReportColour.ApplyColorFormat: takes a non-negative column index. Python's negative indexing from the end is not modelled.
- `ReportSummary.Summary` assembles the seven rows. It carries no contract of its own, because its rows are stated one by one through the row lemmas.
- Two empty labels (or types) count as a major label change (or a type change) through the 1.0 fallback. This is the source's behaviour, and `LabelReportedIff` and `TypeChangeIff` state it as such.

## Findings

| source | as written | input that shows it | evidently intended | confidence | as-written member | corrected member |
|---|---|---|---|---|---|---|
| redcap.py:226-258 | `same_name`, `renamed` and `added` are assigned only inside the two `if` blocks, so the `return` reads an unassigned local when no row is nonidentical or the merge is empty | comparing a data dictionary with itself: every row is identical, so the method raises UnboundLocalError | the three buckets start as None, like `sum`, `identical` and `nonidentical`, and the method returns | not executed | DataDictionary.DetectIdenticalAsWritten | DataDictionary.DetectIdenticalVariables |
