# Maintenance job overview analysis, modelled in Dafny

Two Streamlit scripts work on spreadsheet exports of a ship's planned
maintenance jobs. The model covers their data logic and leaves out their UI.

**Cross-file reconciliation** (`Compare_wip.py`, modelled imperatively in
`Compare.dfy`). For each uploaded job overview the script does these steps:

- It lists the rows whose (Equipment Code, Equipment Name, Job Code, Job Title)
  occurs more than once.
- It re-reads the file, strips every Equipment Code and indexes the
  (Equipment Name, Job Title) pairs by stripped code. The index keeps the
  first-seen order and also holds a sorted code list.
- It keys the index by the file-name stem (`os.path.splitext`).

The codes of all uploads form a sorted master list. For each master code and
each file, the pairs of every file code that starts with the master code are
gathered. That gives an indicator cell, `Y(n)` or `N`, and an entry in the
matched-pairs map. Every matched Equipment Name joins the code's name set.
The name column is that set sorted and joined with `", "`. `Mismatch` is
`Y` when a row's indicator cells are not all equal. The view can be limited
to mismatching rows, and the drill-down looks up the matched pairs per file.

The loops that build these results are Dafny methods with loop invariants:
`BuildCodeIndex`, `IndexUploads`, `MatchInFile`, `MatchCode`,
`FillIndicators`, `BuildNameColumn` and the duplicate loop of
`CompareUploads`. `Reconcile` has no loop of its own: it calls these
methods and assembles the rows from their results. Each method is proved
equal to a specification function (`PairsByCode`, `CodeOrder`,
`AllCodes`, `FileDicts`, `FileNames`, `MatchedPairs`, `Indicators`,
`NameUnion`, `ExpectedRow`). Lemmas then state what those functions mean:
- the index partitions the rows;
- a file's gathered pairs are, as a multiset, the pairs of the rows whose
  code has the master code as a prefix;
- matching is monotone in the prefix;
- Mismatch holds exactly when the match counts differ.

Two quirks of the script are captured:
- Two uploads with the same stem share one column, and the later upload
  wins. The earlier upload's codes still enter the master list, so a code
  can show `N` in every column.
- The duplicate check looks at the raw codes, before stripping.

**Job analysis** (`MA_Analysis.py`, modelled as pure functions in
`MaAnalysis.dfy`). The analysis runs in this order:

1. It checks the 27 required columns. A missing one gives the "does not
   contain all required columns" outcome.
2. It drops `0 EVENT` jobs. An empty frequency is kept.
3. It flags each job `Triggered` by whether its Last Done Date is filled.
4. It converts both dates. An unreadable Last Done Date makes
   `pd.to_datetime` raise. An unreadable Next Due Date becomes `NaT`.
5. It selects the overdue jobs, the duplicate jobs on (code, name, title),
   the triggered and non-triggered jobs, the critical-equipment and
   critical jobs, and the distinct critical equipment names.

Each Equipment Code is also placed in the ship-system taxonomy by its first
character (Series) and first two characters (Sub_Series). Jobs are counted
per labelled series, in ascending key order, with rows numbered from 1. The
taxonomy table is transcribed entry for entry.

Its 35 keys longer than two characters (the procedure codes `101`-`126`, the
analyses `900`-`904` and the pump types `CEN`, `GRP`, `PDP`, `PIS`, `SCR`
and `VAN`) can never be looked up. `LongKeysNeverLabel` states this for two
of them.

`Seqs.dfy` holds the sequence operations both scripts share:
- boolean-mask selection (`Filter`);
- `duplicated(keep=False)`;
- distinct values in first-seen order (`FirstSeen`), i.e. dict key order
  and `Series.unique()`.

`Text.dfy` holds the Python string built-ins the scripts rely on:
`str.strip`, code-point string order and `sorted`, `", ".join`, `str(int)`
in an f-string, and `os.path.splitext`.

Two details of the job analysis come straight from the script:
- The series group count uses the pandas `groupby` defaults
  (MA_Analysis.py:142): groups are sorted by key, and jobs without a label
  are dropped.
- The series keys come from the raw Equipment Code; MA_Analysis.py never
  strips it.

## Model

| member | source | states |
|---|---|---|
| Seqs.Filter | MA_Analysis.py:108 | a boolean-mask selection keeps exactly the rows satisfying the mask, each as often as before, in the original order |
| Seqs.FilterMembers | MA_Analysis.py:132-136 | a row is selected exactly when it occurs and satisfies the mask |
| Seqs.FilterPartition | MA_Analysis.py:132-135 | two complementary masks select row counts that add up to the number of rows |
| Seqs.FilterMonotone | MA_Analysis.py:136-138 | a stricter mask selects a subsequence of what a looser mask selects |
| Seqs.SubsequenceMembers | MA_Analysis.py:129-139 | every row of a selection is a row of the table it was selected from |
| Seqs.Duplicated | Compare_wip.py:24 | `duplicated(keep=False)` keeps, in order and with full multiplicity, exactly the rows whose key occurs at least twice |
| Seqs.DuplicatedAt | MA_Analysis.py:130 | row `i` is kept exactly when some other row has the same key |
| Seqs.FirstSeen | MA_Analysis.py:137 | `unique()` returns each value once and no other values, as a subsequence of the column |
| Seqs.FirstSeenOrder | MA_Analysis.py:137 | the values come in order of first occurrence: a value listed before another first occurs before the other's first occurrence |
| Seqs.FirstSeenCountsSum | Compare_wip.py:57 | grouping rows by value loses none: the group sizes add up to the number of rows |
| Seqs.ManyIffTwoDistinct | Compare_wip.py:128-129 | a set of cell values has more than one element exactly when two cells differ |
| Text.Strip | Compare_wip.py:47 | `str.strip()`: the string without its leading and then its trailing `isspace` characters; `StripRemovesOuterSpace` and `StripIdempotent` state what that yields |
| Text.StripRemovesOuterSpace | Compare_wip.py:47 | `strip()` yields a slice with no leading or trailing whitespace and only whitespace around it |
| Text.StripIdempotent | Compare_wip.py:47 | stripping a stripped code changes nothing |
| Text.LexLess | Compare_wip.py:69 | Python's `<` on strings: code points compared left to right, a proper prefix first; the lemmas below show it is a strict total order |
| Text.LexLessTransitive | Compare_wip.py:69 | string order is transitive |
| Text.LexLessTotal | Compare_wip.py:69 | any two different strings are ordered one way or the other |
| Text.ProperPrefixSortsFirst | Compare_wip.py:69 | a proper prefix sorts before the longer string |
| Text.SortedIsDistinct | Compare_wip.py:69 | a strictly ascending list has no repeated code |
| Text.Insert | Compare_wip.py:63 | inserting into a strictly sorted list keeps it strictly sorted and adds exactly that element |
| Text.Sort | Compare_wip.py:63 | the distinct strings of a list, strictly ascending: `sorted` on the distinct codes of line 63, and the deduplicating sort the series grouping relies on (MaAnalysis.SeriesGroups) |
| Text.SortedUnique | Compare_wip.py:69 | two strictly ascending lists of the same elements are equal, so `sorted` has one result |
| Text.SortedOf | Compare_wip.py:121 | `sorted(set)` as a value: a strictly ascending list holding exactly the set's elements |
| Text.SortSet | Compare_wip.py:121 | `sorted(set)` returns the set's elements strictly ascending |
| Text.Join | Compare_wip.py:121 | `", ".join` of no names is empty and of one name is that name |
| Text.NatToString | Compare_wip.py:105 | a count renders as decimal digits without a leading zero |
| Text.ParseNatToString | Compare_wip.py:105 | reading the rendered digits back gives the count |
| Text.NatToStringInjective | Compare_wip.py:105 | different counts render differently |
| Text.RFind | Compare_wip.py:65 | the last index of a character, or -1 when it does not occur |
| Text.Stem | Compare_wip.py:65 | `os.path.splitext(name)[0]`: the name without its last extension; `StemCutsLastExtension` states when and where it cuts |
| Text.StemCutsLastExtension | Compare_wip.py:65 | `splitext(name)[0]` is a prefix of the name, cut only at the last dot after the last slash and only when a non-dot character of the file name precedes that dot; and whenever the file name has such a dot, the name is cut there |
| Compare.DuplicateRows | Compare_wip.py:21-24 | the rows kept are, in order and with multiplicity, exactly those whose four key cells equal another row's |
| Compare.DifferentRawCodesAreNotDuplicates | Compare_wip.py:21-24 | rows whose raw codes differ are never duplicates of each other, even if the codes differ only in whitespace |
| Compare.TrailingSpaceSharesCode | Compare_wip.py:47 | codes `A` and `A ` index under the same stripped code `A` |
| Compare.StrippedCodesAndUnknownDefaults | Compare_wip.py:47-54 | the code is the stripped cell with no outer whitespace; a missing name or title column gives `Unknown` |
| Compare.UnknownIsStripped | Compare_wip.py:53-54 | the `Unknown` default survives stripping unchanged |
| Compare.Codes | Compare_wip.py:47 | the stripped code column: one stripped code per row, in row order |
| Compare.PairsOfCode | Compare_wip.py:49-57 | `eq_code_to_pairs[c]`: the (name, title) pairs of the rows whose stripped code is `c`, in row order; `PairsOfCodeCount` states its length |
| Compare.CodeOrder | Compare_wip.py:49-57 | the dict's key order: the stripped codes in order of first occurrence, as `Seqs.FirstSeenOrder` states |
| Compare.PairsOfCodeCount | Compare_wip.py:49-57 | a code's pair list has one pair per row with that code |
| Compare.PairsByCode | Compare_wip.py:49-57 | the index's keys are exactly the stripped codes of the file |
| Compare.PairsByCodeSnoc | Compare_wip.py:57 | `setdefault(code, []).append(pair)`: a known code's list grows by the pair, a new code starts with it |
| Compare.CodeOrderSnoc | Compare_wip.py:57 | a code joins the dict's key order when it is first seen |
| Compare.IndexOf | Compare_wip.py:49-66 | the index has distinct keys in first-seen order, a strictly sorted code list of the same keys, and no empty pair list |
| Compare.BuildCodeIndex | Compare_wip.py:49-57 | the row loop builds exactly the code-to-pairs dict and its key order |
| Compare.IndexPartitionsRows | Compare_wip.py:49-57 | the pair lists of the index add up to the number of rows |
| Compare.AllCodes | Compare_wip.py:41-60 | a code is in the union exactly when some upload has it |
| Compare.AllCodesSnoc | Compare_wip.py:60 | each upload adds all of its codes to the union |
| Compare.Stems | Compare_wip.py:65 | one file-name stem per upload, in upload order |
| Compare.FileDicts | Compare_wip.py:66 | one file dict per distinct stem, each well formed |
| Compare.FileDictsSnoc | Compare_wip.py:66 | a later upload overwrites the entry of its stem |
| Compare.FileNames | Compare_wip.py:76 | the file columns are the distinct stems |
| Compare.FileNamesSnoc | Compare_wip.py:66-76 | a stem takes a new column only when it is first seen |
| Compare.IndexUploads | Compare_wip.py:41-69 | the master list is strictly sorted and holds exactly the codes of all uploads; file names and file dicts are as specified |
| Compare.Gather | Compare_wip.py:98-101 | the pair lists of the codes that start with the master code, concatenated in the dict's key order; `MatchedPairsAreRowMatches` and `PrefixMonotone` state what it collects |
| Compare.MatchedPairs | Compare_wip.py:98-101 | `matched_pairs` for one file: `Gather` over that file's index |
| Compare.PrefixPairs | Compare_wip.py:97-101 | the reference the gathered pairs are compared with: the pairs of the rows whose stripped code starts with the master code, in row order |
| Compare.MatchInFile | Compare_wip.py:97-101 | the loop gathers exactly the pair lists of the file codes that have the master code as a prefix |
| Compare.MatchedPairsAreRowMatches | Compare_wip.py:97-103 | the gathered pairs are, as a multiset, the pairs of the rows whose code starts with the master code |
| Compare.PrefixMonotone | Compare_wip.py:99-101 | when `m1` is a prefix of `m2`, every pair matched for `m2` is matched for `m1` |
| Compare.NoPrefixNoPairs | Compare_wip.py:99-101 | a master code that prefixes no row code matches nothing |
| Compare.OwnCodeHasPrefixPair | Compare_wip.py:99-103 | a master code that is a code of the file matches at least one pair |
| Compare.OwnCodeIndicatedY | Compare_wip.py:104-107 | a master code that is a code of the file is indicated `Y(...)` there |
| Compare.Indicator | Compare_wip.py:104-107 | `Y(count)` for a positive count, `N` for zero; `IndicatorN` and `IndicatorInjective` show that the cell determines the count |
| Compare.Indicators | Compare_wip.py:94-107 | one indicator cell per file column, in column order, from that file's matched count |
| Compare.IndicatorN | Compare_wip.py:104-107 | the indicator is `N` exactly when the count is zero |
| Compare.IndicatorInjective | Compare_wip.py:104-107 | two indicators are equal exactly when their counts are |
| Compare.CheckMismatch | Compare_wip.py:127-129 | `Y` exactly when two cells of the row differ, `N` otherwise |
| Compare.NameUnion | Compare_wip.py:112-114 | `eq_code_to_all_names[m]` once every file has been matched: the union of the names of every file's matched pairs |
| Compare.NameUnionMembers | Compare_wip.py:112-114 | a name is in a code's name set exactly when it is the name of a pair matched in some file |
| Compare.NamesCell | Compare_wip.py:121 | the name cell: the names sorted and joined with `", "`, or empty when there are none |
| Compare.ExpectedRow | Compare_wip.py:116-132 | the reference row of `result_df` for a master code: the code, its name cell, its indicator cells and `check_mismatch` of them |
| Compare.MismatchIffCountsDiffer | Compare_wip.py:127-132 | a row mismatches exactly when two files match different numbers of pairs |
| Compare.SingleFileNeverMismatch | Compare_wip.py:127-132 | with one file column Mismatch is always `N` |
| Compare.MatchCode | Compare_wip.py:94-114 | for one master code the file loop yields its indicator cells, adds the matched names and records the matched pairs |
| Compare.FillIndicators | Compare_wip.py:73-114 | every master code gets its indicator cells, its name set and its matched-pairs entries |
| Compare.BuildNameColumn | Compare_wip.py:118-121 | each name cell is the code's names sorted and joined, or empty |
| Compare.Reconcile | Compare_wip.py:73-132 | each result row holds the code, the name cell, the indicators and the mismatch flag `ExpectedRow` defines |
| Compare.DisplayRows | Compare_wip.py:135-139 | the filtered view keeps exactly the rows with Mismatch `Y`, in order; unfiltered it is the table |
| Compare.DrillDown | Compare_wip.py:184-185 | one list per file column, `matched_map.get((code, fn), [])`; `DrillDownShowsMatches` states what it shows |
| Compare.DrillDownShowsMatches | Compare_wip.py:184-185 | the drill-down of a master code lists its matched pairs per file, and of any other code empty lists |
| Compare.SameStemOneColumn | Compare_wip.py:65-76 | two uploads with the same stem yield a single file column |
| Compare.SameStemLaterWins | Compare_wip.py:65-66 | with the same stem, the later upload's index replaces the earlier one |
| Compare.SameStemKeepsAllCodes | Compare_wip.py:60 | the master union still holds both uploads' codes |
| Compare.UnmatchedInOnlyFile | Compare_wip.py:99-129 | a code that prefixes nothing in the only file is indicated `N` and not a mismatch |
| Compare.ReplacedUploadLeavesOrphanCodes | Compare_wip.py:60-107 | an overwritten upload's code stays in the master list, with `N` in every column and no mismatch |
| Compare.DuplicateColumnsHaveCodes | Compare_wip.py:24-47 | files that pass the duplicate check all have an Equipment Code column |
| Compare.CompareUploads | Compare_wip.py:15-193 | no uploads gives no result; otherwise the duplicates per file, the sorted master union, the file columns, every result row and the matched map are as specified |
| MaAnalysis.HasAllColumns | MA_Analysis.py:21-22 | true exactly when every listed column is present |
| MaAnalysis.CheckColumns | MA_Analysis.py:9-22 | true exactly when every required column is a column of the sheet |
| MaAnalysis.ActiveJobs | MA_Analysis.py:108 | the jobs whose Primary Frequency is not `0 EVENT`, in order; an empty frequency is kept |
| MaAnalysis.ToRecord | MA_Analysis.py:109-112 | a job's record: `Triggered` from the Last Done Date cell, that date parsed, the Next Due Date coerced; `PreparedRecords` states it through `Converts` |
| MaAnalysis.ToRecords | MA_Analysis.py:109-112 | one record per job, in order |
| MaAnalysis.Prepare | MA_Analysis.py:108-112 | fails exactly when a job that is not `0 EVENT` has an unreadable Last Done Date |
| MaAnalysis.Analyze | MA_Analysis.py:97-112 | missing columns exactly when a required column is absent; the date error exactly when the columns are present and an active job's Last Done Date is unreadable; otherwise the jobs found and the prepared records |
| MaAnalysis.PreparedRecords | MA_Analysis.py:107-112 | one record per job that is not `0 EVENT`, in order, with its cells kept, `Triggered` `Y` exactly when Last Done Date was filled and the dates converted; kept plus dropped jobs are all the jobs found |
| MaAnalysis.PreparedRecordsActive | MA_Analysis.py:108-111 | every record is not `0 EVENT` and is flagged `Y` exactly when it has a Last Done Date |
| MaAnalysis.NoZeroEventOverdueOrDuplicate | MA_Analysis.py:108-130 | no `0 EVENT` job is overdue or a duplicate |
| MaAnalysis.NoZeroEventFlaggedOrCritical | MA_Analysis.py:108-138 | no `0 EVENT` job is triggered, non-triggered or critical |
| MaAnalysis.NoZeroEventInTree | MA_Analysis.py:108-120 | no `0 EVENT` job enters the taxonomy tree |
| MaAnalysis.TriggeredJobs | MA_Analysis.py:132 | the records flagged `Y`, in order; `TriggeredSplit` states them |
| MaAnalysis.NonTriggeredJobs | MA_Analysis.py:134 | the records flagged `N`, in order; `TriggeredSplit` states them |
| MaAnalysis.TriggeredSplit | MA_Analysis.py:109-135 | triggered and non-triggered jobs are the records with and without a Last Done Date, and their counts add up to the records |
| MaAnalysis.Overdue | MA_Analysis.py:129 | the overdue jobs, in order and with multiplicity, are those whose Next Due Date falls on a day before today |
| MaAnalysis.OverdueMembers | MA_Analysis.py:129 | a record is overdue exactly when it has a Next Due Date on a day before today |
| MaAnalysis.UnreadableNextDueNotOverdue | MA_Analysis.py:112-129 | a job with an unreadable Next Due Date is never overdue |
| MaAnalysis.DuplicateJobs | MA_Analysis.py:130 | `duplicated(keep=False)` on (code, name, title); `DuplicateJobsAt` states which records it keeps |
| MaAnalysis.DuplicateJobsAt | MA_Analysis.py:130-131 | a record is a duplicate exactly when another record has the same code, name and title |
| MaAnalysis.CriticalEquipment | MA_Analysis.py:136 | the records whose Safety Level is `CRITICAL`, in order |
| MaAnalysis.CriticalJobRows | MA_Analysis.py:138 | the records that are `CRITICAL` and critical to safety (`YES`), in order |
| MaAnalysis.CriticalJobs | MA_Analysis.py:139 | the (Equipment Name, Job Title) of each critical job, in order |
| MaAnalysis.CriticalEquipmentNames | MA_Analysis.py:137 | the distinct names of the critical-equipment rows, in order of first occurrence; `CriticalEquipmentNamesAre` states them |
| MaAnalysis.CriticalJobsWithinEquipment | MA_Analysis.py:136-138 | critical jobs are the critical-equipment rows that are also critical to safety, in order |
| MaAnalysis.CriticalEquipmentNamesAre | MA_Analysis.py:136-137 | the critical equipment list names each critical-equipment row's name exactly once |
| MaAnalysis.SeriesTree | MA_Analysis.py:41-86 | the `series_tree` dictionary: the label of each of its 95 keys, and none for any other key |
| MaAnalysis.Series | MA_Analysis.py:122 | `code.str[0]`: the first character, or no key for an empty cell or the empty string |
| MaAnalysis.SubSeries | MA_Analysis.py:123 | `code.str[:2]`: the first two characters, or the whole code when it is shorter |
| MaAnalysis.Label | MA_Analysis.py:124-125 | `.map(series_tree)`: the table's label of a key, none for a missing key or a key not in the table |
| MaAnalysis.TreeRowOf | MA_Analysis.py:120-127 | a record's tree-list row: its cells with the series and sub-series keys and their labels |
| MaAnalysis.TreeRows | MA_Analysis.py:120-127 | one tree-list row per record, in order |
| MaAnalysis.SeriesLabelIffDigit | MA_Analysis.py:122-124 | a job has a series label exactly when its code starts with a digit 1 to 9 |
| MaAnalysis.SeriesKeysArePrefixes | MA_Analysis.py:122-123 | the series key prefixes the sub-series key, which prefixes the code and has at most two characters; a one-character code is its own sub-series |
| MaAnalysis.ShortKeyLabels | MA_Analysis.py:72-85 | no key of at most two characters finds the `101` or `CEN` entries |
| MaAnalysis.LongKeysNeverLabel | MA_Analysis.py:122-125 | no job is ever labelled with the `101` or `CEN` entries |
| MaAnalysis.LabelledSeries | MA_Analysis.py:124-142 | every series key kept for grouping has a taxonomy label |
| MaAnalysis.LabelledSeriesMembers | MA_Analysis.py:142 | a key is grouped exactly when some job carries it with a label |
| MaAnalysis.JobCount | MA_Analysis.py:142 | the size of a series group |
| MaAnalysis.GroupRows | MA_Analysis.py:142 | a group holds exactly the jobs of its series |
| MaAnalysis.SeriesGroups | MA_Analysis.py:142-143 | one numbered row per labelled series key, with its label and job count; `SeriesGroupsOrdered`, `SeriesGroupCounts` and `SeriesGroupsCoverLabelled` state them |
| MaAnalysis.SeriesGroupsOrdered | MA_Analysis.py:142-143 | group rows are numbered from 1, in strictly ascending key order, each with its table label |
| MaAnalysis.SeriesGroupCounts | MA_Analysis.py:142 | each group's count is the number of jobs of its series, never zero |
| MaAnalysis.SeriesGroupsCoverLabelled | MA_Analysis.py:142 | every job with a series label is counted in its series' group |
| MaAnalysis.Summarize | MA_Analysis.py:120-143 | the analysis of the prepared records: the tree rows, every selection with its count, and the series groups |

## Left out

- User interface: page layout, expanders, columns, checkbox, progress bar, AgGrid and its row selection. The selected rows of the drill-down are a parameter of `DrillDown`.
- File input and output: `pd.read_excel`, the Excel download links with base64 encoding, and the CSV export. These are calls into libraries whose behaviour is not part of this model.
- Reading a spreadsheet: Compare rows are maps from column name to the cell's text. How `astype(str)` renders numbers and empty cells (`nan`) is not modelled.
- MaAnalysis.Series: every Equipment Code cell of a job is modelled as text or empty. In a mixed column a numeric cell gives `NaN` under `.str[0]` and `.str[:2]` (MA_Analysis.py:122-123), so the script gives that job no series and no label and leaves it out of the count at line 142. The model has no numeric cell, so it cannot show that case.
- Reading dates: a date cell is empty, a date-time, or unreadable text. Which texts `pd.to_datetime` accepts is not modelled; text it accepts is given as a date-time.
- An Equipment Code column holding no text at all, where `.str` raises, is not modelled. A job analysis whose Last Done Date cannot be parsed ends in `BadLastDoneDate`, where the script raises.
- Column selection and reordering, and the columns the analysis only carries along, are not modelled; they are presentational.
- MA_Analysis.py lines 151-154 have no statement in the `with col2:` block and a mis-indented line. Only the data computations are modelled. The commented-out pie chart is not modelled either.
- `today` is a parameter (a day number); the script reads the clock once at start-up. Only the day of a Next Due Date is compared.
- Compare.CompareUploads: requires every row of every upload to have the four duplicate-key columns, because the script raises at line 24 otherwise. An upload's columns are known only through its rows, so an upload without rows is accepted whatever its columns; the script raises a KeyError at line 24 for an empty sheet that lacks them. For the same reason the `Unknown` defaults of lines 53-54 cannot take effect in a full run; `StrippedCodesAndUnknownDefaults` states them for a single row.
- A file stem equal to `Equipment Code`, `Equipment Name` or `Mismatch` would collide with the result's own columns; `ResultRow` keeps the file cells apart, so that collision is not modelled.
- Compare.FillIndicators: the per-code name set is built by set union over each file's matched names, where the script adds names one pair at a time; the resulting set is the same.
- Compare.MatchedPairsAreRowMatches: relates the gathered pairs to the file's rows as a multiset, because the script gathers in dict key order rather than row order.
- MaAnalysis.SeriesTree: the constant `series_tree` dictionary is a lookup function, `.map(series_tree)` applied per key, rather than a `map` value.
