# Sprint status analysis, modelled in Dafny

The repository reads a CSV export of sprint tickets and reports how many tickets are in each
status. `analyze_sprint_data` in the hardened module runs its steps in this order:

1. Checks that the file exists.
2. Checks that its suffix is `.csv` in any case.
3. Checks that its resolved path lies under the working directory.
4. Reads the table.
5. Checks that both `Status` and `Ticket ID` columns are present.
6. Counts the rows. A table with no rows returns an empty result early.
7. Tallies the Status column with `value_counts`.
8. Turns each count into a percentage of the row count.
9. Prints a breakdown sorted by descending count, with a `#` bar per 5 percent.

`main` picks the path from the arguments, or a default path, and maps the outcome to exit code 0 or 1.
A second, minimal module does the same tally and percentage loop with no guard at all.

The model is pure and functional:

- The file system is abstracted into facts about the resolved path (`Validation.PathFacts`).
- Reading the file is abstracted into an outcome (`Analysis.Load`): a parsed table or a read error.
- A parsed table (`Cells.Table`) is its set of column names plus the sequence of Status cells in row order.
- A Status cell is `None` when pandas reads it as NaN: an empty cell, or one holding a default
  missing-value text such as `NA`, `N/A`, `null`, `None`, `NaN` or `#N/A`. A ticket whose Status
  reads `N/A` is therefore dropped from the tally just like one with an empty cell.
- Python dictionaries keep insertion order, so a tally is an ordered sequence of `Tally.Entry`.
- `value_counts` is modelled as a first-seen tally followed by a stable sort by descending count (`Tally.ValueCounts`).
- Percentages are exact `real`s.

Modules, one per file:

| file | module | contents |
|---|---|---|
| wrappers.dfy | `Wrappers` | `Option`, `Result` |
| cells.dfy | `Cells` | the table; the bag of observed statuses; occurrence counts; missing cells |
| tally.dfy | `Tally` | the first-seen tally, the stable descending sort, `ValueCounts` and their lemmas |
| percent.dfy | `Percentages` | `count / total * 100`; its bounds; the sum of the shares |
| report.dfy | `Report` | the printed rows: sort order, percentage lookup, bar length |
| validation.dfy | `Validation` | the four fail-fast guards |
| analysis.dfy | `Analysis` | `analyze_sprint_data` as a whole, with the invariant of its result |
| cli.dfy | `Cli` | `main`: argument choice and exit code |
| minimal.dfy | `Minimal` | the unguarded duplicate, and how it relates to the hardened version |
| sample.dfy | `Sample` | a worked five-ticket sprint |

`len(df)` counts every row but `value_counts()` drops missing Status cells, so the counts add up to
at most the row count, and exactly to it when no Status cell is missing (`Tally.ValueCountsSum`,
`Analysis.DictionaryBounds`).

## Model

| member | source | states |
|---|---|---|
| Validation.CheckPath | src/sprint_analysis/sprint_analysis.py:41-53 | the path guards pass exactly when the file exists, its suffix lowers to `.csv` and it lies under the working directory; each rejection (not found, bad suffix, traversal) holds exactly when the earlier path guards passed and its own failed; a path failure is never a column failure |
| Validation.CsvSuffixSpelled | src/sprint_analysis/sprint_analysis.py:46-47 | a suffix passes exactly when it is four characters, a dot followed by c, s, v each in either case |
| Validation.IsCsvSuffix | src/sprint_analysis/sprint_analysis.py:46 | `suffix.lower() == '.csv'`, specified by `Validation.CsvSuffixSpelled`: a dot followed by c, s, v each in either case |
| Validation.CheckColumns | src/sprint_analysis/sprint_analysis.py:62-66 | the column guard fails exactly when a required column is absent, and then reports the whole non-empty set of absent required columns |
| Validation.Validate | src/sprint_analysis/sprint_analysis.py:39-66 | fail-fast order: each rejection (not found, bad suffix, traversal, missing columns) holds exactly when every earlier guard passed and its own failed; all four passing is the only way to pass |
| Cells.CountIsOccurrences | src/sprint_analysis/sprint_analysis.py:78 | the tally of a status is the number of row indices whose Status cell holds it |
| Cells.PresentIffOccurs | src/sprint_analysis/sprint_analysis.py:78 | a status is among the tallied ones exactly when some row holds it |
| Cells.ObservedPlusMissing | src/sprint_analysis/sprint_analysis.py:69-78 | non-missing cells plus missing cells make up every row |
| Cells.MissingZeroIff | src/sprint_analysis/sprint_analysis.py:69-78 | no cell is missing exactly when every row's Status cell is present |
| Tally.FirstSeenTally | src/sprint_analysis/sprint_analysis.py:78 | the first-seen tally lists each present status once, has exactly the present statuses, gives each its number of occurrences and adds up to the number of non-missing cells |
| Tally.BumpLookup | src/sprint_analysis/sprint_analysis.py:78 | counting one more cell raises that status's count by one and leaves every other count alone |
| Tally.BumpDistinct | src/sprint_analysis/sprint_analysis.py:78 | counting one more cell keeps every status listed once |
| Tally.BumpStatuses | src/sprint_analysis/sprint_analysis.py:78 | counting one more cell adds its status to the listed statuses |
| Tally.BumpSum | src/sprint_analysis/sprint_analysis.py:78 | counting one more cell raises the sum of the counts by one |
| Tally.InsertPermutes | src/sprint_analysis/sprint_analysis.py:117-121 | stable insertion into a descending tally keeps every entry and adds the new one |
| Tally.InsertSorted | src/sprint_analysis/sprint_analysis.py:117-121 | insertion keeps a tally in non-increasing order of count |
| Tally.InsertBounded | src/sprint_analysis/sprint_analysis.py:117-121 | insertion keeps every count under a bound that the entry and the tally respect |
| Tally.InsertStatuses | src/sprint_analysis/sprint_analysis.py:117-121 | insertion adds exactly the new entry's status |
| Tally.InsertSum | src/sprint_analysis/sprint_analysis.py:117-121 | insertion adds exactly the new entry's count to the sum |
| Tally.InsertDistinct | src/sprint_analysis/sprint_analysis.py:117-121 | inserting a new status keeps the statuses distinct |
| Tally.InsertLookup | src/sprint_analysis/sprint_analysis.py:117-121 | after inserting a new status, every status's count is what it was, and the new one has its own count |
| Tally.SortDescPermutes | src/sprint_analysis/sprint_analysis.py:117-121 | the stable sort by descending count is a permutation of its input |
| Tally.SortDesc | src/sprint_analysis/sprint_analysis.py:117-121 | `sorted(..., key=count, reverse=True)`, specified by `Tally.SortDescPermutes`, `Tally.SortDescSorted`, `Tally.SortDescStable` and `Tally.SortDescOfSorted`: a stable non-increasing permutation |
| Tally.SortDescSorted | src/sprint_analysis/sprint_analysis.py:117-121 | the stable sort by descending count lists counts in non-increasing order |
| Tally.SortDescKeepsStatuses | src/sprint_analysis/sprint_analysis.py:117-121 | sorting keeps the set of statuses |
| Tally.SortDescKeepsSum | src/sprint_analysis/sprint_analysis.py:117-121 | sorting keeps the total of the counts |
| Tally.SortDescKeepsCounts | src/sprint_analysis/sprint_analysis.py:117-121 | sorting a repeat-free tally keeps it repeat-free and keeps each status's count |
| Tally.InsertWithCount | src/sprint_analysis/sprint_analysis.py:117-121 | among the entries of any one count, insertion places the new entry first, where prepending would, and keeps the others in order |
| Tally.SortDescStable | src/sprint_analysis/sprint_analysis.py:117-121 | the sort is stable: for every count, the entries with that count come out in the order they went in |
| Tally.SortDescOfSorted | src/sprint_analysis/sprint_analysis.py:117-121 | a stable descending sort leaves an already non-increasing tally unchanged |
| Tally.LookupAt | src/sprint_analysis/sprint_analysis.py:124 | in a repeat-free tally, looking a listed status up yields that entry's count |
| Tally.ValueCountsIsTally | src/sprint_analysis/sprint_analysis.py:78 | the value count lists every present status exactly once with its number of occurrences, and only present statuses, in non-increasing order; its sum plus the missing cells is the row count |
| Tally.ValueCounts | src/sprint_analysis/sprint_analysis.py:78 | `value_counts()`, specified by `Tally.ValueCountsIsTally` and `Tally.ValueCountsSum`: each present status once with its number of occurrences, in non-increasing order, adding up to at most the row count |
| Tally.TallyCountsPositive | src/sprint_analysis/sprint_analysis.py:78 | every count in a tally of the cells is at least one |
| Tally.ValueCountsSum | src/sprint_analysis/sprint_analysis.py:69-78 | the counts add up to at most the row count, and to exactly the row count when every Status cell is present |
| Tally.CountBelowSum | src/sprint_analysis/sprint_analysis.py:78-82 | no single count exceeds the sum of the counts |
| Percentages.Percent | src/sprint_analysis/sprint_analysis.py:80 | a share times the total is its count times 100 |
| Percentages.SharesSpec | src/sprint_analysis/sprint_analysis.py:79-82 | the percentages have the tally's keys, in the same order, each the percentage of its own count |
| Percentages.Shares | src/sprint_analysis/sprint_analysis.py:79-82 | the percentage comprehension, specified by `Percentages.SharesSpec` and `Percentages.SharesBounded`: same keys in the same order, each `count / total * 100`, each in (0, 100] |
| Percentages.PercentAdd | src/sprint_analysis/sprint_analysis.py:80 | percentages of the same total add up like their counts |
| Percentages.SumPercentScaled | src/sprint_analysis/sprint_analysis.py:79-82 | the percentages add up to the percentage of the summed counts |
| Percentages.SumPercentCons | src/sprint_analysis/sprint_analysis.py:79-82 | the sum of the percentages is the first percentage plus the sum of the rest |
| Percentages.ScaledBounds | src/sprint_analysis/sprint_analysis.py:80 | a value scaled like a percentage is positive when its count is, at most 100 when the count is within the total, and exactly 100 only at the total |
| Percentages.PercentBounded | src/sprint_analysis/sprint_analysis.py:80 | a positive count within the total has a percentage in (0, 100] |
| Percentages.ShareBounded | src/sprint_analysis/sprint_analysis.py:79-82 | each percentage of a positive tally within the total lies in (0, 100] |
| Percentages.SumSharesBounded | src/sprint_analysis/sprint_analysis.py:79-82 | the percentages add up to at most 100, and to exactly 100 precisely when the counts add up to the total |
| Percentages.SharesBounded | src/sprint_analysis/sprint_analysis.py:79-82 | every percentage lies in (0, 100]; they add up to at most 100, and to exactly 100 precisely when the counts add up to the total |
| Report.Truncate | src/sprint_analysis/sprint_analysis.py:125 | `int()` on a real: the integer between the value and zero that is less than one away from it |
| Report.BarLength | src/sprint_analysis/sprint_analysis.py:125-126 | the bar has one `#` per full 5 percent: for a percentage in [0, 100] it is between 0 and 20 |
| Report.RowsOfSpec | src/sprint_analysis/sprint_analysis.py:123-126 | one row per sorted entry, in order, each with the percentage recorded for its status and the bar for that percentage |
| Report.RowsOf | src/sprint_analysis/sprint_analysis.py:123-126 | the `for status, count in sorted_statuses` loop, specified by `Report.RowsOfSpec`: one row per sorted entry, in order, with its looked-up percentage and bar |
| Report.RowsSpec | src/sprint_analysis/sprint_analysis.py:117-126 | the printed rows show the stably sorted tally: a non-increasing permutation of the counts with the same statuses, repeat-free when the counts are, each with its own percentage and bar |
| Report.Rows | src/sprint_analysis/sprint_analysis.py:117-127 | the rows `_print_report` prints, specified by `Report.RowsSpec`: the stably sorted tally with each status's percentage and bar |
| Report.PercentOfShares | src/sprint_analysis/sprint_analysis.py:79-82 | looking a status up in the percentages yields the percentage of its count |
| Report.PercentOf | src/sprint_analysis/sprint_analysis.py:124 | `status_percentages[status]`, a lookup its precondition keeps from missing, specified by `Report.PercentOfShares`: the percentage of that status's count |
| Report.PercentOfAligned | src/sprint_analysis/sprint_analysis.py:124 | looking a status up in any share list that follows the tally position by position yields the percentage of its count |
| Report.SharesStatuses | src/sprint_analysis/sprint_analysis.py:79-82 | the percentages have exactly the keys of the counts |
| Report.RowOfShares | src/sprint_analysis/sprint_analysis.py:123-124 | each printed row shows a listed status, its own count, and that count's percentage |
| Analysis.Dictionary | src/sprint_analysis/sprint_analysis.py:69-75 | the returned total is the row count, and with no rows both dictionaries are empty |
| Analysis.Summarize | src/sprint_analysis/sprint_analysis.py:69-85 | the total is the row count, and a report is printed exactly when there is a row |
| Analysis.Analyze | src/sprint_analysis/sprint_analysis.py:39-91 | a path rejection comes before any read error; on a read table the outcome is success exactly when all four guards pass, and otherwise the first failing guard's rejection, even with no rows; success returns the summary of the Status cells |
| Analysis.DictionaryConsistent | src/sprint_analysis/sprint_analysis.py:69-91 | the returned total is the row count, the counts are a non-increasing tally of the Status cells, and the percentages follow the counts key for key as `count / total * 100` |
| Analysis.DictionaryBounds | src/sprint_analysis/sprint_analysis.py:69-82 | the counts add up to at most the total, exactly when no cell is missing; each percentage is in (0, 100]; they add up to at most 100, exactly 100 when there is a row and no cell is missing |
| Analysis.PrintedRows | src/sprint_analysis/sprint_analysis.py:117-127 | the report for a table with rows, specified by `Analysis.SummarizeReport`: each present status once, non-increasing, with its count, percentage and a bar of 0 to 20 |
| Analysis.PrintedOrder | src/sprint_analysis/sprint_analysis.py:117-127 | the report lists the value count's entries in exactly the value count's order, since re-sorting it by count moves nothing |
| Analysis.PrintedRowCount | src/sprint_analysis/sprint_analysis.py:123-127 | a printed row's count is its status's number of occurrences, which is positive |
| Analysis.PrintedRowWithinTotal | src/sprint_analysis/sprint_analysis.py:123-127 | a printed row's count is at most the row count |
| Analysis.PrintedRowPercent | src/sprint_analysis/sprint_analysis.py:124-126 | a printed row shows the percentage of its count and the bar for that percentage |
| Analysis.ReportRowFacts | src/sprint_analysis/sprint_analysis.py:123-127 | a printed row shows its status's count, that count's percentage, and a bar of 0 to 20 characters |
| Analysis.SummarizeReport | src/sprint_analysis/sprint_analysis.py:85-127 | with rows, the report lists each present status exactly once, in non-increasing order of count, with its own count, its percentage and a bar of 0 to 20 characters |
| Cli.ExitCode | src/sprint_analysis/sprint_analysis.py:165-182 | the exit code is 0 exactly on success and 1 exactly on each handled failure |
| Cli.Arguments | src/sprint_analysis/sprint_analysis.py:156-157 | the explicit argument list if one is given, else `sys.argv[1:]`; specified through `Cli.Run` |
| Cli.ChoosePath | src/sprint_analysis/sprint_analysis.py:160-163 | the first argument, else the default path; specified through `Cli.Run` |
| Cli.Run | src/sprint_analysis/sprint_analysis.py:144-182 | the exit code is 0 or 1; it is 0 exactly when the analysis succeeds on the chosen path: the argument list is the explicit one if one is given, else `sys.argv[1:]`, and the path is its first element, else the default path |
| Minimal.Lines | scr/sprint_analysis.py:14-16 | one line per value-count entry, in order, with its status, count and `count / total * 100` |
| Minimal.MinimalAnalyze | scr/sprint_analysis.py:7-9 | only a missing Status column stops the minimal version; otherwise the total is the row count |
| Minimal.MinimalLinesSpec | scr/sprint_analysis.py:8-16 | no rows gives no lines; each present status gets exactly one line, carrying its number of occurrences and `count / total * 100` |
| Minimal.LineForEachStatus | scr/sprint_analysis.py:9-14 | a status has a line exactly when some row holds it |
| Minimal.MinimalAgreesWithHardened | scr/sprint_analysis.py:7-16 | on a table the hardened version accepts, both versions give the same total and the same lines in the same order |
| Minimal.MinimalIgnoresTicketId | scr/sprint_analysis.py:7-9 | every table with a Status column and no `Ticket ID` column is reported by the minimal version and refused by the hardened one, which names exactly the missing `Ticket ID` column |
| Sample.SampleSprint | src/sprint_analysis/sprint_analysis.py:69-91 | five tickets (Done, Done, In Progress, Done, Blocked) give counts 3/1/1, percentages 60/20/20, and a first row Done with a 12-character bar |

## Left out

- Resolving the path against the file system is not modelled. `Path.resolve`, `exists` and `relative_to(Path.cwd())` become the three fields of `Validation.PathFacts`.
- CSV parsing is not modelled. Neither is the UTF-8 to Latin-1 decoding fallback. The parsed table, or the read error, is an input (`Analysis.Load`).
- The read error kinds are not derived from anything. Parser, permission and OS errors are taken as given.
- Exceptions outside `Analysis.AnalysisError` are not modelled: `pandas.errors.EmptyDataError` for a zero-byte file, and a `PermissionError` that `Path.exists()` can raise on older Python versions for a directory that cannot be searched. `main` exits with 1 on them as well.
- The text layout of the report is not modelled. That covers padding and widths, the `=` and `-` rules, and `%5.1f` / `.1f` rounding. Only the row contents (status, count, percentage, bar length) are modelled.
- IEEE floating point is not modelled. Percentages are exact reals, so the sum of the percentages is exactly 100 when no cell is missing, up to the float rounding the source would show.
- `_get_default_csv_path` is not modelled, because it depends on where the script file lives. The default path is a parameter of `Cli.Run`.
- The error messages written to standard error are not modelled. Neither is `sys.exit`. Only the exit code is kept.
- `Tally.ValueCounts`: pandas does not document the order of equal counts. The model fixes first-seen order among ties. Only the non-increasing order is stated as a property.
- `Validation.LowerChar`: Python's `str.lower` is Unicode-aware, but only ASCII letters are lowered here. No character outside ASCII lowers to `.`, `c`, `s` or `v`, so the comparison with `.csv` has the same outcome.
- `Minimal.MinimalAnalyze`: the minimal version's own read errors (missing file, unparsable file) are not modelled. Its table is taken as already read. Only the missing Status column, which raises at the tally, is modelled as a failure.
- The printed header lines are not modelled in either version. Only the total they print is kept.
