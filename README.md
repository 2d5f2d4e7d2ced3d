# Project dashboard data processor — a Dafny model

This project models `DataProcessor`, the class behind the project dashboard.
It turns two loosely formatted spreadsheet tables into lookup structures:

- the **Summary** sheet: per department and month, the counts of completed
  tasks (完成任务数), deliverables (输出物) and reviews (审签数);
- the **TaskStatus** sheet: per department and month, the planned-task
  completion rate (计划任务完成率).

The model covers:

- the choice of sheets from a workbook (`load_excel`);
- the search for the department column and the month columns of the summary
  sheet;
- the projection of each department's first row into
  department → month → metric, and the monthly totals across departments
  (`_process_summary_data`, `_calculate_monthly_stats`);
- the completion-rate extraction (`_process_task_status_data`):
  - the six-column window to the right of a month header, or of the combined
    "1~2月" header, where the rate column is searched;
  - the normalisation of percentage encodings;
  - the per-department means, and the means of several means;
  - the `TypeError` that plain text in a rate cell causes;
- the two queries:
  - the top-N ranking, with padding and the 50% fallback;
  - the raw metrics.

How the model represents the data:

- **Sheets.** A sheet is a `Table`: a sequence of header strings and rows of
  `Value`s (`Missing`, `Num(real)` or `Text(string)`).
- **Cells.** pandas' NaN is `Missing`. A cell outside a row reads as
  `Missing`.
- **Months.** A month is identified by its number `n`. The source's key
  `f"{n}月"` is `Values.MonthName(n)`, and is proved injective
  (`Values.MonthNameInjective`). Keying by `n` is therefore equivalent.
- **Python parsing.** `float(...)`, applied to a stripped percentage, is a
  parameter `parse: string -> Option<real>`.
- **The current year.** `pd.Timestamp.now().year` is a parameter `nowYear`.
- **The workbook.** The workbook `pd.read_excel` returns is a `Workbook`
  value: either `Unreadable` (the call raised) or the ordered list of
  named sheets.

Module layout:

- `Values` holds the cell values, substring search, ASCII decimal digits and
  `strip`.
- `Sheets` holds tables and the sheet choice.
- `Columns` holds the header searches, the department list, the row
  selection, the month regex and the month bindings.
- `Metrics` holds the projection and the monthly totals.
- `Rates` holds the completion-rate extraction.
- `Queries` holds the ranking query.
- `Processor` holds the `DataProcessor` class. Its methods change the
  object's fields. They are proved against the functions of the other
  modules.
- `Scenarios` and `SummaryScenarios` hold worked examples on concrete
  tables.

The code is followed wherever a plain reading of the dashboard's
description would suggest something else:

- A workbook without sheets returns failure and leaves both tables as they
  were (data_processor.py:62). Only an exception clears them.
- A month header with fewer than two columns to its right binds nothing
  (data_processor.py:133). It does not bind a default.
- Text in a summary metric cell is stored as it is, not zeroed
  (data_processor.py:181-184). The totals skip it (data_processor.py:444).
- The rate normaliser tests whether the text contains `%`, not whether it
  ends with `%` (data_processor.py:289).
- Text without `%` is appended raw, so the later `sum` raises `TypeError`.
  `process_data` then returns `False`:
  - the departments, months, projection and totals are already rebuilt;
  - `completion_data` and `year` are left as they were.
- `completion_data` gets every department and all twelve months whenever the
  secondary sheet is processed, even if no rate is found
  (data_processor.py:387). The 50% fallback (data_processor.py:460-462)
  therefore fires only when `completion_data` is empty.
- Rates are not clamped to [0, 100]. A number above 1 is kept as it is, and
  one of at most 1 is read as a fraction: 1 means 100%, 1.5 means 1.5%.
- Loading a workbook touches only the two tables. Departments, months and
  the derived maps are kept until the next `process_data`. Totals of months
  that no longer occur stay in `monthly_stats`.

## Model

| member | source | states |
|---|---|---|
| Values.DigitValue | data_processor.py:125-127 | the value of an ASCII digit is below 10 |
| Values.DigitChar | data_processor.py:128 | the digit character written for d < 10 is a digit whose value is d |
| Values.NatToDecimal | data_processor.py:128 | the decimal spelling of n is a non-empty run of digits, one digit long exactly when n < 10 |
| Values.DecimalRoundTrip | data_processor.py:127-128 | reading back the decimal spelling of n gives n (`int(str(n)) == n`) |
| Values.MonthName | data_processor.py:128 | the month key of n ends in 月 and the digits before it read back as n |
| Values.MonthNameInjective | data_processor.py:128 | two months with the same key are the same month, so numbers can stand for the string keys |
| Values.StripLeadingSpec | data_processor.py:291 | stripping a character from the front removes exactly the leading run of it and leaves a suffix not starting with it |
| Values.StripTrailingSpec | data_processor.py:291 | stripping a character from the back removes exactly the trailing run of it and leaves a prefix not ending with it |
| Values.StripSpec | data_processor.py:291 | `strip('%')` yields a slice of the input with only `%` cut on both sides and no `%` at its ends |
| Sheets.SheetNamed | data_processor.py:39-40 | the sheet picked by name is the table of a sheet carrying that name |
| Sheets.ResolveSucceedsIffSomeSheet | data_processor.py:33-67 | loading succeeds exactly when the workbook was read and has at least one sheet; it reports a read error exactly when reading raised |
| Sheets.NamedSheetsWin | data_processor.py:38-42 | when sheets named Summary and TaskStatus exist they become primary and secondary, wherever they stand |
| Sheets.PositionalFallback | data_processor.py:43-62 | without both names: two or more sheets give the first two by position, one sheet gives it plus an empty secondary, none gives failure |
| Columns.FirstContaining | data_processor.py:104-108 | the index found is the first header containing the marker, and there is none exactly when no header contains it |
| Columns.FindColumn | data_processor.py:104-108 | the loop with `break` over the headers returns that first index |
| Columns.DeptColumnIsFirstMarked | data_processor.py:104-112 | the department column is the first header containing 部门, or column 0 when none does |
| Columns.IndexOf | data_processor.py:132 | the position found holds the value and no earlier position does |
| Columns.UniqueNonMissingMembers | data_processor.py:115 | `dropna().unique()` has no duplicates, no missing value, and holds exactly the non-missing values of the column |
| Columns.UniqueNonMissingOrder | data_processor.py:115 | the departments appear in the order of their first occurrence in the column |
| Columns.UniqueNonMissingSpec | data_processor.py:115 | the department list: distinct, non-missing, exactly the column's values, in first-seen order |
| Columns.CollectDepartments | data_processor.py:115 | the loop that collects departments yields that list |
| Columns.RowsBelowSpec | data_processor.py:159 | the rows selected for a value are ascending, all match, and include every matching row |
| Columns.DepartmentHasRows | data_processor.py:155-162 | every listed department has a row, the first of which is its first occurrence in the column |
| Columns.SelectRows | data_processor.py:159 | the row-selection loop yields the matching rows in order |
| Columns.DigitRun | data_processor.py:125 | the run of digits from a position is maximal |
| Columns.MonthMatchSpec | data_processor.py:125-127 | `re.search(r'(\d+)月')` finds nothing exactly when no position matches; otherwise it gives the number of the leftmost match |
| Columns.MonthHeaderMatches | data_processor.py:125-128 | a header starting with the key of month n matches month n |
| Columns.NoSuffixNoMatch | data_processor.py:125-126 | a header without 月 matches no month |
| Columns.BindPrefixSpec | data_processor.py:123-143 | after any prefix of headers, each binding is the last header of its month with two columns to its right, and every such header's month is bound |
| Columns.BindMonths | data_processor.py:123-143 | the header loop yields the month bindings |
| Columns.MonthBindingIsLastHeader | data_processor.py:123-143 | month n is bound exactly when a header matching n has two columns to its right; it is bound to the last such header |
| Columns.MinOf | data_processor.py:146 | the minimum of a non-empty set of months is in it and below all of it |
| Columns.SortedKeys | data_processor.py:146-147 | `sorted(keys)` is strictly ascending and holds exactly the bound months |
| Metrics.Offset | data_processor.py:17 | each metric has its own position in the order [完成任务数, 输出物, 审签数] |
| Metrics.MetricOrderComplete | data_processor.py:17 | every metric occurs in that order |
| Metrics.Zeroed | data_processor.py:181-184 | a missing cell is stored as 0; any other value, text included, is stored unchanged; the stored value is never missing |
| Metrics.ReadMetrics | data_processor.py:176-188 | the metric loop builds that entry |
| Metrics.ReadDepartment | data_processor.py:165-188 | the month loop of one department gives every bound month read from its first row |
| Metrics.ProcessedShape | data_processor.py:153-156 | the projection has an entry for exactly the departments, holding only bound months |
| Metrics.DeptEntryReads | data_processor.py:165-184 | each metric of a bound month is the zeroed cell of the first row in that metric's column |
| Metrics.ProjectionReadsFirstRow | data_processor.py:153-188 | a department with rows gets all bound months, each metric read from its first matching row |
| Metrics.EveryDepartmentProjected | data_processor.py:115-188 | every discovered department gets every bound month and all metrics, read from its first occurrence in the department column |
| Metrics.MonthStats | data_processor.py:437 | a month's totals hold every metric |
| Metrics.StatsAfterIdempotent | data_processor.py:431-445 | recomputing the totals from the same projection changes nothing |
| Metrics.MonthTotals | data_processor.py:436-445 | the department loop with `+=` yields that month's totals |
| Metrics.AddContribution | data_processor.py:439-445 | one department adds its numeric value to each metric, and nothing for a missing key or a non-numeric value |
| Metrics.MonthlySumAppend | data_processor.py:439-445 | the total over two lists of departments is the sum of their totals |
| Metrics.ContributionIsFirstRowCell | data_processor.py:439-445 | a department's contribution is the numeric part of its first row's cell, or 0 without rows |
| Metrics.TotalsAreColumnSums | data_processor.py:431-445 | `monthly_stats[m][k]` is the sum of the departments' first-row cells in the column of metric k of month m, counting numbers only |
| Metrics.AbsentDepartmentsAddNothing | data_processor.py:440 | a department absent from the projection adds nothing |
| Rates.ScanWindow | data_processor.py:249-263 | the window scan returns the first rate column in the range, and nothing exactly when none is |
| Rates.RateColumn | data_processor.py:324-342 | the rate column is the first in [idx, min(idx+6, len)) whose header names the rate, or an `Unnamed:` header whose first cell names it; none exactly when there is no such column |
| Rates.FindRateColumn | data_processor.py:328-342 | the search loop with `break` finds that column |
| Rates.Collect | data_processor.py:284-299 | a department yields at most one value per row |
| Rates.NormaliseOutcomes | data_processor.py:285-299 | a cell is dropped exactly when it is missing or is `%` text that does not parse; it is kept raw exactly when it is text without `%`; a number always gives a rate |
| Rates.EncodingsAgree | data_processor.py:285-299 | for 1 < x ≤ 100 the fraction x/100, the number x and the text "x%" all give the rate x |
| Rates.NormaliseWithinPercent | data_processor.py:285-299 | a percentage cell (a number in [0, 100] or `%` text parsing into it) gives no value or a rate in [0, 100] |
| Rates.CollectWithinPercent | data_processor.py:284-299 | when every cell of a department is a percentage cell, every collected value is a rate in [0, 100] |
| Rates.PySum | data_processor.py:303 | Python's `sum` of the collected values raises `TypeError` exactly when one of them is raw text |
| Rates.CollectRates | data_processor.py:284-299 | the row loop collects the normalised values |
| Rates.DepartmentMean | data_processor.py:276-308 | the per-department loop yields the mean of its collected values, the error, or nothing |
| Rates.RawIffPlainText | data_processor.py:289-299 | a raw value is collected exactly when some row holds text without `%` |
| Rates.MeanRaisesIffPlainText | data_processor.py:284-303 | a department's mean raises exactly when one of its rows holds text without `%` |
| Rates.SumWithin | data_processor.py:303 | rates within [lo, hi] sum without error to between n·lo and n·hi |
| Rates.MeanWithin | data_processor.py:302-303 | a department's mean of rates within [lo, hi] exists without error and lies in [lo, hi] |
| Rates.AverageWithin | data_processor.py:303 | the mean of a non-empty list of rates within [lo, hi] lies in [lo, hi] |
| Rates.RateWithinPercent | data_processor.py:302-308 | with percentage cells in every located rate column, a month's rate is computed without error and lies in [0, 100] |
| Rates.CompletionShape | data_processor.py:228-234 | after a successful read, `completion_data` has exactly the departments, each with exactly months 1 to 12 |
| Rates.CombinedPeriodShared | data_processor.py:236-308 | January and February always carry the same rate, the combined 1~2月 mean |
| Rates.MonthRateSource | data_processor.py:236-384 | a month's rate is missing without a located column; otherwise it is the department's mean in that column |
| Rates.CompletionFailsIffPlainText | data_processor.py:274-378 | the TaskStatus processing raises exactly when some department has a plain-text cell in some located rate column |
| Rates.CompletionWithinPercent | data_processor.py:228-387 | with percentage cells in every located rate column the processing does not raise, and every stored rate lies in [0, 100] |
| Queries.KnownRatesEmpty | data_processor.py:468-471 | a department has no valid rate exactly when every known month lacks one |
| Queries.KnownRatesBetween | data_processor.py:468-470 | the valid rates keep the bounds of the month rates |
| Queries.SumBetween | data_processor.py:472 | rates within [lo, hi] sum to between n·lo and n·hi |
| Queries.MeanBetween | data_processor.py:472 | their mean lies in [lo, hi] |
| Queries.AverageIsMean | data_processor.py:465-472 | a department has an average exactly when some known month has a rate, and the average lies within the bounds of those rates |
| Queries.AveragesSpec | data_processor.py:465-472 | the averaged departments are exactly those with a rate, each paired with its mean; with distinct departments they occur once each, in department order |
| Queries.InsertDescMultiset | data_processor.py:475 | inserting into the ranking keeps every entry |
| Queries.SortDescMultiset | data_processor.py:475 | the sorted ranking is a permutation of the averages |
| Queries.InsertSorted | data_processor.py:475 | inserting into a descending ranking keeps it descending |
| Queries.SortDescSorted | data_processor.py:475 | the ranking is in descending order of average |
| Queries.InsertFilter | data_processor.py:475 | inserting an entry goes behind every entry with an equal average |
| Queries.SortStable | data_processor.py:475 | the sort is stable: departments with equal averages keep discovery order |
| Queries.InsertNames | data_processor.py:475-476 | inserting adds exactly the new department's name |
| Queries.InsertNamesDistinct | data_processor.py:475-476 | inserting a new department keeps the names distinct |
| Queries.SortNames | data_processor.py:475-476 | sorting keeps the same names, and distinct names stay distinct |
| Queries.RemainingSpec | data_processor.py:480 | the remaining departments are exactly those not selected; with distinct departments they occur once each, in department order |
| Queries.RemainingCount | data_processor.py:480-481 | leaving out k selected departments leaves len(departments) − k |
| Queries.SelectShape | data_processor.py:476-481 | the selection is distinct, has min(n, len(departments)) names from the departments, and begins with the top-ranked ones |
| Queries.SelectPadding | data_processor.py:479-481 | a padded position only occurs when fewer than n departments were ranked, and holds an unranked department |
| Queries.SelectPaddingOrder | data_processor.py:478-481 | with distinct departments the padded names follow department order, and an unranked department earlier in that order than a padded one is itself selected |
| Queries.RankedSpec | data_processor.py:465-476 | the ranking holds exactly the departments with a rate, once each |
| Queries.TopNamesShape | data_processor.py:474-481 | the names returned are distinct departments, min(n, len(departments)) of them |
| Queries.TopNamesDominate | data_processor.py:474-476 | any department with data left out averages no more than each ranked name selected |
| Queries.RankedEntries | data_processor.py:465-475 | the sorted entries are descending, and each carries its department's mean rate |
| Queries.PaddingHasNoData | data_processor.py:478-481 | padding occurs only when fewer than n were ranked, and a padded department has no rate |
| Queries.PaddingInDepartmentOrder | data_processor.py:478-481 | the padding of the query takes the departments without data in department order: the padded names are in that order and none without data before a padded one is passed over |
| Queries.CompletionRatesShape | data_processor.py:460-495 | the query returns the months; the names are distinct departments, min(n, len(departments)) of them; each series has one entry per month; the fallback gives n series and the first departments, every entry 50.0; otherwise entry j of series i is the stored rate of name i for month j, or missing |
| Processor.OptList | data_processor.py:302-308 | a department's mean adds at most one value to a month's list |
| Processor.Appended | data_processor.py:306-308 | appending a mean keeps the months of the lists |
| Processor.StageAdvance | data_processor.py:274-308 | a located column appends the department's mean to each month it serves |
| Processor.LocateRateColumn | data_processor.py:312-342 | the header loops locate the rate column of a month |
| Processor.WithMeans | data_processor.py:347-378 | appending the means keeps the departments |
| Processor.AppendMeans | data_processor.py:347-378 | the department loop raises exactly when some department's mean raises, and otherwise appends every mean |
| Processor.ReadStage | data_processor.py:274-308 | one stage of reading either raises, in which case processing raises, or leaves the lists as the specification of the next stage says |
| Processor.NoRaiseAtAll | data_processor.py:274-378 | when no stage raised, processing does not raise |
| Processor.StageOkAtStart | data_processor.py:265-271 | the initial lists meet the stage invariant |
| Processor.ReadMonthStages | data_processor.py:311-378 | the loop over months 3 to 12 keeps the stage invariant or raises |
| Processor.ReadAllStages | data_processor.py:265-378 | reading all months raises exactly when processing raises, and otherwise yields the lists of the specification |
| Processor.Project | data_processor.py:153-188 | the department loop builds exactly the projection |
| Processor.FinalStage | data_processor.py:380-384 | the final lists give each department's rates: every list is empty or averages to its month's rate |
| Processor.AllMonthTotals | data_processor.py:436-445 | the month loop overwrites each known month with its totals and keeps the others |
| Processor.FinalRow | data_processor.py:381-384 | averaging one department's lists gives its row of rates |
| Processor.FinalRates | data_processor.py:380-387 | averaging every department's lists gives `completion_data` |
| Processor.TaskCompletion | data_processor.py:201-387 | `_process_task_status_data` yields the completion map, or the error |
| Processor.OpenWorkbook | data_processor.py:33-67 | opening the workbook yields the sheet choice |
| Processor.MeanOfKnown | data_processor.py:467-472 | the loop's average over the known months' rates |
| Processor.AfterSummaryIdempotent | data_processor.py:97-199 | rebuilding the primary results from the same summary a second time changes nothing, the totals included |
| Processor.ProcessDataIdempotent | data_processor.py:69-95 | processing a second time gives the state and the result of the first processing |
| Processor.DataProcessor.constructor | data_processor.py:12-21 | a new processor has no tables, no year, and empty lists and maps |
| Processor.DataProcessor.LoadExcel | data_processor.py:23-67 | success exactly when some sheet was chosen, and the two tables are then the chosen ones; no sheets leaves them as they were; a read error clears them; nothing else changes |
| Processor.DataProcessor.ProcessSummary | data_processor.py:97-199 | without a non-empty summary, nothing changes; otherwise the departments, months, projection and totals are those of the summary, and the tables, year and rates are kept |
| Processor.DataProcessor.CalculateMonthlyStats | data_processor.py:431-445 | the totals are recomputed from the projection for the known months, and nothing else changes |
| Processor.DataProcessor.ProcessTaskStatus | data_processor.py:201-387 | with an empty secondary table nothing changes; otherwise the completion map is replaced on success and kept on `TypeError`, and the primary results are untouched |
| Processor.DataProcessor.ProcessData | data_processor.py:69-95 | without a summary it fails and changes nothing; otherwise it rebuilds the primary results, then the rates; it fails, keeping the rates and year, exactly when the rates raise; on success it fills an unset year; the new state and result are `AfterProcessData` of the old state |
| Processor.DataProcessor.ProcessDataTwice | data_processor.py:69-95 | calling `process_data` twice returns the same result both times and leaves the state the first call left |
| Processor.DataProcessor.GetDepartmentMonthlyCompletionRates | data_processor.py:447-495 | returns the months, the series and the names of the top-N query on the current state |
| Processor.DataProcessor.DepartmentMonthlyMetrics | data_processor.py:497-511 | returns the months, the departments and the projection; every projected department is listed and every projected month is known |
| Scenarios.SheetChoiceExamples | data_processor.py:38-62 | named sheets win over position; two, one and zero sheets under other names |
| Scenarios.HeaderMonthsExample | data_processor.py:123-127 | a header row classifies into the months 7, 3 and 12 |
| Scenarios.BindingsExample | data_processor.py:123-143 | in that row 12月 is too close to the end to be bound, and 7 and 3 bind their own headers |
| Scenarios.MonthOrderExample | data_processor.py:146-147 | the months are listed as 3, 7 whatever the header order |
| Scenarios.NormaliseExamples | data_processor.py:285-299 | 0.85 and 1 are scaled, 85 and 150 kept, "85%" parsed, "abc%" dropped, "done" kept raw, missing skipped |
| Scenarios.CombinedPeriodExample | data_processor.py:236-308 | a rate column under 1~2月 serves both January and February, with the mean 85 of 80% and 90% |
| Scenarios.PlainTextRaises | data_processor.py:289-303 | a plain-text rate makes the department's mean raise |
| Scenarios.SingleMonthAverage | data_processor.py:468-472 | over one month the average is that month's rate |
| Scenarios.AveragesExample | data_processor.py:465-472 | the departments with data, paired with their averages |
| Scenarios.SortExample | data_processor.py:475 | a tie at 90 keeps discovery order, ahead of 70 |
| Scenarios.RankedExample | data_processor.py:465-476 | the ranking is B, C, A, without the department lacking data |
| Scenarios.RankingExample | data_processor.py:474-481 | the top 4 are B, C, A padded with D; the top 2 are B, C |
| SummaryScenarios.SummaryHeaderMonths | data_processor.py:123-127 | the headers 部门, 1月完成任务数, 1月输出物, 1月审签数 all match month 1 except the first |
| SummaryScenarios.SummaryBindings | data_processor.py:123-147 | on that sheet month 1 binds column 1, the only header with two columns to its right, and the months list is [1] |
| SummaryScenarios.SummaryDepartments | data_processor.py:104-115 | the department column is 0 and the departments are A, B |
| SummaryScenarios.SummaryProjection | data_processor.py:153-188 | each department's month-1 metrics are the cells of its own row |
| SummaryScenarios.TwoDepartmentsTotal | data_processor.py:436-445 | two departments' values for a metric add up to the month's total |
| SummaryScenarios.SummaryTotals | data_processor.py:431-445 | for a sheet of that shape the month-1 totals are 8, 3 and 1 |
| SummaryScenarios.SummaryExample | data_processor.py:97-199 | for the example sheet the month-1 totals are 8, 3 and 1 |
| SummaryScenarios.MonthlySumExample | data_processor.py:439-445 | values 2, 5 and 0, and an absent department, total 7 |

## Left out

- `pd.read_excel` (data_processor.py:35) is file I/O. The model takes the
  workbook as a parsed value, and any exception as `Unreadable`.
- Every `print`, and the `data_found` block (data_processor.py:389-429),
  only write diagnostics to the console.
- `pd.Timestamp.now()` (data_processor.py:89) reads the clock. It is the
  parameter `nowYear`.
- pandas and numpy scalar typing are not modelled: numpy integers, booleans
  in cells and the `isinstance` checks. A cell is `Missing`, a number or
  text (data_processor.py:182, 295, 444).
- Python's `float()` text parsing (data_processor.py:291, 362) is the
  parameter `parse`.
- Floating-point rounding is not modelled: `real` is exact (averages at
  data_processor.py:303, 374, 384, 472).
- The regex `\d` is modelled for ASCII digits only. Other Unicode decimal
  digits are not.
- Header labels are strings and are distinct. For a non-string label, the
  model covers only the case where it contains none of the markers. The
  label-to-position mapping that pandas gives duplicate labels is also not
  modelled (data_processor.py:132, 248, 324).
- The fallback's `[[50.0] * len(months)] * n` (data_processor.py:462)
  shares one inner list n times. The model returns n equal values, which
  differs only if a caller mutates the list.
- `num_departments` is a `nat`. The negative slicing a negative argument
  would do is not modelled.
- project_dashboard.py is not part of this model. It is the presentation
  layer: it only calls the two queries and draws charts.
- The `hasattr(self, 'completion_data')` test (data_processor.py:460) is
  always true, because the constructor sets the field. Only the emptiness
  test is modelled.
- Nothing in the model builds `dept_avg_rates` as a dictionary
  (data_processor.py:465-472). A re-keyed department would overwrite its
  entry, but the departments are distinct, so the entries are built as a
  list in department order instead.
