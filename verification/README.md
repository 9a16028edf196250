# MBTA salary analysis, modelled in Dafny

`mbta_salary` reads the Massachusetts Bay Transportation Authority's yearly
payroll report and summarises what each job category earns. `parsefilt`
works in four steps:

1. It loads the records: a text report converted from PDF (2013 and 2014
   layouts) or a spreadsheet (2015).
2. It drops the rows without a positive Salary.
3. It classifies every row into overlapping job buckets by substring
   tests. The buckets are police, bus operators (full time and part time),
   maintenance, signals, subway, commuter rail, operations, `rest` and
   `all`.
4. It computes, for each bucket, `doplot`'s maximum, median, 90th
   percentile, subtotal and count. It collects these in a summary table.
   The eight category rows are sorted by descending median, then `rest`
   and `all` are appended.

The model has one module per piece:

- `Text`: the reader's notion of whitespace, stripping, the split on runs
  of two or more whitespace characters, literal substring tests and
  decimal numbers.
- `Loader`: the suffix whitelist, the dispatch on the year, the two text
  layouts, `procxl`'s Salary derivation and the zero filter.
- `Classify`: the bucket predicates and their membership vectors.
- `Aggregate`: `doplot`'s statistics. Percentiles interpolate linearly, as
  pandas does.
- `Sorting`: a sort by a total preorder.
- `Summary`: the summary table. It is a class, filled by label and sorted
  in place by its methods.

`mbtasalary/__init__.py` and `mbtasalary/plots.py` hold the package version
of this pipeline. `salary.py` is an older copy of the same code, and the
same model covers it:

- its suffix check is `salary.py:45-46`;
- its year dispatch is `salary.py:50-59`;
- its zero filter is `salary.py:61`;
- its buckets are `salary.py:67-108`;
- its `doplot` is `salary.py:159-169`.

The one difference is that the older `parsefilt` also returns three
membership vectors (`ParsefiltScript`).

Some facts about the code shape the model:

- **The buckets overlap.** The named buckets are evaluated independently.
  A row can fall in several of them (`Classify.BucketsOverlap`), and it is
  then counted in each. Only `rest` and the union of the named buckets
  split the data.
- **`rest` and `all` come after the sort.** Both are appended after the
  table is sorted, so `all` is the last row whatever its median
  (`Summary.TableTail`).
- **The sort is not stable.** It is pandas' default sort, which does not
  promise stability.
- **Text lines are stripped first.** The reader strips each text line
  before splitting it, so leading blanks do not make an empty first field.
  Field positions count from the first non-blank field.
- **Columns are typed as a whole.** pandas reads a column as numbers only
  when every cell of it is a number or a missing-value marker ("NA",
  "NULL", an empty field, ...); otherwise the whole column stays text.
  A DeptID column with one text cell therefore holds no number, and no row
  equals 741 (`Loader.TextDeptIdColumn`). A Salary column read as text
  makes `> 0` raise. A Salary that is a missing value is dropped by the
  filter.
- **No row left means failure.** `summaryplot` always runs and names the
  highest earner with `idxmax`, which raises on an empty frame. So
  `parsefilt` fails when no row survives the zero filter
  (`Summary.Parsefilt`).

## Model

| member | source | states |
|---|---|---|
| Loader.Load | mbtasalary/__init__.py:14-48 | A suffix outside the whitelist fails with UnsupportedFormat, whatever the year. With an allowed suffix, a year other than 2013, 2014 or 2015 fails with UnsupportedYear. Every row that loads has Salary > 0. |
| Loader.FileName | mbtasalary/__init__.py:12-14 | `Path.name`: the name holds no `/` and is not `.`. It is empty only for a path made of `/` and `.` components alone. Otherwise it is a whole component of the path, and only `/` and `.` components follow it. |
| Loader.TrailingDotComponent | mbtasalary/__init__.py:12-14 | A trailing `/.` does not change the name, so `a.txt/.` keeps the suffix `.txt`. |
| Loader.Suffix | mbtasalary/__init__.py:14 | The suffix is empty, or it starts at the name's last dot, is followed by at least one character, and does not start the name. |
| Loader.SuffixOfExtension | mbtasalary/__init__.py:14-19 | A name made of a stem, a dot and a dot-free extension has that dot and extension as its suffix. So `x.csv`, `x.txt`, `x.xls` and `x.xlsx` pass the whitelist. |
| Loader.DataLines | mbtasalary/__init__.py:29 | Lists, in increasing order, the indices of every non-blank line from the given index on. |
| Loader.SplitLines | mbtasalary/__init__.py:25-44 | Splitting succeeds exactly when every data line has every selected column. It then gives each line's fields, one entry per line, in order. Otherwise the error names the first line that lacks a column. |
| Loader.ValueAt | mbtasalary/__init__.py:25-44 | A cell is a number exactly when it reads as one and its whole column reads as numbers. It is NaN exactly when it is a missing-value marker. Otherwise it is its own text. |
| Loader.TextCellColumn | mbtasalary/__init__.py:25-44 | One cell held as text means no cell of that column is a number. |
| Loader.TextDeptIdColumn | mbtasalary/__init__.py:25-56 | When one DeptID read is text, no DeptID read is a number, so no row can equal 741. |
| Loader.ReadTextOutcome | mbtasalary/__init__.py:25-44 | A report reads exactly when every data line (past the two header lines, not blank) has the selected columns. Otherwise the error names the first data line that does not. |
| Loader.ReadTextRecords | mbtasalary/__init__.py:25-44 | The records read are one per data line, in file order. Record `j` takes its fields from the selected columns of data line `j`, numbers converted column by column. |
| Loader.ReadTextProjSal | mbtasalary/__init__.py:25-44 | Each record read has a ProjSal exactly when the layout has that column. |
| Loader.LoadedTextRows | mbtasalary/__init__.py:21-48 | For 2013 or 2014, a read error is the load's error, and a Salary column read as text fails with NonNumericSalary. Otherwise the loaded rows are exactly `KeepPositive` of the records read, in order. They have a ProjSal exactly when the year is 2014. |
| Loader.Plus | mbtasalary/__init__.py:116 | Adding two cells, where the addition does not raise: the sum is a number exactly when both cells are numbers, and then it exceeds the first by the second. It is NaN exactly when either cell is missing. It is text only when both cells are text, and then it is their concatenation. |
| Loader.Procxl | mbtasalary/__init__.py:111-118 | Fails exactly when some row adds text to a number. Otherwise gives one row per spreadsheet row, with that row's DeptID, Descr and Job Title, and with ProjSal the Annual Rate. Salary is a number exactly when Annual Rate and Overtime both are, and then it exceeds ProjSal by exactly the Overtime. It is NaN exactly when either amount is blank, and text exactly when both are text. |
| Loader.LoadedSheetRows | mbtasalary/__init__.py:23-48 | For 2015, a row that adds text to a number fails the load. A row whose amounts are both text makes the Salary column text, and the filter then fails. Otherwise the load is `KeepPositive` of the `procxl` rows, in sheet order. The rows kept are exactly those whose Annual Rate and Overtime are both numbers with a positive sum, so a row with a blank amount is dropped. |
| Loader.KeepPositive | mbtasalary/__init__.py:48 | Every kept row has Salary > 0. |
| Loader.KeepPositiveMembers | mbtasalary/__init__.py:48 | A row is kept exactly when its record is in the input and its Salary is a positive number. NaN and text salaries are dropped. |
| Loader.KeepPositiveAppend | mbtasalary/__init__.py:48 | The filter commutes with concatenation, so the surviving rows keep their source order. |
| Loader.KeepPositiveOfPositive | mbtasalary/__init__.py:48 | Records that all have a positive Salary are all kept, in order, so the filter is idempotent. |
| Loader.EntryTokens | mbtasalary/__init__.py:28 | A printed report line is not blank and reads back as its columns, whatever the gaps between them. |
| Loader.DataLinesOfNonBlank | mbtasalary/__init__.py:29 | When no line from the given index on is blank, those lines are exactly the data lines. |
| Loader.ReportRoundTrip | mbtasalary/__init__.py:25-44 | A 2013 or 2014 report, printed as two header lines and one line per entry, reads back as the records the entries show, one per line and in order. This holds with any whitespace around each line, gaps of two or more whitespace characters of any width, and decimal amounts with cents. DeptID, Descr, Title, ProjSal and Salary come from positions 2 to 6 in 2014. DeptID, Descr, Title and Salary come from positions 1 to 4 in 2013, with no ProjSal. |
| Loader.ReportLoads | mbtasalary/__init__.py:25-48 | Such a report loads as its entries' records with a positive Salary, in line order. So the row count is the number of entries with a positive Salary. |
| Text.StripEmptyIffBlank | mbtasalary/__init__.py:25-44 | A line strips to nothing exactly when it is all whitespace. These are the blank lines the reader skips. |
| Text.StripPadded | mbtasalary/__init__.py:25-44 | Stripping removes exactly the whitespace around a text that starts and ends with a non-space character. |
| Text.SingleSpacesNeverSplit | mbtasalary/__init__.py:28 | A text with no two whitespace characters in a row is one field, so "Bus Operator" is never split. |
| Text.SplitJoin | mbtasalary/__init__.py:28 | Splitting on `\s{2,}` gives back the well-formed fields that were joined with gaps of two or more whitespace characters, each gap of any width and mix. |
| Text.TokenizeLaidOut | mbtasalary/__init__.py:25-44 | A line of well-formed fields, separated by such gaps and with any whitespace around it, is stripped and split back into exactly those fields. |
| Text.TokenizePadded | mbtasalary/__init__.py:25-44 | Whitespace around a line does not change how it splits. |
| Text.ContainsIffOccurs | mbtasalary/__init__.py:59 | The substring test succeeds exactly when the pattern occurs at some position of the text. |
| Text.ParseNatToString | mbtasalary/__init__.py:25-44 | The decimal text of a whole number reads back as that number. |
| Text.ParseDecimalText | mbtasalary/__init__.py:25-44 | A decimal amount printed as digits, optionally with a point and fraction digits ("55000.25"), reads back as its value. |
| Text.DecimalIsField | mbtasalary/__init__.py:28 | A printed decimal amount is a single field: it holds no whitespace. |
| Classify.Mask | mbtasalary/__init__.py:56-84 | A bucket's membership vector has one entry per row, in row order. An entry is true exactly when the bucket's predicate holds of that row. |
| Classify.UnionMask | mbtasalary/__init__.py:88 | An entry is true exactly when some of the seven named buckets holds of that row. |
| Classify.BusOperatorsSplit | mbtasalary/__init__.py:59-61 | `bus-ft` and `bus-pt` are never both true and together are exactly `busops`. Their counts add up to the number of bus operators. |
| Classify.RestIsComplement | mbtasalary/__init__.py:88 | `rest` holds of a row exactly when none of police, busops, maint, signals, subway, comm and opstrn does. `rest` and the union together count every row once. |
| Classify.AllIsUniversal | mbtasalary/__init__.py:91-92 | `all` counts every row. Every row is in `rest` or in some named bucket. |
| Classify.BucketsOverlap | mbtasalary/__init__.py:66-74 | Some row is in both `signals` and `maint`. The buckets do not partition the data. |
| Aggregate.CountTrue | mbtasalary/plots.py:19 | `ind.sum()` is at most the number of rows. |
| Aggregate.Members | mbtasalary/plots.py:11 | The member salaries are as many as the true entries. A value is among them exactly when it is the salary of a row the vector marks. |
| Aggregate.MembersAppend | mbtasalary/plots.py:11 | Selecting by the vector commutes with concatenation, so the member salaries keep row order. |
| Aggregate.Above | mbtasalary/plots.py:12 | The filter keeps exactly the values strictly above the threshold. |
| Aggregate.MemberAbove | mbtasalary/plots.py:11-12 | An entry is true exactly when the row is a member and earns strictly more than the threshold. |
| Aggregate.SelectionInRowOrder | mbtasalary/plots.py:11-12 | The selection is exactly the salaries of the member rows strictly above the threshold, in row order. |
| Aggregate.AboveAppend | mbtasalary/plots.py:12 | The threshold filter works element by element. It commutes with concatenation. |
| Aggregate.AboveAbove | mbtasalary/plots.py:12 | Filtering at a threshold and then at a higher one is the same as filtering at the higher one. |
| Aggregate.SumAboveAtMost | mbtasalary/plots.py:12-19 | Over non-negative salaries, the sum of the selection never exceeds the sum of the salaries it was taken from. |
| Aggregate.MaxOf | mbtasalary/plots.py:19 | The maximum is undefined exactly on an empty selection. Otherwise it is a selected salary no smaller than any other. |
| Aggregate.QuantileWithinRange | mbtasalary/plots.py:19 | A quantile of a non-empty selection is defined and lies between the selection's minimum and its maximum. |
| Aggregate.QuantileMonotone | mbtasalary/plots.py:19 | A higher quantile is never below a lower one. In particular, median <= 90th. |
| Aggregate.MedianIsHalfQuantile | mbtasalary/plots.py:19 | The median, the middle order statistic or the mean of the two middle ones, equals the linearly interpolated 0.5 quantile. |
| Aggregate.DoplotSpec | mbtasalary/plots.py:11-19 | `num` counts the members, whatever the threshold. `subtot` is the sum of the selection, and 0 when it is empty. max, median and 90th are undefined exactly when the selection is empty; no error is raised. Otherwise max is a selected salary at least every other, and min <= median <= 90th <= max. |
| Aggregate.RaisingFloor | mbtasalary/plots.py:11-19 | Over positive salaries, a higher threshold selects the old selection filtered again. So it never selects more, never raises `subtot` or `max`, and leaves `num` unchanged. |
| Sorting.SortBySorted | mbtasalary/__init__.py:86 | The sort orders its input by the given total preorder. |
| Sorting.SortByPermutes | mbtasalary/__init__.py:86 | The sort only rearranges its input. |
| Summary.LabelsDistinct | mbtasalary/__init__.py:57-92 | No two buckets share a label. So a table keyed by bucket is keyed by label. |
| Summary.CategoryRows | mbtasalary/__init__.py:57-84 | The eight category rows in the order they are put: police, bus-ft, bus-pt, maint, signal, subway, heavy, ops. Each holds its bucket's statistics. |
| Summary.SortRowsSpec | mbtasalary/__init__.py:86 | Sorting by median only rearranges the rows. The medians are non-increasing, and the rows without a median come last. |
| Summary.SummaryTable.constructor | mbtasalary/__init__.py:50 | The table starts empty. |
| Summary.SummaryTable.Put | mbtasalary/__init__.py:57 | Assignment by label. A new label adds its row at the end. A label already present has its row replaced in place, and nothing else changes. Labels stay distinct. |
| Summary.SummaryTable.SortByMedian | mbtasalary/__init__.py:86 | The in-place sort. The new rows are the old ones sorted by descending median, undefined medians last, and are a permutation of the old rows. |
| Summary.SortedCategoryRows | mbtasalary/__init__.py:57-86 | After the sort, each of the eight categories occurs once. `rest` and `all` do not occur yet. |
| Summary.BuildSummary | mbtasalary/__init__.py:50-92 | The assembly through `Put` and `SortByMedian`: put the eight category rows, sort, then append `rest` and `all`. The result is exactly the table `Table` describes. |
| Summary.TableHead | mbtasalary/__init__.py:57-86 | The table has ten rows. The first eight are the eight category rows, each once, by non-increasing median with the undefined medians last. |
| Summary.TableTail | mbtasalary/__init__.py:86-92 | Row nine is `rest` and row ten is `all`, whatever their medians. No label occurs twice. |
| Summary.PartTimeFloorIgnoresLowerThreshold | mbtasalary/__init__.py:63 | `bus-pt` is aggregated above 100 whatever `lowerthres` is. Its statistics do not depend on `lowerthres`, and every selected salary is above 100. |
| Summary.LowerThresholdMonotone | mbtasalary/__init__.py:57-92 | Every other bucket uses `lowerthres`. Over positive salaries, raising it leaves the bucket's count unchanged and never raises its subtotal or its maximum. |
| Summary.SummaryCounts | mbtasalary/__init__.py:88-92 | `all` counts every loaded row. `rest` counts the rows in no named bucket. The two bus rows together count the bus operators. |
| Summary.MaxEarner | mbtasalary/plots.py:32 | `idxmax` is undefined exactly when there is no row. Otherwise it is the first row whose salary is at least every other. |
| Summary.Parsefilt | mbtasalary/__init__.py:10-97 | A load error is returned as the load's error. When no row survives the filter, the call fails. Otherwise the data are exactly the loaded rows, all with Salary > 0, and the new table is the summary of those rows. |
| Summary.ReturnedMasks | salary.py:133 | The three returned vectors are keyed `maint`, `police` and `signals`. Each is aligned with the loaded rows and is true exactly where its bucket holds. |
| Summary.ParsefiltScript | salary.py:41-133 | The older `parsefilt` fails in the same cases and otherwise returns the same table and data, and the three membership vectors of those data. |

## Left out

- Plotting is not modelled: the histograms, axis settings and the bar chart of `summaryplot`. Of the highest-earner sentence only `idxmax` is modelled (`Summary.MaxEarner`), since it decides whether `parsefilt` fails; the printed sentence and its `KeyError` fallback only render. `doplot` takes no axes here, so its result plainly does not depend on whether axes are given.
- The command-line front ends (`main` in `salary.py` and `MBTAsalary.py`) and the pandas print options are not modelled.
- Files are not read. The text reader works on the file's lines. The spreadsheet reader works on rows already narrowed to the columns `procxl` reads. Excel column-letter selection and the skipped footer row are not modelled. The file content is a parameter that says which kind the file holds, and reading a kind the year does not expect fails as `Unreadable`. An empty text file reads here as no records and then fails as `NoRows`. The source's call fails on such a file too, but not necessarily with that error.
- Loader.Procxl: how `read_excel` types each cell is not modelled, for instance which text cells become numbers or NaN. A row holds the cells as pandas holds them after reading.
- Loader.FileName: `Path.expanduser` is not modelled. It changes the name only for a path that is `~` or `~user` alone, which then names the home directory.
- Salaries are exact reals, not IEEE doubles, so rounding is not modelled. pandas' NaN for an undefined statistic is `None`.
- Loader.SplitLines: a data line with too few fields for the layout is a `MalformedRow` error. pandas would instead pad it with missing values, and such a row then fails the Salary > 0 filter.
- Loader.Convert: numbers are plain decimals with an optional sign. Exponent forms and `inf` are read as text, where pandas reads numbers.
- Loader.RecordAt: Descr and Title are kept as text even when they hold a missing-value marker; pandas holds NaN there, and its substring tests then give NaN instead of a truth value.
- Summary.Parsefilt: `rows == Summary(...)` fixes the order among rows with equal medians to that of the model's insertion sort, which keeps input order. pandas' default sort does not promise that order, so on ties the model's table is one of the orders pandas may give. `lowerthres` has no default here.
- Summary.BuildSummary: the same tie order is fixed by `rows == Table(...)`.
- Summary.SummaryTable.Put: rows are keyed by bucket instead of by label string. `Summary.LabelsDistinct` shows the two keyings agree. `Summary.Label` gives the label each row is shown under.
- The download and `pdftotext` steps of `tests/test_load.py` are not modelled. Neither is its row count, which depends on an external PDF; `Loader.ReportLoads` gives the count for a printed report.
